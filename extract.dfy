/** The record extractor: walks a parsed GenBank XML document and produces
    the genome blocks and the peptide blocks. Every lookup that the original
    program unwraps becomes a `Result`, and the first failing lookup, in the
    order the original evaluates them, is the error reported. */
module Extract {
  import opened Results
  import opened XmlTree
  import opened TextOps
  import opened Fasta
  import opened Collect

  const RecordSetTag: string := "GBSet"
  const GenomeTag: string := "GBSeq"
  const AccessionTag: string := "GBSeq_accession-version"
  const OrganismTag: string := "GBSeq_organism"
  const TaxonomyTag: string := "GBSeq_taxonomy"
  const SequenceTag: string := "GBSeq_sequence"
  const FeatureTableTag: string := "GBSeq_feature-table"
  const FeatureTag: string := "GBFeature"
  const FeatureKeyTag: string := "GBFeature_key"
  const QualifiersTag: string := "GBFeature_quals"
  const QualifierTag: string := "GBQualifier"
  const QualifierNameTag: string := "GBQualifier_name"
  const QualifierValueTag: string := "GBQualifier_value"
  const CdsKey: string := "CDS"

  // ---------------------------------------------------------------------
  // Field and qualifier lookup
  // ---------------------------------------------------------------------

  /** The text of the first node, in pre-order from `n` itself, whose tag
      is `tag`. */
  function GetDescendantTagText(n: Node, tag: string): (r: Result<string>)
    ensures forall i :: IsFirstWithTag(Descendants(n), tag, i) ==>
              r == (match Descendants(n)[i].text
                    case Some(t) => Ok(t)
                    case None => Err(MissingText(tag)))
    ensures r.Err? ==> r.error == MissingNode(tag) || r.error == MissingText(tag)
  {
    var ns := Descendants(n);
    match FirstTagIndex(ns, tag)
    case None => Err(MissingNode(tag))
    case Some(i) =>
      match ns[i].text
      case None => Err(MissingText(tag))
      case Some(t) => Ok(t)
  }

  /** The lookup reports a missing node exactly when no node of the
      subtree carries the tag. */
  lemma MissingNodeIffNoTag(n: Node, tag: string)
    ensures GetDescendantTagText(n, tag) == Err(MissingNode(tag)) <==>
              NoneWithTag(Descendants(n), tag)
  {
    assert GetDescendantTagText(n, tag) == Err(MissingNode(tag)) <==>
             FirstTagIndex(Descendants(n), tag).None?;
  }

  /** Only the first matching node counts: a subtree appended after it,
      however many matching nodes it holds, changes nothing. */
  lemma LaterMatchIgnored(n: Node, c: Node, tag: string)
    requires FirstTagIndex(Descendants(n), tag).Some?
    ensures GetDescendantTagText(WithChild(n, c), tag) == GetDescendantTagText(n, tag)
  {
    var i := FirstTagIndex(Descendants(n), tag).value;
    var ns, ms := Descendants(n), Descendants(WithChild(n, c));
    DescendantsWithChild(n, c);
    assert forall k :: 0 < k < |ns| ==> ms[k] == ns[k];
    assert ms[0].tag == ns[0].tag && ms[0].text == ns[0].text;
    assert IsFirstWithTag(ms, tag, i);
  }

  /** The name of a qualifier element. */
  function QualifierName(q: Node): Result<string>
  {
    GetDescendantTagText(q, QualifierNameTag)
  }

  /** The value of a qualifier element. */
  function QualifierValue(q: Node): Result<string>
  {
    GetDescendantTagText(q, QualifierValueTag)
  }

  /** `qs[i]` is the first qualifier named `name`, and every qualifier
      before it has a name. */
  ghost predicate IsFirstQualifier(qs: seq<Node>, name: string, i: int)
  {
    && 0 <= i < |qs|
    && QualifierName(qs[i]) == Ok(name)
    && forall j :: 0 <= j < i ==> QualifierName(qs[j]).Ok? && QualifierName(qs[j]).value != name
  }

  /** The value of the first qualifier, in list order, named `name`. The
      name of every qualifier up to that one is looked up, so one without a
      name aborts the search. */
  function GetQualifierValue(qs: seq<Node>, name: string): (r: Result<string>)
    ensures forall i :: IsFirstQualifier(qs, name, i) ==> r == QualifierValue(qs[i])
    ensures r.Ok? ==> exists i :: IsFirstQualifier(qs, name, i)
    ensures r == Err(MissingQualifier(name)) <==>
              forall k :: 0 <= k < |qs| ==> QualifierName(qs[k]).Ok? && QualifierName(qs[k]).value != name
  {
    if qs == [] then Err(MissingQualifier(name))
    else
      match QualifierName(qs[0])
      case Err(e) => Err(e)
      case Ok(n) =>
        if n == name then
          assert IsFirstQualifier(qs, name, 0);
          QualifierValue(qs[0])
        else
          FirstQualifierShift(qs, name);
          GetQualifierValue(qs[1..], name)
  }

  lemma FirstQualifierShift(qs: seq<Node>, name: string)
    requires qs != [] && QualifierName(qs[0]).Ok? && QualifierName(qs[0]).value != name
    ensures forall i :: IsFirstQualifier(qs[1..], name, i) ==> IsFirstQualifier(qs, name, i + 1)
  {
    forall i | IsFirstQualifier(qs[1..], name, i)
      ensures IsFirstQualifier(qs, name, i + 1)
    {
      FirstQualifierShiftAt(qs, name, i);
    }
  }

  lemma FirstQualifierShiftAt(qs: seq<Node>, name: string, i: int)
    requires qs != [] && QualifierName(qs[0]).Ok? && QualifierName(qs[0]).value != name
    requires IsFirstQualifier(qs[1..], name, i)
    ensures IsFirstQualifier(qs, name, i + 1)
  {
    assert qs[i + 1] == qs[1..][i];
    forall j | 0 <= j < i + 1
      ensures QualifierName(qs[j]).Ok? && QualifierName(qs[j]).value != name
    {
      if j > 0 {
        assert qs[j] == qs[1..][j - 1];
      }
    }
  }

  /** Duplicates after the first match are never consulted. */
  lemma LaterQualifierIgnored(qs: seq<Node>, more: seq<Node>, name: string, i: int)
    requires IsFirstQualifier(qs, name, i)
    ensures GetQualifierValue(qs + more, name) == GetQualifierValue(qs, name)
  {
    assert forall k :: 0 <= k < |qs| ==> (qs + more)[k] == qs[k];
    assert IsFirstQualifier(qs + more, name, i);
  }

  /** A `GBFeature` whose first `GBFeature_key` text is exactly `CDS`. For
      any other element the key is not looked up. */
  function IsCdsFeature(n: Node): (r: Result<bool>)
    ensures n.tag != FeatureTag ==> r == Ok(false)
    ensures r == Ok(true) <==> n.tag == FeatureTag && GetDescendantTagText(n, FeatureKeyTag) == Ok(CdsKey)
    ensures r.Err? <==> n.tag == FeatureTag && GetDescendantTagText(n, FeatureKeyTag).Err?
    ensures r.Err? ==> GetDescendantTagText(n, FeatureKeyTag) == Err(r.error)
  {
    if n.tag != FeatureTag then Ok(false)
    else
      match GetDescendantTagText(n, FeatureKeyTag)
      case Err(e) => Err(e)
      case Ok(key) => Ok(key == CdsKey)
  }

  /** The key comparison is exact: `CDS_region` is not a coding sequence. */
  lemma CdsKeyIsExact(key: string)
    ensures IsCdsFeature(Node(FeatureTag, None, [Node(FeatureKeyTag, Some(key), [])]))
         == Ok(key == CdsKey)
  {
    var key := Node(FeatureKeyTag, Some(key), []);
    var feature := Node(FeatureTag, None, [key]);
    assert DescendantsOfAll([key]) == [key] + DescendantsOfAll([]);
    assert Descendants(feature) == [feature, key];
    assert IsFirstWithTag(Descendants(feature), FeatureKeyTag, 1);
  }

  // ---------------------------------------------------------------------
  // Genomes
  // ---------------------------------------------------------------------

  /** The `GBSeq` elements of a record set, in document order. */
  function GenomeRecords(recordSet: Node): seq<Node>
  {
    FilterTag(Descendants(recordSet), GenomeTag)
  }

  /** The genome block of one `GBSeq`: accession, sanitised organism,
      sanitised lineage, then the upper-cased sequence. */
  function GenomeBlock(g: Node): (r: Result<string>)
    ensures r.Ok? <==>
              && GetDescendantTagText(g, AccessionTag).Ok?
              && GetDescendantTagText(g, OrganismTag).Ok?
              && GetDescendantTagText(g, TaxonomyTag).Ok?
              && GetDescendantTagText(g, SequenceTag).Ok?
  {
    match GetDescendantTagText(g, AccessionTag)
    case Err(e) => Err(e)
    case Ok(acc) =>
      match GetDescendantTagText(g, OrganismTag)
      case Err(e) => Err(e)
      case Ok(organism) =>
        match GetDescendantTagText(g, TaxonomyTag)
        case Err(e) => Err(e)
        case Ok(taxonomy) =>
          match GetDescendantTagText(g, SequenceTag)
          case Err(e) => Err(e)
          case Ok(sequence) =>
            Ok(FormatRecord(acc, Sanitize(organism), Sanitize(Lineage(taxonomy)), UpperAscii(sequence)))
  }

  /** A genome block whose accession holds no space and no line break reads
      back as its accession, the sanitised organism and lineage (word
      characters only) and the upper-cased sequence. */
  lemma GenomeBlockFields(g: Node)
    requires GenomeBlock(g).Ok?
    requires PlainField(GetDescendantTagText(g, AccessionTag).value)
    ensures var organism := Sanitize(GetDescendantTagText(g, OrganismTag).value);
            var lineage := Sanitize(Lineage(GetDescendantTagText(g, TaxonomyTag).value));
            && AllWord(organism) && AllWord(lineage)
            && DecodeRecord(GenomeBlock(g).value)
               == Some((GetDescendantTagText(g, AccessionTag).value, organism, lineage,
                        UpperAscii(GetDescendantTagText(g, SequenceTag).value)))
  {
    var organism := Sanitize(GetDescendantTagText(g, OrganismTag).value);
    var lineage := Sanitize(Lineage(GetDescendantTagText(g, TaxonomyTag).value));
    SanitizeAllWord(GetDescendantTagText(g, OrganismTag).value);
    SanitizeAllWord(Lineage(GetDescendantTagText(g, TaxonomyTag).value));
    WordFieldIsPlain(organism);
    WordFieldIsPlain(lineage);
    DecodeFormat(GetDescendantTagText(g, AccessionTag).value, organism, lineage,
                 UpperAscii(GetDescendantTagText(g, SequenceTag).value));
  }

  /** The genome blocks of the first `GBSet` of the document. */
  function ParseGenomes(doc: Document): (r: Result<seq<string>>)
    ensures NoneWithTag(DocumentNodes(doc), RecordSetTag) ==> r == Err(MissingNode(RecordSetTag))
    ensures forall i :: IsFirstWithTag(DocumentNodes(doc), RecordSetTag, i)
              ==> r == CollectAll(GenomeBlock, GenomeRecords(DocumentNodes(doc)[i]))
  {
    var ns := DocumentNodes(doc);
    match FirstTagIndex(ns, RecordSetTag)
    case None => Err(MissingNode(RecordSetTag))
    case Some(i) => CollectAll(GenomeBlock, GenomeRecords(ns[i]))
  }

  /** The genome list has one block per `GBSeq` of the first record set,
      in document order, and each block is that genome's. */
  lemma GenomesInOrder(doc: Document, i: int)
    requires IsFirstWithTag(DocumentNodes(doc), RecordSetTag, i)
    requires ParseGenomes(doc).Ok?
    ensures var gs := GenomeRecords(DocumentNodes(doc)[i]);
            && |ParseGenomes(doc).value| == |gs|
            && forall k :: 0 <= k < |gs| ==> GenomeBlock(gs[k]) == Ok(ParseGenomes(doc).value[k])
  {
  }

  /** A second record set is never read: adding one after the first
      leaves the genome list (or the error) as it was. */
  lemma LaterRecordSetIgnored(doc: Document, extra: Node)
    requires doc.root.tag != RecordSetTag
    requires FirstTagIndex(DocumentNodes(doc), RecordSetTag).Some?
    ensures ParseGenomes(Document(WithChild(doc.root, extra))) == ParseGenomes(doc)
  {
    var i := FirstTagIndex(DocumentNodes(doc), RecordSetTag).value;
    var ns, ms := DocumentNodes(doc), DocumentNodes(Document(WithChild(doc.root, extra)));
    DescendantsWithChild(doc.root, extra);
    assert forall k :: 0 < k < |ns| ==> ms[k] == ns[k];
    assert IsFirstWithTag(ms, RecordSetTag, i);
  }

  // ---------------------------------------------------------------------
  // Peptides
  // ---------------------------------------------------------------------

  /** The `GBQualifier` elements, in document order, below a feature's
      first `GBFeature_quals`. */
  function Qualifiers(feature: Node): (r: Result<seq<Node>>)
    ensures forall i :: IsFirstWithTag(Descendants(feature), QualifiersTag, i) ==>
              r == Ok(FilterTag(Descendants(Descendants(feature)[i]), QualifierTag))
    ensures r.Err? <==> NoneWithTag(Descendants(feature), QualifiersTag)
    ensures r.Err? ==> r.error == MissingNode(QualifiersTag)
  {
    var ns := Descendants(feature);
    match FirstTagIndex(ns, QualifiersTag)
    case None => Err(MissingNode(QualifiersTag))
    case Some(i) => Ok(FilterTag(Descendants(ns[i]), QualifierTag))
  }

  /** The peptide block of one coding-sequence feature of the genome with
      accession `genomeAcc`. */
  function PeptideBlock(feature: Node, genomeAcc: string): (r: Result<string>)
    ensures r.Ok? <==>
              && Qualifiers(feature).Ok?
              && GetQualifierValue(Qualifiers(feature).value, "product").Ok?
              && GetQualifierValue(Qualifiers(feature).value, "protein_id").Ok?
              && GetQualifierValue(Qualifiers(feature).value, "translation").Ok?
  {
    match Qualifiers(feature)
    case Err(e) => Err(e)
    case Ok(qualifiers) =>
      match GetQualifierValue(qualifiers, "product")
      case Err(e) => Err(e)
      case Ok(product) =>
        match GetQualifierValue(qualifiers, "protein_id")
        case Err(e) => Err(e)
        case Ok(acc) =>
          match GetQualifierValue(qualifiers, "translation")
          case Err(e) => Err(e)
          case Ok(translation) =>
            Ok(FormatRecord(acc, genomeAcc, Sanitize(product), UpperAscii(translation)))
  }

  /** `PeptideBlock` for the genome with accession `genomeAcc`. */
  function PeptideBlockOf(genomeAcc: string): Node -> Result<string>
  {
    feature => PeptideBlock(feature, genomeAcc)
  }

  /** A peptide block whose two accessions hold no space and no line break
      reads back as protein accession, genome accession, sanitised product
      and upper-cased translation. */
  lemma PeptideBlockFields(feature: Node, genomeAcc: string)
    requires PeptideBlock(feature, genomeAcc).Ok?
    requires PlainField(genomeAcc)
    requires PlainField(GetQualifierValue(Qualifiers(feature).value, "protein_id").value)
    ensures var qs := Qualifiers(feature).value;
            var product := Sanitize(GetQualifierValue(qs, "product").value);
            && AllWord(product)
            && DecodeRecord(PeptideBlock(feature, genomeAcc).value)
               == Some((GetQualifierValue(qs, "protein_id").value, genomeAcc, product,
                        UpperAscii(GetQualifierValue(qs, "translation").value)))
  {
    var qs := Qualifiers(feature).value;
    var product := Sanitize(GetQualifierValue(qs, "product").value);
    SanitizeAllWord(GetQualifierValue(qs, "product").value);
    WordFieldIsPlain(product);
    DecodeFormat(GetQualifierValue(qs, "protein_id").value, genomeAcc, product,
                 UpperAscii(GetQualifierValue(qs, "translation").value));
  }

  /** The first feature table of a genome. */
  function FeatureTable(g: Node): (r: Result<Node>)
    ensures forall i :: IsFirstWithTag(Descendants(g), FeatureTableTag, i) ==> r == Ok(Descendants(g)[i])
    ensures r.Err? <==> NoneWithTag(Descendants(g), FeatureTableTag)
    ensures r.Err? ==> r.error == MissingNode(FeatureTableTag)
  {
    var ns := Descendants(g);
    match FirstTagIndex(ns, FeatureTableTag)
    case None => Err(MissingNode(FeatureTableTag))
    case Some(i) => Ok(ns[i])
  }

  /** The CDS features of a feature table, in document order. */
  function CdsFeatures(table: Node): seq<Node>
  {
    Selected(IsCdsFeature, Descendants(table))
  }

  /** The peptide blocks of one genome: one per CDS feature of its first
      feature table, in feature order. */
  function PeptidesOfGenome(g: Node): (r: Result<seq<string>>)
    ensures NoneWithTag(Descendants(g), AccessionTag) ==> r == Err(MissingNode(AccessionTag))
    ensures forall i :: IsFirstWithTag(Descendants(g), AccessionTag, i) && Descendants(g)[i].text.None?
              ==> r == Err(MissingText(AccessionTag))
    ensures (GetDescendantTagText(g, AccessionTag).Ok? && NoneWithTag(Descendants(g), FeatureTableTag))
              ==> r == Err(MissingNode(FeatureTableTag))
    ensures r.Ok? ==> GetDescendantTagText(g, AccessionTag).Ok? && FeatureTable(g).Ok?
  {
    match GetDescendantTagText(g, AccessionTag)
    case Err(e) => Err(e)
    case Ok(genomeAcc) =>
      match FeatureTable(g)
      case Err(e) => Err(e)
      case Ok(table) => CollectSelected(IsCdsFeature, PeptideBlockOf(genomeAcc), Descendants(table))
  }

  /** A genome's peptide list has one block per CDS feature, each being
      that feature's block; in particular a genome without CDS features
      contributes none. */
  lemma PeptidesPerFeature(g: Node)
    requires PeptidesOfGenome(g).Ok?
    ensures var acc := GetDescendantTagText(g, AccessionTag).value;
            var cds := CdsFeatures(FeatureTable(g).value);
            && |PeptidesOfGenome(g).value| == |cds|
            && forall k :: 0 <= k < |cds| ==> PeptideBlock(cds[k], acc) == Ok(PeptidesOfGenome(g).value[k])
  {
    var acc := GetDescendantTagText(g, AccessionTag).value;
    var cds := CdsFeatures(FeatureTable(g).value);
    var ps := PeptidesOfGenome(g).value;
    forall k | 0 <= k < |cds|
      ensures PeptideBlock(cds[k], acc) == Ok(ps[k])
    {
      assert PeptideBlockOf(acc)(cds[k]) == Ok(ps[k]);
    }
  }

  /** The peptide blocks of the document: those of every `GBSeq` of the
      first record set, genome after genome. */
  function PeptidesOf(doc: Document): (r: Result<seq<string>>)
    ensures NoneWithTag(DocumentNodes(doc), RecordSetTag) ==> r == Err(MissingNode(RecordSetTag))
    ensures forall i :: IsFirstWithTag(DocumentNodes(doc), RecordSetTag, i)
              ==> r == CollectConcat(PeptidesOfGenome, GenomeRecords(DocumentNodes(doc)[i]))
  {
    var ns := DocumentNodes(doc);
    match FirstTagIndex(ns, RecordSetTag)
    case None => Err(MissingNode(RecordSetTag))
    case Some(i) => CollectConcat(PeptidesOfGenome, GenomeRecords(ns[i]))
  }

  /** How `PeptidesOfGenome` fails, or which loop it runs. */
  lemma PeptidesOfGenomeCases(g: Node)
    ensures GetDescendantTagText(g, AccessionTag).Err? ==>
              PeptidesOfGenome(g) == Err(GetDescendantTagText(g, AccessionTag).error)
    ensures GetDescendantTagText(g, AccessionTag).Ok? && FeatureTable(g).Err? ==>
              PeptidesOfGenome(g) == Err(FeatureTable(g).error)
    ensures GetDescendantTagText(g, AccessionTag).Ok? && FeatureTable(g).Ok? ==>
              PeptidesOfGenome(g) == CollectSelected(IsCdsFeature, PeptideBlockOf(GetDescendantTagText(g, AccessionTag).value),
                                                     Descendants(FeatureTable(g).value))
  {
  }

  /** The body of `parse_peptides`' outer loop for one genome: walks the
      feature table's descendants and pushes one block per CDS feature onto
      `peptides`, failing at the first lookup that fails. */
  method PushGenomePeptides(peptides: seq<string>, gbseq: Node) returns (r: Result<seq<string>>)
    ensures r == Prepend(peptides, PeptidesOfGenome(gbseq))
  {
    PeptidesOfGenomeCases(gbseq);
    var genomeAcc := GetDescendantTagText(gbseq, AccessionTag);
    if genomeAcc.Err? {
      return Err(genomeAcc.error);
    }
    var table := FeatureTable(gbseq);
    if table.Err? {
      return Err(table.error);
    }
    var candidates := Descendants(table.value);
    ghost var blockOf := PeptideBlockOf(genomeAcc.value);
    var pushed := peptides;
    var j := 0;
    assert candidates[0..] == candidates;
    while j < |candidates|
      invariant 0 <= j <= |candidates|
      invariant Prepend(peptides, PeptidesOfGenome(gbseq))
             == Prepend(pushed, CollectSelected(IsCdsFeature, blockOf, candidates[j..]))
    {
      var feature := candidates[j];
      SelectedStep(IsCdsFeature, blockOf, candidates, j);
      var isCds := IsCdsFeature(feature);
      if isCds.Err? {
        return Err(isCds.error);
      }
      if isCds.value {
        var block := PeptideBlock(feature, genomeAcc.value);
        assert blockOf(feature) == block;
        if block.Err? {
          return Err(block.error);
        }
        PrependTwice(pushed, [block.value], CollectSelected(IsCdsFeature, blockOf, candidates[j + 1..]));
        pushed := pushed + [block.value];
      }
      j := j + 1;
    }
    assert candidates[j..] == [];
    assert pushed + [] == pushed;
    return Ok(pushed);
  }

  /** `parse_peptides`: the loop over the genomes of the first record set,
      each extending the same list of peptide blocks. */
  method ParsePeptides(doc: Document) returns (r: Result<seq<string>>)
    ensures r == PeptidesOf(doc)
  {
    var nodes := DocumentNodes(doc);
    var setIndex := FirstTagIndex(nodes, RecordSetTag);
    if setIndex.None? {
      return Err(MissingNode(RecordSetTag));
    }
    var gbseqs := GenomeRecords(nodes[setIndex.value]);
    var peptides: seq<string> := [];
    var i := 0;
    assert gbseqs[0..] == gbseqs;
    while i < |gbseqs|
      invariant 0 <= i <= |gbseqs|
      invariant PeptidesOf(doc) == Prepend(peptides, CollectConcat(PeptidesOfGenome, gbseqs[i..]))
    {
      ConcatStep(PeptidesOfGenome, gbseqs, i);
      ChainPrepend(peptides, PeptidesOfGenome(gbseqs[i]), CollectConcat(PeptidesOfGenome, gbseqs[i + 1..]));
      var extended := PushGenomePeptides(peptides, gbseqs[i]);
      if extended.Err? {
        return Err(extended.error);
      }
      peptides := extended.value;
      i := i + 1;
    }
    assert gbseqs[i..] == [];
    assert peptides + [] == peptides;
    return Ok(peptides);
  }

  /** The per-genome peptide lists, in genome order (a genome whose lookups
      fail contributes no list of its own here). */
  function PeptideRuns(gs: seq<Node>): (runs: seq<seq<string>>)
    ensures |runs| == |gs|
    ensures forall k :: 0 <= k < |gs| && PeptidesOfGenome(gs[k]).Ok? ==> runs[k] == PeptidesOfGenome(gs[k]).value
  {
    if gs == [] then []
    else
      var run := match PeptidesOfGenome(gs[0]) case Ok(v) => v case Err(_) => [];
      [run] + PeptideRuns(gs[1..])
  }

  /** Whenever both lists are produced, there is one genome block per
      `GBSeq` of the first record set, in document order, and the peptide
      list is the peptides of the first genome, then those of the second,
      and so on. */
  lemma DocumentOutputs(doc: Document, i: int)
    requires IsFirstWithTag(DocumentNodes(doc), RecordSetTag, i)
    requires ParseGenomes(doc).Ok? && PeptidesOf(doc).Ok?
    ensures var gs := GenomeRecords(DocumentNodes(doc)[i]);
            && |ParseGenomes(doc).value| == |gs|
            && (forall k :: 0 <= k < |gs| ==> GenomeBlock(gs[k]) == Ok(ParseGenomes(doc).value[k]))
            && PeptidesOf(doc).value == Flatten(PeptideRuns(gs))
  {
    var gs := GenomeRecords(DocumentNodes(doc)[i]);
    assert PeptidesOf(doc) == CollectConcat(PeptidesOfGenome, gs);
    CollectConcatFlatten(PeptidesOfGenome, gs, PeptideRuns(gs));
  }

  /** What `parse_xml` returns for the outcome of parsing the input text
      (`None` when the text is not well-formed XML): the genome list is
      computed, and can fail, before the peptide list. */
  function Extraction(parsed: Option<Document>): (r: Result<(seq<string>, seq<string>)>)
    ensures parsed.None? ==> r == Err(MalformedXml)
    ensures parsed.Some? && ParseGenomes(parsed.value).Err? ==> r == Err(ParseGenomes(parsed.value).error)
    ensures parsed.Some? && ParseGenomes(parsed.value).Ok? && PeptidesOf(parsed.value).Err? ==>
              r == Err(PeptidesOf(parsed.value).error)
    ensures r.Ok? <==> parsed.Some? && ParseGenomes(parsed.value).Ok? && PeptidesOf(parsed.value).Ok?
    ensures r.Ok? ==> r.value == (ParseGenomes(parsed.value).value, PeptidesOf(parsed.value).value)
  {
    match parsed
    case None => Err(MalformedXml)
    case Some(doc) =>
      match ParseGenomes(doc)
      case Err(e) => Err(e)
      case Ok(genomes) =>
        match PeptidesOf(doc)
        case Err(e) => Err(e)
        case Ok(peptides) => Ok((genomes, peptides))
  }

  /** `parse_xml`. */
  method ParseXml(parsed: Option<Document>) returns (r: Result<(seq<string>, seq<string>)>)
    ensures r == Extraction(parsed)
  {
    if parsed.None? {
      return Err(MalformedXml);
    }
    var genomes := ParseGenomes(parsed.value);
    if genomes.Err? {
      return Err(genomes.error);
    }
    var peptides := ParsePeptides(parsed.value);
    if peptides.Err? {
      return Err(peptides.error);
    }
    return Ok((genomes.value, peptides.value));
  }

  /** `run` with its file system left out: the text written to the genome
      file and to the peptide file, each holding its blocks one per line
      group and ending in a line break. */
  method Run(parsed: Option<Document>) returns (r: Result<(string, string)>)
    ensures r.Ok? <==> Extraction(parsed).Ok?
    ensures r.Err? ==> r.error == Extraction(parsed).error
    ensures r.Ok? ==> r.value == (FileContent(Extraction(parsed).value.0), FileContent(Extraction(parsed).value.1))
  {
    var lists := ParseXml(parsed);
    if lists.Err? {
      return Err(lists.error);
    }
    var (genomes, peptides) := lists.value;
    return Ok((FileContent(genomes), FileContent(peptides)));
  }
}
