/** A document with one record set, one genome and one CDS feature, built
    from its field values, and what the extractor makes of it: one genome
    block and one peptide block. The literal record at the end is that
    document for concrete values. */
module Scenario {
  import opened Results
  import opened XmlTree
  import opened TextOps
  import opened Fasta
  import opened Collect
  import opened Extract

  /** The four text fields of a genome record. */
  datatype GenomeFields = GenomeFields(accession: string, organism: string, taxonomy: string, sequence: string)

  /** The three qualifiers of a CDS feature that the extractor reads. */
  datatype CdsFields = CdsFields(product: string, proteinId: string, translation: string)

  /** An element whose only content is its text. */
  function Leaf(tag: string, text: string): Node
  {
    Node(tag, Some(text), [])
  }

  /** An element with element children and no leading text. */
  function Element(tag: string, children: seq<Node>): Node
  {
    Node(tag, None, children)
  }

  function QualifierNode(name: string, value: string): Node
  {
    Element(QualifierTag, [Leaf(QualifierNameTag, name), Leaf(QualifierValueTag, value)])
  }

  function QualifierNodes(c: CdsFields): seq<Node>
  {
    [QualifierNode("product", c.product), QualifierNode("protein_id", c.proteinId),
     QualifierNode("translation", c.translation)]
  }

  function QualifiersNode(c: CdsFields): Node
  {
    Element(QualifiersTag, QualifierNodes(c))
  }

  function CdsNode(c: CdsFields): Node
  {
    Element(FeatureTag, [Leaf(FeatureKeyTag, CdsKey), QualifiersNode(c)])
  }

  function TableNode(c: CdsFields): Node
  {
    Element(FeatureTableTag, [CdsNode(c)])
  }

  function FieldLeaves(g: GenomeFields): seq<Node>
  {
    [Leaf(AccessionTag, g.accession), Leaf(OrganismTag, g.organism),
     Leaf(TaxonomyTag, g.taxonomy), Leaf(SequenceTag, g.sequence)]
  }

  function GenomeNode(g: GenomeFields, c: CdsFields): Node
  {
    Element(GenomeTag, FieldLeaves(g) + [TableNode(c)])
  }

  function SingleCdsDocument(g: GenomeFields, c: CdsFields): Document
  {
    Document(Element(RecordSetTag, [GenomeNode(g, c)]))
  }

  // ---------------------------------------------------------------------
  // The pre-order walks of the pieces
  // ---------------------------------------------------------------------

  lemma DescendantsOfOne(n: Node)
    ensures DescendantsOfAll([n]) == Descendants(n)
  {
    assert [n][1..] == [];
  }

  lemma {:induction false} DescendantsOfLeaves(ns: seq<Node>)
    requires forall k :: 0 <= k < |ns| ==> ns[k].children == []
    ensures DescendantsOfAll(ns) == ns
    decreases |ns|
  {
    if ns != [] {
      DescendantsOfLeaves(ns[1..]);
      assert ns[0].children == [];
      assert Descendants(ns[0]) == [ns[0]];
      assert DescendantsOfAll(ns) == [ns[0]] + ns[1..];
    }
  }

  lemma DescendantsOfQualifier(name: string, value: string)
    ensures Descendants(QualifierNode(name, value))
         == [QualifierNode(name, value), Leaf(QualifierNameTag, name), Leaf(QualifierValueTag, value)]
  {
    DescendantsOfLeaves([Leaf(QualifierNameTag, name), Leaf(QualifierValueTag, value)]);
  }

  lemma DescendantsOfQualifiers(c: CdsFields)
    ensures Descendants(QualifiersNode(c))
         == [QualifiersNode(c)]
            + Descendants(QualifierNodes(c)[0]) + Descendants(QualifierNodes(c)[1])
            + Descendants(QualifierNodes(c)[2])
  {
    var qs := QualifierNodes(c);
    assert qs == [qs[0]] + [qs[1]] + [qs[2]];
    DescendantsOfAllAppend([qs[0]] + [qs[1]], [qs[2]]);
    DescendantsOfAllAppend([qs[0]], [qs[1]]);
    DescendantsOfOne(qs[0]);
    DescendantsOfOne(qs[1]);
    DescendantsOfOne(qs[2]);
  }

  lemma DescendantsOfCds(c: CdsFields)
    ensures Descendants(CdsNode(c)) == [CdsNode(c), Leaf(FeatureKeyTag, CdsKey)] + Descendants(QualifiersNode(c))
  {
    var key := Leaf(FeatureKeyTag, CdsKey);
    assert [key, QualifiersNode(c)] == [key] + [QualifiersNode(c)];
    DescendantsOfAllAppend([key], [QualifiersNode(c)]);
    DescendantsOfLeaves([key]);
    DescendantsOfOne(QualifiersNode(c));
  }

  lemma DescendantsOfTable(c: CdsFields)
    ensures Descendants(TableNode(c)) == [TableNode(c)] + Descendants(CdsNode(c))
  {
    DescendantsOfOne(CdsNode(c));
  }

  lemma DescendantsOfGenome(g: GenomeFields, c: CdsFields)
    ensures Descendants(GenomeNode(g, c)) == [GenomeNode(g, c)] + FieldLeaves(g) + Descendants(TableNode(c))
  {
    DescendantsOfAllAppend(FieldLeaves(g), [TableNode(c)]);
    DescendantsOfLeaves(FieldLeaves(g));
    DescendantsOfOne(TableNode(c));
  }

  lemma DocumentNodesOfSingleCds(g: GenomeFields, c: CdsFields)
    ensures DocumentNodes(SingleCdsDocument(g, c))
         == [SingleCdsDocument(g, c).root] + Descendants(GenomeNode(g, c))
  {
    DescendantsOfOne(GenomeNode(g, c));
  }

  // ---------------------------------------------------------------------
  // The lookups the extractor makes
  // ---------------------------------------------------------------------

  lemma GenomeLookups(g: GenomeFields, c: CdsFields)
    ensures GetDescendantTagText(GenomeNode(g, c), AccessionTag) == Ok(g.accession)
    ensures GetDescendantTagText(GenomeNode(g, c), OrganismTag) == Ok(g.organism)
    ensures GetDescendantTagText(GenomeNode(g, c), TaxonomyTag) == Ok(g.taxonomy)
    ensures GetDescendantTagText(GenomeNode(g, c), SequenceTag) == Ok(g.sequence)
    ensures FeatureTable(GenomeNode(g, c)) == Ok(TableNode(c))
  {
    DescendantsOfGenome(g, c);
    assert IsFirstWithTag(Descendants(GenomeNode(g, c)), AccessionTag, 1);
    assert IsFirstWithTag(Descendants(GenomeNode(g, c)), OrganismTag, 2);
    assert IsFirstWithTag(Descendants(GenomeNode(g, c)), TaxonomyTag, 3);
    assert IsFirstWithTag(Descendants(GenomeNode(g, c)), SequenceTag, 4);
    assert IsFirstWithTag(Descendants(GenomeNode(g, c)), FeatureTableTag, 5);
  }

  lemma QualifierLookups(name: string, value: string)
    ensures QualifierName(QualifierNode(name, value)) == Ok(name)
    ensures QualifierValue(QualifierNode(name, value)) == Ok(value)
  {
    DescendantsOfQualifier(name, value);
    assert IsFirstWithTag(Descendants(QualifierNode(name, value)), QualifierNameTag, 1);
    assert IsFirstWithTag(Descendants(QualifierNode(name, value)), QualifierValueTag, 2);
  }

  lemma QualifierFilter(name: string, value: string)
    ensures FilterTag(Descendants(QualifierNode(name, value)), QualifierTag) == [QualifierNode(name, value)]
  {
    var nameLeaf, valueLeaf := Leaf(QualifierNameTag, name), Leaf(QualifierValueTag, value);
    DescendantsOfQualifier(name, value);
    assert [QualifierNode(name, value), nameLeaf, valueLeaf] == [QualifierNode(name, value)] + [nameLeaf, valueLeaf];
    FilterTagAppend([QualifierNode(name, value)], [nameLeaf, valueLeaf], QualifierTag);
    assert [nameLeaf, valueLeaf][1..] == [valueLeaf];
  }

  lemma QualifiersFilter(c: CdsFields)
    ensures FilterTag(Descendants(QualifiersNode(c)), QualifierTag) == QualifierNodes(c)
  {
    var qs := QualifierNodes(c);
    DescendantsOfQualifiers(c);
    var d0, d1, d2 := Descendants(qs[0]), Descendants(qs[1]), Descendants(qs[2]);
    FilterTagAppend([QualifiersNode(c)] + d0 + d1, d2, QualifierTag);
    FilterTagAppend([QualifiersNode(c)] + d0, d1, QualifierTag);
    FilterTagAppend([QualifiersNode(c)], d0, QualifierTag);
    QualifierFilter("product", c.product);
    QualifierFilter("protein_id", c.proteinId);
    QualifierFilter("translation", c.translation);
    assert qs == [qs[0]] + [qs[1]] + [qs[2]];
  }

  lemma QualifiersOfCds(c: CdsFields)
    ensures Qualifiers(CdsNode(c)) == Ok(QualifierNodes(c))
  {
    DescendantsOfCds(c);
    assert IsFirstWithTag(Descendants(CdsNode(c)), QualifiersTag, 2);
    assert Descendants(CdsNode(c))[2] == QualifiersNode(c);
    QualifiersFilter(c);
  }

  /** The peptide block the extractor writes for the feature. */
  function PeptideOf(c: CdsFields, genomeAcc: string): string
  {
    FormatRecord(c.proteinId, genomeAcc, Sanitize(c.product), UpperAscii(c.translation))
  }

  /** The genome block the extractor writes for the genome. */
  function GenomeOf(g: GenomeFields): string
  {
    FormatRecord(g.accession, Sanitize(g.organism), Sanitize(Lineage(g.taxonomy)), UpperAscii(g.sequence))
  }

  lemma CdsIsSelected(c: CdsFields)
    ensures IsCdsFeature(CdsNode(c)) == Ok(true)
  {
    DescendantsOfCds(c);
    assert IsFirstWithTag(Descendants(CdsNode(c)), FeatureKeyTag, 1);
  }

  /** Each of the three qualifiers is found at its own position. */
  lemma QualifierValues(c: CdsFields)
    ensures GetQualifierValue(QualifierNodes(c), "product") == Ok(c.product)
    ensures GetQualifierValue(QualifierNodes(c), "protein_id") == Ok(c.proteinId)
    ensures GetQualifierValue(QualifierNodes(c), "translation") == Ok(c.translation)
  {
    var qs := QualifierNodes(c);
    QualifierLookups("product", c.product);
    QualifierLookups("protein_id", c.proteinId);
    QualifierLookups("translation", c.translation);
    assert IsFirstQualifier(qs, "product", 0);
    assert IsFirstQualifier(qs, "protein_id", 1);
    assert IsFirstQualifier(qs, "translation", 2);
  }

  lemma PeptideBlockOfCds(c: CdsFields, genomeAcc: string)
    ensures PeptideBlock(CdsNode(c), genomeAcc) == Ok(PeptideOf(c, genomeAcc))
  {
    QualifiersOfCds(c);
    QualifierValues(c);
  }

  /** Below the feature element only the key and the qualifiers appear. */
  lemma NoFeatureBelowCds(c: CdsFields)
    ensures forall k :: 1 <= k < |Descendants(CdsNode(c))| ==> Descendants(CdsNode(c))[k].tag != FeatureTag
  {
    DescendantsOfCds(c);
    DescendantsOfQualifiers(c);
    DescendantsOfQualifier("product", c.product);
    DescendantsOfQualifier("protein_id", c.proteinId);
    DescendantsOfQualifier("translation", c.translation);
  }

  /** A selection that keeps nothing is empty. */
  lemma SelectedNothing<T>(keep: T -> Result<bool>, xs: seq<T>)
    requires forall k :: 0 <= k < |xs| ==> keep(xs[k]) != Ok(true)
    ensures Selected(keep, xs) == []
  {
    SelectedCounts(keep, xs);
  }

  /** When exactly one element is kept, the selection is that element. */
  lemma SelectedSingle<T>(keep: T -> Result<bool>, xs: seq<T>, i: int)
    requires 0 <= i < |xs|
    requires forall k :: 0 <= k < |xs| && k != i ==> keep(xs[k]) == Ok(false)
    requires keep(xs[i]) == Ok(true)
    ensures Selected(keep, xs) == [xs[i]]
  {
    var before, after := xs[..i], xs[i + 1..];
    assert xs == before + [xs[i]] + after;
    forall k | 0 <= k < |before| ensures keep(before[k]) != Ok(true) {
      assert before[k] == xs[k];
    }
    forall k | 0 <= k < |after| ensures keep(after[k]) != Ok(true) {
      assert after[k] == xs[i + 1 + k];
    }
    SelectedNothing(keep, before);
    SelectedNothing(keep, after);
    SelectedAppend(keep, before + [xs[i]], after);
    SelectedAppend(keep, before, [xs[i]]);
    assert Selected(keep, [xs[i]]) == [xs[i]];
  }

  /** When exactly one element is kept, the selection collects its one result. */
  lemma CollectSelectedSingle<T, U>(keep: T -> Result<bool>, f: T -> Result<U>, xs: seq<T>, i: int, y: U)
    requires 0 <= i < |xs|
    requires forall k :: 0 <= k < |xs| && k != i ==> keep(xs[k]) == Ok(false)
    requires keep(xs[i]) == Ok(true) && f(xs[i]) == Ok(y)
    ensures CollectSelected(keep, f, xs) == Ok([y])
  {
    SelectedSingle(keep, xs, i);
    assert forall k :: 0 <= k < |xs| ==> keep(xs[k]).Ok? && (keep(xs[k]).value ==> f(xs[k]).Ok?);
    assert CollectSelected(keep, f, xs).value == [y];
  }

  /** Of the nodes of the feature table, only the CDS feature is selected,
      and every other node is rejected without error. */
  lemma TableSelection(c: CdsFields)
    ensures |Descendants(TableNode(c))| >= 2 && Descendants(TableNode(c))[1] == CdsNode(c)
    ensures forall k :: 0 <= k < |Descendants(TableNode(c))| && k != 1 ==>
              IsCdsFeature(Descendants(TableNode(c))[k]) == Ok(false)
  {
    DescendantsOfTable(c);
    NoFeatureBelowCds(c);
    var below := Descendants(CdsNode(c))[1..];
    assert Descendants(CdsNode(c)) == [CdsNode(c)] + below;
    forall k | 2 <= k < |Descendants(TableNode(c))|
      ensures IsCdsFeature(Descendants(TableNode(c))[k]) == Ok(false)
    {
      assert Descendants(TableNode(c))[k] == Descendants(CdsNode(c))[k - 1];
    }
  }

  lemma PeptidesOfTable(c: CdsFields, genomeAcc: string)
    ensures CollectSelected(IsCdsFeature, PeptideBlockOf(genomeAcc), Descendants(TableNode(c)))
         == Ok([PeptideOf(c, genomeAcc)])
  {
    TableSelection(c);
    CdsIsSelected(c);
    PeptideBlockOfCds(c, genomeAcc);
    CollectSelectedSingle(IsCdsFeature, PeptideBlockOf(genomeAcc), Descendants(TableNode(c)), 1, PeptideOf(c, genomeAcc));
  }

  // ---------------------------------------------------------------------
  // The genome, the record set and the whole extraction
  // ---------------------------------------------------------------------

  lemma GenomeBlockOfSingleCds(g: GenomeFields, c: CdsFields)
    ensures GenomeBlock(GenomeNode(g, c)) == Ok(GenomeOf(g))
  {
    GenomeLookups(g, c);
  }

  lemma PeptidesOfGenomeOfSingleCds(g: GenomeFields, c: CdsFields)
    ensures PeptidesOfGenome(GenomeNode(g, c)) == Ok([PeptideOf(c, g.accession)])
  {
    GenomeLookups(g, c);
    PeptidesOfTable(c, g.accession);
  }

  /** No node of the feature table is a genome. */
  lemma NoGenomeInTable(c: CdsFields)
    ensures NoneWithTag(Descendants(TableNode(c)), GenomeTag)
  {
    DescendantsOfTable(c);
    DescendantsOfCds(c);
    DescendantsOfQualifiers(c);
    DescendantsOfQualifier("product", c.product);
    DescendantsOfQualifier("protein_id", c.proteinId);
    DescendantsOfQualifier("translation", c.translation);
  }

  lemma FilterTagNothing(ns: seq<Node>, tag: string)
    requires NoneWithTag(ns, tag)
    ensures FilterTag(ns, tag) == []
  {
    FilterTagCounts(ns, tag);
  }

  /** The record set holds exactly the one genome. */
  lemma RecordsOfSingleCds(g: GenomeFields, c: CdsFields)
    ensures IsFirstWithTag(DocumentNodes(SingleCdsDocument(g, c)), RecordSetTag, 0)
    ensures DocumentNodes(SingleCdsDocument(g, c))[0] == SingleCdsDocument(g, c).root
    ensures GenomeRecords(SingleCdsDocument(g, c).root) == [GenomeNode(g, c)]
  {
    var root, genome := SingleCdsDocument(g, c).root, GenomeNode(g, c);
    DocumentNodesOfSingleCds(g, c);
    DescendantsOfGenome(g, c);
    NoGenomeInTable(c);
    FilterTagNothing(Descendants(TableNode(c)), GenomeTag);
    FilterTagNothing(FieldLeaves(g), GenomeTag);
    FilterTagAppend([root] + [genome] + FieldLeaves(g), Descendants(TableNode(c)), GenomeTag);
    FilterTagAppend([root] + [genome], FieldLeaves(g), GenomeTag);
    FilterTagAppend([root], [genome], GenomeTag);
    assert Descendants(root) == [root] + [genome] + FieldLeaves(g) + Descendants(TableNode(c));
  }

  lemma CollectAllSingle<T, U>(f: T -> Result<U>, x: T, y: U)
    requires f(x) == Ok(y)
    ensures CollectAll(f, [x]) == Ok([y])
  {
    assert [x][1..] == [];
    assert CollectAll(f, [x][1..]) == Ok([]);
    assert [y] + [] == [y];
  }

  lemma CollectConcatSingle<T, U>(f: T -> Result<seq<U>>, x: T, ys: seq<U>)
    requires f(x) == Ok(ys)
    ensures CollectConcat(f, [x]) == Ok(ys)
  {
    assert [x][1..] == [];
    assert CollectConcat(f, [x]) == Chain(Ok(ys), Ok([]));
    assert Chain(Ok(ys), Ok([])).value == Chain(Ok(ys), Ok([])).value[..|ys|];
  }

  lemma GenomesOfSingleCds(g: GenomeFields, c: CdsFields)
    ensures ParseGenomes(SingleCdsDocument(g, c)) == Ok([GenomeOf(g)])
  {
    RecordsOfSingleCds(g, c);
    GenomeBlockOfSingleCds(g, c);
    CollectAllSingle(GenomeBlock, GenomeNode(g, c), GenomeOf(g));
  }

  lemma PeptidesOfSingleCds(g: GenomeFields, c: CdsFields)
    ensures PeptidesOf(SingleCdsDocument(g, c)) == Ok([PeptideOf(c, g.accession)])
  {
    RecordsOfSingleCds(g, c);
    PeptidesOfGenomeOfSingleCds(g, c);
    CollectConcatSingle(PeptidesOfGenome, GenomeNode(g, c), [PeptideOf(c, g.accession)]);
  }

  /** A document with one genome carrying one CDS feature yields that
      genome's block and that feature's block. */
  lemma SingleCdsExtraction(g: GenomeFields, c: CdsFields)
    ensures Extraction(Some(SingleCdsDocument(g, c)))
         == Ok(([GenomeOf(g)], [PeptideOf(c, g.accession)]))
  {
    GenomesOfSingleCds(g, c);
    PeptidesOfSingleCds(g, c);
  }

  // ---------------------------------------------------------------------
  // One concrete record
  // ---------------------------------------------------------------------

  lemma ExampleOrganism()
    ensures Sanitize("Foo bar") == "Foo_bar"
  {
    assert AllWord("Foo") && AllWord("bar") && AllNonWord(" ");
    SanitizeFixedPoint("bar");
    SanitizeSeparated("Foo", " ", "bar");
    assert "Foo" + " " + "bar" == "Foo bar";
    assert "Foo" + "_" + "bar" == "Foo_bar";
  }

  lemma ExampleGenomeBlock()
    ensures GenomeOf(GenomeFields("X1.1", "Foo bar", "A; B", "atgc"))
         == ">" + "X1.1" + " ~~ " + "Foo_bar" + " ~~ " + "A__B" + "\n" + "ATGC"
  {
    ExampleOrganism();
    LineageOfTwo();
    assert UpperAscii("atgc") == "ATGC";
  }

  lemma ExamplePeptideBlock()
    ensures PeptideOf(CdsFields("Prot1", "P1.1", "mk"), "X1.1")
         == ">" + "P1.1" + " ~~ " + "X1.1" + " ~~ " + "Prot1" + "\n" + "MK"
  {
    assert AllWord("Prot1");
    SanitizeFixedPoint("Prot1");
    assert UpperAscii("mk") == "MK";
  }

  /** The genome `X1.1` of `Foo bar`, lineage `A; B`, with one CDS feature
      for protein `P1.1`: one genome record and one peptide record, each
      written as a line of header fields and a line of residues. */
  lemma ExampleExtraction()
    ensures Extraction(Some(SingleCdsDocument(GenomeFields("X1.1", "Foo bar", "A; B", "atgc"),
                                              CdsFields("Prot1", "P1.1", "mk"))))
         == Ok(([">" + "X1.1" + " ~~ " + "Foo_bar" + " ~~ " + "A__B" + "\n" + "ATGC"],
                [">" + "P1.1" + " ~~ " + "X1.1" + " ~~ " + "Prot1" + "\n" + "MK"]))
    ensures FileContent([">" + "X1.1" + " ~~ " + "Foo_bar" + " ~~ " + "A__B" + "\n" + "ATGC"])
         == ">" + "X1.1" + " ~~ " + "Foo_bar" + " ~~ " + "A__B" + "\n" + "ATGC" + "\n"
    ensures FileContent([">" + "P1.1" + " ~~ " + "X1.1" + " ~~ " + "Prot1" + "\n" + "MK"])
         == ">" + "P1.1" + " ~~ " + "X1.1" + " ~~ " + "Prot1" + "\n" + "MK" + "\n"
  {
    SingleCdsExtraction(GenomeFields("X1.1", "Foo bar", "A; B", "atgc"), CdsFields("Prot1", "P1.1", "mk"));
    ExampleGenomeBlock();
    ExamplePeptideBlock();
  }
}
