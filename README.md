# parse-gb-xml in Dafny

A model of the core of `parse-gb-xml`, a small tool that reads a GenBank
record set in NCBI's XML form (`GBSet` / `GBSeq` / `GBFeature` /
`GBQualifier` elements) and writes two FASTA-like files:

* one **genome block** per `GBSeq` of the first `GBSet`:
  `>accession ~~ organism ~~ lineage` and a line break, then the
  upper-cased nucleotide sequence. The organism and the lineage have every
  run of non-word characters replaced by `_`. The lineage is the taxonomy
  with each `"; "` replaced by `"__"`.
* one **peptide block** per coding-sequence (`CDS`) feature of every
  genome: `>protein_id ~~ genome accession ~~ product` and a line break,
  then the upper-cased translation. The product is sanitised the same way.

Each output file holds its blocks joined by line breaks, plus a final line
break.

The model has seven modules:

| module | file | what it holds |
|---|---|---|
| `Results` | `results.dfy` | `Option`, `Result` and the `Error` kinds |
| `XmlTree` | `xml_tree.dfy` | element trees, pre-order descendants, first match by tag, filter by tag |
| `TextOps` | `text_ops.dfy` | the `\W+` → `_` substitution, ASCII upper-casing, split and join on a literal separator, the lineage rewrite |
| `Fasta` | `fasta.dfy` | the block format, its decoder, and the text a list of blocks becomes in a file |
| `Collect` | `collect.dfy` | what the iterator chains compute: `map` then `collect`, a lazy `filter` feeding a push loop, and one run per element concatenated; in each case the first failing element's error wins |
| `Extract` | `extract.dfy` | the program itself: `get_descendant_tag_text`, `get_qualifier_value`, `is_cds_feature`, `parse_genomes`, `parse_peptides`, `parse_xml` and `run` |
| `Scenario` | `scenario.dfy` | a family of one-genome, one-feature documents built from their field values, what the whole pipeline makes of them, and one concrete record written out |

Every `unwrap`/`expect` of the original is a point where the program
panics. In the model each one becomes an `Err` value:

* `MissingNode(tag)`: no element with that tag.
* `MissingText(tag)`: the element has no text.
* `MissingQualifier(name)`: no qualifier with that name.
* `MalformedXml`: the text did not parse.

Lookups happen in the order the original runs them, including the
laziness of its iterator chains. So the error returned is the panic the
original would hit first. `parse_peptides` is an imperative loop in the
original: it pushes onto a vector inside nested `for` loops. It is modelled
as the methods `ParsePeptides` and `PushGenomePeptides`, which are proved
equal to the functional specification `PeptidesOf`.

## Model

| member | source | states |
|---|---|---|
| XmlTree.Descendants | src/lib.rs:32-34 | the pre-order traversal starts with the node itself |
| XmlTree.DescendantsOfAllAppend | src/lib.rs:33 | the traversal of a forest is the traversal of each tree, one after the other |
| XmlTree.DescendantsWithChild | src/lib.rs:33 | a child appended to an element comes after all its earlier descendants in the traversal |
| XmlTree.FirstTagIndex | src/lib.rs:62-65 | `find` by tag: a found index holds the tag and no earlier node does; nothing is found exactly when no node has the tag |
| XmlTree.FilterTag | src/lib.rs:66-68 | `filter` by tag never lengthens the sequence and every node it keeps has that tag |
| XmlTree.FilterTagCounts | src/lib.rs:66-68 | a node is kept exactly when it occurs in the input with that tag, and as many times as it occurs there; nothing else is kept |
| XmlTree.FilterTagAppend | src/lib.rs:66-68 | filtering distributes over concatenation, so the document order is kept |
| XmlTree.FirstTagIndexAppend | src/lib.rs:62-65 | once a match is found, nodes after it do not change which match is found |
| TextOps.SkipNonWordSpec | src/lib.rs:13 | what is left after the longest run of non-word characters at the front: a suffix that is empty or starts with a word character, after only non-word characters |
| TextOps.Sanitize | src/lib.rs:85-86 | the `\W+` substitution never lengthens a string, and its output is empty exactly when its input is |
| TextOps.SanitizeWordPrefix | src/lib.rs:13 | the `\W+` substitution leaves word characters untouched |
| TextOps.SanitizeNonWordRun | src/lib.rs:13 | a whole run of non-word characters becomes a single `_` |
| TextOps.SanitizeSeparated | src/lib.rs:85-86 | two names separated by a run of non-word characters are joined by one `_` |
| TextOps.SanitizeAllWord | src/lib.rs:85-86 | the substitution's output holds only word characters |
| TextOps.SanitizeFixedPoint | src/lib.rs:85-86 | a string is left unchanged exactly when it is all word characters |
| TextOps.SanitizeIdempotent | src/lib.rs:85-86 | substituting twice is the same as substituting once |
| TextOps.SanitizeKeepsAlnums | src/lib.rs:136 | the substitution keeps every letter and digit, in order; only separators change |
| TextOps.UpperAscii | src/lib.rs:88 | upper-casing keeps the length, maps each ASCII lower-case letter to its capital and leaves every other character as it was |
| TextOps.UpperAsciiAt | src/lib.rs:137 | position by position: a lower-case letter becomes its capital, anything else is kept |
| TextOps.UpperAsciiIdempotent | src/lib.rs:88 | no ASCII lower-case letter is left after upper-casing |
| TextOps.Split | src/lib.rs:76-77 | splitting on `"; "` yields at least one part, and joining the parts back with the separator gives the original string |
| TextOps.Join | src/lib.rs:78 | joining no parts gives the empty string; otherwise the length is the parts' total plus one separator between each neighbouring pair |
| TextOps.JoinTwo | src/lib.rs:78 | two parts are joined with exactly one separator between them |
| TextOps.JoinThree | src/lib.rs:78 | three parts are joined with one separator between each neighbouring pair |
| TextOps.SplitFrom | src/lib.rs:76 | splitting always yields at least one part |
| TextOps.SplitNoSep | src/lib.rs:76 | no part of a split contains the separator |
| TextOps.SplitJoin | src/lib.rs:76-78 | splitting a join of parts that do not contain the separator's first character gives the parts back |
| TextOps.Lineage | src/lib.rs:74-78 | replacing each `"; "` by `"__"` keeps the length of the taxonomy |
| TextOps.LineageUnsplit | src/lib.rs:74-78 | a taxonomy without `"; "` is its own lineage |
| TextOps.LineageOfWords | src/lib.rs:74-86 | ranks made of word characters joined by `"; "` give the ranks joined by `"__"`, which the substitution leaves unchanged |
| TextOps.LineageTightSemicolon | src/lib.rs:74-86 | a bare `;` between two ranks is not a separator; the substitution turns it into one `_` |
| TextOps.LineageOfTwo | src/lib.rs:74-86 | `A; B` becomes `A__B` and is left alone by the substitution; `A;B` is not split and sanitises to `A_B` |
| TextOps.LineageExample | src/lib.rs:74-86 | a three-level taxonomy becomes its levels joined by `__` and is left alone by the substitution |
| TextOps.SanitizeFourNames | src/lib.rs:85 | four names separated by runs of non-word characters become the names joined by single underscores |
| TextOps.OrganismExample | src/lib.rs:85 | `Escherichia coli K-12` sanitises to `Escherichia_coli_K_12` |
| Fasta.SplitOnce | src/lib.rs:83 | splitting at the first occurrence of a character: the two halves rebuild the input and the first has no occurrence |
| Fasta.FormatRecord | src/lib.rs:82-89 | a block starts with `>` and is as long as its fields plus two field separators, the `>` and the line break |
| Fasta.FormatHeaderBreak | src/lib.rs:132-138 | when the header fields hold no line break, the first line break of a block ends its header and the rest is exactly the body |
| Fasta.WordFieldIsPlain | src/lib.rs:85-86 | a sanitised field cannot contain the field separator or a line break |
| Fasta.DecodeFormat | src/lib.rs:82-89 | a block starts with `>` and decodes back to its three header fields and its body when the fields hold no space and no line break |
| Fasta.FileContent | src/lib.rs:158 | the text written to a file always ends with a line break |
| Fasta.FileContentTerminated | src/lib.rs:154-159 | the file holds every block followed by a line break, and a single line break when there are no blocks |
| Collect.Prepend | src/lib.rs:132 | pushing onto a collected list keeps a failure as it is and otherwise puts the new items after the earlier ones |
| Collect.SelectedCounts | src/lib.rs:113-115 | a lazy `filter` keeps an element exactly when its test succeeds with `true`, as many times as it occurs; nothing else is kept |
| Collect.SelectedAppend | src/lib.rs:113-115 | filtering distributes over concatenation, so the kept elements stay in their order |
| Collect.Chain | src/lib.rs:106-140 | one genome's output followed by the rest: it succeeds exactly when both do, then holding the first's items before the second's; otherwise the error is the first's when the first fails, and the second's when only the second fails |
| Collect.CollectAll | src/lib.rs:69-91 | `map` then `collect`: succeeds exactly when every element does, element by element, and otherwise reports the first element's error |
| Collect.CollectSelected | src/lib.rs:109-139 | a lazy `filter` feeding a push loop: succeeds exactly when every test and every kept element's block succeed; one result per kept element, in order |
| Collect.CollectSelectedFirstError | src/lib.rs:109-139 | a failing filtered loop reports the error of the first element that stops it, whose test fails or which is kept and whose block fails, while every earlier element passed its test and, when kept, its block |
| Collect.CollectConcat | src/lib.rs:106-140 | every element's run is collected and concatenated; the error is the first failing element's |
| Collect.CollectConcatFlatten | src/lib.rs:106-142 | when every run succeeds, the result is the runs flattened in order |
| Collect.CollectConcatAppend | src/lib.rs:106-142 | a genome's output sits between its neighbours' outputs |
| Extract.GetDescendantTagText | src/lib.rs:32-38 | the text of the first descendant with the tag, or `MissingText` when that node has no text; any error is `MissingNode` or `MissingText` for that tag |
| Extract.MissingNodeIffNoTag | src/lib.rs:32-38 | the lookup fails with `MissingNode` exactly when no node of the subtree carries the tag |
| Extract.LaterMatchIgnored | src/lib.rs:32-38 | a subtree appended after the first match does not change the text found |
| Extract.GetQualifierValue | src/lib.rs:40-47 | the value of the first qualifier with that name, found only by reading every earlier qualifier's name; `MissingQualifier` exactly when every qualifier has a name and none matches |
| Extract.LaterQualifierIgnored | src/lib.rs:40-47 | qualifiers after the first match are never consulted |
| Extract.IsCdsFeature | src/lib.rs:49-58 | non-`GBFeature` elements are rejected without a key lookup; a feature is CDS exactly when its first key's text is `CDS`; it fails exactly when a feature's key lookup fails |
| Extract.CdsKeyIsExact | src/lib.rs:57 | the key comparison is exact equality with `CDS` |
| Extract.GenomeBlock | src/lib.rs:69-90 | a genome block exists exactly when the accession, organism, taxonomy and sequence are all found |
| Extract.GenomeBlockFields | src/lib.rs:82-89 | when the accession holds no space and no line break, a genome block decodes to the accession, the sanitised organism and lineage, which hold only word characters, and the upper-cased sequence |
| Extract.ParseGenomes | src/lib.rs:60-92 | no `GBSet` gives `MissingNode("GBSet")`; otherwise the result is the genome blocks of the `GBSeq` elements of the first `GBSet` |
| Extract.GenomesInOrder | src/lib.rs:66-91 | one genome block per `GBSeq`, in document order, each being that genome's |
| Extract.LaterRecordSetIgnored | src/lib.rs:62-65 | a second `GBSet` appended after the first leaves the genome list unchanged |
| Extract.Qualifiers | src/lib.rs:118-126 | the `GBQualifier` elements below the first `GBFeature_quals`, in order; it fails, with `MissingNode`, exactly when the feature has no `GBFeature_quals` |
| Extract.PeptideBlock | src/lib.rs:118-138 | a peptide block exists exactly when the qualifier list and the `product`, `protein_id` and `translation` values are all found |
| Extract.PeptideBlockFields | src/lib.rs:132-138 | when the genome accession and the `protein_id` value hold no space and no line break, a peptide block decodes to the protein id, the genome accession, the sanitised product, which holds only word characters, and the upper-cased translation |
| Extract.FeatureTable | src/lib.rs:109-112 | the first `GBSeq_feature-table` of the genome; it fails, with `MissingNode`, exactly when the genome has none |
| Extract.PeptidesPerFeature | src/lib.rs:109-139 | a genome contributes one peptide block per CDS feature, in order, each being that feature's block; a genome without CDS features contributes none |
| Extract.PeptidesOfGenome | src/lib.rs:106-140 | a genome's peptides fail first on a missing accession or its missing text, then on a missing feature table; a result needs both found |
| Extract.PushGenomePeptides | src/lib.rs:106-140 | one pass of the outer loop pushes exactly that genome's peptide blocks after the earlier ones, or stops with its first error |
| Extract.ParsePeptides | src/lib.rs:94-143 | the nested loops produce exactly the specified peptide list, or its first error |
| Extract.PeptidesOf | src/lib.rs:94-143 | no `GBSet` gives `MissingNode("GBSet")`; otherwise each `GBSeq` of the first `GBSet` contributes its peptides, concatenated in document order with the first error winning |
| Extract.PeptideRuns | src/lib.rs:106-140 | one run of peptides per genome, each being that genome's peptide list |
| Extract.DocumentOutputs | src/lib.rs:60-143 | when both lists are produced, genome blocks and `GBSeq` elements correspond one to one, and the peptide list is the genomes' peptide lists concatenated in genome order |
| Extract.Extraction | src/lib.rs:145-152 | unparsable text gives `MalformedXml`; a genome failure is reported before any peptide failure; a result exists exactly when both lists do, and it is the pair of them |
| Extract.ParseXml | src/lib.rs:145-152 | the method returns exactly the specified pair, or the specified first error |
| Extract.Run | src/lib.rs:154-170 | the two files receive the genome blocks and the peptide blocks, each joined by line breaks with a final line break, or nothing is produced when extraction fails |
| Scenario.SingleCdsExtraction | src/lib.rs:60-152 | for any field values, the document built by `SingleCdsDocument` (one `GBSeq` with its accession, organism, taxonomy and sequence, then a feature table holding one `CDS` feature with exactly the `product`, `protein_id` and `translation` qualifiers, in that order) yields exactly that genome's block and that feature's block |
| Scenario.ExampleExtraction | src/lib.rs:60-159 | genome `X1.1` of `Foo bar`, taxonomy `A; B`, sequence `atgc`, with CDS `Prot1` / `P1.1` / `mk`, gives the files `>X1.1 ~~ Foo_bar ~~ A__B` + `ATGC` and `>P1.1 ~~ X1.1 ~~ Prot1` + `MK`, each line ended by a line break |

## Left out

- Parsing XML text (`Document::parse`) is not modelled. Its outcome is an input: `None` for text that is not well-formed XML, `Some(doc)` otherwise.
- The XML tree keeps only elements, their local names, their text and their children. `has_tag_name` with a plain string ignores namespaces, and text, comment and processing-instruction nodes never match a tag. So dropping them changes no lookup.
- The text of an element is a field of the node. roxmltree computes it from the element's first child when that child is a text node; that computation is not modelled.
- TextOps.IsWord: `\W` in the `regex` crate is Unicode-aware. The model counts only ASCII letters, digits and `_` as word characters, so non-ASCII letters are treated as separators.
- TextOps.UpperAscii: models `to_ascii_uppercase` on characters. The original works on UTF-8 bytes, and the result is the same.
- File I/O is not modelled. This covers reading the input file and creating and writing the output files (`write_strings`, `run`), and their failures. `Run` returns the text each output file would receive.
- Command-line parsing (`Config`, `structopt`, `src/main.rs`) and the debug line printed to standard error are not modelled.
- A panic is not modelled as ending the process. It is modelled as an `Err` value that is returned at once; the error message texts are not modelled.
