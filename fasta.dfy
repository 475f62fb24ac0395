/** The FASTA-style text blocks the extractor produces, a decoder that
    reads one back, and the text written to an output file. */
module Fasta {
  import opened Results
  import opened TextOps

  /** The separator between the three header fields. */
  const FieldSeparator: string := " ~~ "

  /** One record: `>` and three header fields, a line break, the body. */
  function FormatRecord(first: string, second: string, third: string, body: string): (r: string)
    ensures |r| == |first| + |second| + |third| + |body| + 2 * |FieldSeparator| + 2
    ensures r[0] == '>'
  {
    ">" + first + FieldSeparator + second + FieldSeparator + third + "\n" + body
  }

  /** `s` cut at its first `c`, or None when `c` does not occur. */
  function SplitOnce(s: string, c: char): (r: Option<(string, string)>)
    ensures r.Some? ==> s == r.value.0 + [c] + r.value.1 && c !in r.value.0
    ensures r.None? <==> c !in s
  {
    if s == [] then None
    else if s[0] == c then Some(([], s[1..]))
    else
      match SplitOnce(s[1..], c)
      case None => None
      case Some(p) => Some(([s[0]] + p.0, p.1))
  }

  /** Reads a record back: the header is everything before the first line
      break, and must be `>` followed by exactly three fields. */
  function DecodeRecord(block: string): Option<(string, string, string, string)>
  {
    match SplitOnce(block, '\n')
    case None => None
    case Some(p) =>
      var header, body := p.0, p.1;
      if header == [] || header[0] != '>' then None
      else
        var fields := Split(header[1..], FieldSeparator);
        if |fields| != 3 then None
        else Some((fields[0], fields[1], fields[2], body))
  }

  /** A header field the format can carry: no space (so no field separator
      can start inside it) and no line break. */
  predicate PlainField(s: string)
  {
    FreeOf(s, FieldSeparator) && '\n' !in s
  }

  /** Sanitised text is always a plain field. */
  lemma WordFieldIsPlain(s: string)
    requires AllWord(s)
    ensures PlainField(s)
  {
  }

  lemma {:induction false} SplitOnceAt(header: string, body: string, c: char)
    requires c !in header
    ensures SplitOnce(header + [c] + body, c) == Some((header, body))
    decreases |header|
  {
    if header == [] {
      assert header + [c] + body == [c] + body;
    } else {
      assert (header + [c] + body)[1..] == header[1..] + [c] + body;
      SplitOnceAt(header[1..], body, c);
      assert [header[0]] + header[1..] == header;
    }
  }

  /** The first line break of a record whose header fields hold no line
      break is the one after the header; spaces in the fields do not matter. */
  lemma FormatHeaderBreak(first: string, second: string, third: string, body: string)
    requires '\n' !in first && '\n' !in second && '\n' !in third
    ensures SplitOnce(FormatRecord(first, second, third, body), '\n')
         == Some((">" + (first + FieldSeparator + second + FieldSeparator + third), body))
  {
    var fields := first + FieldSeparator + second + FieldSeparator + third;
    var header := ">" + fields;
    assert FormatRecord(first, second, third, body) == header + ['\n'] + body;
    assert '\n' !in FieldSeparator;
    assert '\n' !in header;
    SplitOnceAt(header, body, '\n');
  }

  /** Decoding recovers the four parts of every record whose header fields
      are plain; the body may be anything. The record therefore starts with
      `>`, and its first line break is the one between header and body. */
  lemma DecodeFormat(first: string, second: string, third: string, body: string)
    requires PlainField(first) && PlainField(second) && PlainField(third)
    ensures FormatRecord(first, second, third, body)[0] == '>'
    ensures DecodeRecord(FormatRecord(first, second, third, body))
         == Some((first, second, third, body))
  {
    var fields := first + FieldSeparator + second + FieldSeparator + third;
    FormatHeaderBreak(first, second, third, body);
    assert (">" + fields)[1..] == fields;
    JoinThree(first, second, third, FieldSeparator);
    SplitJoin([first, second, third], FieldSeparator);
    assert Split(fields, FieldSeparator) == [first, second, third];
  }

  /** Each block followed by a line break, one after the other. */
  function Terminated(blocks: seq<string>): string
  {
    if blocks == [] then [] else blocks[0] + "\n" + Terminated(blocks[1..])
  }

  /** What one `writeln!` of the blocks joined with line breaks puts in a
      file. */
  function FileContent(blocks: seq<string>): (r: string)
    ensures |r| >= 1 && r[|r| - 1] == '\n'
  {
    Join(blocks, "\n") + "\n"
  }

  /** Every block ends with a line break in the file; with no block at all
      the file still holds a single line break. */
  lemma {:induction false} FileContentTerminated(blocks: seq<string>)
    ensures blocks != [] ==> FileContent(blocks) == Terminated(blocks)
    ensures blocks == [] ==> FileContent(blocks) == "\n"
    decreases |blocks|
  {
    if |blocks| > 1 {
      FileContentTerminated(blocks[1..]);
    }
  }
}
