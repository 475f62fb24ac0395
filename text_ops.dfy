/** The pure string transforms the extractor applies to field text:
    the `\W+` to `_` sanitisation, ASCII uppercasing, and splitting and
    joining on a literal separator. */
module TextOps {

  /** A regex word character (`\w`), restricted to ASCII: a letter, a digit
      or the underscore. */
  predicate IsWord(c: char)
  {
    ('a' <= c <= 'z') || ('A' <= c <= 'Z') || ('0' <= c <= '9') || c == '_'
  }

  /** Every character of `s` is a word character. */
  predicate AllWord(s: string)
  {
    forall i :: 0 <= i < |s| ==> IsWord(s[i])
  }

  /** Every character of `s` is a non-word character. */
  predicate AllNonWord(s: string)
  {
    forall i :: 0 <= i < |s| ==> !IsWord(s[i])
  }

  // ---------------------------------------------------------------------
  // Sanitisation: every maximal run of non-word characters becomes "_".
  // ---------------------------------------------------------------------

  /** `s` without its longest prefix of non-word characters. */
  function SkipNonWord(s: string): (r: string)
    ensures |r| <= |s|
  {
    if s != [] && !IsWord(s[0]) then SkipNonWord(s[1..]) else s
  }

  /** What `SkipNonWord` drops is a run of non-word characters, and what it
      keeps is empty or starts with a word character: the run is maximal. */
  lemma {:induction false} SkipNonWordSpec(s: string)
    ensures var r := SkipNonWord(s);
            && r == s[|s| - |r|..]
            && AllNonWord(s[..|s| - |r|])
            && (r == [] || IsWord(r[0]))
    decreases |s|
  {
    if s != [] && !IsWord(s[0]) {
      SkipNonWordSpec(s[1..]);
      var r := SkipNonWord(s);
      var k := |s| - |r|;
      assert s[1..][k - 1..] == s[k..];
      assert forall i :: 1 <= i < k ==> s[..k][i] == s[1..][..k - 1][i - 1];
    } else {
      assert s[..0] == [];
    }
  }

  /** `replace_all` of the regex `\W+` with `"_"`: the regex engine finds
      the leftmost, longest run of non-word characters, replaces it, and
      continues after it. */
  function Sanitize(s: string): (r: string)
    ensures |r| <= |s|
    ensures r == [] <==> s == []
    decreases |s|
  {
    if s == [] then []
    else if IsWord(s[0]) then [s[0]] + Sanitize(s[1..])
    else "_" + Sanitize(SkipNonWord(s[1..]))
  }

  /** A leading word character is copied. */
  lemma SanitizeWordStep(c: char, s: string)
    requires IsWord(c)
    ensures Sanitize([c] + s) == [c] + Sanitize(s)
  {
    assert ([c] + s)[0] == c && ([c] + s)[1..] == s;
  }

  /** A prefix made of word characters passes through unchanged. */
  lemma {:induction false} SanitizeWordPrefix(w: string, s: string)
    requires AllWord(w)
    ensures Sanitize(w + s) == w + Sanitize(s)
    decreases |w|
  {
    if w == [] {
      assert w + s == s;
    } else {
      var c, rest := w[0], w[1..];
      assert Sanitize(w + s) == [c] + Sanitize(rest + s) by {
        assert w + s == [c] + (rest + s);
        SanitizeWordStep(c, rest + s);
      }
      SanitizeWordPrefix(rest, s);
      assert [c] + (rest + Sanitize(s)) == w + Sanitize(s);
    }
  }

  /** A maximal run of non-word characters becomes exactly one "_". */
  lemma {:induction false} SanitizeNonWordRun(n: string, s: string)
    requires n != [] && AllNonWord(n)
    requires s == [] || IsWord(s[0])
    ensures Sanitize(n + s) == "_" + Sanitize(s)
  {
    assert (n + s)[1..] == n[1..] + s;
    SkipNonWordRun(n[1..], s);
  }

  lemma {:induction false} SkipNonWordRun(n: string, s: string)
    requires AllNonWord(n)
    requires s == [] || IsWord(s[0])
    ensures SkipNonWord(n + s) == s
    decreases |n|
  {
    if n == [] {
      assert n + s == s;
    } else {
      assert (n + s)[1..] == n[1..] + s;
      SkipNonWordRun(n[1..], s);
    }
  }

  /** The output holds word characters only: apart from the inserted
      underscores nothing of a non-word run survives. */
  lemma {:induction false} SanitizeAllWord(s: string)
    ensures AllWord(Sanitize(s))
    decreases |s|
  {
    if s != [] {
      if IsWord(s[0]) {
        SanitizeAllWord(s[1..]);
      } else {
        SanitizeAllWord(SkipNonWord(s[1..]));
      }
    }
  }

  /** The strings sanitisation leaves unchanged are exactly those made of
      word characters. */
  lemma {:induction false} SanitizeFixedPoint(s: string)
    ensures Sanitize(s) == s <==> AllWord(s)
  {
    if AllWord(s) {
      SanitizeWordPrefix(s, []);
      assert s + [] == s;
    }
    if Sanitize(s) == s {
      SanitizeAllWord(s);
    }
  }

  /** Sanitising twice is the same as sanitising once. */
  lemma SanitizeIdempotent(s: string)
    ensures Sanitize(Sanitize(s)) == Sanitize(s)
  {
    SanitizeAllWord(s);
    SanitizeFixedPoint(Sanitize(s));
  }

  /** The letters and digits of `s`, in order (word characters other than
      the underscore). */
  function Alnums(s: string): (r: string)
    ensures |r| <= |s|
  {
    if s == [] then []
    else if IsWord(s[0]) && s[0] != '_' then [s[0]] + Alnums(s[1..])
    else Alnums(s[1..])
  }

  lemma {:induction false} AlnumsAppend(a: string, b: string)
    ensures Alnums(a + b) == Alnums(a) + Alnums(b)
    decreases |a|
  {
    if a == [] {
      assert a + b == b;
    } else {
      assert (a + b)[1..] == a[1..] + b;
      AlnumsAppend(a[1..], b);
    }
  }

  lemma {:induction false} AlnumsNonWord(n: string)
    requires AllNonWord(n)
    ensures Alnums(n) == []
    decreases |n|
  {
    if n != [] {
      AlnumsNonWord(n[1..]);
    }
  }

  /** Every letter and digit is kept, in order, and none is added. */
  lemma {:induction false} SanitizeKeepsAlnums(s: string)
    ensures Alnums(Sanitize(s)) == Alnums(s)
    decreases |s|
  {
    if s != [] {
      if IsWord(s[0]) {
        SanitizeKeepsAlnums(s[1..]);
        AlnumsAppend([s[0]], Sanitize(s[1..]));
      } else {
        var rest := SkipNonWord(s[1..]);
        SkipNonWordSpec(s[1..]);
        var run := s[1..][..|s[1..]| - |rest|];
        assert s[1..] == run + rest;
        assert s == [s[0]] + run + rest;
        AlnumsNonWord([s[0]] + run);
        AlnumsAppend([s[0]] + run, rest);
        SanitizeKeepsAlnums(rest);
        AlnumsAppend("_", Sanitize(rest));
      }
    }
  }

  // ---------------------------------------------------------------------
  // ASCII uppercasing.
  // ---------------------------------------------------------------------

  predicate IsAsciiLower(c: char)
  {
    'a' <= c <= 'z'
  }

  /** `char::to_ascii_uppercase`. */
  function UpperChar(c: char): char
  {
    if IsAsciiLower(c) then (c as int - 32) as char else c
  }

  /** `str::to_ascii_uppercase`: each character on its own. */
  function UpperAscii(s: string): (r: string)
    ensures |r| == |s|
    ensures forall i :: 0 <= i < |s| ==> r[i] == UpperChar(s[i])
  {
    if s == [] then [] else [UpperChar(s[0])] + UpperAscii(s[1..])
  }

  /** `a`..`z` become `A`..`Z`; every other character, ASCII or not, is
      left as it is. */
  lemma UpperAsciiAt(s: string, i: nat)
    requires i < |s|
    ensures |UpperAscii(s)| == |s|
    ensures 'a' <= s[i] <= 'z' ==> UpperAscii(s)[i] == (s[i] as int - 32) as char
    ensures 'a' <= s[i] <= 'z' ==> 'A' <= UpperAscii(s)[i] <= 'Z'
    ensures !('a' <= s[i] <= 'z') ==> UpperAscii(s)[i] == s[i]
  {
  }

  /** Uppercasing leaves no lower-case ASCII letter and is idempotent. */
  lemma UpperAsciiIdempotent(s: string)
    ensures forall i :: 0 <= i < |s| ==> !IsAsciiLower(UpperAscii(s)[i])
    ensures UpperAscii(UpperAscii(s)) == UpperAscii(s)
  {
  }

  // ---------------------------------------------------------------------
  // Splitting on, and joining with, a literal separator.
  // ---------------------------------------------------------------------

  /** `s` starts with `p`. */
  predicate StartsWith(s: string, p: string)
  {
    |p| <= |s| && s[..|p|] == p
  }

  /** `sep` occurs in `s` starting at position `i`. */
  predicate OccursAt(s: string, sep: string, i: int)
  {
    0 <= i && i + |sep| <= |s| && s[i..i + |sep|] == sep
  }

  /** The first two characters of an occurrence. */
  lemma OccursAtHead(s: string, sep: string, i: int)
    requires |sep| >= 2 && OccursAt(s, sep, i)
    ensures s[i] == sep[0] && s[i + 1] == sep[1]
  {
    assert s[i..i + |sep|][0] == s[i] && s[i..i + |sep|][1] == s[i + 1];
  }

  /** `sep` occurs in `s` at some position. */
  predicate Contains(s: string, sep: string)
  {
    exists i :: 0 <= i <= |s| && OccursAt(s, sep, i)
  }

  /** Splitting of `s` when the current, unfinished piece is `cur`. */
  function SplitFrom(s: string, sep: string, cur: string): (r: seq<string>)
    requires sep != []
    ensures |r| >= 1
    decreases |s|
  {
    if s == [] then [cur]
    else if StartsWith(s, sep) then [cur] + SplitFrom(s[|sep|..], sep, [])
    else SplitFrom(s[1..], sep, cur + [s[0]])
  }

  /** `str::split` with a string pattern: the pieces between the
      non-overlapping occurrences of `sep`, found left to right. */
  function Split(s: string, sep: string): (r: seq<string>)
    requires sep != []
    ensures |r| >= 1
    ensures Join(r, sep) == s
  {
    JoinSplitFrom(s, sep, []);
    SplitFrom(s, sep, [])
  }

  /** The summed length of the pieces. */
  function TotalLength(parts: seq<string>): nat
  {
    if parts == [] then 0 else |parts[0]| + TotalLength(parts[1..])
  }

  /** `[String]::join`: the pieces with `sep` between neighbours. */
  function Join(parts: seq<string>, sep: string): (r: string)
    ensures parts == [] ==> r == []
    ensures parts != [] ==> |r| == TotalLength(parts) + (|parts| - 1) * |sep|
  {
    if parts == [] then []
    else if |parts| == 1 then parts[0]
    else parts[0] + sep + Join(parts[1..], sep)
  }

  lemma {:induction false} JoinSplitFrom(s: string, sep: string, cur: string)
    requires sep != []
    ensures Join(SplitFrom(s, sep, cur), sep) == cur + s
    decreases |s|
  {
    if s == [] {
      assert cur + s == cur;
    } else if StartsWith(s, sep) {
      var rest := SplitFrom(s[|sep|..], sep, []);
      JoinSplitFrom(s[|sep|..], sep, []);
      assert ([cur] + rest)[1..] == rest;
      assert s == sep + s[|sep|..];
    } else {
      JoinSplitFrom(s[1..], sep, cur + [s[0]]);
      assert s == [s[0]] + s[1..];
    }
  }

  /** No occurrence of `sep` starts inside `cur` and ends inside `cur + s`. */
  ghost predicate NoOccurrenceFrom(cur: string, s: string, sep: string)
  {
    forall i :: 0 <= i < |cur| ==> !OccursAt(cur + s, sep, i)
  }

  lemma {:induction false} SplitFromNoSep(s: string, sep: string, cur: string)
    requires sep != []
    requires NoOccurrenceFrom(cur, s, sep)
    ensures forall k :: 0 <= k < |SplitFrom(s, sep, cur)| ==> !Contains(SplitFrom(s, sep, cur)[k], sep)
    decreases |s|
  {
    var r := SplitFrom(s, sep, cur);
    if s == [] {
      assert cur + s == cur;
      NoOccurrenceNoContains(cur, sep);
    } else if StartsWith(s, sep) {
      NoOccurrencePrefix(cur, s, sep);
      SplitFromNoSep(s[|sep|..], sep, []);
    } else {
      assert cur + s == (cur + [s[0]]) + s[1..];
      SplitFromNoSep(s[1..], sep, cur + [s[0]]);
    }
  }

  lemma NoOccurrencePrefix(cur: string, s: string, sep: string)
    requires sep != []
    requires NoOccurrenceFrom(cur, s, sep)
    ensures !Contains(cur, sep)
  {
    forall i | 0 <= i <= |cur|
      ensures !OccursAt(cur, sep, i)
    {
      if i + |sep| <= |cur| {
        assert !OccursAt(cur + s, sep, i);
        assert (cur + s)[i..i + |sep|] == cur[i..i + |sep|];
      }
    }
  }

  lemma NoOccurrenceNoContains(cur: string, sep: string)
    requires sep != []
    requires NoOccurrenceFrom(cur, [], sep)
    ensures !Contains(cur, sep)
  {
    assert cur + [] == cur;
  }

  /** No piece contains the separator. */
  lemma SplitNoSep(s: string, sep: string)
    requires sep != []
    ensures forall k :: 0 <= k < |Split(s, sep)| ==> !Contains(Split(s, sep)[k], sep)
  {
    SplitFromNoSep(s, sep, []);
  }

  /** `x` holds no character that could start the separator. */
  predicate FreeOf(x: string, sep: string)
    requires sep != []
  {
    forall p :: 0 <= p < |x| ==> x[p] != sep[0]
  }

  /** A stretch where no separator can start joins the current piece. */
  lemma {:induction false} SplitFromFree(x: string, y: string, sep: string, cur: string)
    requires sep != [] && FreeOf(x, sep)
    ensures SplitFrom(x + y, sep, cur) == SplitFrom(y, sep, cur + x)
    decreases |x|
  {
    if x == [] {
      assert x + y == y;
      assert cur + x == cur;
    } else {
      assert (x + y)[0] == x[0];
      assert (x + y)[1..] == x[1..] + y;
      assert cur + x == (cur + [x[0]]) + x[1..];
      SplitFromFree(x[1..], y, sep, cur + [x[0]]);
    }
  }

  /** Splitting undoes joining when no piece holds the separator's first
      character. */
  lemma {:induction false} SplitJoin(parts: seq<string>, sep: string)
    requires sep != [] && |parts| >= 1
    requires forall k :: 0 <= k < |parts| ==> FreeOf(parts[k], sep)
    ensures Split(Join(parts, sep), sep) == parts
    decreases |parts|
  {
    if |parts| == 1 {
      SplitFromFree(parts[0], [], sep, []);
      assert parts[0] + [] == parts[0];
      assert [] + parts[0] == parts[0];
    } else {
      var rest := Join(parts[1..], sep);
      assert Join(parts, sep) == parts[0] + (sep + rest);
      SplitFromFree(parts[0], sep + rest, sep, []);
      assert [] + parts[0] == parts[0];
      assert StartsWith(sep + rest, sep);
      assert (sep + rest)[|sep|..] == rest;
      SplitJoin(parts[1..], sep);
    }
  }

  /** The taxonomy lineage with every `"; "` replaced by `"__"`. */
  function Lineage(taxonomy: string): (r: string)
    ensures |r| == |taxonomy|
  {
    Join(Split(taxonomy, "; "), "__")
  }

  lemma {:induction false} SplitFromNoOccurrence(s: string, sep: string, cur: string)
    requires sep != [] && !Contains(s, sep)
    ensures SplitFrom(s, sep, cur) == [cur + s]
    decreases |s|
  {
    if s == [] {
      assert cur + s == cur;
    } else {
      assert !OccursAt(s, sep, 0);
      if |sep| <= |s| {
        assert s[..|sep|] == s[0..|sep|];
      }
      forall i | 0 <= i <= |s[1..]| && OccursAt(s[1..], sep, i)
        ensures false
      {
        assert s[1..][i..i + |sep|] == s[i + 1..i + 1 + |sep|];
        assert OccursAt(s, sep, i + 1);
      }
      assert cur + s == (cur + [s[0]]) + s[1..];
      SplitFromNoOccurrence(s[1..], sep, cur + [s[0]]);
    }
  }

  /** A lineage with no exact `"; "` separator is left as it is. */
  lemma LineageUnsplit(taxonomy: string)
    requires !Contains(taxonomy, "; ")
    ensures Lineage(taxonomy) == taxonomy
  {
    SplitFromNoOccurrence(taxonomy, "; ", []);
    assert [] + taxonomy == taxonomy;
  }

  /** Joining two pieces puts one separator between them. */
  lemma JoinTwo(a: string, b: string, sep: string)
    ensures Join([a, b], sep) == a + sep + b
  {
    assert [a, b][1..] == [b];
  }

  /** Joining three pieces puts one separator between each neighbouring pair. */
  lemma JoinThree(a: string, b: string, c: string, sep: string)
    ensures Join([a, b, c], sep) == a + sep + b + sep + c
  {
    assert [a, b, c][1..] == [b, c];
    JoinTwo(b, c, sep);
    assert a + sep + (b + sep + c) == a + sep + b + sep + c;
  }

  /** Pieces of word characters joined by a separator of word characters
      are all word characters. */
  lemma {:induction false} JoinAllWord(parts: seq<string>, sep: string)
    requires forall k :: 0 <= k < |parts| ==> AllWord(parts[k])
    requires AllWord(sep)
    ensures AllWord(Join(parts, sep))
    decreases |parts|
  {
    if |parts| > 1 {
      JoinAllWord(parts[1..], sep);
      var rest := Join(parts[1..], sep);
      assert Join(parts, sep) == parts[0] + sep + rest;
      forall i | 0 <= i < |Join(parts, sep)|
        ensures IsWord(Join(parts, sep)[i])
      {
        if i < |parts[0]| {
          assert Join(parts, sep)[i] == parts[0][i];
        } else if i < |parts[0]| + |sep| {
          assert Join(parts, sep)[i] == sep[i - |parts[0]|];
        } else {
          assert Join(parts, sep)[i] == rest[i - |parts[0]| - |sep|];
        }
      }
    }
  }

  /** Ranks made of word characters, written with the standard `"; "`
      separator, become the ranks joined by `"__"`, which the `\W+`
      substitution then leaves alone. */
  lemma LineageOfWords(ranks: seq<string>)
    requires |ranks| >= 1
    requires forall k :: 0 <= k < |ranks| ==> AllWord(ranks[k])
    ensures Lineage(Join(ranks, "; ")) == Join(ranks, "__")
    ensures Sanitize(Lineage(Join(ranks, "; "))) == Join(ranks, "__")
  {
    forall k | 0 <= k < |ranks|
      ensures FreeOf(ranks[k], "; ")
    {
      WordFreeOfSemicolon(ranks[k]);
    }
    SplitJoin(ranks, "; ");
    assert Lineage(Join(ranks, "; ")) == Join(ranks, "__");
    JoinAllWord(ranks, "__");
    SanitizeFixedPoint(Join(ranks, "__"));
  }

  lemma WordFreeOfSemicolon(w: string)
    requires AllWord(w)
    ensures FreeOf(w, "; ")
  {
    forall p | 0 <= p < |w|
      ensures w[p] != ';'
    {
      assert IsWord(w[p]);
    }
  }

  /** Two ranks separated by a bare `;` are not split; the substitution
      turns the `;` into one underscore. */
  lemma LineageTightSemicolon(a: string, b: string)
    requires AllWord(a) && AllWord(b)
    ensures Lineage(a + ";" + b) == a + ";" + b
    ensures Sanitize(Lineage(a + ";" + b)) == a + "_" + b
  {
    var tight := a + ";" + b;
    forall i | 0 <= i <= |tight| && OccursAt(tight, "; ", i)
      ensures false
    {
      OccursAtHead(tight, "; ", i);
    }
    LineageUnsplit(tight);
    SanitizeFixedPoint(b);
    SanitizeSeparated(a, ";", b);
  }

  /** The exact separator splits; a bare `;` does not. */
  lemma LineageOfTwo()
    ensures Lineage("A; B") == "A__B"
    ensures Sanitize(Lineage("A; B")) == "A__B"
    ensures Lineage("A;B") == "A;B"
    ensures Sanitize(Lineage("A;B")) == "A_B"
  {
    var a, b := "A", "B";
    assert AllWord(a) && AllWord(b);
    JoinTwo(a, b, "; ");
    JoinTwo(a, b, "__");
    LineageOfWords([a, b]);
    LineageTightSemicolon(a, b);
    assert a + "; " + b == "A; B";
    assert a + "__" + b == "A__B";
    assert a + ";" + b == "A;B";
    assert a + "_" + b == "A_B";
  }

  /** A three-rank lineage written with the standard separator. */
  lemma LineageExample()
    ensures Sanitize(Lineage("Bacteria" + "; " + "Proteobacteria" + "; " + "Gammaproteobacteria"))
         == "Bacteria" + "__" + "Proteobacteria" + "__" + "Gammaproteobacteria"
  {
    var a, b, c := "Bacteria", "Proteobacteria", "Gammaproteobacteria";
    assert AllWord(a) && AllWord(b) && AllWord(c);
    JoinThree(a, b, c, "; ");
    JoinThree(a, b, c, "__");
    LineageOfWords([a, b, c]);
  }

  /** A word, a run of separators and what follows a word boundary: the run
      becomes one underscore between the two. */
  lemma SanitizeSeparated(w: string, sep: string, s: string)
    requires AllWord(w) && sep != [] && AllNonWord(sep)
    requires s == [] || IsWord(s[0])
    ensures Sanitize(w + sep + s) == w + "_" + Sanitize(s)
  {
    calc {
      Sanitize(w + sep + s);
      { assert w + sep + s == w + (sep + s); }
      Sanitize(w + (sep + s));
      { SanitizeWordPrefix(w, sep + s); }
      w + Sanitize(sep + s);
      { SanitizeNonWordRun(sep, s); }
      w + ("_" + Sanitize(s));
      w + "_" + Sanitize(s);
    }
  }

  /** Four names separated by runs of non-word characters become the
      names joined by single underscores. */
  lemma SanitizeFourNames(w1: string, w2: string, w3: string, w4: string, s1: string, s2: string, s3: string)
    requires AllWord(w1) && AllWord(w2) && AllWord(w3) && AllWord(w4)
    requires w2 != [] && w3 != [] && w4 != []
    requires s1 != [] && s2 != [] && s3 != [] && AllNonWord(s1) && AllNonWord(s2) && AllNonWord(s3)
    ensures Sanitize(w1 + s1 + w2 + s2 + w3 + s3 + w4) == w1 + "_" + w2 + "_" + w3 + "_" + w4
  {
    SanitizeFixedPoint(w4);
    SanitizeSeparated(w3, s3, w4);
    SanitizeSeparated(w2, s2, w3 + s3 + w4);
    SanitizeSeparated(w1, s1, w2 + s2 + (w3 + s3 + w4));
    Regroup(w1, s1, w2, s2, w3, s3, w4);
    Regroup(w1, "_", w2, "_", w3, "_", w4);
  }

  /** Regrouping a concatenation of seven pieces from the right. */
  lemma Regroup(a: string, b: string, c: string, d: string, e: string, f: string, g: string)
    ensures a + b + c + d + e + f + g == a + b + (c + d + (e + f + g))
  {
    var p := a + b + c + d;
    assert p + e + f == p + (e + f);
    assert p + (e + f) + g == p + (e + f + g);
    assert a + b + c + d + (e + f + g) == a + b + (c + d + (e + f + g));
  }

  /** The organism name of the canonical test strain. */
  lemma OrganismExample()
    ensures Sanitize("Escherichia" + " " + "coli" + " " + "K" + "-" + "12")
         == "Escherichia" + "_" + "coli" + "_" + "K" + "_" + "12"
  {
    var genus, species, strain, number := "Escherichia", "coli", "K", "12";
    assert AllWord(genus) && AllWord(species) && AllWord(strain) && AllWord(number);
    assert AllNonWord(" ") && AllNonWord("-");
    SanitizeFourNames(genus, species, strain, number, " ", " ", "-");
  }

}
