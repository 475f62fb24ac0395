/** The iterator pipelines of the extractor, over steps that may abort:
    `map(..).collect()`, a lazily filtered `for` loop that pushes one item
    per selected element, and the concatenation of such runs. Steps run in
    sequence order and the first failure ends the whole run. */
module Collect {
  import opened Results

  /** `Ok(prefix + v)` for `Ok(v)`; an error is kept as it is. */
  function Prepend<U>(prefix: seq<U>, r: Result<seq<U>>): (s: Result<seq<U>>)
    ensures s.Ok? <==> r.Ok?
    ensures s.Err? ==> s == r
    ensures s.Ok? ==> |s.value| == |prefix| + |r.value|
    ensures s.Ok? ==> s.value[..|prefix|] == prefix && s.value[|prefix|..] == r.value
  {
    match r
    case Ok(v) => Ok(prefix + v)
    case Err(e) => Err(e)
  }

  lemma PrependTwice<U>(a: seq<U>, b: seq<U>, r: Result<seq<U>>)
    ensures Prepend(a, Prepend(b, r)) == Prepend(a + b, r)
  {
    if r.Ok? {
      assert a + (b + r.value) == (a + b) + r.value;
    }
  }

  /** The items of `first` followed by those of `second`; the first error
      wins. */
  function Chain<U>(first: Result<seq<U>>, second: Result<seq<U>>): (r: Result<seq<U>>)
    ensures r.Ok? <==> first.Ok? && second.Ok?
    ensures first.Err? ==> r == first
    ensures first.Ok? && second.Err? ==> r == second
    ensures r.Ok? ==> |r.value| == |first.value| + |second.value|
    ensures r.Ok? ==> r.value[..|first.value|] == first.value && r.value[|first.value|..] == second.value
  {
    match first
    case Err(e) => Err(e)
    case Ok(v) => Prepend(v, second)
  }

  lemma ChainPrepend<U>(prefix: seq<U>, first: Result<seq<U>>, second: Result<seq<U>>)
    ensures Chain(Prepend(prefix, first), second) == Prepend(prefix, Chain(first, second))
  {
    if first.Ok? {
      PrependTwice(prefix, first.value, second);
    }
  }

  /** All items of all runs, one run after the other. */
  function Flatten<U>(runs: seq<seq<U>>): seq<U>
  {
    if runs == [] then [] else runs[0] + Flatten(runs[1..])
  }

  /** `map(f).collect()` where `f` aborts on failure. */
  function CollectAll<T, U>(f: T -> Result<U>, xs: seq<T>): (r: Result<seq<U>>)
    ensures r.Ok? <==> forall k :: 0 <= k < |xs| ==> f(xs[k]).Ok?
    ensures r.Ok? ==> |r.value| == |xs| && forall k :: 0 <= k < |xs| ==> f(xs[k]) == Ok(r.value[k])
    ensures r.Err? ==> exists k :: 0 <= k < |xs| && f(xs[k]) == Err(r.error)
                                   && forall j :: 0 <= j < k ==> f(xs[j]).Ok?
  {
    if xs == [] then Ok([])
    else
      assert forall j :: 1 <= j < |xs| ==> xs[j] == xs[1..][j - 1];
      match f(xs[0])
      case Err(e) => Err(e)
      case Ok(y) =>
        match CollectAll(f, xs[1..])
        case Err(e) => Err(e)
        case Ok(ys) => Ok([y] + ys)
  }

  /** The elements `keep` accepts, in order. */
  function Selected<T>(keep: T -> Result<bool>, xs: seq<T>): (s: seq<T>)
    ensures |s| <= |xs|
  {
    if xs == [] then []
    else if keep(xs[0]) == Ok(true) then [xs[0]] + Selected(keep, xs[1..])
    else Selected(keep, xs[1..])
  }

  /** Selection keeps every accepted element, as often as it occurs, and
      nothing else. */
  lemma {:induction false} SelectedCounts<T>(keep: T -> Result<bool>, xs: seq<T>)
    ensures forall x :: multiset(Selected(keep, xs))[x] == if keep(x) == Ok(true) then multiset(xs)[x] else 0
    ensures forall x :: x in Selected(keep, xs) <==> x in xs && keep(x) == Ok(true)
    decreases |xs|
  {
    if xs != [] {
      SelectedCounts(keep, xs[1..]);
      assert xs == [xs[0]] + xs[1..];
      assert multiset(xs) == multiset{xs[0]} + multiset(xs[1..]);
      if keep(xs[0]) == Ok(true) {
        assert multiset(Selected(keep, xs)) == multiset{xs[0]} + multiset(Selected(keep, xs[1..]));
      }
    }
  }

  /** Selection distributes over concatenation, so it keeps order. */
  lemma {:induction false} SelectedAppend<T>(keep: T -> Result<bool>, xs: seq<T>, ys: seq<T>)
    ensures Selected(keep, xs + ys) == Selected(keep, xs) + Selected(keep, ys)
    decreases |xs|
  {
    if xs == [] {
      assert xs + ys == ys;
    } else {
      assert (xs + ys)[0] == xs[0];
      assert (xs + ys)[1..] == xs[1..] + ys;
      SelectedAppend(keep, xs[1..], ys);
    }
  }

  /** Element `x` stops the filtered loop with error `e`: its test fails
      with `e`, or it is kept and its step fails with `e`. */
  predicate StopsWith<T, U>(keep: T -> Result<bool>, f: T -> Result<U>, x: T, e: Error)
  {
    keep(x) == Err(e) || (keep(x) == Ok(true) && f(x) == Err(e))
  }

  /** Some element of `xs` stops the filtered loop with error `e`, and
      every element before it passes its test and, when kept, its step. */
  predicate FirstStop<T, U>(keep: T -> Result<bool>, f: T -> Result<U>, xs: seq<T>, e: Error)
  {
    exists k :: 0 <= k < |xs| && StopsWith(keep, f, xs[k], e)
                && forall j :: 0 <= j < k ==> keep(xs[j]).Ok? && (keep(xs[j]).value ==> f(xs[j]).Ok?)
  }

  /** `for x in xs.filter(keep) { out.push(f(x)) }`: the filter is lazy, so
      `keep` of an element runs after `f` of every earlier selected one. */
  function CollectSelected<T, U>(keep: T -> Result<bool>, f: T -> Result<U>, xs: seq<T>): (r: Result<seq<U>>)
    ensures r.Ok? <==> forall k :: 0 <= k < |xs| ==> keep(xs[k]).Ok? && (keep(xs[k]).value ==> f(xs[k]).Ok?)
    ensures r.Ok? ==> |r.value| == |Selected(keep, xs)|
    ensures r.Ok? ==> forall k :: 0 <= k < |r.value| ==> f(Selected(keep, xs)[k]) == Ok(r.value[k])
  {
    if xs == [] then Ok([])
    else
      match keep(xs[0])
      case Err(e) => Err(e)
      case Ok(selected) =>
        if !selected then
          assert Selected(keep, xs) == Selected(keep, xs[1..]);
          CollectSelected(keep, f, xs[1..])
        else
          match f(xs[0])
          case Err(e) => Err(e)
          case Ok(y) =>
            assert Selected(keep, xs) == [xs[0]] + Selected(keep, xs[1..]);
            Prepend([y], CollectSelected(keep, f, xs[1..]))
  }

  /** Element `k` witnesses `FirstStop`. */
  lemma FirstStopAt<T, U>(keep: T -> Result<bool>, f: T -> Result<U>, xs: seq<T>, e: Error, k: int)
    requires 0 <= k < |xs| && StopsWith(keep, f, xs[k], e)
    requires forall j :: 0 <= j < k ==> keep(xs[j]).Ok? && (keep(xs[j]).value ==> f(xs[j]).Ok?)
    ensures FirstStop(keep, f, xs, e)
  {
  }

  /** A failing filtered loop reports the error of the first element that
      stops it: every earlier element passed its test and, when kept, its
      step. */
  lemma {:induction false} CollectSelectedFirstError<T, U>(keep: T -> Result<bool>, f: T -> Result<U>, xs: seq<T>)
    ensures CollectSelected(keep, f, xs).Err? ==> FirstStop(keep, f, xs, CollectSelected(keep, f, xs).error)
    decreases |xs|
  {
    if xs != [] && CollectSelected(keep, f, xs).Err? {
      var r := CollectSelected(keep, f, xs);
      if StopsWith(keep, f, xs[0], r.error) {
        FirstStopAt(keep, f, xs, r.error, 0);
      } else {
        var rest := CollectSelected(keep, f, xs[1..]);
        if keep(xs[0]) == Ok(true) {
          assert r == Prepend([f(xs[0]).value], rest);
        }
        CollectSelectedFirstError(keep, f, xs[1..]);
        var k :| 0 <= k < |xs[1..]| && StopsWith(keep, f, xs[1..][k], rest.error)
                 && forall j :: 0 <= j < k ==> keep(xs[1..][j]).Ok? && (keep(xs[1..][j]).value ==> f(xs[1..][j]).Ok?);
        assert forall j :: 1 <= j < k + 1 ==> xs[j] == xs[1..][j - 1];
        FirstStopAt(keep, f, xs, r.error, k + 1);
      }
    }
  }

  /** The runs of `f` over `xs`, concatenated in order. */
  function CollectConcat<T, U>(f: T -> Result<seq<U>>, xs: seq<T>): (r: Result<seq<U>>)
    ensures r.Ok? <==> forall k :: 0 <= k < |xs| ==> f(xs[k]).Ok?
    ensures r.Err? ==> exists k :: 0 <= k < |xs| && f(xs[k]) == Err(r.error)
                                   && forall j :: 0 <= j < k ==> f(xs[j]).Ok?
  {
    if xs == [] then Ok([]) else Chain(f(xs[0]), CollectConcat(f, xs[1..]))
  }

  /** When every run succeeds, the result is their flattening. */
  lemma {:induction false} CollectConcatFlatten<T, U>(f: T -> Result<seq<U>>, xs: seq<T>, runs: seq<seq<U>>)
    requires |runs| == |xs|
    requires forall k :: 0 <= k < |xs| ==> f(xs[k]) == Ok(runs[k])
    ensures CollectConcat(f, xs) == Ok(Flatten(runs))
    decreases |xs|
  {
    if xs != [] {
      CollectConcatFlatten(f, xs[1..], runs[1..]);
    }
  }

  /** Concatenation over a split sequence is the concatenation of the two
      halves: a run's output sits between those of its neighbours. */
  lemma {:induction false} CollectConcatAppend<T, U>(f: T -> Result<seq<U>>, xs: seq<T>, ys: seq<T>)
    requires CollectConcat(f, xs).Ok?
    ensures CollectConcat(f, xs + ys) == Prepend(CollectConcat(f, xs).value, CollectConcat(f, ys))
    decreases |xs|
  {
    if xs == [] {
      assert xs + ys == ys;
    } else {
      assert (xs + ys)[0] == xs[0];
      assert (xs + ys)[1..] == xs[1..] + ys;
      var run := f(xs[0]).value;
      CollectConcatAppend(f, xs[1..], ys);
      PrependTwice(run, CollectConcat(f, xs[1..]).value, CollectConcat(f, ys));
    }
  }

  /** One step of `CollectSelected` at position `j`. */
  lemma SelectedStep<T, U>(keep: T -> Result<bool>, f: T -> Result<U>, xs: seq<T>, j: int)
    requires 0 <= j < |xs|
    ensures keep(xs[j]).Err? ==> CollectSelected(keep, f, xs[j..]) == Err(keep(xs[j]).error)
    ensures keep(xs[j]) == Ok(false) ==> CollectSelected(keep, f, xs[j..]) == CollectSelected(keep, f, xs[j + 1..])
    ensures keep(xs[j]) == Ok(true) && f(xs[j]).Err? ==> CollectSelected(keep, f, xs[j..]) == Err(f(xs[j]).error)
    ensures keep(xs[j]) == Ok(true) && f(xs[j]).Ok? ==>
              CollectSelected(keep, f, xs[j..]) == Prepend([f(xs[j]).value], CollectSelected(keep, f, xs[j + 1..]))
  {
    assert xs[j..][0] == xs[j] && xs[j..][1..] == xs[j + 1..];
  }

  /** One step of `CollectConcat` at position `i`. */
  lemma ConcatStep<T, U>(f: T -> Result<seq<U>>, xs: seq<T>, i: int)
    requires 0 <= i < |xs|
    ensures CollectConcat(f, xs[i..]) == Chain(f(xs[i]), CollectConcat(f, xs[i + 1..]))
  {
    assert xs[i..][0] == xs[i] && xs[i..][1..] == xs[i + 1..];
  }
}
