/** Option and Result, the shapes every module below uses for "absent" and
    for Python's (ok, value_or_error) tuples and raised exceptions. */
module Wrappers {

  datatype Option<+T> = None | Some(value: T)

  datatype Result<+T, +E> = Ok(value: T) | Err(error: E) {
    predicate IsOk() { Ok? }
  }
}

/** Generic sequence helpers: an order-preserving filter, built up from the
    back so that a loop appending to a list matches it prefix by prefix. */
module Seqs {

  function Filter<T>(p: T -> bool, xs: seq<T>): (r: seq<T>)
    ensures |r| <= |xs|
    ensures forall i :: 0 <= i < |r| ==> r[i] in xs && p(r[i])
    ensures forall i :: 0 <= i < |xs| && p(xs[i]) ==> xs[i] in r
  {
    if xs == [] then []
    else Filter(p, xs[..|xs| - 1]) + (if p(xs[|xs| - 1]) then [xs[|xs| - 1]] else [])
  }

  /** Nothing is kept when nothing satisfies p. */
  lemma {:induction false} FilterNone<T>(p: T -> bool, xs: seq<T>)
    requires forall i :: 0 <= i < |xs| ==> !p(xs[i])
    ensures Filter(p, xs) == []
  {
    if xs != [] {
      FilterNone(p, xs[..|xs| - 1]);
    }
  }

  /** Filter distributes over concatenation. */
  lemma {:induction false} FilterAppend<T>(p: T -> bool, xs: seq<T>, ys: seq<T>)
    ensures Filter(p, xs + ys) == Filter(p, xs) + Filter(p, ys)
  {
    if ys == [] {
      assert xs + ys == xs;
    } else {
      assert (xs + ys)[..|xs + ys| - 1] == xs + ys[..|ys| - 1];
      FilterAppend(p, xs, ys[..|ys| - 1]);
    }
  }

  /** One step of a loop that appends the elements it keeps. */
  lemma {:induction false} FilterSnoc<T>(p: T -> bool, xs: seq<T>, i: nat)
    requires i < |xs|
    ensures Filter(p, xs[..i + 1]) == Filter(p, xs[..i]) + (if p(xs[i]) then [xs[i]] else [])
  {
    assert xs[..i + 1][..i] == xs[..i];
  }

  /** What a filter keeps, in order: the result is the input with some
      elements dropped, and every element it keeps satisfies p. */
  lemma {:induction false} FilterIsSubsequence<T>(p: T -> bool, xs: seq<T>)
    ensures Filter(p, xs) == xs <==> forall i :: 0 <= i < |xs| ==> p(xs[i])
  {
    if xs != [] {
      var init := xs[..|xs| - 1];
      FilterIsSubsequence(p, init);
      assert xs == init + [xs[|xs| - 1]];
      if Filter(p, xs) == xs {
        // the last element survived, so the prefix did too
        assert |Filter(p, init)| <= |init|;
      }
    }
  }

  /** Keep the first occurrence of each element, as `dict.fromkeys` does. */
  function Dedupe<T(==)>(xs: seq<T>): (r: seq<T>)
    ensures forall i :: 0 <= i < |r| ==> r[i] in xs
    ensures forall i :: 0 <= i < |xs| ==> xs[i] in r
    ensures forall i, j :: 0 <= i < j < |r| ==> r[i] != r[j]
    ensures xs != [] ==> r != [] && r[0] == xs[0]
  {
    if xs == [] then []
    else
      var init := Dedupe(xs[..|xs| - 1]);
      if xs[|xs| - 1] in init then init else init + [xs[|xs| - 1]]
  }

  /** A list without repeats is its own de-duplication. */
  lemma {:induction false} DedupeDistinct<T>(xs: seq<T>)
    requires forall i, j :: 0 <= i < j < |xs| ==> xs[i] != xs[j]
    ensures Dedupe(xs) == xs
  {
    if xs != [] {
      var init := xs[..|xs| - 1];
      DedupeDistinct(init);
      assert xs[|xs| - 1] !in init by {
        forall k | 0 <= k < |init| ensures init[k] != xs[|xs| - 1] {
          assert init[k] == xs[k];
        }
      }
      assert xs == init + [xs[|xs| - 1]];
    }
  }

  // In-place list edits, as slices.

  /** `xs[i] = b` */
  lemma {:induction false} UpdateAsSlices<T>(xs: seq<T>, i: nat, b: T)
    requires i < |xs|
    ensures xs[i := b] == xs[..i] + [b] + xs[i + 1..]
  {
  }

  /** `xs[i - 1] = a; xs[i] = b` */
  lemma {:induction false} UpdateTwoAsSlices<T>(xs: seq<T>, i: nat, a: T, b: T)
    requires 0 < i < |xs|
    ensures xs[i - 1 := a][i := b] == xs[..i - 1] + [a, b] + xs[i + 1..]
  {
  }

  /** `del xs[i - 1]; xs[i - 1] = b` */
  lemma {:induction false} DeleteThenUpdateAsSlices<T>(xs: seq<T>, i: nat, b: T)
    requires 0 < i < |xs|
    ensures (xs[..i - 1] + xs[i..])[i - 1 := b] == xs[..i - 1] + [b] + xs[i + 1..]
  {
    var ys := xs[..i - 1] + xs[i..];
    assert ys[i..] == xs[i + 1..];
    UpdateAsSlices(ys, i - 1, b);
    assert ys[..i - 1] == xs[..i - 1];
  }

  /** `xs[i] = b; xs.insert(i, a)` */
  lemma {:induction false} UpdateThenInsertAsSlices<T>(xs: seq<T>, i: nat, a: T, b: T)
    requires i < |xs|
    ensures var ys := xs[i := b]; ys[..i] + [a] + ys[i..] == xs[..i] + [a, b] + xs[i + 1..]
  {
    var ys := xs[i := b];
    assert ys[..i] == xs[..i];
    assert ys[i..] == [b] + xs[i + 1..];
  }
}
