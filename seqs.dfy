/** Facts about sequences used by the graph registry and the stats translation. */
module Seqs {

  /** No element occurs twice. */
  ghost predicate NoDup<T>(s: seq<T>)
  {
    forall i, j :: 0 <= i < j < |s| ==> s[i] != s[j]
  }

  /** The index of the first occurrence of `x` in `xs`. */
  function FirstIndex<T(==)>(xs: seq<T>, x: T): (k: nat)
    requires x in xs
    ensures k < |xs| && xs[k] == x
    ensures forall j :: 0 <= j < k ==> xs[j] != x
  {
    if xs[0] == x then 0 else 1 + FirstIndex(xs[1..], x)
  }

  /**
   * The elements of `xs` that are not in `seen`, each once, in the order of their
   * first occurrence in `xs`. Defined by its last element, the way a loop over
   * `xs` builds it.
   */
  function Fresh<T(==)>(xs: seq<T>, seen: set<T>): seq<T>
    decreases |xs|
  {
    if xs == [] then []
    else
      var init, x := xs[..|xs| - 1], xs[|xs| - 1];
      var u := Fresh(init, seen);
      if x in seen || x in init then u else u + [x]
  }

  /** De-duplication keeping first occurrences (lodash `uniq`). */
  function Uniq<T(==)>(xs: seq<T>): seq<T>
  {
    Fresh(xs, {})
  }

  /** `Fresh` keeps exactly the elements of `xs` that are not already `seen`. */
  lemma {:induction false} FreshMembers<T>(xs: seq<T>, seen: set<T>)
    ensures forall x :: x in Fresh(xs, seen) <==> x in xs && x !in seen
    decreases |xs|
  {
    if xs != [] {
      var init := xs[..|xs| - 1];
      FreshMembers(init, seen);
      assert xs == init + [xs[|xs| - 1]];
    }
  }

  /** `Fresh` never lists an element twice. */
  lemma {:induction false} FreshNoDup<T>(xs: seq<T>, seen: set<T>)
    ensures NoDup(Fresh(xs, seen))
    decreases |xs|
  {
    if xs != [] {
      var init := xs[..|xs| - 1];
      FreshNoDup(init, seen);
      FreshMembers(init, seen);
    }
  }

  /** Every element of `u` occurs in `xs`, and `u` lists them by increasing first occurrence. */
  ghost predicate InFirstOccurrenceOrder<T>(u: seq<T>, xs: seq<T>)
  {
    && (forall x :: x in u ==> x in xs)
    && forall i, j :: 0 <= i < j < |u| ==> FirstIndex(xs, u[i]) < FirstIndex(xs, u[j])
  }

  /** `Fresh` lists its elements in the order of their first occurrence in `xs`. */
  lemma {:induction false} FreshFirstOccurrence<T>(xs: seq<T>, seen: set<T>)
    ensures InFirstOccurrenceOrder(Fresh(xs, seen), xs)
    decreases |xs|
  {
    if xs != [] {
      var init, x := xs[..|xs| - 1], xs[|xs| - 1];
      FreshFirstOccurrence(init, seen);
      assert xs == init + [x];
      if x in seen || x in init {
        OrderExtendOld(Fresh(init, seen), init, x);
      } else {
        OrderExtendNew(Fresh(init, seen), init, x);
      }
    }
  }

  /** Appending to `xs` keeps the order of elements that already occurred. */
  lemma OrderExtendOld<T>(u: seq<T>, xs: seq<T>, x: T)
    requires InFirstOccurrenceOrder(u, xs)
    ensures InFirstOccurrenceOrder(u, xs + [x])
  {
    forall i, j | 0 <= i < j < |u|
      ensures FirstIndex(xs + [x], u[i]) < FirstIndex(xs + [x], u[j])
    {
      FirstIndexPrefix(xs, [x], u[i]);
      FirstIndexPrefix(xs, [x], u[j]);
    }
  }

  /** A new last element of `xs` comes after every element that already occurred. */
  lemma OrderExtendNew<T>(u: seq<T>, xs: seq<T>, x: T)
    requires InFirstOccurrenceOrder(u, xs)
    requires x !in xs
    ensures InFirstOccurrenceOrder(u + [x], xs + [x])
  {
    var n := |xs|;
    var xs' := xs + [x];
    assert xs'[n] == x;
    var u' := u + [x];
    forall i, j | 0 <= i < j < |u'|
      ensures FirstIndex(xs', u'[i]) < FirstIndex(xs', u'[j])
    {
      assert u'[i] == u[i];
      FirstIndexPrefix(xs, [x], u[i]);
      if j < |u| {
        assert u'[j] == u[j];
        FirstIndexPrefix(xs, [x], u[j]);
      }
    }
  }

  /** The first occurrence of an element of `a` in `a + b` is its first occurrence in `a`. */
  lemma {:induction false} FirstIndexPrefix<T>(a: seq<T>, b: seq<T>, y: T)
    requires y in a
    ensures y in a + b && FirstIndex(a + b, y) == FirstIndex(a, y)
  {
    var k := FirstIndex(a, y);
    assert (a + b)[k] == y;
  }

  /** A list without repetitions, none of whose elements are `seen`, is its own `Fresh`. */
  lemma {:induction false} FreshOfNoDup<T>(xs: seq<T>, seen: set<T>)
    requires NoDup(xs) && forall x :: x in xs ==> x !in seen
    ensures Fresh(xs, seen) == xs
    decreases |xs|
  {
    if xs != [] {
      var init := xs[..|xs| - 1];
      assert forall x :: x in init ==> x in xs;
      FreshOfNoDup(init, seen);
      assert xs == init + [xs[|xs| - 1]];
    }
  }

  /** A sequence is its part before `i`, its `i`-th element and its part after. */
  lemma SplitAt<T>(s: seq<T>, i: nat)
    requires i < |s|
    ensures s == s[..i] + [s[i]] + s[i + 1..]
  {
  }

  /** The prefix one longer than `i` extends the prefix of length `i` by `s[i]`. */
  lemma PrefixSnoc<T>(s: seq<T>, i: nat)
    requires i < |s|
    ensures s[..i + 1][..i] == s[..i] && s[..i + 1][i] == s[i]
  {
  }

  /** The prefix of full length is the whole sequence. */
  lemma WholePrefix<T>(s: seq<T>)
    ensures s[..|s|] == s
  {
  }
}
