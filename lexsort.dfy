/** Python's ordering of `str` values (code point by code point, a proper
    prefix first) and `sorted(set(xs))` over it, as the allowlist writer
    uses them. */
module LexSort {

  /** `a < b` on Python strings. */
  predicate LexLess(a: string, b: string)
    decreases |a|
  {
    if a == [] then b != []
    else if b == [] then false
    else if a[0] != b[0] then a[0] < b[0]
    else LexLess(a[1..], b[1..])
  }

  lemma {:induction false} LexLessIrreflexive(a: string)
    ensures !LexLess(a, a)
    decreases |a|
  {
    if a != [] {
      LexLessIrreflexive(a[1..]);
    }
  }

  lemma {:induction false} LexLessTransitive(a: string, b: string, c: string)
    requires LexLess(a, b) && LexLess(b, c)
    ensures LexLess(a, c)
    decreases |a|
  {
    if a != [] && a[0] == b[0] && b[0] == c[0] {
      LexLessTransitive(a[1..], b[1..], c[1..]);
    }
  }

  lemma {:induction false} LexLessTotal(a: string, b: string)
    requires a != b
    ensures LexLess(a, b) || LexLess(b, a)
    decreases |a|
  {
    if a != [] && b != [] && a[0] == b[0] {
      assert a == [a[0]] + a[1..] && b == [b[0]] + b[1..];
      LexLessTotal(a[1..], b[1..]);
    }
  }

  /** The elements of a list, as Python's `set(s)`. */
  function Elems(s: seq<string>): set<string> {
    set k | k in s
  }

  lemma ElemsCons(h: string, t: seq<string>)
    ensures Elems([h] + t) == {h} + Elems(t)
  {
    assert forall k :: k in [h] + t <==> k == h || k in t;
  }

  lemma ElemsSnoc(t: seq<string>, h: string)
    ensures Elems(t + [h]) == Elems(t) + {h}
  {
    assert forall k :: k in t + [h] <==> k in t || k == h;
  }

  /** Strictly increasing: sorted and without duplicates. */
  predicate StrictlySorted(s: seq<string>) {
    forall i, j :: 0 <= i < j < |s| ==> LexLess(s[i], s[j])
  }

  /** Inserts `x` into a strictly sorted list unless it is already there. */
  function Insert(x: string, s: seq<string>): (r: seq<string>)
    requires StrictlySorted(s)
    ensures StrictlySorted(r)
    ensures Elems(r) == {x} + Elems(s)
  {
    if s == [] then
      ElemsCons(x, s);
      [x]
    else if x == s[0] then
      assert x in Elems(s);
      s
    else if LexLess(x, s[0]) then
      InsertFrontSorted(x, s);
      ElemsCons(x, s);
      [x] + s
    else
      LexLessTotal(x, s[0]);
      var rest := Insert(x, s[1..]);
      InsertBehindSorted(x, s, rest);
      ElemsCons(s[0], rest);
      ElemsCons(s[0], s[1..]);
      assert s == [s[0]] + s[1..];
      [s[0]] + rest
  }

  lemma InsertFrontSorted(x: string, s: seq<string>)
    requires StrictlySorted(s) && s != [] && LexLess(x, s[0])
    ensures StrictlySorted([x] + s)
  {
    var r := [x] + s;
    forall i, j | 0 <= i < j < |r|
      ensures LexLess(r[i], r[j])
    {
      if i == 0 && j > 1 {
        LexLessTransitive(x, s[0], s[j - 1]);
      }
    }
  }

  lemma InsertBehindSorted(x: string, s: seq<string>, rest: seq<string>)
    requires StrictlySorted(s) && s != [] && LexLess(s[0], x)
    requires StrictlySorted(rest)
    requires Elems(rest) == {x} + Elems(s[1..])
    ensures StrictlySorted([s[0]] + rest)
  {
    var r := [s[0]] + rest;
    forall j | 0 < j < |r|
      ensures LexLess(r[0], r[j])
    {
      assert r[j] in rest;
      assert r[j] in Elems(rest);
      if r[j] != x {
        assert r[j] in Elems(s[1..]);
        assert r[j] in s[1..];
        var k :| 0 <= k < |s[1..]| && s[1..][k] == r[j];
        assert s[k + 1] == r[j];
      }
    }
  }

  /** `sorted(set(xs))`: the distinct elements of `xs`, in increasing order. */
  function SortedSet(xs: seq<string>): (r: seq<string>)
    ensures StrictlySorted(r)
    ensures Elems(r) == Elems(xs)
  {
    if xs == [] then []
    else
      var init := xs[..|xs| - 1];
      assert xs == init + [xs[|xs| - 1]];
      ElemsSnoc(init, xs[|xs| - 1]);
      Insert(xs[|xs| - 1], SortedSet(init))
  }

  /** A strictly sorted list is determined by its elements, so `SortedSet`
      depends only on the set of its input, not on order or repetition. */
  lemma {:induction false} StrictlySortedUnique(a: seq<string>, b: seq<string>)
    requires StrictlySorted(a) && StrictlySorted(b)
    requires Elems(a) == Elems(b)
    ensures a == b
    decreases |a|
  {
    if a != [] {
      assert a[0] in Elems(a);
    }
    if b != [] {
      assert b[0] in Elems(b);
    }
    if a != [] && b != [] {
      assert a[0] in b;
      assert b[0] in a;
      // The first elements are both minimal, so they agree.
      assert a[0] == b[0] by {
        if a[0] != b[0] {
          var i :| 0 <= i < |b| && b[i] == a[0];
          var j :| 0 <= j < |a| && a[j] == b[0];
          assert i > 0 && j > 0;
          assert LexLess(b[0], a[0]) && LexLess(a[0], b[0]);
          LexLessTransitive(a[0], b[0], a[0]);
          LexLessIrreflexive(a[0]);
        }
      }
      forall k | k in a[1..]
        ensures k in b[1..]
      {
        var i :| 0 <= i < |a[1..]| && a[1..][i] == k;
        assert LexLess(a[0], a[i + 1]);
        LexLessIrreflexive(a[0]);
        assert k in Elems(a);
        assert k in b;
      }
      forall k | k in b[1..]
        ensures k in a[1..]
      {
        var i :| 0 <= i < |b[1..]| && b[1..][i] == k;
        assert LexLess(b[0], b[i + 1]);
        LexLessIrreflexive(b[0]);
        assert k in Elems(b);
        assert k in a;
      }
      assert Elems(a[1..]) == Elems(b[1..]) by {
        forall k ensures k in Elems(a[1..]) <==> k in Elems(b[1..]) {
          if k in Elems(a[1..]) { assert k in a[1..]; }
          if k in Elems(b[1..]) { assert k in b[1..]; }
        }
      }
      StrictlySortedUnique(a[1..], b[1..]);
      assert a == [a[0]] + a[1..] && b == [b[0]] + b[1..];
    }
  }

  /** `sorted(set(xs))` is idempotent and ignores order and repetition. */
  lemma SortedSetBySet(xs: seq<string>, ys: seq<string>)
    requires Elems(xs) == Elems(ys)
    ensures SortedSet(xs) == SortedSet(ys)
    ensures SortedSet(SortedSet(xs)) == SortedSet(xs)
  {
    StrictlySortedUnique(SortedSet(xs), SortedSet(ys));
    StrictlySortedUnique(SortedSet(SortedSet(xs)), SortedSet(xs));
  }
}
