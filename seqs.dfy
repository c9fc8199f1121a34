/** Sequence helpers: `list(dict.fromkeys(xs))` (de-duplication keeping the
    first occurrence) and the strictly increasing key lists `sorted` yields
    for the keys of a dict. */
module Seqs {
  import opened Text

  predicate NoDup<T(==)>(s: seq<T>) {
    forall i, j :: 0 <= i < j < |s| ==> s[i] != s[j]
  }

  /** Index of the first occurrence of `x` in `s`. */
  function FirstIndex<T(==)>(s: seq<T>, x: T): (i: nat)
    requires x in s
    ensures i < |s| && s[i] == x
    ensures forall j :: 0 <= j < i ==> s[j] != x
  {
    if s[0] == x then 0 else 1 + FirstIndex(s[1..], x)
  }

  /** `list(dict.fromkeys(xs))`: each element once, where it first occurs. */
  function Dedup(xs: seq<string>): (r: seq<string>)
    ensures NoDup(r)
    ensures forall x :: x in r <==> x in xs
    ensures |r| <= |xs|
  {
    if |xs| == 0 then []
    else
      var p := Dedup(xs[..|xs| - 1]);
      var x := xs[|xs| - 1];
      if x in p then p else p + [x]
  }

  lemma FirstIndexOfPrefix<T>(s: seq<T>, z: T, x: T)
    requires x in s
    ensures x in s + [z] && FirstIndex(s + [z], x) == FirstIndex(s, x)
  {
    var i := FirstIndex(s, x);
    assert (s + [z])[i] == x;
  }

  /** De-duplication keeps first-occurrence order. */
  lemma {:induction false} DedupKeepsFirstOccurrenceOrder(xs: seq<string>)
    ensures forall i, j :: 0 <= i < j < |Dedup(xs)| ==>
      FirstIndex(xs, Dedup(xs)[i]) < FirstIndex(xs, Dedup(xs)[j])
  {
    if |xs| > 0 {
      var ys := xs[..|xs| - 1];
      var x := xs[|xs| - 1];
      assert xs == ys + [x];
      var p := Dedup(ys);
      DedupKeepsFirstOccurrenceOrder(ys);
      forall y | y in ys
        ensures FirstIndex(xs, y) == FirstIndex(ys, y)
      {
        FirstIndexOfPrefix(ys, x, y);
      }
      var r := Dedup(xs);
      forall i, j | 0 <= i < j < |r|
        ensures FirstIndex(xs, r[i]) < FirstIndex(xs, r[j])
      {
        assert r[i] in ys;
        if j < |p| {
          assert r[j] == p[j] && r[i] == p[i];
        } else {
          assert r[j] == x && x !in ys;
          assert FirstIndex(xs, x) == |ys|;
        }
      }
    }
  }

  /** Two first-occurrence orders of the same elements are equal:
      together with the lemma above, this pins `Dedup(xs)` down. */
  lemma {:induction false} DedupUnique(xs: seq<string>, r: seq<string>)
    requires NoDup(r)
    requires forall x :: x in r <==> x in xs
    requires forall i, j :: 0 <= i < j < |r| ==> FirstIndex(xs, r[i]) < FirstIndex(xs, r[j])
    ensures r == Dedup(xs)
  {
    var d := Dedup(xs);
    DedupKeepsFirstOccurrenceOrder(xs);
    SameOrderSameSeq(xs, r, d);
  }

  lemma {:induction false} SameOrderSameSeq(xs: seq<string>, r: seq<string>, d: seq<string>)
    requires NoDup(r) && NoDup(d)
    requires forall x :: x in r <==> x in xs
    requires forall x :: x in d <==> x in xs
    requires forall i, j :: 0 <= i < j < |r| ==> FirstIndex(xs, r[i]) < FirstIndex(xs, r[j])
    requires forall i, j :: 0 <= i < j < |d| ==> FirstIndex(xs, d[i]) < FirstIndex(xs, d[j])
    ensures r == d
    decreases |r|
  {
    HeadIn(r);
    HeadIn(d);
    if |r| > 0 {
      assert |d| > 0 by {
        assert r[0] in xs;
      }
      // the element with the smallest first index leads both sequences
      assert r[0] in xs && d[0] in xs;
      var k := FirstIndex(d, r[0]);
      var m := FirstIndex(r, d[0]);
      assert k == 0;
      var x := r[0];
      var xs' := RemoveAll(xs, x);
      SameOrderSameSeq(xs', r[1..], d[1..]) by {
        forall y ensures y in r[1..] <==> y in xs' {
          RemoveAllMembership(xs, x, y);
        }
        forall y ensures y in d[1..] <==> y in xs' {
          RemoveAllMembership(xs, x, y);
        }
        forall i, j | 0 <= i < j < |r| - 1
          ensures FirstIndex(xs', r[1..][i]) < FirstIndex(xs', r[1..][j])
        {
          RemoveAllOrder(xs, x, r[1..][i], r[1..][j]);
        }
        forall i, j | 0 <= i < j < |d| - 1
          ensures FirstIndex(xs', d[1..][i]) < FirstIndex(xs', d[1..][j])
        {
          RemoveAllOrder(xs, x, d[1..][i], d[1..][j]);
        }
      }
      assert r == [x] + r[1..] && d == [x] + d[1..];
    }
  }

  lemma HeadIn<T>(s: seq<T>)
    ensures |s| > 0 ==> s[0] in s
  {
  }

  /** `xs` without any occurrence of `x`. */
  function RemoveAll(xs: seq<string>, x: string): (r: seq<string>)
  {
    if |xs| == 0 then []
    else if xs[0] == x then RemoveAll(xs[1..], x)
    else [xs[0]] + RemoveAll(xs[1..], x)
  }

  lemma {:induction false} RemoveAllMembership(xs: seq<string>, x: string, y: string)
    ensures y in RemoveAll(xs, x) <==> y in xs && y != x
  {
    if |xs| > 0 {
      RemoveAllMembership(xs[1..], x, y);
      assert xs == [xs[0]] + xs[1..];
    }
  }

  lemma {:induction false} RemoveAllOrder(xs: seq<string>, x: string, a: string, b: string)
    requires a in xs && b in xs && a != x && b != x
    requires FirstIndex(xs, a) < FirstIndex(xs, b)
    ensures a in RemoveAll(xs, x) && b in RemoveAll(xs, x)
    ensures FirstIndex(RemoveAll(xs, x), a) < FirstIndex(RemoveAll(xs, x), b)
  {
    RemoveAllMembership(xs, x, a);
    RemoveAllMembership(xs, x, b);
    var t := xs[1..];
    if xs[0] == x {
      RemoveAllOrder(t, x, a, b);
    } else if xs[0] != a {
      RemoveAllOrder(t, x, a, b);
      RemoveAllMembership(t, x, a);
    }
  }

  // ----- sorted key lists -----

  /** `ks` is `sorted(s)` for a set of strings: strictly increasing in
      Python's string order, and holding exactly the elements of `s`. */
  ghost predicate SortedKeys(ks: seq<string>, s: set<string>) {
    && (forall i, j :: 0 <= i < j < |ks| ==> LexLess(ks[i], ks[j]))
    && (forall k :: k in ks <==> k in s)
  }

  /** Insert `k` at its place in a strictly increasing list. */
  function Insert(ks: seq<string>, k: string): (r: seq<string>)
  {
    if |ks| == 0 then [k]
    else if LexLess(k, ks[0]) then [k] + ks
    else [ks[0]] + Insert(ks[1..], k)
  }

  lemma {:induction false} InsertSorted(ks: seq<string>, s: set<string>, k: string)
    requires SortedKeys(ks, s) && k !in s
    ensures SortedKeys(Insert(ks, k), s + {k})
  {
    if |ks| > 0 && !LexLess(k, ks[0]) {
      var t := ks[1..];
      assert SortedKeys(t, s - {ks[0]}) by {
        forall x ensures x in t <==> x in s - {ks[0]} {
          if x in t {
            var i :| 0 <= i < |t| && t[i] == x;
            assert ks[i + 1] == x;
            LexLessIrreflexive(x);
          }
          if x in s - {ks[0]} {
            assert x in ks;
            var i :| 0 <= i < |ks| && ks[i] == x;
            assert i != 0 && t[i - 1] == x;
          }
        }
      }
      InsertSorted(t, s - {ks[0]}, k);
      var r := Insert(ks, k);
      LexLessTotal(k, ks[0]);
      assert r == [ks[0]] + Insert(t, k);
      forall j | 0 < j < |r| ensures LexLess(r[0], r[j]) {
        assert r[j] in Insert(t, k);
        if r[j] != k {
          assert r[j] in t;
          var i :| 0 <= i < |t| && t[i] == r[j];
          assert ks[i + 1] == r[j];
        }
      }
    } else if |ks| > 0 {
      var r := Insert(ks, k);
      forall i, j | 0 <= i < j < |r| ensures LexLess(r[i], r[j]) {
        if i == 0 {
          if j > 1 {
            LexLessTransitive(k, ks[0], ks[j - 1]);
          }
        }
      }
    }
  }

  /** `sorted` is a function of the key set: there is only one strictly
      increasing list holding a given set of keys. */
  lemma {:induction false} SortedKeysUnique(a: seq<string>, b: seq<string>, s: set<string>)
    requires SortedKeys(a, s) && SortedKeys(b, s)
    ensures a == b
    decreases |a|
  {
    HeadIn(a);
    HeadIn(b);
    if |a| > 0 {
      assert |b| > 0 by { assert a[0] in s; }
      assert a[0] == b[0] by {
        if a[0] != b[0] {
          assert a[0] in s && b[0] in s;
          var i := FirstIndex(b, a[0]);
          var j := FirstIndex(a, b[0]);
          assert LexLess(b[0], b[i]) && LexLess(a[0], a[j]);
          LexLessTransitive(a[0], b[0], a[0]);
          LexLessIrreflexive(a[0]);
        }
      }
      var s' := s - {a[0]};
      forall x ensures x in a[1..] <==> x in s' {
        if x in a[1..] {
          var i :| 0 <= i < |a| - 1 && a[1..][i] == x;
          assert LexLess(a[0], a[i + 1]);
          LexLessIrreflexive(x);
        }
        if x in s' {
          var i :| 0 <= i < |a| && a[i] == x;
          assert i > 0 && a[1..][i - 1] == x;
        }
      }
      forall x ensures x in b[1..] <==> x in s' {
        if x in b[1..] {
          var i :| 0 <= i < |b| - 1 && b[1..][i] == x;
          assert LexLess(b[0], b[i + 1]);
          LexLessIrreflexive(x);
        }
        if x in s' {
          var i :| 0 <= i < |b| && b[i] == x;
          assert i > 0 && b[1..][i - 1] == x;
        }
      }
      SortedKeysUnique(a[1..], b[1..], s');
      assert a == [a[0]] + a[1..] && b == [b[0]] + b[1..];
    }
  }

  /** `sorted(keys)`: builds the strictly increasing list of the keys by
      inserting them one at a time. */
  method SortKeys(keys: set<string>) returns (ks: seq<string>)
    ensures SortedKeys(ks, keys)
  {
    ks := [];
    var rest := keys;
    while rest != {}
      invariant rest <= keys
      invariant SortedKeys(ks, keys - rest)
      decreases |rest|
    {
      var k :| k in rest;
      InsertSorted(ks, keys - rest, k);
      ks := Insert(ks, k);
      assert (keys - rest) + {k} == keys - (rest - {k});
      rest := rest - {k};
    }
  }
}
