/** Strings by code point, sorted vocabularies, and binary search in them. */
module Ordering {
  predicate Less(a: string, b: string) {
    if a == [] then b != []
    else if b == [] then false
    else a[0] < b[0] || (a[0] == b[0] && Less(a[1..], b[1..]))
  }

  /** The words agree up to some place, where the first either ends or has the smaller character. */
  ghost predicate FirstDifference(a: string, b: string, k: nat) {
    && k <= |a| && k < |b|
    && (forall i | 0 <= i < k :: a[i] == b[i])
    && (k < |a| ==> a[k] < b[k])
  }

  /** Python's order on strings: character by character, and a proper prefix first. */
  lemma {:induction false} LessExactly(a: string, b: string)
    ensures Less(a, b) <==> exists k: nat :: FirstDifference(a, b, k)
  {
    if a == [] || b == [] || a[0] != b[0] {
      assert Less(a, b) ==> FirstDifference(a, b, 0);
    } else {
      LessExactly(a[1..], b[1..]);
      if Less(a, b) {
        var k: nat :| FirstDifference(a[1..], b[1..], k);
        forall i | 0 <= i < k + 1 ensures a[i] == b[i] {
          assert i > 0 ==> a[i] == a[1..][i - 1] && b[i] == b[1..][i - 1];
        }
        assert FirstDifference(a, b, k + 1);
      }
      forall k: nat | FirstDifference(a, b, k) ensures Less(a, b) {
        assert FirstDifference(a[1..], b[1..], k - 1);
      }
    }
  }

  lemma {:induction false} LessTransitive(a: string, b: string, c: string)
    requires Less(a, b) && Less(b, c)
    ensures Less(a, c)
  {
    if a != [] && a[0] == b[0] == c[0] {
      LessTransitive(a[1..], b[1..], c[1..]);
    }
  }

  lemma {:induction false} LessTotal(a: string, b: string)
    ensures (a == b && !Less(a, b) && !Less(b, a)) || (a != b && (Less(a, b) <==> !Less(b, a)))
  {
    if a != [] && b != [] {
      LessTotal(a[1..], b[1..]);
      assert a == [a[0]] + a[1..] && b == [b[0]] + b[1..];
    }
  }

  /** The words that start with `q` are not below it, and everything between `q` and one of
      them starts with `q` too. */
  lemma {:induction false} PrefixInterval(q: string, a: string, b: string)
    requires !Less(a, q) && Less(a, b) && q <= b
    ensures q <= a
  {
    if q != [] {
      assert a != [] && a[0] == q[0] == b[0];
      assert q[1..] <= b[1..];
      PrefixInterval(q[1..], a[1..], b[1..]);
      assert a == [a[0]] + a[1..] && q == [q[0]] + q[1..];
    }
  }

  lemma {:induction false} PrefixNotBelow(q: string, b: string)
    requires q <= b
    ensures !Less(b, q)
  {
    if q != [] {
      assert q[1..] <= b[1..];
      PrefixNotBelow(q[1..], b[1..]);
    }
  }

  predicate Sorted(ts: seq<string>) {
    forall i, j | 0 <= i < j < |ts| :: Less(ts[i], ts[j])
  }

  /** `k` separates the words below `x` from the others. */
  predicate Splits(ts: seq<string>, x: string, k: nat) {
    && k <= |ts|
    && (forall i | 0 <= i < k :: Less(ts[i], x))
    && (forall i | k <= i < |ts| :: !Less(ts[i], x))
  }

  method BisectLeft(ts: seq<string>, x: string) returns (k: nat)
    requires Sorted(ts)
    ensures Splits(ts, x, k)
  {
    var lo, hi := 0, |ts|;
    while lo < hi
      invariant 0 <= lo <= hi <= |ts|
      invariant forall i | 0 <= i < lo :: Less(ts[i], x)
      invariant forall i | hi <= i < |ts| :: !Less(ts[i], x)
    {
      var mid := (lo + hi) / 2;
      if Less(ts[mid], x) {
        forall i | lo <= i <= mid ensures Less(ts[i], x) {
          if i < mid { LessTransitive(ts[i], ts[mid], x); }
        }
        lo := mid + 1;
      } else {
        forall i | mid <= i < hi ensures !Less(ts[i], x) {
          if mid < i && Less(ts[i], x) { LessTransitive(ts[mid], ts[i], x); }
        }
        hi := mid;
      }
    }
    k := lo;
  }

  method BisectRight(ts: seq<string>, x: string) returns (k: nat)
    requires Sorted(ts)
    ensures k <= |ts|
    ensures forall i | 0 <= i < k :: !Less(x, ts[i])
    ensures forall i | k <= i < |ts| :: Less(x, ts[i])
  {
    var lo, hi := 0, |ts|;
    while lo < hi
      invariant 0 <= lo <= hi <= |ts|
      invariant forall i | 0 <= i < lo :: !Less(x, ts[i])
      invariant forall i | hi <= i < |ts| :: Less(x, ts[i])
    {
      var mid := (lo + hi) / 2;
      if Less(x, ts[mid]) {
        forall i | mid <= i < hi ensures Less(x, ts[i]) {
          if mid < i { LessTransitive(x, ts[mid], ts[i]); }
        }
        hi := mid;
      } else {
        forall i | lo <= i <= mid ensures !Less(x, ts[i]) {
          if i < mid && Less(x, ts[i]) { LessTransitive(x, ts[i], ts[mid]); }
        }
        lo := mid + 1;
      }
    }
    k := lo;
  }

  /** Inserting a new word keeps the list sorted. */
  method Insort(ts: seq<string>, x: string) returns (r: seq<string>)
    requires Sorted(ts) && x !in ts
    ensures Sorted(r) && |r| == |ts| + 1 && forall t :: t in r <==> t in ts || t == x
  {
    var k := BisectRight(ts, x);
    r := ts[..k] + [x] + ts[k..];
    forall i | 0 <= i < k ensures Less(ts[i], x) {
      LessTotal(ts[i], x);
    }
  }

  /** Taking a word out keeps the list sorted; a word that is not there is ignored. */
  method Discard(ts: seq<string>, x: string) returns (r: seq<string>)
    requires Sorted(ts)
    ensures Sorted(r) && forall t :: t in r <==> t in ts && t != x
  {
    var k := BisectLeft(ts, x);
    forall i | 0 <= i < |ts| ensures i != k ==> ts[i] != x {
      LessTotal(ts[i], x);
      assert k < i ==> Less(ts[k], ts[i]);
    }
    if k < |ts| && ts[k] == x {
      r := ts[..k] + ts[k + 1..];
      forall t ensures t in r <==> t in ts && t != x {
        if t in ts && t != x {
          var i :| 0 <= i < |ts| && ts[i] == t;
          assert i < k ==> r[i] == t;
          assert i > k ==> r[i - 1] == t;
        }
      }
    } else {
      r := ts;
    }
  }

  /** In a sorted list the words with a given prefix form one run that starts at the
      insertion point: nothing before it, and nothing after the first miss. */
  lemma PrefixRun(ts: seq<string>, q: string, k: nat, miss: nat)
    requires Sorted(ts) && Splits(ts, q, k) && k <= miss <= |ts|
    requires miss < |ts| ==> !(q <= ts[miss])
    ensures forall i | 0 <= i < k :: !(q <= ts[i])
    ensures forall i | miss <= i < |ts| :: !(q <= ts[i])
  {
    forall i | 0 <= i < k ensures !(q <= ts[i]) {
      if q <= ts[i] { PrefixNotBelow(q, ts[i]); }
    }
    forall i | miss <= i < |ts| ensures !(q <= ts[i]) {
      if q <= ts[i] && miss < i { PrefixInterval(q, ts[miss], ts[i]); }
    }
  }

  lemma LastIsGreatest(a: seq<string>, t: string)
    requires Sorted(a) && t in a
    ensures !Less(a[|a| - 1], t)
  {
    var i :| 0 <= i < |a| && a[i] == t;
    LessTotal(a[|a| - 1], t);
  }

  lemma LastOnlyOnce(a: seq<string>, t: string)
    requires Sorted(a) && a != []
    ensures t in a[..|a| - 1] <==> t in a && t != a[|a| - 1]
  {
    var n := |a| - 1;
    if t in a[..n] {
      var i :| 0 <= i < n && a[i] == t;
      assert Less(a[i], a[n]);
      LessTotal(a[i], a[n]);
    }
  }

  /** A sorted list is determined by the words in it. */
  lemma {:induction false} SortedUnique(a: seq<string>, b: seq<string>)
    requires Sorted(a) && Sorted(b) && forall t :: t in a <==> t in b
    ensures a == b
  {
    var first := if b == [] then [] else b[0];
    assert b != [] ==> first in b;
    if a != [] {
      assert a[0] in b;
      var n, m := |a| - 1, |b| - 1;
      LastIsGreatest(a, b[m]);
      LastIsGreatest(b, a[n]);
      LessTotal(a[n], b[m]);
      forall t ensures t in a[..n] <==> t in b[..m] {
        LastOnlyOnce(a, t);
        LastOnlyOnce(b, t);
      }
      SortedUnique(a[..n], b[..m]);
      assert a == a[..n] + [a[n]] && b == b[..m] + [b[m]];
    }
  }
}
