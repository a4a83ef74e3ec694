/**
 * The cached key order of the store: `Array.from(map.keys()).sort()`, a
 * strictly ascending sequence holding every key of the map exactly once.
 */
module SortedKeys {
  import opened Text

  /** Strictly ascending; in particular free of duplicates. */
  predicate Ascending(ks: seq<string>) {
    forall i, j :: 0 <= i < j < |ks| ==> Less(ks[i], ks[j])
  }

  /** `ks` is the sorted key list of the key set `s`. */
  ghost predicate SortedListOf(ks: seq<string>, s: set<string>) {
    Ascending(ks) && forall k :: k in ks <==> k in s
  }

  /** Places `k` at its position in an ascending sequence (no change if present). */
  function Insert(k: string, ks: seq<string>): (r: seq<string>)
    requires Ascending(ks)
    ensures Ascending(r)
    ensures forall x :: x in r <==> x == k || x in ks
    decreases |ks|
  {
    if ks == [] then [k]
    else if k == ks[0] then ks
    else if Less(k, ks[0]) then
      assert forall j :: 0 < j < |ks| ==> Less(k, ks[j]) by {
        forall j | 0 < j < |ks| ensures Less(k, ks[j]) {
          LessTransitive(k, ks[0], ks[j]);
        }
      }
      [k] + ks
    else
      LessTotal(k, ks[0]);
      var tail := Insert(k, ks[1..]);
      assert forall x :: x in tail ==> Less(ks[0], x);
      [ks[0]] + tail
  }

  /** Sorts the keys of a map, as the store does after every change of its key set. */
  method SortKeys(s: set<string>) returns (ks: seq<string>)
    ensures SortedListOf(ks, s)
  {
    ks := [];
    var rest := s;
    while rest != {}
      invariant rest <= s
      invariant Ascending(ks)
      invariant forall k :: k in ks <==> k in s - rest
      decreases rest
    {
      var k :| k in rest;
      ks := Insert(k, ks);
      rest := rest - {k};
    }
  }

  /** There is only one sorted key list of a set: the cached order is determined by the keys. */
  lemma {:induction false} SortedListUnique(xs: seq<string>, ys: seq<string>, s: set<string>)
    requires SortedListOf(xs, s) && SortedListOf(ys, s)
    ensures xs == ys
    decreases |xs|
  {
    if xs != [] {
      assert ys != [] by { assert xs[0] in s; }
      if xs[0] != ys[0] {
        assert ys[0] in s && ys[0] in xs && xs[0] in ys;
        var i :| 0 <= i < |xs| && xs[i] == ys[0];
        var j :| 0 <= j < |ys| && ys[j] == xs[0];
        assert i > 0 && j > 0;
        LessAsymmetric(xs[0], xs[i]);
        assert false;
      }
      var s' := s - {xs[0]};
      forall k ensures k in xs[1..] <==> k in s' {
        if k in xs[1..] {
          var i :| 1 <= i < |xs| && xs[i] == k;
          LessIrreflexive(k);
        }
      }
      forall k ensures k in ys[1..] <==> k in s' {
        if k in ys[1..] {
          var i :| 1 <= i < |ys| && ys[i] == k;
          LessIrreflexive(k);
        }
        if k in s' {
          var i :| 0 <= i < |ys| && ys[i] == k;
        }
      }
      SortedListUnique(xs[1..], ys[1..], s');
      assert xs == [xs[0]] + xs[1..] && ys == [ys[0]] + ys[1..];
    } else {
      SortedListLength(xs, s);
      SortedListLength(ys, s);
    }
  }

  /** A sorted key list has as many entries as the key set has elements. */
  lemma {:induction false} SortedListLength(ks: seq<string>, s: set<string>)
    requires SortedListOf(ks, s)
    ensures |ks| == |s|
    decreases |ks|
  {
    if ks != [] {
      var s' := s - {ks[0]};
      forall k ensures k in ks[1..] <==> k in s' {
        if k in ks[1..] {
          var i :| 1 <= i < |ks| && ks[i] == k;
          LessIrreflexive(k);
        }
        if k in s' {
          var i :| 0 <= i < |ks| && ks[i] == k;
        }
      }
      SortedListLength(ks[1..], s');
    } else {
      assert forall k :: k !in s;
      assert s == {};
    }
  }
}
