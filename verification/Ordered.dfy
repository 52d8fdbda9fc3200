/** Iteration in key order, as Rust's `BTreeMap` does it. */
module Ordered {
  import opened Bytes

  ghost predicate Ascending(ks: seq<Bytes>) {
    forall i, j :: 0 <= i < j < |ks| ==> Less(ks[i], ks[j])
  }

  lemma {:induction false} HasLeast(s: set<Bytes>)
    requires s != {}
    ensures exists m :: m in s && forall x :: x in s ==> AtMost(m, x)
  {
    KeyOrder();
    var k :| k in s;
    if s == {k} {
      assert k in s && forall x :: x in s ==> AtMost(k, x);
    } else {
      HasLeast(s - {k});
      var m :| m in s - {k} && forall x :: x in s - {k} ==> AtMost(m, x);
      var best := if Less(k, m) then k else m;
      forall x | x in s ensures AtMost(best, x) {
        if x == k {
          LessTotal(m, k);
        } else {
          assert AtMost(m, x);
          LessTotal(m, x);
          if best == k && Less(x, k) {
            LessTransitive(x, k, m);
          }
        }
      }
      assert best in s && forall x :: x in s ==> AtMost(best, x);
    }
  }

  function Least(s: set<Bytes>): (m: Bytes)
    requires s != {}
    ensures m in s && forall x :: x in s ==> AtMost(m, x)
  {
    HasLeast(s);
    KeyOrder();
    var m :| m in s && forall x :: x in s ==> AtMost(m, x);
    m
  }

  lemma LeastIs(s: set<Bytes>, m: Bytes)
    requires m in s && forall x :: x in s ==> AtMost(m, x)
    ensures Least(s) == m
  {
    LessTotal(Least(s), m);
  }

  /** The elements of s in ascending order. */
  function SortedKeys(s: set<Bytes>): (ks: seq<Bytes>)
    ensures |ks| == |s|
  {
    if s == {} then [] else [Least(s)] + SortedKeys(s - {Least(s)})
  }

  lemma {:induction false} SortedKeysMeaning(s: set<Bytes>)
    ensures Ascending(SortedKeys(s))
    ensures forall k :: k in SortedKeys(s) <==> k in s
  {
    if s != {} {
      var m, rest := Least(s), SortedKeys(s - {Least(s)});
      SortedKeysMeaning(s - {m});
      forall i | 0 <= i < |rest| ensures Less(m, rest[i]) {
        assert rest[i] in s - {m};
        LessTotal(m, rest[i]);
      }
    }
  }

  function SetOf(ks: seq<Bytes>): set<Bytes> {
    set k | k in ks
  }

  lemma FirstOfAscending(ks: seq<Bytes>)
    requires Ascending(ks) && ks != []
    ensures ks[0] in SetOf(ks) && forall k :: k in SetOf(ks) ==> AtMost(ks[0], k)
    ensures SetOf(ks) - {ks[0]} == SetOf(ks[1..])
  {
    forall k | k in ks ensures AtMost(ks[0], k) && (k == ks[0] || k in ks[1..]) {
      var i :| 0 <= i < |ks| && ks[i] == k;
      LessIrreflexive(ks[0]);
      if i > 0 {
        assert ks[1..][i - 1] == k;
        if Less(k, ks[0]) {
          LessTransitive(ks[0], k, ks[0]);
        }
      }
    }
    forall k | k in ks[1..] ensures k in ks && k != ks[0] {
      var i :| 0 <= i < |ks[1..]| && ks[1..][i] == k;
      assert ks[i + 1] == k;
      LessIrreflexive(k);
    }
  }

  /** A strictly ascending sequence is the sorted sequence of its elements. */
  lemma {:induction false} AscendingIsSorted(ks: seq<Bytes>)
    requires Ascending(ks)
    ensures SortedKeys(SetOf(ks)) == ks
  {
    if ks != [] {
      FirstOfAscending(ks);
      LeastIs(SetOf(ks), ks[0]);
      assert SortedKeys(SetOf(ks)) == [ks[0]] + SortedKeys(SetOf(ks[1..]));
      assert SortedKeys(SetOf(ks[1..])) == ks[1..] by {
        AscendingIsSorted(ks[1..]);
      }
    }
  }

  // ---------- key-value listings ----------

  /** The entries of a map, in key order. */
  function Listing<V>(m: map<Bytes, V>): (r: seq<(Bytes, V)>)
    ensures |r| == |m.Keys|
  {
    SortedKeysMeaning(m.Keys);
    var ks := SortedKeys(m.Keys);
    seq(|ks|, i requires 0 <= i < |ks| => assert ks[i] in ks; (ks[i], m[ks[i]]))
  }

  /** A listing holds each entry of the map once, in strictly ascending key order. */
  lemma ListingMeaning<V>(m: map<Bytes, V>)
    ensures forall i, j :: 0 <= i < j < |Listing(m)| ==> Less(Listing(m)[i].0, Listing(m)[j].0)
    ensures forall k, v :: (k, v) in Listing(m) <==> k in m && m[k] == v
  {
    SortedKeysMeaning(m.Keys);
    var ks, r := SortedKeys(m.Keys), Listing(m);
    assert forall i :: 0 <= i < |r| ==> r[i].0 == ks[i] && ks[i] in ks;
    forall k, v ensures (k, v) in r <==> k in m && m[k] == v {
      if k in m {
        var i :| 0 <= i < |ks| && ks[i] == k;
        assert r[i] == (k, m[k]);
      }
    }
  }
}
