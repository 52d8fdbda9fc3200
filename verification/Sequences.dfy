/** Sequences of sequences laid end to end. */
module Sequences {
  lemma Assoc<T>(a: seq<T>, b: seq<T>, c: seq<T>)
    ensures (a + b) + c == a + (b + c)
  {
  }

  function Flatten<T>(parts: seq<seq<T>>): seq<T> {
    if parts == [] then [] else parts[0] + Flatten(parts[1..])
  }

  lemma {:induction false} FlattenSnoc<T>(parts: seq<seq<T>>, last: seq<T>)
    ensures Flatten(parts + [last]) == Flatten(parts) + last
  {
    if parts == [] {
      assert Flatten([last]) == last + [];
    } else {
      calc {
        Flatten(parts + [last]);
        { assert (parts + [last])[1..] == parts[1..] + [last]; }
        parts[0] + Flatten(parts[1..] + [last]);
        { FlattenSnoc(parts[1..], last); }
        parts[0] + (Flatten(parts[1..]) + last);
        (parts[0] + Flatten(parts[1..])) + last;
      }
    }
  }

  /** Any cut of the whole leaves k parts whole and a proper prefix of the next. */
  lemma {:induction false} FlattenCut<T>(parts: seq<seq<T>>, cut: nat) returns (k: nat, off: nat)
    requires cut <= |Flatten(parts)|
    ensures k <= |parts| && cut == |Flatten(parts[..k])| + off
    ensures if k < |parts| then off < |parts[k]| else off == 0
    ensures Flatten(parts)[..cut] == Flatten(parts[..k]) + if k < |parts| then parts[k][..off] else []
  {
    if parts == [] || cut < |parts[0]| {
      k, off := 0, cut;
    } else {
      k, off := FlattenCut(parts[1..], cut - |parts[0]|);
      assert parts[..k + 1][1..] == parts[1..][..k];
      TakeBehind(parts[0], Flatten(parts[1..]), cut);
      k := k + 1;
    }
  }

  lemma TakeBehind<T>(a: seq<T>, b: seq<T>, cut: nat)
    requires |a| <= cut <= |a| + |b|
    ensures (a + b)[..cut] == a + b[..cut - |a|]
  {
  }
}
