/** Byte strings, fixed-width little-endian integers, and the lexicographic
    order in which `Vec<u8>` keys are compared. */
module Bytes {
  type Byte = b: int | 0 <= b < 256
  type Bytes = seq<Byte>

  const U16_SIZE := 0x1_0000
  const U32_SIZE := 0x1_0000_0000
  const U64_SIZE := 0x1_0000_0000_0000_0000
  const U64_MAX := U64_SIZE - 1

  type u32 = n: int | 0 <= n < 0x1_0000_0000
  type u64 = n: int | 0 <= n < 0x1_0000_0000_0000_0000

  // ---------- little-endian integers ----------

  function Pow256(width: nat): (p: nat)
    ensures p > 0
  {
    if width == 0 then 1 else 256 * Pow256(width - 1)
  }

  /** The `width` low bytes of n, least significant first. */
  function ToLe(n: nat, width: nat): (s: Bytes)
    ensures |s| == width
  {
    if width == 0 then [] else [n % 256] + ToLe(n / 256, width - 1)
  }

  function FromLe(s: Bytes): nat {
    if s == [] then 0 else s[0] + 256 * FromLe(s[1..])
  }

  lemma {:induction false} LeRoundTrip(n: nat, width: nat)
    requires n < Pow256(width)
    ensures FromLe(ToLe(n, width)) == n
  {
    if width > 0 {
      LeRoundTrip(n / 256, width - 1);
      assert ToLe(n, width)[1..] == ToLe(n / 256, width - 1);
    }
  }

  lemma {:induction false} FromLeBound(s: Bytes)
    ensures FromLe(s) < Pow256(|s|)
  {
    if s != [] {
      FromLeBound(s[1..]);
    }
  }

  /** The widths the file formats use. */
  lemma Widths()
    ensures Pow256(2) == U16_SIZE && Pow256(4) == U32_SIZE && Pow256(8) == U64_SIZE
  {
    assert Pow256(1) == 256 && Pow256(2) == 0x1_0000 && Pow256(3) == 0x100_0000 && Pow256(4) == U32_SIZE;
    assert Pow256(5) == 256 * U32_SIZE && Pow256(6) == 0x1_0000 * U32_SIZE;
    assert Pow256(7) == 256 * Pow256(6) && Pow256(8) == 256 * Pow256(7);
  }

  // ---------- lexicographic order ----------

  predicate Less(a: Bytes, b: Bytes) {
    b != [] && (a == [] || a[0] < b[0] || (a[0] == b[0] && Less(a[1..], b[1..])))
  }

  predicate AtMost(a: Bytes, b: Bytes) {
    !Less(b, a)
  }

  /** a is before b: they agree up to a place where a ends or has the smaller byte. */
  ghost predicate BytesBefore(a: Bytes, b: Bytes) {
    exists i :: 0 <= i <= |a| && i < |b| && a[..i] == b[..i] && (i == |a| || a[i] < b[i])
  }

  lemma {:induction false} LessExactly(a: Bytes, b: Bytes)
    ensures Less(a, b) <==> BytesBefore(a, b)
  {
    if a != [] && b != [] && a[0] == b[0] {
      var c, d := a[1..], b[1..];
      LessExactly(c, d);
      if Less(c, d) {
        var i :| 0 <= i <= |c| && i < |d| && c[..i] == d[..i] && (i == |c| || c[i] < d[i]);
        assert a[..i + 1] == [a[0]] + c[..i] && b[..i + 1] == [b[0]] + d[..i];
      }
      if BytesBefore(a, b) {
        var i :| 0 <= i <= |a| && i < |b| && a[..i] == b[..i] && (i == |a| || a[i] < b[i]);
        assert c[..i - 1] == a[..i][1..] && d[..i - 1] == b[..i][1..];
      }
    } else if a != [] && b != [] {
      FirstDiffers(a, b);
    } else {
      assert b != [] ==> a[..0] == b[..0];
    }
  }

  lemma SameFirst<T>(a: seq<T>, b: seq<T>)
    ensures forall i :: 0 < i <= |a| && i <= |b| && a[..i] == b[..i] ==> a[0] == b[0]
  {
    forall i | 0 < i <= |a| && i <= |b| && a[..i] == b[..i] ensures a[0] == b[0] {
      assert a[..i][0] == a[0] && b[..i][0] == b[0];
    }
  }

  lemma FirstDiffers(a: Bytes, b: Bytes)
    requires a != [] && b != [] && a[0] != b[0]
    ensures BytesBefore(a, b) <==> a[0] < b[0]
  {
    assert a[..0] == b[..0];
    SameFirst(a, b);
  }

  lemma {:induction false} LessIrreflexive(a: Bytes)
    ensures !Less(a, a)
  {
    if a != [] {
      LessIrreflexive(a[1..]);
    }
  }

  lemma {:induction false} LessTransitive(a: Bytes, b: Bytes, c: Bytes)
    requires Less(a, b) && Less(b, c)
    ensures Less(a, c)
  {
    if a != [] && a[0] == b[0] == c[0] {
      LessTransitive(a[1..], b[1..], c[1..]);
    }
  }

  lemma {:induction false} LessTotal(a: Bytes, b: Bytes)
    ensures a == b || Less(a, b) || Less(b, a)
  {
    if a != [] && b != [] && a[0] == b[0] {
      LessTotal(a[1..], b[1..]);
      assert a == [a[0]] + a[1..] && b == [b[0]] + b[1..];
    }
  }

  /** Less is a strict total order, for use where many keys are compared at once. */
  lemma KeyOrder()
    ensures forall a: Bytes {:trigger Less(a, a)} :: !Less(a, a)
    ensures forall a: Bytes, b: Bytes, c: Bytes {:trigger Less(a, b), Less(b, c)} ::
      Less(a, b) && Less(b, c) ==> Less(a, c)
    ensures forall a: Bytes, b: Bytes {:trigger Less(a, b)} {:trigger AtMost(a, b)} ::
      a == b || Less(a, b) || Less(b, a)
  {
    forall a: Bytes ensures !Less(a, a) { LessIrreflexive(a); }
    forall a: Bytes, b: Bytes, c: Bytes | Less(a, b) && Less(b, c) ensures Less(a, c) {
      LessTransitive(a, b, c);
    }
    forall a: Bytes, b: Bytes ensures a == b || Less(a, b) || Less(b, a) { LessTotal(a, b); }
  }
}
