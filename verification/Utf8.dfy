/** The bytes of a string, as `into_bytes` gives them. */
module Utf8 {
  import opened Wrappers
  import opened Bytes

  function EncodeChar(c: char): (s: Bytes)
    ensures 1 <= |s| <= 4
  {
    var n := c as int;
    if n < 0x80 then [n]
    else if n < 0x800 then [0xC0 + n / 64, 0x80 + n % 64]
    else if n < 0x1_0000 then [0xE0 + n / 64 / 64, 0x80 + n / 64 % 64, 0x80 + n % 64]
    else [0xF0 + n / 64 / 64 / 64, 0x80 + n / 64 / 64 % 64, 0x80 + n / 64 % 64, 0x80 + n % 64]
  }

  function Encode(s: string): Bytes {
    if s == "" then [] else EncodeChar(s[0]) + Encode(s[1..])
  }

  /** The size of a character, by its leading byte. */
  function SizeOf(first: int): nat {
    if first < 0x80 then 1 else if first < 0xE0 then 2 else if first < 0xF0 then 3 else 4
  }

  /** The code point that a character's bytes stand for. */
  function PointOf(s: Bytes): int
    requires 1 <= |s| <= 4
  {
    var a: int := s[0];
    if |s| == 1 then a else
    var b: int := s[1];
    if |s| == 2 then (a - 0xC0) * 64 + (b - 0x80) else
    var c: int := s[2];
    if |s| == 3 then ((a - 0xE0) * 64 + (b - 0x80)) * 64 + (c - 0x80) else
    var d: int := s[3];
    (((a - 0xF0) * 64 + (b - 0x80)) * 64 + (c - 0x80)) * 64 + (d - 0x80)
  }

  lemma CodePoint(c: char)
    ensures SizeOf(EncodeChar(c)[0]) == |EncodeChar(c)| && PointOf(EncodeChar(c)) == c as int
  {
    var n := c as int;
    assert n / 64 * 64 + n % 64 == n;
    assert n / 64 / 64 * 64 + n / 64 % 64 == n / 64;
    assert n / 64 / 64 / 64 * 64 + n / 64 / 64 % 64 == n / 64 / 64;
  }

  /** No character's bytes begin another's. */
  lemma CharsDecode(c: char, d: char, x: Bytes, y: Bytes)
    requires EncodeChar(c) + x == EncodeChar(d) + y
    ensures c == d && x == y
  {
    CodePoint(c);
    CodePoint(d);
    var a, b := EncodeChar(c), EncodeChar(d);
    assert (a + x)[0] == a[0] && (b + y)[0] == b[0];
    assert |a| == |b|;
    assert a == (a + x)[..|a|] && b == (b + y)[..|b|];
    assert x == (a + x)[|a|..] && y == (b + y)[|b|..];
  }

  /** Different strings have different bytes. */
  lemma {:induction false} EncodeInjective(s: string, t: string)
    requires Encode(s) == Encode(t)
    ensures s == t
  {
    if s != "" && t != "" {
      CharsDecode(s[0], t[0], Encode(s[1..]), Encode(t[1..]));
      EncodeInjective(s[1..], t[1..]);
      assert s == [s[0]] + s[1..] && t == [t[0]] + t[1..];
    }
  }

  lemma {:induction false} EncodeAppend(s: string, t: string)
    ensures Encode(s + t) == Encode(s) + Encode(t)
  {
    if s == "" {
      assert s + t == t;
    } else {
      assert (s + t)[1..] == s[1..] + t;
      EncodeAppend(s[1..], t);
    }
  }

  // ---------- order ----------

  lemma Split64(n: nat, m: nat)
    requires n < m
    ensures n / 64 < m / 64 || (n / 64 == m / 64 && n % 64 < m % 64)
  {
  }

  lemma {:induction false} LessBehind(p: Bytes, a: Bytes, b: Bytes)
    ensures Less(p + a, p + b) <==> Less(a, b)
  {
    if p == [] {
      assert p + a == a && p + b == b;
    } else {
      assert (p + a)[1..] == p[1..] + a && (p + b)[1..] == p[1..] + b;
      LessBehind(p[1..], a, b);
    }
  }

  /** The bytes of two characters differ first where the smaller code point has the smaller byte. */
  lemma CharOrder(c: char, d: char) returns (i: nat)
    requires c < d
    ensures i < |EncodeChar(c)| && i < |EncodeChar(d)| && EncodeChar(c)[..i] == EncodeChar(d)[..i]
    ensures EncodeChar(c)[i] < EncodeChar(d)[i]
  {
    if |EncodeChar(c)| != |EncodeChar(d)| || |EncodeChar(c)| == 1 {
      i := 0;
    } else {
      i := SameSizeOrder(c, d, c as int / 64, d as int / 64);
    }
  }

  /** The same for characters of the same size; n and m are their code points but for
      the last six bits. */
  lemma SameSizeOrder(c: char, d: char, n: nat, m: nat) returns (i: nat)
    requires c < d && |EncodeChar(c)| == |EncodeChar(d)| > 1 && n == c as int / 64 && m == d as int / 64
    ensures i < |EncodeChar(c)| && i < |EncodeChar(d)| && EncodeChar(c)[..i] == EncodeChar(d)[..i]
    ensures EncodeChar(c)[i] < EncodeChar(d)[i]
  {
    var size := |EncodeChar(c)|;
    Split64(c as int, d as int);
    if n == m {
      i := size - 1;
    } else if size == 2 {
      i := 0;
    } else {
      Split64(n, m);
      if n / 64 == m / 64 {
        i := size - 2;
      } else {
        Split64(n / 64, m / 64);
        i := if size == 3 || n / 64 / 64 < m / 64 / 64 then 0 else 1;
      }
    }
  }

  /** s is before t: they agree up to a place where s ends or has the smaller character. */
  ghost predicate TextBefore(s: string, t: string) {
    exists i :: 0 <= i <= |s| && i < |t| && s[..i] == t[..i] && (i == |s| || s[i] < t[i])
  }

  lemma FirstDecides(c: char, d: char, x: Bytes, y: Bytes)
    requires c < d
    ensures Less(EncodeChar(c) + x, EncodeChar(d) + y) && !Less(EncodeChar(d) + y, EncodeChar(c) + x)
  {
    var a, b := EncodeChar(c), EncodeChar(d);
    var i := CharOrder(c, d);
    assert a + x == a[..i] + (a[i..] + x) && b + y == b[..i] + (b[i..] + y);
    assert (a[i..] + x)[0] == a[i] && (b[i..] + y)[0] == b[i];
    LessBehind(a[..i], a[i..] + x, b[i..] + y);
    LessBehind(a[..i], b[i..] + y, a[i..] + x);
  }

  /** Comparing texts by their bytes is comparing them by their characters. */
  lemma {:induction false} ByteOrder(s: string, t: string)
    ensures Less(Encode(s), Encode(t)) <==> TextBefore(s, t)
  {
    if s == "" || t == "" {
      assert t != "" ==> s[..0] == t[..0];
    } else if s[0] == t[0] {
      ByteOrder(s[1..], t[1..]);
      LessBehind(EncodeChar(s[0]), Encode(s[1..]), Encode(t[1..]));
      BeforeBehind(s, t);
    } else {
      if s[0] < t[0] {
        FirstDecides(s[0], t[0], Encode(s[1..]), Encode(t[1..]));
        assert s[..0] == t[..0];
      } else {
        FirstDecides(t[0], s[0], Encode(t[1..]), Encode(s[1..]));
      }
      SameFirst(s, t);
    }
  }

  lemma BeforeBehind(s: string, t: string)
    requires s != "" && t != "" && s[0] == t[0]
    ensures TextBefore(s, t) <==> TextBefore(s[1..], t[1..])
  {
    var c, d := s[1..], t[1..];
    if TextBefore(c, d) {
      var i :| 0 <= i <= |c| && i < |d| && c[..i] == d[..i] && (i == |c| || c[i] < d[i]);
      assert s[..i + 1] == [s[0]] + c[..i] && t[..i + 1] == [t[0]] + d[..i];
    }
    if TextBefore(s, t) {
      var i :| 0 <= i <= |s| && i < |t| && s[..i] == t[..i] && (i == |s| || s[i] < t[i]);
      assert c[..i - 1] == s[..i][1..] && d[..i - 1] == t[..i][1..];
    }
  }

  // ---------- reading back ----------

  /** The first character of some bytes and its size, if they begin with one. */
  function DecodeChar(b: Bytes): (r: Option<(char, nat)>)
    ensures r.Some? ==> 1 <= r.value.1 <= |b| && EncodeChar(r.value.0) == b[..r.value.1]
  {
    if b == [] || |b| < SizeOf(b[0]) then None else
    var n := SizeOf(b[0]);
    var point := PointOf(b[..n]);
    if !(0 <= point < 0xD800 || 0xE000 <= point < 0x11_0000) || EncodeChar(point as char) != b[..n] then None
    else Some((point as char, n))
  }

  /** `String::from_utf8`: the string whose bytes these are, if they are any string's. */
  function Decode(b: Bytes): Option<string>
    decreases |b|
  {
    if b == [] then Some("") else
    match DecodeChar(b)
    case None => None
    case Some((c, n)) => match Decode(b[n..]) case None => None case Some(s) => Some([c] + s)
  }

  lemma DecodeFirst(c: char, rest: Bytes)
    ensures DecodeChar(EncodeChar(c) + rest) == Some((c, |EncodeChar(c)|))
  {
    CodePoint(c);
    var b := EncodeChar(c) + rest;
    assert b[0] == EncodeChar(c)[0];
    assert b[..|EncodeChar(c)|] == EncodeChar(c);
  }

  lemma {:induction false} DecodeEncode(s: string)
    ensures Decode(Encode(s)) == Some(s)
  {
    if s != "" {
      DecodeFirst(s[0], Encode(s[1..]));
      assert (EncodeChar(s[0]) + Encode(s[1..]))[|EncodeChar(s[0])|..] == Encode(s[1..]);
      DecodeEncode(s[1..]);
      assert [s[0]] + s[1..] == s;
    }
  }
}
