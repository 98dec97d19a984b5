/**
 * UTF-8 as defined in RFC 3629: the encoding of a string (`str::as_bytes`)
 * and the strict decoding that `String::from_utf8` performs, which accepts a
 * byte sequence exactly when it is the encoding of some string (section 4 of
 * RFC 3629: no overlong forms, no surrogates, nothing above U+10FFFF).
 */
module Utf8 {
  import opened Options

  type byte = b: int | 0 <= b < 256

  /** The encoding of one character: the bit layout of section 3 of RFC 3629. */
  function EncodeChar(c: char): (r: seq<byte>)
    ensures 1 <= |r| <= 4
    ensures (c as int < 0x80) <==> |r| == 1
  {
    var cp := c as int;
    if cp < 0x80 then [cp]
    else if cp < 0x800 then [0xC0 + cp / 64, 0x80 + cp % 64]
    else if cp < 0x10000 then [0xE0 + cp / 64 / 64, 0x80 + cp / 64 % 64, 0x80 + cp % 64]
    else [0xF0 + cp / 64 / 64 / 64, 0x80 + cp / 64 / 64 % 64, 0x80 + cp / 64 % 64, 0x80 + cp % 64]
  }

  /** `s.as_bytes()` */
  function Encode(s: string): seq<byte>
  {
    if s == [] then [] else EncodeChar(s[0]) + Encode(s[1..])
  }

  predicate IsContinuation(b: byte)
  {
    0x80 <= b < 0xC0
  }

  /** The code point carried by a two-, three- or four-byte form: the lead byte's payload bits, then six bits per continuation byte. */
  function Cp2(b0: int, b1: int): int { (b0 - 0xC0) * 64 + (b1 - 0x80) }
  function Cp3(b0: int, b1: int, b2: int): int { (b0 - 0xE0) * 4096 + (b1 - 0x80) * 64 + (b2 - 0x80) }
  function Cp4(b0: int, b1: int, b2: int, b3: int): int
  {
    (b0 - 0xF0) * 0x40000 + (b1 - 0x80) * 4096 + (b2 - 0x80) * 64 + (b3 - 0x80)
  }

  /**
   * Decodes the first character of `b`, giving it with the number of bytes it
   * took, or None when `b` does not start with a well-formed character.
   */
  function DecodeChar(b: seq<byte>): (r: Option<(char, nat)>)
    ensures r.Some? ==> 1 <= r.value.1 <= |b| && r.value.1 <= 4
  {
    if b == [] then None
    else
      var b0 := b[0] as int;
      if b0 < 0x80 then Some((b0 as char, 1))
      else if 0xC2 <= b0 < 0xE0 then
        if |b| >= 2 && IsContinuation(b[1]) then
          Some((Cp2(b0, b[1]) as char, 2))
        else None
      else if 0xE0 <= b0 < 0xF0 then
        if |b| >= 3 && IsContinuation(b[1]) && IsContinuation(b[2]) then
          var cp := Cp3(b0, b[1], b[2]);
          if cp < 0x800 || (0xD800 <= cp < 0xE000) then None else Some((cp as char, 3))
        else None
      else if 0xF0 <= b0 < 0xF5 then
        if |b| >= 4 && IsContinuation(b[1]) && IsContinuation(b[2]) && IsContinuation(b[3]) then
          var cp := Cp4(b0, b[1], b[2], b[3]);
          if cp < 0x10000 || cp > 0x10FFFF then None else Some((cp as char, 4))
        else None
      else None
  }

  /** `String::from_utf8(b)`: the decoded string, or None when `b` is not well-formed UTF-8. */
  function Decode(b: seq<byte>): (r: Option<string>)
    ensures r.Some? ==> |r.value| <= |b|
    decreases |b|
  {
    if b == [] then Some([])
    else match DecodeChar(b)
      case None => None
      case Some((c, n)) =>
        match Decode(b[n..])
        case None => None
        case Some(rest) => Some([c] + rest)
  }

  predicate IsValid(b: seq<byte>)
  {
    Decode(b).Some?
  }

  /** Cutting off the low six bits, and putting them back. */
  lemma Split6(x: int, q: int, r: int)
    requires x >= 0
    ensures x == 64 * (x / 64) + x % 64 && 0 <= x % 64 < 64
    ensures 0 <= r < 64 && x == 64 * q + r ==> x / 64 == q && x % 64 == r
  {
  }

  lemma DecodeEncodeChar(c: char, rest: seq<byte>)
    ensures DecodeChar(EncodeChar(c) + rest) == Some((c, |EncodeChar(c)|))
  {
    var cp := c as int;
    var b := EncodeChar(c) + rest;
    var x1 := cp / 64;
    var x2 := x1 / 64;
    var x3 := x2 / 64;
    Split6(cp, 0, 0);
    Split6(x1, 0, 0);
    Split6(x2, 0, 0);
    if cp < 0x80 {
    } else if cp < 0x800 {
      assert b[0] as int == 0xC0 + x1 && b[1] as int == 0x80 + cp % 64;
      assert Cp2(b[0], b[1]) == cp;
    } else if cp < 0x10000 {
      assert b[0] as int == 0xE0 + x2 && b[1] as int == 0x80 + x1 % 64 && b[2] as int == 0x80 + cp % 64;
      assert Cp3(b[0], b[1], b[2]) == cp;
    } else {
      assert b[0] as int == 0xF0 + x3 && b[1] as int == 0x80 + x2 % 64;
      assert b[2] as int == 0x80 + x1 % 64 && b[3] as int == 0x80 + cp % 64;
      assert Cp4(b[0], b[1], b[2], b[3]) == cp;
    }
  }

  lemma EncodeDecodeChar2(b: seq<byte>, c: char)
    requires |b| >= 2 && 0xC2 <= b[0] < 0xE0 && IsContinuation(b[1])
    requires c as int == Cp2(b[0], b[1])
    ensures b[..2] == EncodeChar(c)
  {
    var p0, p1 := b[0] as int - 0xC0, b[1] as int - 0x80;
    Split6(c as int, p0, p1);
  }

  lemma EncodeDecodeChar3(b: seq<byte>, c: char)
    requires |b| >= 3 && 0xE0 <= b[0] < 0xF0 && IsContinuation(b[1]) && IsContinuation(b[2])
    requires c as int == Cp3(b[0], b[1], b[2]) && c as int >= 0x800
    ensures b[..3] == EncodeChar(c)
  {
    var p0, p1, p2 := b[0] as int - 0xE0, b[1] as int - 0x80, b[2] as int - 0x80;
    assert c as int == 64 * (64 * p0 + p1) + p2;
    Split6(c as int, 64 * p0 + p1, p2);
    Split6(64 * p0 + p1, p0, p1);
  }

  lemma EncodeDecodeChar4(b: seq<byte>, c: char)
    requires |b| >= 4 && 0xF0 <= b[0] < 0xF5 && IsContinuation(b[1]) && IsContinuation(b[2]) && IsContinuation(b[3])
    requires c as int == Cp4(b[0], b[1], b[2], b[3]) && c as int >= 0x10000
    ensures b[..4] == EncodeChar(c)
  {
    var p0, p1, p2, p3 := b[0] as int - 0xF0, b[1] as int - 0x80, b[2] as int - 0x80, b[3] as int - 0x80;
    assert c as int == 64 * (64 * (64 * p0 + p1) + p2) + p3;
    Split6(c as int, 64 * (64 * p0 + p1) + p2, p3);
    Split6(64 * (64 * p0 + p1) + p2, 64 * p0 + p1, p2);
    Split6(64 * p0 + p1, p0, p1);
  }

  lemma EncodeDecodeChar(b: seq<byte>)
    requires DecodeChar(b).Some?
    ensures b[..DecodeChar(b).value.1] == EncodeChar(DecodeChar(b).value.0)
  {
    var (c, n) := DecodeChar(b).value;
    if n == 2 {
      EncodeDecodeChar2(b, c);
    } else if n == 3 {
      EncodeDecodeChar3(b, c);
    } else if n == 4 {
      EncodeDecodeChar4(b, c);
    }
  }

  /** Decoding an encoding gives the string back. */
  lemma {:induction false} DecodeEncode(s: string)
    ensures Decode(Encode(s)) == Some(s)
  {
    if s != [] {
      var e, rest := EncodeChar(s[0]), Encode(s[1..]);
      assert Encode(s) == e + rest;
      DecodeEncodeChar(s[0], rest);
      assert (e + rest)[|e|..] == rest;
      DecodeEncode(s[1..]);
      assert [s[0]] + s[1..] == s;
    }
  }

  /** One step of `Decode` on a sequence that decodes: its first character, then the rest. */
  lemma DecodeStep(b: seq<byte>)
    requires b != [] && Decode(b).Some?
    ensures DecodeChar(b).Some?
    ensures Decode(b[DecodeChar(b).value.1..]).Some?
    ensures Decode(b).value == [DecodeChar(b).value.0] + Decode(b[DecodeChar(b).value.1..]).value
  {
  }

  /** A sequence that decodes is exactly the encoding of what it decodes to. */
  lemma {:induction false} EncodeDecode(b: seq<byte>)
    requires Decode(b).Some?
    ensures Encode(Decode(b).value) == b
    decreases |b|
  {
    if b != [] {
      DecodeStep(b);
      var c, n := DecodeChar(b).value.0, DecodeChar(b).value.1;
      var tail := Decode(b[n..]).value;
      EncodeDecodeChar(b);
      EncodeDecode(b[n..]);
      Reassemble(b, n, c, tail);
    }
  }

  lemma Reassemble(b: seq<byte>, n: nat, c: char, tail: string)
    requires n <= |b| && b[..n] == EncodeChar(c) && Encode(tail) == b[n..]
    ensures Encode([c] + tail) == b
  {
    EncodeCons(c, tail);
    assert b == b[..n] + b[n..];
  }

  lemma EncodeCons(c: char, s: string)
    ensures Encode([c] + s) == EncodeChar(c) + Encode(s)
  {
    assert ([c] + s)[0] == c && ([c] + s)[1..] == s;
  }

  /** Every character takes between one and four bytes. */
  lemma {:induction false} EncodeLength(s: string)
    ensures |s| <= |Encode(s)| <= 4 * |s|
  {
    if s != [] {
      EncodeLength(s[1..]);
    }
  }

  /** A byte sequence decodes to `s` exactly when it is the encoding of `s`. */
  lemma DecodeExactly(b: seq<byte>, s: string)
    ensures Decode(b) == Some(s) <==> Encode(s) == b
  {
    if Decode(b) == Some(s) {
      EncodeDecode(b);
    }
    if Encode(s) == b {
      DecodeEncode(s);
    }
  }

  lemma {:induction false} EncodeAppend(a: string, b: string)
    ensures Encode(a + b) == Encode(a) + Encode(b)
  {
    if a == [] {
      assert a + b == b;
    } else {
      assert (a + b)[0] == a[0] && (a + b)[1..] == a[1..] + b;
      EncodeAppend(a[1..], b);
    }
  }

  lemma EncodeInjective(a: string, b: string)
    requires Encode(a) == Encode(b)
    ensures a == b
  {
    DecodeEncode(a);
    DecodeEncode(b);
  }

  predicate IsAscii(s: string)
  {
    forall i :: 0 <= i < |s| ==> s[i] as int < 0x80
  }

  predicate IsAsciiBytes(b: seq<byte>)
  {
    forall i :: 0 <= i < |b| ==> b[i] < 0x80
  }

  /** ASCII text is encoded one byte per character, each below 0x80. */
  lemma {:induction false} AsciiEncode(s: string)
    requires IsAscii(s)
    ensures IsAsciiBytes(Encode(s)) && |Encode(s)| == |s|
  {
    if s != [] {
      AsciiEncode(s[1..]);
    }
  }

  /** Every sequence of bytes below 0x80 is well-formed, however it was cut. */
  lemma {:induction false} AsciiBytesValid(b: seq<byte>)
    requires IsAsciiBytes(b)
    ensures IsValid(b)
    decreases |b|
  {
    if b != [] {
      AsciiBytesValid(b[1..]);
    }
  }

  /** The length of the encoded form that a lead byte announces. */
  function LeadLength(b: byte): nat
  {
    if b < 0x80 then 1 else if b < 0xE0 then 2 else if b < 0xF0 then 3 else 4
  }

  /** An encoded character starts with a lead byte that gives its length, followed by continuation bytes. */
  lemma EncodeCharShape(c: char)
    ensures !IsContinuation(EncodeChar(c)[0])
    ensures |EncodeChar(c)| == LeadLength(EncodeChar(c)[0])
    ensures forall i :: 1 <= i < |EncodeChar(c)| ==> IsContinuation(EncodeChar(c)[i])
  {
    var cp := c as int;
    Split6(cp, 0, 0);
    Split6(cp / 64, 0, 0);
    Split6(cp / 64 / 64, 0, 0);
  }

  /** The decoder takes as many bytes as the lead byte announces, and never starts at a continuation byte. */
  lemma DecodeCharLength(b: seq<byte>)
    requires DecodeChar(b).Some?
    ensures DecodeChar(b).value.1 == LeadLength(b[0]) && !IsContinuation(b[0])
  {
  }

  /** The first character decoded from a prefix of the encoding of `t` is the first character of `t`. */
  lemma FirstOfPrefix(t: string, b: seq<byte>)
    requires b != [] && |b| <= |Encode(t)| && b == Encode(t)[..|b|]
    requires DecodeChar(b).Some?
    ensures t != [] && DecodeChar(b).value == (t[0], |EncodeChar(t[0])|)
  {
    var c, n := DecodeChar(b).value.0, DecodeChar(b).value.1;
    assert t != [];
    var e0 := EncodeChar(t[0]);
    assert Encode(t) == e0 + Encode(t[1..]);
    EncodeCharShape(t[0]);
    DecodeCharLength(b);
    assert n == |e0|;
    EncodeDecodeChar(b);
    assert EncodeChar(c) == e0;
    DecodeEncodeChar(c, []);
    DecodeEncodeChar(t[0], []);
    assert EncodeChar(c) + [] == e0 + [];
  }

  /** Decoding a prefix of the encoding of `t` can only give a prefix of `t`. */
  lemma {:induction false} DecodePrefix(t: string, b: seq<byte>)
    requires |b| <= |Encode(t)| && b == Encode(t)[..|b|]
    requires Decode(b).Some?
    ensures |Decode(b).value| <= |t| && Decode(b).value == t[..|Decode(b).value|]
    decreases |b|
  {
    if b != [] {
      assert t != [];
      var n := |EncodeChar(t[0])|;
      assert DecodeChar(b) == Some((t[0], n)) && n <= |b| by {
        FirstOfPrefix(t, b);
      }
      assert b[n..] == Encode(t[1..])[..|b| - n] by {
        assert Encode(t) == EncodeChar(t[0]) + Encode(t[1..]);
      }
      assert Decode(b[n..]).Some? && Decode(b).value == [t[0]] + Decode(b[n..]).value by {
        DecodeStep(b);
      }
      DecodePrefix(t[1..], b[n..]);
      var tail := Decode(b[n..]).value;
      assert [t[0]] + tail == t[..1 + |tail|];
    }
  }

  /** The byte offset at which the encoding of `t[k]` starts. */
  function Offset(t: string, k: nat): nat
    requires k <= |t|
  {
    |Encode(t[..k])|
  }

  /** How many characters of `t` have an encoding that starts before byte offset `p`. */
  function CharsBefore(t: string, p: int): (k: nat)
    ensures k <= |t|
  {
    if t == [] || p <= 0 then 0 else 1 + CharsBefore(t[1..], p - |EncodeChar(t[0])|)
  }

  lemma {:induction false} OffsetCons(t: string, k: nat)
    requires 1 <= k <= |t|
    ensures Offset(t, k) == |EncodeChar(t[0])| + Offset(t[1..], k - 1)
  {
    assert t[..k] == [t[0]] + t[1..][..k - 1];
    EncodeCons(t[0], t[1..][..k - 1]);
  }

  /**
   * Self-synchronisation: a byte offset is either where a character starts, or
   * lies inside a character's encoding and holds a continuation byte.
   */
  lemma {:induction false} Boundary(t: string, p: int)
    requires 0 <= p <= |Encode(t)|
    ensures p <= Offset(t, CharsBefore(t, p))
    ensures p < Offset(t, CharsBefore(t, p)) ==> p < |Encode(t)| && IsContinuation(Encode(t)[p])
  {
    if t != [] && p > 0 {
      var e0 := EncodeChar(t[0]);
      assert Encode(t) == e0 + Encode(t[1..]);
      var k := CharsBefore(t, p);
      OffsetCons(t, k);
      if p < |e0| {
        assert CharsBefore(t[1..], p - |e0|) == 0;
        assert Offset(t[1..], 0) == 0 by { assert t[1..][..0] == []; }
        EncodeCharShape(t[0]);
      } else {
        Boundary(t[1..], p - |e0|);
      }
    } else if t == [] {
      assert t[..0] == [];
    } else {
      assert t[..0] == [];
    }
  }

  /** Counting the characters before a character's start offset gives its index back. */
  lemma {:induction false} CharsBeforeOffset(t: string, k: nat)
    requires k <= |t|
    ensures CharsBefore(t, Offset(t, k)) == k
  {
    if k == 0 {
      assert t[..0] == [];
    } else {
      OffsetCons(t, k);
      CharsBeforeOffset(t[1..], k - 1);
    }
  }

  lemma {:induction false} CharsBeforeMonotonic(t: string, p: int, q: int)
    requires p <= q
    ensures CharsBefore(t, p) <= CharsBefore(t, q)
  {
    if t != [] && p > 0 {
      CharsBeforeMonotonic(t[1..], p - |EncodeChar(t[0])|, q - |EncodeChar(t[0])|);
    }
  }

  /** A byte offset that holds a lead byte is where some character starts. */
  lemma StartsAtCharacter(t: string, p: nat)
    requires p < |Encode(t)| && !IsContinuation(Encode(t)[p])
    ensures Offset(t, CharsBefore(t, p)) == p
  {
    Boundary(t, p);
  }

  /** From a character's start offset on, the bytes are the encoding of the rest of the string. */
  lemma SuffixAtOffset(t: string, k: nat)
    requires k <= |t|
    ensures Offset(t, k) <= |Encode(t)| && Encode(t)[Offset(t, k)..] == Encode(t[k..])
  {
    EncodeAppend(t[..k], t[k..]);
    assert t[..k] + t[k..] == t;
  }

  /** The characters `t[k..k + |u|]` take up exactly the bytes of the encoding of `u`. */
  lemma OffsetAdvance(t: string, k: nat, u: string)
    requires k + |u| <= |t| && u == t[k..k + |u|]
    ensures Offset(t, k + |u|) == Offset(t, k) + |Encode(u)|
  {
    assert t[..k + |u|] == t[..k] + u;
    EncodeAppend(t[..k], u);
  }

  /**
   * Well-formed bytes cut from the encoding of `t` where the character `t[k]`
   * starts are the encoding of the characters from `t[k]` on that they cover.
   */
  lemma DecodeAtCharacter(t: string, k: nat, b: seq<byte>)
    requires k <= |t| && Offset(t, k) + |b| <= |Encode(t)|
    requires b == Encode(t)[Offset(t, k)..Offset(t, k) + |b|]
    requires Decode(b).Some?
    ensures k + |Decode(b).value| <= |t|
    ensures Decode(b).value == t[k..k + |Decode(b).value|]
    ensures Offset(t, k + |Decode(b).value|) == Offset(t, k) + |b|
  {
    var u := Decode(b).value;
    assert k + |u| <= |t| && u == t[k..k + |u|] by {
      SuffixAtOffset(t, k);
      assert b == Encode(t[k..])[..|b|];
      DecodePrefix(t[k..], b);
      assert t[k..][..|u|] == t[k..k + |u|];
    }
    assert Offset(t, k + |u|) == Offset(t, k) + |b| by {
      EncodeDecode(b);
      OffsetAdvance(t, k, u);
    }
  }

}
