/**
 mosquitto_validate_utf8 of utf8_mosq.c: the validating loop, and what the strings it lets
 through are in terms of section 3 of RFC 3629.
 */
module Utf8 {
  import opened Wire

  // ----- The strings let through

  /** Unicode scalar values that are neither control characters nor noncharacters. */
  predicate Allowed(c: int) {
    && (0x20 <= c <= 0x7E || 0xA0 <= c <= 0xD7FF || 0xE000 <= c <= 0xFDCF || 0xFDF0 <= c <= 0x10_FFFF)
    && c % 0x1_0000 < 0xFFFE
  }

  /** The bytes of one code point, in the shortest form. */
  function Encoding(c: int): (s: seq<int>)
    requires Allowed(c)
    ensures 1 <= |s| <= 4
  {
    if c < 0x80 then [c]
    else if c < 0x800 then [0xC0 + c / 64, 0x80 + c % 64]
    else if c < 0x1_0000 then [0xE0 + c / 4096, 0x80 + c / 64 % 64, 0x80 + c % 64]
    else [0xF0 + c / 262144, 0x80 + c / 4096 % 64, 0x80 + c / 64 % 64, 0x80 + c % 64]
  }

  predicate AllAllowed(cs: seq<int>) {
    forall i :: 0 <= i < |cs| ==> Allowed(cs[i])
  }

  function EncodingOf(cs: seq<int>): seq<int>
    requires AllAllowed(cs)
  {
    if cs == [] then [] else Encoding(cs[0]) + EncodingOf(cs[1..])
  }

  /** The code point at the start of a string that is let through. */
  function First(s: seq<byte>): int
    requires s != [] && 0 < LeadLength(s[0]) <= |s|
  {
    Codepoint(s[1..LeadLength(s[0])], LeadBits(s[0]))
  }

  predicate StartsWell(s: seq<byte>)
    requires s != []
  {
    var len := LeadLength(s[0]);
    && 0 < len <= |s|
    && (forall i :: 1 <= i < len ==> Continuation(s[i]))
    && AllowedCodepoint(First(s), len)
  }

  lemma CodepointTwo(a: int, b: int)
    ensures Codepoint([b], a) == 64 * a + b - 0x80
  {
    assert [b][1..] == [];
  }

  lemma CodepointThree(a: int, b: int, c: int)
    ensures Codepoint([b, c], a) == 4096 * a + 64 * (b - 0x80) + c - 0x80
  {
    assert [b, c][1..] == [c];
    CodepointTwo(a * 64 + b - 0x80, c);
  }

  lemma CodepointFour(a: int, b: int, c: int, d: int)
    ensures Codepoint([b, c, d], a) == 262144 * a + 4096 * (b - 0x80) + 64 * (c - 0x80) + d - 0x80
  {
    assert [b, c, d][1..] == [c, d];
    CodepointThree(a * 64 + b - 0x80, c, d);
  }

  lemma NoContinuation(a: int)
    ensures Codepoint([], a) == a
  {
  }

  lemma FourDigits(n: int, a: int, b: int, c: int, d: int)
    requires 0 <= b < 64 && 0 <= c < 64 && 0 <= d < 64
    ensures n == 262144 * a + 4096 * b + 64 * c + d
            <==> n / 262144 == a && n / 4096 % 64 == b && n / 64 % 64 == c && n % 64 == d
  {
    var n1 := n / 64;
    var n2 := n1 / 64;
    assert n / 4096 == n2 && n / 262144 == n2 / 64;
    assert n == 64 * n1 + n % 64 && n1 == 64 * n2 + n1 % 64 && n2 == 64 * (n2 / 64) + n2 % 64;
  }

  lemma OneByte(n: int, a: byte)
    ensures LeadLength(a) == 1 && n == LeadBits(a) && AllowedCodepoint(n, 1) <==> Allowed(n) && Encoding(n) == [a]
  {
  }

  lemma TwoBytes(n: int, a: byte, b: byte)
    ensures LeadLength(a) == 2 && Continuation(b) && n == 64 * LeadBits(a) + b - 0x80 && AllowedCodepoint(n, 2)
            <==> Allowed(n) && Encoding(n) == [a, b]
  {
  }

  lemma ThreeBytes(n: int, a: byte, b: byte, c: byte)
    ensures && LeadLength(a) == 3 && Continuation(b) && Continuation(c)
            && n == 4096 * LeadBits(a) + 64 * (b - 0x80) + c - 0x80 && AllowedCodepoint(n, 3)
            <==> Allowed(n) && Encoding(n) == [a, b, c]
  {
    if LeadLength(a) == 3 && Continuation(b) && Continuation(c) {
      FourDigits(n, 0, LeadBits(a), b - 0x80, c - 0x80);
    }
  }

  lemma FourBytes(n: int, a: byte, b: byte, c: byte, d: byte)
    ensures && LeadLength(a) == 4 && Continuation(b) && Continuation(c) && Continuation(d)
            && n == 262144 * LeadBits(a) + 4096 * (b - 0x80) + 64 * (c - 0x80) + d - 0x80 && AllowedCodepoint(n, 4)
            <==> Allowed(n) && Encoding(n) == [a, b, c, d]
  {
    if Continuation(b) && Continuation(c) && Continuation(d) {
      FourDigits(n, LeadBits(a), b - 0x80, c - 0x80, d - 0x80);
    }
  }

  // ----- One code point

  /** Six bits from each byte after the lead byte. */
  function Combined(a: int, s: seq<int>): int
    requires 1 <= |s| <= 4
  {
    if |s| == 1 then a
    else if |s| == 2 then 64 * a + s[1] - 0x80
    else if |s| == 3 then 4096 * a + 64 * (s[1] - 0x80) + s[2] - 0x80
    else 262144 * a + 4096 * (s[1] - 0x80) + 64 * (s[2] - 0x80) + s[3] - 0x80
  }

  lemma FirstIs(s: seq<byte>)
    requires s != [] && 0 < LeadLength(s[0]) <= |s|
    ensures First(s) == Combined(LeadBits(s[0]), s[..LeadLength(s[0])])
  {
    hide Codepoint;
    var len, a := LeadLength(s[0]), LeadBits(s[0]);
    if len == 1 {
      assert s[1..1] == [];
      NoContinuation(a);
    } else if len == 2 {
      assert s[1..2] == [s[1]];
      CodepointTwo(a, s[1]);
    } else if len == 3 {
      assert s[1..3] == [s[1], s[2]];
      CodepointThree(a, s[1], s[2]);
    } else {
      assert s[1..4] == [s[1], s[2], s[3]];
      CodepointFour(a, s[1], s[2], s[3]);
    }
  }

  /** The bytes `w` of one code point `n`. */
  predicate WellFormed(n: int, w: seq<byte>)
    requires 1 <= |w| <= 4
  {
    && LeadLength(w[0]) == |w| && (forall i :: 1 <= i < |w| ==> Continuation(w[i]))
    && n == Combined(LeadBits(w[0]), w) && AllowedCodepoint(n, |w|)
  }

  lemma WellFormedIsEncoding(n: int, w: seq<byte>)
    requires 1 <= |w| <= 4
    ensures WellFormed(n, w) <==> Allowed(n) && Encoding(n) == w
  {
    hide LeadLength, LeadBits, AllowedCodepoint, Allowed, Encoding, Continuation;
    if |w| == 1 {
      assert w == [w[0]];
      OneByte(n, w[0]);
    } else if |w| == 2 {
      assert w == [w[0], w[1]];
      TwoBytes(n, w[0], w[1]);
    } else if |w| == 3 {
      assert w == [w[0], w[1], w[2]];
      ThreeBytes(n, w[0], w[1], w[2]);
    } else {
      assert w == [w[0], w[1], w[2], w[3]];
      FourBytes(n, w[0], w[1], w[2], w[3]);
    }
  }

  lemma StartsWellFormed(s: seq<byte>)
    requires s != [] && 0 < LeadLength(s[0]) <= |s|
    ensures StartsWell(s) <==> WellFormed(First(s), s[..LeadLength(s[0])])
  {
    hide First, LeadLength, LeadBits, AllowedCodepoint, Continuation, Combined;
    assert LeadLength(s[0]) <= 4 by { LeadAtMostFour(s[0]); }
    FirstIs(s);
    var w := s[..LeadLength(s[0])];
    assert forall i :: 0 <= i < |w| ==> w[i] == s[i];
  }

  lemma LeadAtMostFour(b: byte)
    ensures LeadLength(b) <= 4
  {
  }

  // ----- Whole strings

  /** One code point is taken off the front. */
  lemma FirstEncoded(s: seq<byte>)
    requires s != [] && StartsWell(s)
    ensures Allowed(First(s)) && LeadLength(s[0]) == |Encoding(First(s))|
    ensures s == Encoding(First(s)) + s[LeadLength(s[0])..]
  {
    hide First, LeadLength, AllowedCodepoint, Allowed, Encoding, WellFormed;
    LeadAtMostFour(s[0]);
    StartsWellFormed(s);
    var w := s[..LeadLength(s[0])];
    WellFormedIsEncoding(First(s), w);
    assert s == w + s[LeadLength(s[0])..];
  }

  lemma EncodedFirst(c: int, rest: seq<byte>, s: seq<byte>)
    requires Allowed(c) && s == Encoding(c) + rest
    ensures s != [] && StartsWell(s) && First(s) == c && s[LeadLength(s[0])..] == rest
  {
    hide First, AllowedCodepoint, Allowed, Encoding, StartsWell, Combined;
    var w := s[..|Encoding(c)|];
    assert w == Encoding(c) && w[0] == s[0] && s[|w|..] == rest;
    WellFormedIsEncoding(c, w);
    FirstIs(s);
    StartsWellFormed(s);
  }

  lemma {:induction false} DecodedFrom(s: seq<byte>) returns (cs: seq<int>)
    requires ValidUtf8(s)
    ensures AllAllowed(cs) && EncodingOf(cs) == s
    decreases |s|
  {
    hide Allowed, Encoding, First;
    if s == [] {
      cs := [];
    } else {
      assert StartsWell(s) by { SplitsOff(s); }
      FirstEncoded(s);
      var more := DecodedFrom(s[LeadLength(s[0])..]);
      cs := [First(s)] + more;
      assert cs[1..] == more;
    }
  }

  lemma SplitsOff(s: seq<byte>)
    requires s != []
    ensures ValidUtf8(s) <==> StartsWell(s) && ValidUtf8(s[LeadLength(s[0])..])
  {
    hide AllowedCodepoint;
  }

  lemma {:induction false} EncodingValid(cs: seq<int>, s: seq<byte>)
    requires AllAllowed(cs) && s == EncodingOf(cs)
    ensures ValidUtf8(s)
    decreases |cs|
  {
    hide Allowed, Encoding, First, StartsWell, LeadLength;
    if cs != [] {
      var rest := s[|Encoding(cs[0])|..];
      assert rest == EncodingOf(cs[1..]);
      EncodedFirst(cs[0], rest, s);
      EncodingValid(cs[1..], rest);
      SplitsOff(s);
    }
  }

  /** The strings let through are exactly the encodings of sequences of allowed code points. */
  lemma ValidIff(s: seq<byte>)
    ensures ValidUtf8(s) <==> exists cs :: AllAllowed(cs) && EncodingOf(cs) == s
  {
    hide ValidUtf8, AllAllowed, EncodingOf;
    if ValidUtf8(s) {
      var cs := DecodedFrom(s);
    }
    if cs :| AllAllowed(cs) && EncodingOf(cs) == s {
      EncodingValid(cs, s);
    }
  }

  /** No string of bytes is the encoding of two sequences. */
  lemma {:induction false} EncodingInjective(cs: seq<int>, ds: seq<int>, s: seq<byte>)
    requires AllAllowed(cs) && AllAllowed(ds) && s == EncodingOf(cs) == EncodingOf(ds)
    ensures cs == ds
    decreases |cs|
  {
    hide Allowed, Encoding, First, StartsWell, LeadLength;
    if cs != [] && ds != [] {
      var rest := s[|Encoding(cs[0])|..];
      assert rest == EncodingOf(cs[1..]);
      EncodedFirst(cs[0], rest, s);
      var rest' := s[|Encoding(ds[0])|..];
      assert rest' == EncodingOf(ds[1..]);
      EncodedFirst(ds[0], rest', s);
      EncodingInjective(cs[1..], ds[1..], rest);
      assert cs == [cs[0]] + cs[1..] && ds == [ds[0]] + ds[1..];
    }
  }

  // ----- The validating loop

  lemma {:induction false} CodepointAppend(s: seq<int>, b: int, acc: int)
    ensures Codepoint(s + [b], acc) == 64 * Codepoint(s, acc) + b - 0x80
    decreases |s|
  {
    if s == [] {
      CodepointTwo(acc, b);
    } else {
      assert (s + [b])[1..] == s[1..] + [b];
      CodepointAppend(s[1..], b, acc * 64 + s[0] - 0x80);
    }
  }

  /** The lead byte: how many bytes it announces and the bits it carries. */
  method ReadLead(b: byte) returns (rc: Rc, codelen: nat, codepoint: int)
    ensures rc == if LeadLength(b) == 0 then MalformedUtf8 else Success
    ensures rc == Success ==> codelen == LeadLength(b) && codepoint == LeadBits(b) >= 0
  {
    rc, codelen, codepoint := Success, 1, b;
    if b == 0 {
      rc := MalformedUtf8;
    } else if b <= 0x7F {
    } else if b / 0x20 == 6 {
      if b == 0xC0 || b == 0xC1 {
        rc := MalformedUtf8;
      }
      codelen, codepoint := 2, b % 0x20;
    } else if b / 0x10 == 14 {
      codelen, codepoint := 3, b % 0x10;
    } else if b / 8 == 30 {
      if b > 0xF4 {
        rc := MalformedUtf8;
      }
      codelen, codepoint := 4, b % 8;
    } else {
      rc := MalformedUtf8;
    }
  }

  /** The checks on a code point. */
  method CheckCodepoint(codepoint: int, codelen: nat) returns (rc: Rc)
    requires codepoint >= 0
    ensures rc == if AllowedCodepoint(codepoint, codelen) then Success else MalformedUtf8
  {
    if codepoint >= 0xD800 && codepoint <= 0xDFFF {
      return MalformedUtf8;
    }
    if codelen == 3 && codepoint < 0x0800 {
      return MalformedUtf8;
    } else if codelen == 4 && (codepoint < 0x1_0000 || codepoint > 0x10_FFFF) {
      return MalformedUtf8;
    }
    if codepoint >= 0xFDD0 && codepoint <= 0xFDEF {
      return MalformedUtf8;
    }
    if codepoint % 0x1_0000 == 0xFFFE || codepoint % 0x1_0000 == 0xFFFF {
      return MalformedUtf8;
    }
    if codepoint <= 0x1F || (codepoint >= 0x7F && codepoint <= 0x9F) {
      return MalformedUtf8;
    }
    rc := Success;
  }

  /**
   One turn of the loop, from the lead byte at `start` to the last byte of its code point.
   The test for missing bytes is an equation, which lets through a lead byte with two or
   three bytes missing; the zero byte behind the string then ends the inner loop.
   */
  method ReadCodepoint(ustr: seq<byte>, len: nat, start: nat) returns (rc: Rc, i: nat)
    requires start < len < |ustr| && ustr[len] == 0
    ensures rc == if StartsWell(ustr[start..len]) then Success else MalformedUtf8
    ensures rc == Success ==> start < i + 1 == start + LeadLength(ustr[start]) <= len
  {
    hide LeadLength, LeadBits, AllowedCodepoint, Codepoint;
    ghost var s := ustr[start..len];
    i := start;
    var codelen, codepoint;
    rc, codelen, codepoint := ReadLead(ustr[i]);
    if rc != Success {
      return;
    }
    if i + codelen == len + 1 {
      return MalformedUtf8, i;
    }
    NoContinuation(LeadBits(s[0]));
    assert s[1..1] == [];
    var j := 0;
    while j < codelen - 1
      invariant 0 <= j < codelen && i == start + j < len && codepoint >= 0
      invariant forall k :: 1 <= k <= j ==> Continuation(s[k])
      invariant codepoint == Codepoint(s[1..1 + j], LeadBits(s[0]))
    {
      i := i + 1;
      if ustr[i] / 0x40 != 2 {
        return MalformedUtf8, i;
      }
      assert ustr[i] == s[1 + j] && s[1..1 + j] + [s[1 + j]] == s[1..1 + (j + 1)];
      CodepointAppend(s[1..1 + j], s[1 + j], LeadBits(s[0]));
      codepoint := codepoint * 64 + ustr[i] % 0x40;
      j := j + 1;
    }
    rc := CheckCodepoint(codepoint, codelen);
  }

  /** mosquitto_validate_utf8 on a string with a zero byte behind its `len` bytes, none of which is read beyond. */
  method Validate(ustr: seq<byte>, len: nat) returns (rc: Rc)
    requires len < |ustr| && ustr[len] == 0
    ensures rc == if len > 65536 then Inval else if ValidUtf8(ustr[..len]) then Success else MalformedUtf8
  {
    hide ValidUtf8, StartsWell, LeadLength;
    if len > 65536 {
      return Inval;
    }
    rc := Success;
    var i := 0;
    assert ustr[0..len] == ustr[..len];
    while i < len
      invariant 0 <= i <= len
      invariant rc == Success
      invariant ValidUtf8(ustr[..len]) <==> ValidUtf8(ustr[i..len])
    {
      ghost var start := i;
      SplitsOff(ustr[start..len]);
      rc, i := ReadCodepoint(ustr, len, i);
      if rc != Success {
        return;
      }
      i := i + 1;
      assert ustr[start..len][i - start..] == ustr[i..len];
    }
    assert ustr[len..len] == [];
    EmptyValid();
  }

  lemma EmptyValid()
    ensures ValidUtf8([])
  {
  }
}
