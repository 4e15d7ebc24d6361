/** The UTF-8 decoder of the console (drivers/graphics.cpp) over the bytes of a C string
    without its terminator, and the encoder of section 3 of RFC 3629 as its partner. */
module Utf8 {
  type Byte = b: nat | b < 256

  const REPLACEMENT: nat := 0xFFFD
  const NEWLINE: nat := 10

  /** Byte i of the C string; the terminator follows the last byte. */
  function ByteAt(s: seq<Byte>, i: nat): Byte { if i < |s| then s[i] else 0 }

  predicate Continuation(b: Byte) { b / 64 == 2 }

  /** Sequence length announced by a lead byte; 0 for a byte that leads nothing. */
  function LeadLength(b: Byte): nat {
    if b < 128 then 1 else if b / 32 == 6 then 2 else if b / 16 == 14 then 3 else if b / 8 == 30 then 4 else 0
  }

  /** Payload bits of a lead byte. */
  function LeadBits(b: Byte): nat {
    if b < 128 then b else if b / 32 == 6 then b % 32 else if b / 16 == 14 then b % 16 else b % 8
  }

  predicate Complete(s: seq<Byte>, n: nat) {
    forall i :: 1 <= i < n ==> Continuation(ByteAt(s, i))
  }

  /** The code point gathered from the first n bytes. */
  function Gather(s: seq<Byte>, n: nat): nat
    requires 1 <= n
  {
    if n == 1 then LeadBits(ByteAt(s, 0)) else Gather(s, n - 1) * 64 + ByteAt(s, n - 1) % 64
  }

  /** One step of the decoder: a code point and the number of bytes it takes. */
  function DecodeOne(s: seq<Byte>): (r: (nat, nat))
    requires s != []
    ensures 1 <= r.1 <= |s|
  {
    var n := LeadLength(s[0]);
    if n == 0 || !Complete(s, n) then (REPLACEMENT, 1)
    else
      assert forall i :: 1 <= i < n ==> Continuation(ByteAt(s, i)) && i < |s|;
      assert n > 1 ==> Continuation(ByteAt(s, n - 1));
      (Gather(s, n), n)
  }

  /** All code points of a string. */
  function DecodeAll(s: seq<Byte>): seq<nat> {
    if s == [] then [] else
    var (cp, n) := DecodeOne(s);
    [cp] + DecodeAll(s[n..])
  }

  // ---------------------------------------------------------------- the encoder

  predicate Scalar(c: nat) { 0 < c < 0xD800 || 0xE000 <= c < 0x11_0000 }

  function Encode(c: nat): (s: seq<Byte>)
    requires Scalar(c)
    ensures 1 <= |s| <= 4
  {
    if c < 0x80 then [c]
    else if c < 0x800 then [192 + c / 64, 128 + c % 64]
    else if c < 0x1_0000 then [224 + c / 4096, 128 + c / 64 % 64, 128 + c % 64]
    else [240 + c / 0x4_0000, 128 + c / 4096 % 64, 128 + c / 64 % 64, 128 + c % 64]
  }

  function EncodeAll(cs: seq<nat>): seq<Byte>
    requires forall i :: 0 <= i < |cs| ==> Scalar(cs[i])
  {
    if cs == [] then [] else Encode(cs[0]) + EncodeAll(cs[1..])
  }

  lemma {:induction false} EncodedShape(c: nat)
    requires Scalar(c)
    ensures var s := Encode(c);
            LeadLength(s[0]) == |s| && s[0] > 0 && forall i :: 1 <= i < |s| ==> Continuation(s[i])
  {
  }

  lemma {:induction false} SixBitGroups(c: nat)
    ensures c == c / 64 * 64 + c % 64
    ensures c / 64 == c / 4096 * 64 + c / 64 % 64
    ensures c / 4096 == c / 0x4_0000 * 64 + c / 4096 % 64
  {
    assert c / 4096 == c / 64 / 64;
    assert c / 0x4_0000 == c / 4096 / 64;
  }

  lemma {:induction false} LeadEncoded(c: nat)
    requires Scalar(c)
    ensures LeadBits(Encode(c)[0]) == if c < 0x80 then c else if c < 0x800 then c / 64
                                      else if c < 0x1_0000 then c / 4096 else c / 0x4_0000
  {
  }

  lemma {:induction false} GatherStep(s: seq<Byte>, n: nat)
    requires 1 <= n < |s|
    ensures Gather(s, n + 1) == Gather(s, n) * 64 + s[n] % 64
  {
  }

  lemma {:induction false} LowSix(x: nat)
    ensures (128 + x % 64) % 64 == x % 64
  {
  }

  lemma {:induction false} TailEncoded(c: nat)
    requires Scalar(c)
    ensures var e := Encode(c);
            && (|e| > 1 ==> e[|e| - 1] % 64 == c % 64)
            && (|e| > 2 ==> e[|e| - 2] % 64 == c / 64 % 64)
            && (|e| > 3 ==> e[|e| - 3] % 64 == c / 4096 % 64)
  {
    LowSix(c);
    LowSix(c / 64);
    LowSix(c / 4096);
  }

  lemma {:induction false} GatherEncoded(c: nat)
    requires Scalar(c)
    ensures Gather(Encode(c), |Encode(c)|) == c
  {
    var e := Encode(c);
    assert Gather(e, 1) == LeadBits(e[0]);
    SixBitGroups(c);
    LeadEncoded(c);
    TailEncoded(c);
    if c >= 0x80 {
      GatherStep(e, 1);
      if c >= 0x800 {
        GatherStep(e, 2);
        if c >= 0x1_0000 { GatherStep(e, 3); }
      }
    }
  }

  lemma {:induction false} DecodeEncoded(c: nat, rest: seq<Byte>)
    requires Scalar(c)
    ensures DecodeOne(Encode(c) + rest) == (c, |Encode(c)|)
  {
    var s := Encode(c) + rest;
    EncodedShape(c);
    GatherEncoded(c);
    GatherLocal(Encode(c), rest, |Encode(c)|);
    assert forall i :: 1 <= i < |Encode(c)| ==> ByteAt(s, i) == Encode(c)[i];
  }

  /** Decoding inverts encoding, and an encoded text has no zero byte, so the C string ends
      where the text does. */
  lemma {:induction false} RoundTrip(cs: seq<nat>)
    requires forall i :: 0 <= i < |cs| ==> Scalar(cs[i])
    ensures DecodeAll(EncodeAll(cs)) == cs
    ensures forall i :: 0 <= i < |EncodeAll(cs)| ==> EncodeAll(cs)[i] != 0
  {
    if cs != [] {
      EncodedShape(cs[0]);
      DecodeEncoded(cs[0], EncodeAll(cs[1..]));
      assert (Encode(cs[0]) + EncodeAll(cs[1..]))[|Encode(cs[0])|..] == EncodeAll(cs[1..]);
      RoundTrip(cs[1..]);
    }
  }

  // ---------------------------------------------------------------- resynchronisation

  predicate StartsFresh(b: seq<Byte>) { b == [] || !Continuation(b[0]) }

  lemma {:induction false} DecodeOneLocal(a: seq<Byte>, b: seq<Byte>)
    requires a != [] && StartsFresh(b)
    ensures DecodeOne(a + b) == DecodeOne(a)
  {
    var n := LeadLength(a[0]);
    assert forall i :: 0 <= i < |a| ==> ByteAt(a + b, i) == ByteAt(a, i);
    if n > |a| {
      assert !Continuation(ByteAt(a, |a|)) && !Continuation(ByteAt(a + b, |a|));
    } else if n > 0 {
      GatherLocal(a, b, n);
      assert Complete(a + b, n) <==> Complete(a, n);
    }
  }

  lemma {:induction false} GatherLocal(a: seq<Byte>, b: seq<Byte>, n: nat)
    requires 1 <= n <= |a|
    ensures Gather(a + b, n) == Gather(a, n)
  {
    if n > 1 { GatherLocal(a, b, n - 1); }
  }
}
