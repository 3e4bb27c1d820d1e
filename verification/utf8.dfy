/** UTF-8 as used by `Encoding.UTF8.GetBytes` when an incident log is turned into
    the bytes appended to the blob.  A Dafny `char` is a Unicode scalar value, so
    every string here is well formed and no replacement character is ever needed;
    a C# string is UTF-16 and can also hold an unpaired surrogate, which `GetBytes`
    would replace by `EF BF BD`.  A scalar value takes one to four bytes, the
    four-byte ones being the C# surrogate pairs. */
module Utf8 {
  import opened Wrappers

  newtype byte = x: int | 0 <= x < 256

  /** A continuation byte `10xxxxxx`. */
  predicate IsContinuation(b: byte) {
    0x80 <= b < 0xC0
  }

  /** The one to four bytes of the shortest encoding of `c`. */
  function EncodeChar(c: char): (bs: seq<byte>)
    ensures 1 <= |bs| <= 4
    ensures |bs| == 1 <==> c as int < 0x80
    ensures |bs| == 1 ==> bs[0] as int == c as int
    ensures forall i :: 1 <= i < |bs| ==> IsContinuation(bs[i])
  {
    var n := c as int;
    if n < 0x80 then [n as byte]
    else if n < 0x800 then [(0xC0 + n / 64) as byte, (0x80 + n % 64) as byte]
    else if n < 0x1_0000 then
      [(0xE0 + n / 64 / 64) as byte, (0x80 + n / 64 % 64) as byte, (0x80 + n % 64) as byte]
    else
      [(0xF0 + n / 64 / 64 / 64) as byte, (0x80 + n / 64 / 64 % 64) as byte,
       (0x80 + n / 64 % 64) as byte, (0x80 + n % 64) as byte]
  }

  /** The UTF-8 bytes of a whole string. */
  function Encode(s: string): (bs: seq<byte>)
    ensures |s| <= |bs| <= 4 * |s|
  {
    if s == [] then [] else EncodeChar(s[0]) + Encode(s[1..])
  }

  /** The length of the sequence a lead byte announces; 0 for a byte that
      cannot start a character (a continuation byte, or an overlong or
      out-of-range lead). */
  function SequenceLength(lead: byte): (n: nat)
    ensures n <= 4
  {
    if lead < 0x80 then 1
    else if 0xC2 <= lead <= 0xDF then 2
    else if 0xE0 <= lead <= 0xEF then 3
    else if 0xF0 <= lead <= 0xF4 then 4
    else 0
  }

  /** The scalar value a complete sequence carries in its payload bits. */
  function ScalarOf(bs: seq<byte>): int
    requires 1 <= |bs| <= 4
  {
    if |bs| == 1 then bs[0] as int
    else if |bs| == 2 then (bs[0] as int - 0xC0) * 64 + (bs[1] as int - 0x80)
    else if |bs| == 3 then
      ((bs[0] as int - 0xE0) * 64 + (bs[1] as int - 0x80)) * 64 + (bs[2] as int - 0x80)
    else
      (((bs[0] as int - 0xF0) * 64 + (bs[1] as int - 0x80)) * 64 + (bs[2] as int - 0x80)) * 64
        + (bs[3] as int - 0x80)
  }

  /** A value is encoded by `n` bytes only if it needs them (no overlong form),
      and it must be a scalar value (no surrogate, nothing past U+10FFFF). */
  predicate IsShortestScalar(v: int, n: nat) {
    && 0 <= v <= 0x10_FFFF && !(0xD800 <= v < 0xE000)
    && (n == 1 ==> v < 0x80)
    && (n == 2 ==> 0x80 <= v < 0x800)
    && (n == 3 ==> 0x800 <= v < 0x1_0000)
    && (n == 4 ==> 0x1_0000 <= v)
  }

  /** Reads one scalar value from the front of `bs`: the character and the number
      of bytes it took, or `None` for an ill-formed, overlong, surrogate or
      out-of-range sequence. */
  function DecodeChar(bs: seq<byte>): (r: Option<(char, nat)>)
    ensures r.Some? ==> 1 <= r.value.1 <= |bs| && r.value.1 <= 4
  {
    if |bs| == 0 then None
    else
      var n := SequenceLength(bs[0]);
      if n == 0 || |bs| < n then None
      else if exists i :: 1 <= i < n && !IsContinuation(bs[i]) then None
      else
        var v := ScalarOf(bs[..n]);
        if IsShortestScalar(v, n) then Some((v as char, n)) else None
  }

  /** Decodes a whole byte sequence, failing on the first ill-formed character. */
  function Decode(bs: seq<byte>): Option<string>
    decreases |bs|
  {
    if bs == [] then Some([])
    else match DecodeChar(bs)
      case None => None
      case Some((c, n)) =>
        match Decode(bs[n..])
        case None => None
        case Some(rest) => Some([c] + rest)
  }

  lemma DivMod64(q: int, r: int)
    requires 0 <= r < 64
    ensures (q * 64 + r) / 64 == q && (q * 64 + r) % 64 == r
  {
  }

  lemma Split64(x: int)
    ensures x == x / 64 * 64 + x % 64 && 0 <= x % 64 < 64
  {
  }

  /** The encoder's lead byte announces the encoder's length, and the payload
      bits carry the character back. */
  lemma EncodeCharFields(c: char)
    ensures SequenceLength(EncodeChar(c)[0]) == |EncodeChar(c)|
    ensures ScalarOf(EncodeChar(c)) == c as int
    ensures IsShortestScalar(c as int, |EncodeChar(c)|)
  {
    var n := c as int;
    var bs := EncodeChar(c);
    var q1, r0 := n / 64, n % 64;
    Split64(n);
    var q2, r1 := q1 / 64, q1 % 64;
    Split64(q1);
    var q3, r2 := q2 / 64, q2 % 64;
    Split64(q2);
    if n < 0x80 {
    } else if n < 0x800 {
      assert bs[0] as int == 0xC0 + q1 && bs[1] as int == 0x80 + r0;
    } else if n < 0x1_0000 {
      assert bs[0] as int == 0xE0 + q2 && bs[1] as int == 0x80 + r1 && bs[2] as int == 0x80 + r0;
    } else {
      assert bs[0] as int == 0xF0 + q3 && bs[1] as int == 0x80 + r2;
      assert bs[2] as int == 0x80 + r1 && bs[3] as int == 0x80 + r0;
    }
  }

  /** Decoding the encoding of one character, whatever follows it, gives it back. */
  lemma DecodeEncodeChar(c: char, rest: seq<byte>)
    ensures DecodeChar(EncodeChar(c) + rest) == Some((c, |EncodeChar(c)|))
  {
    var head := EncodeChar(c);
    var bs := head + rest;
    EncodeCharFields(c);
    assert bs[..|head|] == head;
    assert forall i :: 1 <= i < |head| ==> bs[i] == head[i];
  }

  /** Round trip: decoding an encoded string gives the string back. */
  lemma {:induction false} DecodeEncode(s: string)
    ensures Decode(Encode(s)) == Some(s)
  {
    if s != [] {
      var head := EncodeChar(s[0]);
      var bs := Encode(s);
      assert bs == head + Encode(s[1..]);
      DecodeEncodeChar(s[0], Encode(s[1..]));
      assert bs[|head|..] == Encode(s[1..]);
      DecodeEncode(s[1..]);
      assert [s[0]] + s[1..] == s;
    }
  }

  lemma EncodeScalarOf3(bs: seq<byte>)
    requires |bs| == 3 && 0xE0 <= bs[0] <= 0xEF && IsContinuation(bs[1]) && IsContinuation(bs[2])
    requires IsShortestScalar(ScalarOf(bs), 3)
    ensures EncodeChar(ScalarOf(bs) as char) == bs
  {
    var d2, d1, d0 := bs[0] as int - 0xE0, bs[1] as int - 0x80, bs[2] as int - 0x80;
    DivMod64(d2 * 64 + d1, d0);
    DivMod64(d2, d1);
  }

  lemma EncodeScalarOf4(bs: seq<byte>)
    requires |bs| == 4 && 0xF0 <= bs[0] <= 0xF4
    requires IsContinuation(bs[1]) && IsContinuation(bs[2]) && IsContinuation(bs[3])
    requires IsShortestScalar(ScalarOf(bs), 4)
    ensures EncodeChar(ScalarOf(bs) as char) == bs
  {
    var d3, d2, d1, d0 := bs[0] as int - 0xF0, bs[1] as int - 0x80, bs[2] as int - 0x80, bs[3] as int - 0x80;
    DivMod64((d3 * 64 + d2) * 64 + d1, d0);
    DivMod64(d3 * 64 + d2, d1);
    DivMod64(d3, d2);
  }

  /** A complete, shortest sequence is the encoding of the value it carries. */
  lemma EncodeScalarOf(bs: seq<byte>)
    requires 1 <= |bs| <= 4 && SequenceLength(bs[0]) == |bs|
    requires forall i :: 1 <= i < |bs| ==> IsContinuation(bs[i])
    requires IsShortestScalar(ScalarOf(bs), |bs|)
    ensures EncodeChar(ScalarOf(bs) as char) == bs
  {
    if |bs| == 2 {
      DivMod64(bs[0] as int - 0xC0, bs[1] as int - 0x80);
    } else if |bs| == 3 {
      EncodeScalarOf3(bs);
    } else if |bs| == 4 {
      EncodeScalarOf4(bs);
    }
  }

  /** The other direction: whatever `DecodeChar` accepts is exactly the encoding
      of the character it returns. */
  lemma EncodeDecodeChar(bs: seq<byte>)
    requires DecodeChar(bs).Some?
    ensures EncodeChar(DecodeChar(bs).value.0) == bs[..DecodeChar(bs).value.1]
  {
    var n := DecodeChar(bs).value.1;
    var head := bs[..n];
    assert forall i :: 1 <= i < n ==> head[i] == bs[i];
    EncodeScalarOf(head);
  }

  /** One step of `Decode` on a non-empty accepted input. */
  lemma DecodeStep(bs: seq<byte>)
    requires bs != [] && Decode(bs).Some?
    ensures DecodeChar(bs).Some?
    ensures Decode(bs[DecodeChar(bs).value.1..]).Some?
    ensures Decode(bs).value
      == [DecodeChar(bs).value.0] + Decode(bs[DecodeChar(bs).value.1..]).value
  {
  }

  /** Encoding a character in front of a string. */
  lemma EncodeCons(c: char, rest: string)
    ensures Encode([c] + rest) == EncodeChar(c) + Encode(rest)
  {
    assert ([c] + rest)[0] == c && ([c] + rest)[1..] == rest;
  }

  /** Reassembles an input from its first character's encoding and the rest. */
  lemma JoinEncoded(bs: seq<byte>, n: nat, c: char, rest: string)
    requires n <= |bs| && EncodeChar(c) == bs[..n] && Encode(rest) == bs[n..]
    ensures Encode([c] + rest) == bs
  {
    EncodeCons(c, rest);
    assert bs == bs[..n] + bs[n..];
  }

  /** Whatever `Decode` accepts is exactly the encoding of what it returns. */
  lemma {:induction false} EncodeDecode(bs: seq<byte>)
    requires Decode(bs).Some?
    ensures Encode(Decode(bs).value) == bs
    decreases |bs|
  {
    if bs != [] {
      DecodeStep(bs);
      var (c, n) := DecodeChar(bs).value;
      var tail := bs[n..];
      EncodeDecodeChar(bs);
      EncodeDecode(tail);
      JoinEncoded(bs, n, c, Decode(tail).value);
    }
  }

  /** Encoding distributes over concatenation. */
  lemma {:induction false} EncodeAppend(a: string, b: string)
    ensures Encode(a + b) == Encode(a) + Encode(b)
  {
    if a != [] {
      calc {
        Encode(a + b);
        { assert (a + b)[0] == a[0] && (a + b)[1..] == a[1..] + b; }
        EncodeChar(a[0]) + Encode(a[1..] + b);
        { EncodeAppend(a[1..], b); }
        EncodeChar(a[0]) + (Encode(a[1..]) + Encode(b));
        (EncodeChar(a[0]) + Encode(a[1..])) + Encode(b);
      }
    } else {
      assert a + b == b;
    }
  }

  /** An ASCII string is encoded byte for byte. */
  lemma {:induction false} EncodeAscii(s: string)
    requires forall i :: 0 <= i < |s| ==> s[i] as int < 0x80
    ensures |Encode(s)| == |s|
    ensures forall i :: 0 <= i < |s| ==> Encode(s)[i] as int == s[i] as int
  {
    if s != [] {
      EncodeAscii(s[1..]);
      assert forall i :: 1 <= i < |s| ==> Encode(s)[i] == Encode(s[1..])[i - 1];
    }
  }
}
