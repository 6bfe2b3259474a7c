/**
  UTF-8 as the standard string types define it (Table 3-7 of the Unicode Standard):
  shortest form only, no surrogates, nothing above U+10FFFF.

  Dafny's `char` is a Unicode scalar value, so `string` is exactly a host string.
  `Encode` and `Decode` are shown to be a bijection between strings and valid byte sequences.
*/
module Utf8 {
  import opened Wrappers

  function EncodeChar(c: char): (bytes: seq<Byte>)
    ensures 1 <= |bytes| <= 4
  {
    var n := c as int;
    if n < 0x80 then [n]
    else if n < 0x800 then [0xC0 + n / 64, 0x80 + n % 64]
    else if n < 0x1_0000 then [0xE0 + n / 64 / 64, 0x80 + n / 64 % 64, 0x80 + n % 64]
    else [0xF0 + n / 64 / 64 / 64, 0x80 + n / 64 / 64 % 64, 0x80 + n / 64 % 64, 0x80 + n % 64]
  }

  function Encode(s: string): seq<Byte> {
    if s == [] then [] else EncodeChar(s[0]) + Encode(s[1..])
  }

  predicate Continuation(b: Byte) { 0x80 <= b < 0xC0 }

  /** The number of bytes a leading byte announces, 0 when it cannot lead. */
  function Announced(lead: Byte): (width: nat)
    ensures width <= 4
  {
    if lead < 0x80 then 1
    else if 0xC2 <= lead < 0xE0 then 2
    else if 0xE0 <= lead < 0xF0 then 3
    else if 0xF0 <= lead < 0xF5 then 4
    else 0
  }

  /** The payload bits of a candidate of the announced width. */
  function Payload(b: seq<Byte>): int
    requires 1 <= |b| <= 4
  {
    var lead: int := b[0];
    if |b| == 1 then lead
    else if |b| == 2 then (lead - 0xC0) * 64 + Low(b[1])
    else if |b| == 3 then ((lead - 0xE0) * 64 + Low(b[1])) * 64 + Low(b[2])
    else (((lead - 0xF0) * 64 + Low(b[1])) * 64 + Low(b[2])) * 64 + Low(b[3])
  }

  function Low(b: Byte): int { b as int - 0x80 }

  predicate ScalarOfWidth(n: int, width: nat) {
    && (width == 2 ==> 0x80 <= n < 0x800)
    && (width == 3 ==> 0x800 <= n < 0xD800 || 0xE000 <= n < 0x1_0000)
    && (width == 4 ==> 0x1_0000 <= n < 0x11_0000)
    && (width == 1 ==> 0 <= n < 0x80)
    && 1 <= width <= 4
  }

  /** The first scalar of `b` together with its width, if `b` starts with a valid one. */
  function DecodeFirst(b: seq<Byte>): (r: Option<(char, nat)>)
    ensures r.Some? ==> 1 <= r.value.1 <= |b| && r.value.1 <= 4
  {
    if b == [] then None
    else
      var width := Announced(b[0]);
      if width == 0 || |b| < width || exists k :: 1 <= k < width && !Continuation(b[k]) then None
      else
        var n := Payload(b[..width]);
        if ScalarOfWidth(n, width) then Some((n as char, width)) else None
  }

  function Decode(b: seq<Byte>): Option<string> {
    if b == [] then Some([])
    else
      var first := DecodeFirst(b);
      if first.None? then None
      else
        var rest := Decode(b[first.value.1..]);
        if rest.None? then None else Some([first.value.0] + rest.value)
  }

  /** How many leading bytes are valid before decoding stops. */
  function ValidUpTo(b: seq<Byte>): (n: nat)
    ensures n <= |b|
  {
    var first := DecodeFirst(b);
    if first.None? then 0 else first.value.1 + ValidUpTo(b[first.value.1..])
  }

  lemma PayloadInvertsEncodeChar(c: char)
    ensures Announced(EncodeChar(c)[0]) == |EncodeChar(c)|
    ensures forall k :: 1 <= k < |EncodeChar(c)| ==> Continuation(EncodeChar(c)[k])
    ensures Payload(EncodeChar(c)) == c as int
  {
  }

  lemma DecodeFirstInvertsEncodeChar(c: char, rest: seq<Byte>)
    ensures DecodeFirst(EncodeChar(c) + rest) == Some((c, |EncodeChar(c)|))
  {
    var e := EncodeChar(c);
    PayloadInvertsEncodeChar(c);
    assert (e + rest)[..|e|] == e;
    assert forall k :: 1 <= k < |e| ==> (e + rest)[k] == e[k];
  }

  /** Decoding inverts encoding. */
  lemma {:induction false} DecodeInvertsEncode(s: string)
    ensures Decode(Encode(s)) == Some(s)
  {
    if s != [] {
      var e, b := EncodeChar(s[0]), Encode(s);
      DecodeFirstInvertsEncodeChar(s[0], Encode(s[1..]));
      DecodeInvertsEncode(s[1..]);
      assert b[|e|..] == Encode(s[1..]);
      assert [s[0]] + s[1..] == s;
    }
  }

  lemma Sextet(x: int, y: int)
    requires 0 <= y < 64
    ensures (x * 64 + y) / 64 == x && (x * 64 + y) % 64 == y
  {
  }

  lemma EncodeCharInvertsPayload(c: char, bytes: seq<Byte>)
    requires 1 <= |bytes| <= 4 && Announced(bytes[0]) == |bytes|
    requires forall k :: 1 <= k < |bytes| ==> Continuation(bytes[k])
    requires ScalarOfWidth(Payload(bytes), |bytes|) && c as int == Payload(bytes)
    ensures EncodeChar(c) == bytes
  {
    var x: int := bytes[0];
    if |bytes| == 2 {
      Sextet(x - 0xC0, Low(bytes[1]));
    } else if |bytes| == 3 {
      Sextet(x - 0xE0, Low(bytes[1]));
      Sextet((x - 0xE0) * 64 + Low(bytes[1]), Low(bytes[2]));
    } else if |bytes| == 4 {
      Sextet(x - 0xF0, Low(bytes[1]));
      Sextet((x - 0xF0) * 64 + Low(bytes[1]), Low(bytes[2]));
      Sextet(((x - 0xF0) * 64 + Low(bytes[1])) * 64 + Low(bytes[2]), Low(bytes[3]));
    }
  }

  lemma EncodeCharInvertsDecodeFirst(b: seq<Byte>)
    requires DecodeFirst(b).Some?
    ensures EncodeChar(DecodeFirst(b).value.0) == b[..DecodeFirst(b).value.1]
  {
    var width := Announced(b[0]);
    assert !exists k :: 1 <= k < width && !Continuation(b[k]);
    EncodeCharInvertsPayload(DecodeFirst(b).value.0, b[..width]);
  }

  /** Only the encoding of `s` decodes to `s`: no overlong or alternative spelling is accepted. */
  lemma {:induction false} EncodeInvertsDecode(b: seq<Byte>)
    requires Decode(b).Some?
    ensures Encode(Decode(b).value) == b
  {
    if b != [] {
      var c, rest := DecodeStep(b);
      EncodeInvertsDecode(rest);
      EncodeCons(c, Decode(rest).value);
    }
  }

  lemma DecodeStep(b: seq<Byte>) returns (c: char, rest: seq<Byte>)
    requires b != [] && Decode(b).Some?
    ensures |rest| < |b| && Decode(rest).Some?
    ensures Decode(b).value == [c] + Decode(rest).value
    ensures b == EncodeChar(c) + rest
  {
    var first := DecodeFirst(b).value;
    c, rest := first.0, b[first.1..];
    EncodeCharInvertsDecodeFirst(b);
  }

  lemma EncodeCons(c: char, s: string)
    ensures Encode([c] + s) == EncodeChar(c) + Encode(s)
  {
    assert ([c] + s)[1..] == s;
  }

  lemma {:induction false} EncodeConcat(a: string, b: string)
    ensures Encode(a + b) == Encode(a) + Encode(b)
  {
    if a == [] {
      assert a + b == b;
    } else {
      assert (a + b)[1..] == a[1..] + b;
      EncodeConcat(a[1..], b);
    }
  }

  /** An ASCII byte occurs in an encoding exactly where its character occurs in the string. */
  lemma {:induction false} AsciiBytesAreCharacters(s: string, c: char)
    requires c as int < 0x80
    ensures c as int in Encode(s) <==> c in s
  {
    if s != [] {
      AsciiBytesAreCharacters(s[1..], c);
      assert c as int in EncodeChar(s[0]) <==> c == s[0];
    }
  }
}
