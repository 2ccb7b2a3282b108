/**
  UTF-8 as Rust's `String` and `String::from_utf8` use it (section 3 of RFC 3629).
  A Dafny `char` is a Unicode scalar value, so a Dafny string is a Rust string.
 */
module Utf8 {
  import opened Wrappers
  import opened Bytes

  function EncodeChar(c: char): (s: seq<Byte>)
    ensures 1 <= |s| <= 4
  {
    var n := c as int;
    if n < 0x80 then [n]
    else if n < 0x800 then [0xC0 + n / 64, 0x80 + n % 64]
    else if n < 0x1_0000 then [0xE0 + n / 4096, 0x80 + n / 64 % 64, 0x80 + n % 64]
    else [0xF0 + n / 262144, 0x80 + n / 4096 % 64, 0x80 + n / 64 % 64, 0x80 + n % 64]
  }

  function Encode(s: string): seq<Byte> {
    if |s| == 0 then [] else EncodeChar(s[0]) + Encode(s[1..])
  }

  predicate Tail(b: Byte) {
    0x80 <= b < 0xC0
  }

  predicate IsScalar(n: int) {
    0 <= n < 0xD800 || 0xE000 <= n < 0x11_0000
  }

  /** The first character and its byte length, unless the bytes are ill-formed or end early. */
  function DecodeChar(s: seq<Byte>): Option<(char, nat)> {
    if |s| == 0 then None
    else if s[0] < 0x80 then Some((s[0] as char, 1))
    else if 0xC0 <= s[0] < 0xE0 && |s| >= 2 && Tail(s[1]) then
      var n := (s[0] as int - 0xC0) * 64 + (s[1] as int - 0x80);
      if n < 0x80 then None else Some((n as char, 2))
    else if 0xE0 <= s[0] < 0xF0 && |s| >= 3 && Tail(s[1]) && Tail(s[2]) then
      var n := (s[0] as int - 0xE0) * 4096 + (s[1] as int - 0x80) * 64 + (s[2] as int - 0x80);
      if n < 0x800 || !IsScalar(n) then None else Some((n as char, 3))
    else if 0xF0 <= s[0] < 0xF8 && |s| >= 4 && Tail(s[1]) && Tail(s[2]) && Tail(s[3]) then
      var n := (s[0] as int - 0xF0) * 262144 + (s[1] as int - 0x80) * 4096 + (s[2] as int - 0x80) * 64 + (s[3] as int - 0x80);
      if n < 0x1_0000 || !IsScalar(n) then None else Some((n as char, 4))
    else None
  }

  function Decode(s: seq<Byte>): Option<string> {
    if |s| == 0 then Some("")
    else match DecodeChar(s)
      case None => None
      case Some((c, n)) =>
        if n == 0 || n > |s| then None
        else match Decode(s[n..])
          case None => None
          case Some(rest) => Some([c] + rest)
  }

  /** A number split into its low six bits and the rest. */
  lemma SixBits(n: nat)
    ensures n == n / 64 * 64 + n % 64 && n / 64 / 64 == n / 4096 && n / 4096 / 64 == n / 262144
  {
  }

  lemma JoinSixBits(high: nat, low: nat)
    requires low < 64
    ensures (high * 64 + low) / 64 == high && (high * 64 + low) % 64 == low
  {
  }

  lemma DecodeEncodedChar(c: char, tail: seq<Byte>)
    ensures DecodeChar(EncodeChar(c) + tail) == Some((c, |EncodeChar(c)|))
  {
    var n := c as int;
    var e := EncodeChar(c);
    var s := e + tail;
    assert s[0] == e[0];
    SixBits(n);
    SixBits(n / 64);
    SixBits(n / 4096);
    if 0x80 <= n < 0x800 {
      assert s[1] == e[1];
    } else if 0x800 <= n < 0x1_0000 {
      assert s[1] == e[1] && s[2] == e[2];
      assert n == (e[0] as int - 0xE0) * 4096 + (e[1] as int - 0x80) * 64 + (e[2] as int - 0x80);
    } else if n >= 0x1_0000 {
      assert s[1] == e[1] && s[2] == e[2] && s[3] == e[3];
      assert n == (e[0] as int - 0xF0) * 262144 + (e[1] as int - 0x80) * 4096
        + (e[2] as int - 0x80) * 64 + (e[3] as int - 0x80);
    }
  }

  lemma EncodeDecodedChar(s: seq<Byte>)
    requires DecodeChar(s).Some?
    ensures var (c, n) := DecodeChar(s).value;
      0 < n <= |s| && n == |EncodeChar(c)| && EncodeChar(c) == s[..n]
  {
    var (c, n) := DecodeChar(s).value;
    if n == 2 {
      EncodeTwo(c, s[0] as int - 0xC0, s[1] as int - 0x80);
    } else if n == 3 {
      EncodeThree(c, s[0] as int - 0xE0, s[1] as int - 0x80, s[2] as int - 0x80);
    } else if n == 4 {
      EncodeFour(c, s[0] as int - 0xF0, s[1] as int - 0x80, s[2] as int - 0x80, s[3] as int - 0x80);
    }
  }

  lemma EncodeTwo(c: char, a: nat, b: nat)
    requires a < 32 && b < 64 && c as int == a * 64 + b >= 0x80
    ensures EncodeChar(c) == [0xC0 + a, 0x80 + b]
  {
    JoinSixBits(a, b);
  }

  lemma EncodeThree(c: char, a: nat, b: nat, d: nat)
    requires a < 16 && b < 64 && d < 64 && c as int == a * 4096 + b * 64 + d >= 0x800
    ensures EncodeChar(c) == [0xE0 + a, 0x80 + b, 0x80 + d]
  {
    JoinSixBits(a * 64 + b, d);
    JoinSixBits(a, b);
    SixBits(c as int);
  }

  lemma EncodeFour(c: char, a: nat, b: nat, d: nat, e: nat)
    requires a < 8 && b < 64 && d < 64 && e < 64
    requires c as int == a * 262144 + b * 4096 + d * 64 + e >= 0x1_0000
    ensures EncodeChar(c) == [0xF0 + a, 0x80 + b, 0x80 + d, 0x80 + e]
  {
    JoinSixBits((a * 64 + b) * 64 + d, e);
    JoinSixBits(a * 64 + b, d);
    JoinSixBits(a, b);
    SixBits(c as int);
  }

  /** Every string survives its encoding. */
  lemma {:induction false} DecodeEncoded(s: string)
    ensures Decode(Encode(s)) == Some(s)
  {
    if |s| > 0 {
      DecodeEncodedChar(s[0], Encode(s[1..]));
      DecodeEncoded(s[1..]);
      var n := |EncodeChar(s[0])|;
      assert Encode(s)[n..] == Encode(s[1..]);
      assert s == [s[0]] + s[1..];
    }
  }

  /** Whatever decodes is byte for byte the encoding of what it decodes to. */
  lemma {:induction false} EncodeDecoded(b: seq<Byte>)
    requires Decode(b).Some?
    ensures Encode(Decode(b).value) == b
  {
    if |b| > 0 {
      EncodeDecodedChar(b);
      var (c, n) := DecodeChar(b).value;
      EncodeDecoded(b[n..]);
      var rest := Decode(b[n..]).value;
      assert ([c] + rest)[1..] == rest;
    }
  }

  lemma {:induction false} EncodeConcat(a: string, b: string)
    ensures Encode(a + b) == Encode(a) + Encode(b)
  {
    if |a| == 0 {
      assert a + b == b;
    } else {
      assert (a + b)[1..] == a[1..] + b;
      EncodeConcat(a[1..], b);
    }
  }

  predicate IsAscii(s: string) {
    forall i :: 0 <= i < |s| ==> s[i] as int < 0x80
  }

  /** An ASCII string is encoded one byte per character. */
  lemma {:induction false} EncodeAscii(s: string)
    requires IsAscii(s)
    ensures |Encode(s)| == |s|
    ensures forall i :: 0 <= i < |s| ==> Encode(s)[i] == s[i] as int
  {
    if |s| > 0 {
      EncodeAscii(s[1..]);
    }
  }

  lemma {:induction false} EncodeNonEmpty(s: string)
    ensures s == "" <==> Encode(s) == []
  {
  }
}
