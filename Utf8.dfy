/**
  UTF-8 as RFC 3629 defines it. A Rust `String` is a vector of bytes that always holds
  the UTF-8 encoding of a sequence of Unicode scalar values; a Dafny `char` is exactly
  such a scalar value, so `Encode` maps the text of a string to the bytes Rust stores.
  `Decode` is the inverse: it accepts exactly the well-formed byte sequences.
 */
module Utf8 {
  import opened Wrappers

  newtype byte = x: int | 0 <= x < 256

  /** A byte of the form 10xxxxxx, which only ever follows a leading byte. */
  predicate IsContinuation(b: byte) {
    0x80 <= b < 0xC0
  }

  /** Number of bytes RFC 3629 (section 3) uses for the scalar value `n`. */
  function Width(n: int): (w: nat)
    ensures 1 <= w <= 4
  {
    if n < 0x80 then 1 else if n < 0x800 then 2 else if n < 0x1_0000 then 3 else 4
  }

  /** The bytes of one character. */
  function EncodeChar(c: char): (r: seq<byte>)
    ensures |r| == Width(c as int)
    ensures !IsContinuation(r[0])
    ensures forall i :: 1 <= i < |r| ==> IsContinuation(r[i])
    ensures c as int < 0x80 ==> r == [(c as int) as byte]
  {
    var n := c as int;
    if n < 0x80 then
      [n as byte]
    else if n < 0x800 then
      [(0xC0 + n / 64) as byte, (0x80 + n % 64) as byte]
    else if n < 0x1_0000 then
      [(0xE0 + n / 4096) as byte, (0x80 + n / 64 % 64) as byte, (0x80 + n % 64) as byte]
    else
      [(0xF0 + n / 262144) as byte, (0x80 + n / 4096 % 64) as byte,
       (0x80 + n / 64 % 64) as byte, (0x80 + n % 64) as byte]
  }

  /** The bytes of a whole text: what a Rust `String` holding `s` stores. */
  function Encode(s: seq<char>): seq<byte> {
    if s == [] then [] else EncodeChar(s[0]) + Encode(s[1..])
  }

  /** The value carried by a continuation byte. */
  function Payload(b: byte): int {
    b as int - 0x80
  }

  /**
    Reads one character from the front of `s`, with the number of bytes it takes.
    Overlong forms, surrogates and values above U+10FFFF are refused.
   */
  function DecodeChar(s: seq<byte>): (r: Option<(char, nat)>)
    ensures r.Some? ==> 1 <= r.value.1 <= |s| && EncodeChar(r.value.0) == s[..r.value.1]
  {
    if |s| == 0 then None
    else if s[0] < 0x80 then
      Some(((s[0] as int) as char, 1))
    else if 0xC2 <= s[0] < 0xE0 then
      if |s| >= 2 && IsContinuation(s[1]) then
        var n := (s[0] as int - 0xC0) * 64 + Payload(s[1]);
        ReencodeTwo(s[0], s[1]);
        Some((n as char, 2))
      else None
    else if 0xE0 <= s[0] < 0xF0 then
      if |s| >= 3 && IsContinuation(s[1]) && IsContinuation(s[2]) then
        var n := (s[0] as int - 0xE0) * 4096 + Payload(s[1]) * 64 + Payload(s[2]);
        if 0x800 <= n && !(0xD800 <= n < 0xE000) then
          ReencodeThree(s[0], s[1], s[2]);
          Some((n as char, 3))
        else None
      else None
    else if 0xF0 <= s[0] < 0xF5 then
      if |s| >= 4 && IsContinuation(s[1]) && IsContinuation(s[2]) && IsContinuation(s[3]) then
        var n := (s[0] as int - 0xF0) * 262144 + Payload(s[1]) * 4096 + Payload(s[2]) * 64 + Payload(s[3]);
        if 0x1_0000 <= n < 0x11_0000 then
          ReencodeFour(s[0], s[1], s[2], s[3]);
          Some((n as char, 4))
        else None
      else None
    else None
  }

  /** The characters held by `s`, or `None` when `s` is not well-formed UTF-8. */
  function Decode(s: seq<byte>): (r: Option<seq<char>>)
    ensures r.Some? ==> Encode(r.value) == s
    decreases |s|
  {
    if s == [] then Some([])
    else match DecodeChar(s)
      case None => None
      case Some((c, n)) =>
        match Decode(s[n..])
        case None => None
        case Some(t) =>
          DecodeStep(s, c, n, t);
          Some([c] + t)
  }

  /** A character read from the front of `s`, followed by the text of the rest, encodes `s`. */
  lemma DecodeStep(s: seq<byte>, c: char, n: nat, t: seq<char>)
    requires 1 <= n <= |s| && EncodeChar(c) == s[..n] && Encode(t) == s[n..]
    ensures Encode([c] + t) == s
  {
    assert s == s[..n] + s[n..];
    assert ([c] + t)[1..] == t;
  }

  /** The byte sequences a Rust `String` may hold. */
  predicate IsValid(s: seq<byte>) {
    Decode(s).Some?
  }

  // Arithmetic behind the two directions of the round trip.

  lemma Split64(n: int)
    requires 0 <= n
    ensures n == n / 64 * 64 + n % 64 && 0 <= n % 64 < 64
  {
  }

  lemma Unsplit64(q: int, r: int)
    requires 0 <= q && 0 <= r < 64
    ensures (q * 64 + r) / 64 == q && (q * 64 + r) % 64 == r
  {
  }

  lemma ReencodeTwo(b0: byte, b1: byte)
    requires 0xC2 <= b0 < 0xE0 && IsContinuation(b1)
    ensures var n := (b0 as int - 0xC0) * 64 + Payload(b1);
      0x80 <= n < 0x800 && EncodeChar(n as char) == [b0, b1]
  {
    var n := (b0 as int - 0xC0) * 64 + Payload(b1);
    Unsplit64(b0 as int - 0xC0, Payload(b1));
  }

  lemma ReencodeThree(b0: byte, b1: byte, b2: byte)
    requires 0xE0 <= b0 < 0xF0 && IsContinuation(b1) && IsContinuation(b2)
    requires var n := (b0 as int - 0xE0) * 4096 + Payload(b1) * 64 + Payload(b2);
      0x800 <= n && !(0xD800 <= n < 0xE000)
    ensures var n := (b0 as int - 0xE0) * 4096 + Payload(b1) * 64 + Payload(b2);
      n < 0x1_0000 && EncodeChar(n as char) == [b0, b1, b2]
  {
    var hi := (b0 as int - 0xE0) * 64 + Payload(b1);
    var n := hi * 64 + Payload(b2);
    Unsplit64(hi, Payload(b2));
    Unsplit64(b0 as int - 0xE0, Payload(b1));
    assert n / 4096 == hi / 64;
  }

  lemma ReencodeFour(b0: byte, b1: byte, b2: byte, b3: byte)
    requires 0xF0 <= b0 < 0xF5 && IsContinuation(b1) && IsContinuation(b2) && IsContinuation(b3)
    requires var n := (b0 as int - 0xF0) * 262144 + Payload(b1) * 4096 + Payload(b2) * 64 + Payload(b3);
      0x1_0000 <= n < 0x11_0000
    ensures var n := (b0 as int - 0xF0) * 262144 + Payload(b1) * 4096 + Payload(b2) * 64 + Payload(b3);
      EncodeChar(n as char) == [b0, b1, b2, b3]
  {
    var top := (b0 as int - 0xF0) * 64 + Payload(b1);
    var hi := top * 64 + Payload(b2);
    var n := hi * 64 + Payload(b3);
    Unsplit64(hi, Payload(b3));
    Unsplit64(top, Payload(b2));
    Unsplit64(b0 as int - 0xF0, Payload(b1));
    assert n / 4096 == hi / 64;
    assert n / 262144 == top / 64;
  }

  /** Reading one character back from its own bytes, whatever follows them. */
  lemma DecodeEncodeChar(c: char, rest: seq<byte>)
    ensures DecodeChar(EncodeChar(c) + rest) == Some((c, |EncodeChar(c)|))
  {
    var n := c as int;
    var s := EncodeChar(c) + rest;
    Split64(n);
    Split64(n / 64);
    Split64(n / 4096);
    assert n / 64 / 64 == n / 4096;
    assert n / 4096 / 64 == n / 262144;
  }

  /** Encoding distributes over concatenation: Rust's `push_str` appends the bytes of its argument. */
  lemma {:induction false} EncodeConcat(a: seq<char>, b: seq<char>)
    ensures Encode(a + b) == Encode(a) + Encode(b)
    decreases |a|
  {
    if a == [] {
      assert a + b == b;
    } else {
      assert (a + b)[1..] == a[1..] + b;
      EncodeConcat(a[1..], b);
    }
  }

  /** Every text is recovered from its bytes, so every `Encode` result is valid UTF-8. */
  lemma {:induction false} DecodeEncode(s: seq<char>)
    ensures Decode(Encode(s)) == Some(s)
    ensures IsValid(Encode(s))
    decreases |s|
  {
    if s != [] {
      var e := Encode(s);
      DecodeEncodeChar(s[0], Encode(s[1..]));
      assert e[|EncodeChar(s[0])|..] == Encode(s[1..]);
      DecodeEncode(s[1..]);
      assert [s[0]] + s[1..] == s;
    }
  }
}
