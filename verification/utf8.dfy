/**
 * UTF-8 as `str.encode("utf-8")` produces it, over Dafny strings (sequences
 * of Unicode scalar values). `Utf8Length` counts bytes by code-point range;
 * `Encode` builds the bytes; `Decode` is the strict inverse used to show that
 * `Encode` loses nothing.
 */
module Utf8 {
  import opened Wrappers

  type Byte = b: int | 0 <= b < 256

  /** Bytes needed for one code point: 1 below U+0080, 2 below U+0800, 3 below U+10000, else 4. */
  function Width(c: char): (w: nat)
    ensures 1 <= w <= 4
  {
    var n := c as int;
    if n < 0x80 then 1 else if n < 0x800 then 2 else if n < 0x10000 then 3 else 4
  }

  /** Length in bytes of the UTF-8 encoding of `s`. */
  function Utf8Length(s: string): nat
    decreases |s|
  {
    if s == [] then 0 else Width(s[0]) + Utf8Length(s[1..])
  }

  function EncodeChar(c: char): (bytes: seq<Byte>)
    ensures |bytes| == Width(c)
  {
    var n := c as int;
    if n < 0x80 then [n]
    else if n < 0x800 then [0xC0 + n / 64, 0x80 + n % 64]
    else if n < 0x10000 then [0xE0 + n / 4096, 0x80 + (n / 64) % 64, 0x80 + n % 64]
    else [0xF0 + n / 262144, 0x80 + (n / 4096) % 64, 0x80 + (n / 64) % 64, 0x80 + n % 64]
  }

  /** `s.encode("utf-8")`. */
  function Encode(s: string): seq<Byte>
    decreases |s|
  {
    if s == [] then [] else EncodeChar(s[0]) + Encode(s[1..])
  }

  predicate IsContinuation(b: Byte) {
    0x80 <= b < 0xC0
  }

  predicate IsScalar(n: int) {
    (0 <= n < 0xD800) || (0xE000 <= n < 0x110000)
  }

  /** Byte count of the well-formed sequence that starts with lead byte `b`, or 0. */
  function LeadWidth(b: Byte): nat {
    if b < 0x80 then 1
    else if 0xC2 <= b < 0xE0 then 2
    else if 0xE0 <= b < 0xF0 then 3
    else if 0xF0 <= b < 0xF5 then 4
    else 0
  }

  /** `n` as a char when it is a scalar value of at least `least`. */
  function CheckedChar(n: int, least: int): Option<char> {
    if n < least || !IsScalar(n) then None else Some(n as char)
  }

  /** The code point spelled by the first `LeadWidth(bytes[0])` bytes, if they are well formed. */
  function DecodeFirst(bytes: seq<Byte>): Option<char>
    requires |bytes| >= 1
  {
    var w := LeadWidth(bytes[0]);
    var b0: int := bytes[0];
    if w == 0 || |bytes| < w then None
    else if w == 1 then Some(b0 as char)
    else if !IsContinuation(bytes[1]) then None
    else
      var b1: int := bytes[1] - 0x80;
      if w == 2 then CheckedChar((b0 - 0xC0) * 64 + b1, 0x80)
      else if !IsContinuation(bytes[2]) then None
      else
        var b2: int := bytes[2] - 0x80;
        if w == 3 then CheckedChar((b0 - 0xE0) * 4096 + b1 * 64 + b2, 0x800)
        else if !IsContinuation(bytes[3]) then None
        else
          var b3: int := bytes[3] - 0x80;
          CheckedChar((b0 - 0xF0) * 262144 + b1 * 4096 + b2 * 64 + b3, 0x10000)
  }

  /** Strict UTF-8 decoding: `None` on any ill-formed, overlong or surrogate sequence. */
  function Decode(bytes: seq<Byte>): Option<string>
    decreases |bytes|
  {
    if bytes == [] then Some("")
    else
      match DecodeFirst(bytes)
      case None => None
      case Some(c) =>
        match Decode(bytes[Width(c)..])
        case None => None
        case Some(rest) => Some([c] + rest)
  }

  /** The encoder's output has exactly the length the range table gives. */
  lemma {:induction false} EncodeLength(s: string)
    ensures |Encode(s)| == Utf8Length(s)
    decreases |s|
  {
    if s != [] {
      EncodeLength(s[1..]);
    }
  }

  lemma DecodeFirstTwo(n: int)
    requires 0x80 <= n < 0x800
    ensures (0xC0 + n / 64 - 0xC0) * 64 + (0x80 + n % 64 - 0x80) == n
    ensures 0xC2 <= 0xC0 + n / 64 < 0xE0
  {
  }

  lemma DecodeFirstThree(n: int)
    requires 0x800 <= n < 0x10000
    ensures (0xE0 + n / 4096 - 0xE0) * 4096 + ((n / 64) % 64) * 64 + n % 64 == n
    ensures 0xE0 <= 0xE0 + n / 4096 < 0xF0
  {
    assert n == (n / 64) * 64 + n % 64;
    assert n / 64 == (n / 4096) * 64 + (n / 64) % 64;
  }

  lemma DecodeFirstFour(n: int)
    requires 0x10000 <= n < 0x110000
    ensures (0xF0 + n / 262144 - 0xF0) * 262144 + ((n / 4096) % 64) * 4096 + ((n / 64) % 64) * 64 + n % 64 == n
    ensures 0xF0 <= 0xF0 + n / 262144 < 0xF5
  {
    assert n == (n / 64) * 64 + n % 64;
    assert n / 64 == (n / 4096) * 64 + (n / 64) % 64;
    assert n / 4096 == (n / 262144) * 64 + (n / 4096) % 64;
  }

  /** Each encoded code point decodes back to itself, whatever follows it. */
  lemma DecodeFirstEncodeChar(c: char, tail: seq<Byte>)
    ensures DecodeFirst(EncodeChar(c) + tail) == Some(c)
  {
    var n := c as int;
    assert IsScalar(n);
    if n < 0x80 {
    } else if n < 0x800 {
      DecodeFirstTwo(n);
    } else if n < 0x10000 {
      DecodeFirstThree(n);
    } else {
      DecodeFirstFour(n);
    }
  }

  /** Round trip: decoding an encoding gives back the string. */
  lemma {:induction false} DecodeEncode(s: string)
    ensures Decode(Encode(s)) == Some(s)
    decreases |s|
  {
    if s != [] {
      var head := EncodeChar(s[0]);
      var tail := Encode(s[1..]);
      assert Encode(s) == head + tail;
      DecodeFirstEncodeChar(s[0], tail);
      assert (head + tail)[Width(s[0])..] == tail;
      DecodeEncode(s[1..]);
      assert s == [s[0]] + s[1..];
    }
  }

  /** Byte lengths add up over concatenation. */
  lemma {:induction false} Utf8LengthAppend(s: string, t: string)
    ensures Utf8Length(s + t) == Utf8Length(s) + Utf8Length(t)
    decreases |s|
  {
    if s == [] {
      assert s + t == t;
    } else {
      assert (s + t)[0] == s[0] && (s + t)[1..] == s[1..] + t;
      Utf8LengthAppend(s[1..], t);
    }
  }

  /** Between one and four bytes per code point; exactly one each for ASCII text. */
  lemma {:induction false} Utf8LengthBounds(s: string)
    ensures |s| <= Utf8Length(s) <= 4 * |s|
    ensures (forall i :: 0 <= i < |s| ==> s[i] as int < 0x80) ==> Utf8Length(s) == |s|
    decreases |s|
  {
    if s != [] {
      Utf8LengthBounds(s[1..]);
    }
  }
}
