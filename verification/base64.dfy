/** Base64 with the standard alphabet and `=` padding (section 4 of RFC 4648), as used by
    `Convert.ToBase64String` and `Convert.FromBase64String`. */
module Base64 {
  import opened Outcomes

  type byte = x: int | 0 <= x < 256
  type Sextet = x: int | 0 <= x < 64

  const Pad: char := '='

  predicate IsAlphabetChar(c: char) {
    'A' <= c <= 'Z' || 'a' <= c <= 'z' || '0' <= c <= '9' || c == '+' || c == '/'
  }

  /** The alphabet of section 4 of RFC 4648: A-Z, a-z, 0-9, '+', '/'. */
  function Char(v: Sextet): (c: char)
    ensures IsAlphabetChar(c) && c != Pad
  {
    if v < 26 then ('A' as int + v) as char
    else if v < 52 then ('a' as int + (v - 26)) as char
    else if v < 62 then ('0' as int + (v - 52)) as char
    else if v == 62 then '+'
    else '/'
  }

  function ValueOf(c: char): (v: Sextet)
    requires IsAlphabetChar(c)
    ensures Char(v) == c
  {
    if 'A' <= c <= 'Z' then c as int - 'A' as int
    else if 'a' <= c <= 'z' then c as int - 'a' as int + 26
    else if '0' <= c <= '9' then c as int - '0' as int + 52
    else if c == '+' then 62
    else 63
  }

  lemma CharValue(v: Sextet)
    ensures ValueOf(Char(v)) == v
  {
  }

  /** Number of `=` characters that end the encoding of `n` bytes. */
  function PadCount(n: nat): nat {
    if n % 3 == 0 then 0 else 3 - n % 3
  }

  /** Three bytes become four characters. */
  function EncodeQuantum(a: byte, b: byte, c: byte): (s: seq<char>)
    ensures |s| == 4 && forall i :: 0 <= i < 4 ==> IsAlphabetChar(s[i])
  {
    [Char(a / 4), Char((a % 4) * 16 + b / 16), Char((b % 16) * 4 + c / 64), Char(c % 64)]
  }

  /** `Convert.ToBase64String`. The encoding is 4 characters per started group of 3 bytes;
      every character is from the alphabet except the final padding, which is two `=` after a
      one-byte group and one `=` after a two-byte group. */
  function Encode(bytes: seq<byte>): (s: seq<char>)
    ensures |s| == 4 * ((|bytes| + 2) / 3)
    ensures forall i :: 0 <= i < |s| - PadCount(|bytes|) ==> IsAlphabetChar(s[i])
    ensures forall i :: |s| - PadCount(|bytes|) <= i < |s| ==> s[i] == Pad
    decreases |bytes|
  {
    if |bytes| == 0 then []
    else if |bytes| == 1 then
      [Char(bytes[0] / 4), Char((bytes[0] % 4) * 16), Pad, Pad]
    else if |bytes| == 2 then
      [Char(bytes[0] / 4), Char((bytes[0] % 4) * 16 + bytes[1] / 16), Char((bytes[1] % 16) * 4), Pad]
    else
      var head := EncodeQuantum(bytes[0], bytes[1], bytes[2]);
      var tail := Encode(bytes[3..]);
      assert PadCount(|bytes| - 3) == PadCount(|bytes|);
      assert (|bytes| + 2) / 3 == (|bytes| - 3 + 2) / 3 + 1;
      assert |head + tail| == 4 * ((|bytes| + 2) / 3);
      assert forall i :: 4 <= i < |head + tail| ==> (head + tail)[i] == tail[i - 4];
      head + tail
  }

  /** Four alphabet characters become three bytes. */
  function DecodeQuantum(c0: char, c1: char, c2: char, c3: char): (r: Option<seq<byte>>)
    ensures r.Some? ==> |r.value| == 3
  {
    if IsAlphabetChar(c0) && IsAlphabetChar(c1) && IsAlphabetChar(c2) && IsAlphabetChar(c3) then
      var v0, v1, v2, v3 := ValueOf(c0), ValueOf(c1), ValueOf(c2), ValueOf(c3);
      Some([v0 * 4 + v1 / 16, (v1 % 16) * 16 + v2 / 4, (v2 % 4) * 64 + v3])
    else None
  }

  /** The last group, which may end in one or two `=`. */
  function DecodeFinal(c0: char, c1: char, c2: char, c3: char): (r: Option<seq<byte>>)
  {
    if c2 == Pad && c3 == Pad then
      if IsAlphabetChar(c0) && IsAlphabetChar(c1) then
        Some([ValueOf(c0) * 4 + ValueOf(c1) / 16])
      else None
    else if c3 == Pad then
      if IsAlphabetChar(c0) && IsAlphabetChar(c1) && IsAlphabetChar(c2) then
        var v1 := ValueOf(c1);
        Some([ValueOf(c0) * 4 + v1 / 16, (v1 % 16) * 16 + ValueOf(c2) / 4])
      else None
    else DecodeQuantum(c0, c1, c2, c3)
  }

  /** `Convert.FromBase64String`; `None` where .NET throws `FormatException`. Text whose length
      is not a multiple of four, characters outside the alphabet, and padding anywhere but in
      the last group are rejected. */
  function Decode(s: seq<char>): (r: Option<seq<byte>>)
    decreases |s|
  {
    if |s| == 0 then Some([])
    else if |s| < 4 then None
    else if |s| == 4 then DecodeFinal(s[0], s[1], s[2], s[3])
    else
      match DecodeQuantum(s[0], s[1], s[2], s[3])
      case None => None
      case Some(head) =>
        match Decode(s[4..])
        case None => None
        case Some(tail) => Some(head + tail)
  }

  /** The bit arithmetic of a group: the sextets of three bytes recombine into those bytes. */
  lemma SextetArithmetic(a: byte, b: byte, c: byte)
    ensures (a / 4) * 4 + ((a % 4) * 16 + b / 16) / 16 == a
    ensures (((a % 4) * 16 + b / 16) % 16) * 16 + ((b % 16) * 4 + c / 64) / 4 == b
    ensures (((b % 16) * 4 + c / 64) % 4) * 64 + c % 64 == c
  {
    var x := (a % 4) * 16 + b / 16;
    assert x / 16 == a % 4 && x % 16 == b / 16;
    var y := (b % 16) * 4 + c / 64;
    assert y / 4 == b % 16 && y % 4 == c / 64;
  }

  lemma QuantumRoundTrip(a: byte, b: byte, c: byte)
    ensures DecodeQuantum(Char(a / 4), Char((a % 4) * 16 + b / 16), Char((b % 16) * 4 + c / 64), Char(c % 64))
         == Some([a, b, c])
  {
    CharValue(a / 4);
    CharValue((a % 4) * 16 + b / 16);
    CharValue((b % 16) * 4 + c / 64);
    CharValue(c % 64);
    SextetArithmetic(a, b, c);
  }

  lemma DecodeFinalOne(v0: Sextet, v1: Sextet)
    ensures DecodeFinal(Char(v0), Char(v1), Pad, Pad) == Some([v0 * 4 + v1 / 16])
  {
    CharValue(v0);
    CharValue(v1);
  }

  lemma DecodeFinalTwo(v0: Sextet, v1: Sextet, v2: Sextet)
    ensures DecodeFinal(Char(v0), Char(v1), Char(v2), Pad) == Some([v0 * 4 + v1 / 16, (v1 % 16) * 16 + v2 / 4])
  {
    CharValue(v0);
    CharValue(v1);
    CharValue(v2);
  }

  lemma OneByteRoundTrip(a: byte)
    ensures Decode(Encode([a])) == Some([a])
  {
    var v0: Sextet, v1: Sextet := a / 4, (a % 4) * 16;
    var s := Encode([a]);
    assert s == [Char(v0), Char(v1), Pad, Pad];
    assert Decode(s) == DecodeFinal(Char(v0), Char(v1), Pad, Pad);
    DecodeFinalOne(v0, v1);
    SextetArithmetic(a, 0, 0);
  }

  lemma TwoBytesRoundTrip(a: byte, b: byte)
    ensures Decode(Encode([a, b])) == Some([a, b])
  {
    var v0: Sextet, v1: Sextet, v2: Sextet := a / 4, (a % 4) * 16 + b / 16, (b % 16) * 4;
    var s := Encode([a, b]);
    assert s == [Char(v0), Char(v1), Char(v2), Pad];
    assert Decode(s) == DecodeFinal(Char(v0), Char(v1), Char(v2), Pad);
    DecodeFinalTwo(v0, v1, v2);
    SextetArithmetic(a, b, 0);
  }

  /** Decoding a leading full group followed by more text. */
  lemma DecodeSplits(head: seq<char>, tail: seq<char>, decodedHead: seq<byte>)
    requires |head| == 4 && |tail| > 0
    requires DecodeQuantum(head[0], head[1], head[2], head[3]) == Some(decodedHead)
    ensures Decode(head + tail) == (match Decode(tail) case None => None case Some(t) => Some(decodedHead + t))
  {
    var s := head + tail;
    assert s[4..] == tail;
    assert s[0] == head[0] && s[1] == head[1] && s[2] == head[2] && s[3] == head[3];
  }

  lemma SplitTriple(bytes: seq<byte>)
    requires |bytes| >= 3
    ensures bytes == [bytes[0], bytes[1], bytes[2]] + bytes[3..]
  {
  }

  /** Decoding undoes encoding, for every byte sequence. */
  lemma {:induction false} DecodeEncode(bytes: seq<byte>)
    ensures Decode(Encode(bytes)) == Some(bytes)
    decreases |bytes|
  {
    if |bytes| == 0 {
    } else if |bytes| == 1 {
      OneByteRoundTrip(bytes[0]);
      assert bytes == [bytes[0]];
    } else if |bytes| == 2 {
      TwoBytesRoundTrip(bytes[0], bytes[1]);
      assert bytes == [bytes[0], bytes[1]];
    } else {
      var a, b, c := bytes[0], bytes[1], bytes[2];
      var head := EncodeQuantum(a, b, c);
      var tail := Encode(bytes[3..]);
      assert Encode(bytes) == head + tail;
      QuantumRoundTrip(a, b, c);
      DecodeEncode(bytes[3..]);
      if |bytes| == 3 {
        assert tail == [];
        assert head + tail == head;
        assert Decode(head) == DecodeFinal(head[0], head[1], head[2], head[3]);
        assert head[2] != Pad && head[3] != Pad;
        assert Decode(head) == Some([a, b, c]);
        SplitTriple(bytes);
        assert bytes == [a, b, c];
      } else {
        DecodeSplits(head, tail, [a, b, c]);
        SplitTriple(bytes);
      }
    }
  }

  /** Different byte sequences have different encodings. */
  lemma EncodeInjective(a: seq<byte>, b: seq<byte>)
    ensures Encode(a) == Encode(b) ==> a == b
  {
    DecodeEncode(a);
    DecodeEncode(b);
  }

  /** A 16-byte block encodes to 22 alphabet characters followed by `==`. */
  lemma SixteenBytes(bytes: seq<byte>)
    requires |bytes| == 16
    ensures |Encode(bytes)| == 24
    ensures Encode(bytes)[22] == Pad && Encode(bytes)[23] == Pad
    ensures forall i :: 0 <= i < 22 ==> Encode(bytes)[i] != Pad
  {
    assert PadCount(16) == 2;
  }
}
