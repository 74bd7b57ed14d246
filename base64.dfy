/**
 * Standard Base64 with `=` padding, as `base64.b64encode` writes it and as
 * `base64.b64decode` reads it back. Image contents and exported thumbnails are
 * stored in this form.
 */
module Base64 {
  import opened Wrappers

  type Byte = x: int | 0 <= x < 256

  /** The alphabet character for a six-bit value. */
  function Sextet(v: int): (c: char)
    requires 0 <= v < 64
  {
    if v < 26 then (65 + v) as char
    else if v < 52 then (97 + v - 26) as char
    else if v < 62 then (48 + v - 52) as char
    else if v == 62 then '+'
    else '/'
  }

  /** The six-bit value of an alphabet character. */
  function SextetValue(c: char): (r: Option<int>)
    ensures r.Some? ==> 0 <= r.value < 64 && Sextet(r.value) == c
  {
    if 'A' <= c <= 'Z' then Some(c as int - 65)
    else if 'a' <= c <= 'z' then Some(c as int - 97 + 26)
    else if '0' <= c <= '9' then Some(c as int - 48 + 52)
    else if c == '+' then Some(62)
    else if c == '/' then Some(63)
    else None
  }

  lemma SextetRoundTrip(v: int)
    requires 0 <= v < 64
    ensures SextetValue(Sextet(v)) == Some(v)
  {
  }

  function EncodeBlock(a: Byte, b: Byte, c: Byte): string {
    [Sextet(a / 4), Sextet(a % 4 * 16 + b / 16), Sextet(b % 16 * 4 + c / 64), Sextet(c % 64)]
  }

  /** `base64.b64encode(data).decode("ascii")`. */
  function Encode(data: seq<Byte>): (s: string)
    ensures |s| == 4 * ((|data| + 2) / 3)
    ensures s == "" <==> data == []
  {
    if |data| == 0 then ""
    else if |data| == 1 then [Sextet(data[0] / 4), Sextet(data[0] % 4 * 16), '=', '=']
    else if |data| == 2 then
      [Sextet(data[0] / 4), Sextet(data[0] % 4 * 16 + data[1] / 16), Sextet(data[1] % 16 * 4), '=']
    else EncodeBlock(data[0], data[1], data[2]) + Encode(data[3..])
  }

  /** Decodes one four-character group; `=` may pad its last one or two places. */
  function DecodeGroup(g: string): (r: Option<seq<Byte>>)
    requires |g| == 4
    ensures r.Some? ==> 1 <= |r.value| <= 3
  {
    var v0, v1 := SextetValue(g[0]), SextetValue(g[1]);
    if v0.None? || v1.None? then None
    else
      var a := v0.value * 4 + v1.value / 16;
      if g[2] == '=' then
        if g[3] == '=' then Some([a]) else None
      else
        var v2 := SextetValue(g[2]);
        if v2.None? then None
        else
          var b := v1.value % 16 * 16 + v2.value / 4;
          if g[3] == '=' then Some([a, b])
          else
            var v3 := SextetValue(g[3]);
            if v3.None? then None
            else Some([a, b, v2.value % 4 * 64 + v3.value])
  }

  /**
   * `base64.b64decode(s)` on the text it accepts: groups of four alphabet
   * characters, padding only in the last group. Anything else is an error.
   */
  function Decode(s: string): (r: Option<seq<Byte>>)
    ensures r.Some? ==> |s| % 4 == 0
  {
    if |s| == 0 then Some([])
    else if |s| < 4 then None
    else
      var head := DecodeGroup(s[..4]);
      if head.None? then None
      else if |s| == 4 then head
      else if |head.value| < 3 then None
      else
        var tail := Decode(s[4..]);
        if tail.None? then None else Some(head.value + tail.value)
  }

  lemma BlockRoundTrip(a: Byte, b: Byte, c: Byte)
    ensures DecodeGroup(EncodeBlock(a, b, c)) == Some([a, b, c])
  {
    var x1, x2 := a % 4 * 16 + b / 16, b % 16 * 4 + c / 64;
    SextetRoundTrip(a / 4);
    SextetRoundTrip(x1);
    SextetRoundTrip(x2);
    SextetRoundTrip(c % 64);
    assert x1 / 16 == a % 4 && x1 % 16 == b / 16;
    assert x2 / 4 == b % 16 && x2 % 4 == c / 64;
  }

  lemma OneByteRoundTrip(a: Byte)
    ensures Decode(Encode([a])) == Some([a])
  {
    SextetRoundTrip(a / 4);
    SextetRoundTrip(a % 4 * 16);
    var s := Encode([a]);
    assert s[..4] == s;
  }

  lemma TwoBytesRoundTrip(a: Byte, b: Byte)
    ensures Decode(Encode([a, b])) == Some([a, b])
  {
    SextetRoundTrip(a / 4);
    SextetRoundTrip(a % 4 * 16 + b / 16);
    SextetRoundTrip(b % 16 * 4);
    var s := Encode([a, b]);
    assert s[..4] == s;
    assert (a % 4 * 16 + b / 16) % 16 == b / 16;
    assert b / 16 * 16 + b % 16 * 4 / 4 == b;
  }

  /** A full group followed by decodable text decodes group by group. */
  lemma DecodeCons(g: string, rest: string, head: seq<Byte>, tail: seq<Byte>)
    requires |g| == 4 && DecodeGroup(g) == Some(head) && |head| == 3
    requires Decode(rest) == Some(tail)
    ensures Decode(g + rest) == Some(head + tail)
  {
    var s := g + rest;
    assert s[..4] == g;
    assert s[4..] == rest;
    if rest == [] {
      assert s == g;
      assert head + tail == head;
    }
  }

  /** Decoding what was encoded gives back the original bytes. */
  lemma {:induction false} RoundTrip(data: seq<Byte>)
    ensures Decode(Encode(data)) == Some(data)
    decreases |data|, 1
  {
    if |data| == 1 {
      assert data == [data[0]];
      OneByteRoundTrip(data[0]);
    } else if |data| == 2 {
      assert data == [data[0], data[1]];
      TwoBytesRoundTrip(data[0], data[1]);
    } else if |data| >= 3 {
      BlocksRoundTrip(data);
    }
  }

  lemma {:induction false} BlocksRoundTrip(data: seq<Byte>)
    requires |data| >= 3
    ensures Decode(Encode(data)) == Some(data)
    decreases |data|, 0
  {
    var tail := data[3..];
    EncodeSplit(data);
    BlockRoundTrip(data[0], data[1], data[2]);
    RoundTrip(tail);
    DecodeCons(EncodeBlock(data[0], data[1], data[2]), Encode(tail), [data[0], data[1], data[2]], tail);
  }

  /** Three bytes or more encode as one full group followed by the encoding of the rest. */
  lemma EncodeSplit(data: seq<Byte>)
    requires |data| >= 3
    ensures data == [data[0], data[1], data[2]] + data[3..]
    ensures Encode(data) == EncodeBlock(data[0], data[1], data[2]) + Encode(data[3..])
  {
    FirstThree(data);
  }

  lemma FirstThree(data: seq<Byte>)
    requires |data| >= 3
    ensures data == [data[0], data[1], data[2]] + data[3..]
  {
    assert data == data[..3] + data[3..];
    assert data[..3] == [data[0], data[1], data[2]];
  }
}
