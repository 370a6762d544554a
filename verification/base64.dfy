/**
 * Base64 as RFC 4648 section 4 defines it: the standard alphabet, "=" padding
 * and, on decoding, canonical input only (the bits a padded final group does
 * not use must be zero).
 */
module Base64 {
  import opened Wrappers
  import opened DataStream

  type Sextet = x: int | 0 <= x < 64

  /** Table 1 of RFC 4648. */
  function EncodeSextet(v: Sextet): (c: char)
    ensures c != '='
  {
    if v < 26 then (65 + v) as char
    else if v < 52 then (97 + v - 26) as char
    else if v < 62 then (48 + v - 52) as char
    else if v == 62 then '+'
    else '/'
  }

  /** The inverse of Table 1; None for a character outside the alphabet (including '='). */
  function DecodeSextet(c: char): (r: Option<Sextet>)
    ensures r.Some? ==> EncodeSextet(r.value) == c
    ensures r.Some? ==> c != '='
  {
    if 'A' <= c <= 'Z' then Some(c as int - 65)
    else if 'a' <= c <= 'z' then Some(c as int - 97 + 26)
    else if '0' <= c <= '9' then Some(c as int - 48 + 52)
    else if c == '+' then Some(62)
    else if c == '/' then Some(63)
    else None
  }

  lemma SextetRoundTrip(v: Sextet)
    ensures DecodeSextet(EncodeSextet(v)) == Some(v)
  {
  }

  /** Three bytes become four characters. */
  function EncodeGroup(x: Byte, y: Byte, z: Byte): (s: string)
    ensures |s| == 4
  {
    [EncodeSextet(x / 4), EncodeSextet((x % 4) * 16 + y / 16),
     EncodeSextet((y % 16) * 4 + z / 64), EncodeSextet(z % 64)]
  }

  /** The padded encoding: every three bytes become four characters, a final one or two bytes four with padding. */
  function Encode(b: seq<Byte>): (s: string)
    ensures |s| % 4 == 0 && (|s| == 0 <==> |b| == 0)
    decreases |b|
  {
    if |b| == 0 then []
    else if |b| < 3 then EncodePadded(b)
    else EncodeGroup(b[0], b[1], b[2]) + Encode(b[3..])
  }

  /** A final one or two bytes become four characters ending in padding. */
  function EncodePadded(b: seq<Byte>): (s: string)
    requires 1 <= |b| <= 2
    ensures |s| == 4 && s[3] == '='
  {
    if |b| == 1 then
      [EncodeSextet(b[0] / 4), EncodeSextet((b[0] % 4) * 16), '=', '=']
    else
      [EncodeSextet(b[0] / 4), EncodeSextet((b[0] % 4) * 16 + b[1] / 16),
       EncodeSextet((b[1] % 16) * 4), '=']
  }

  /** Every started group of three bytes takes four characters. */
  lemma {:induction false} EncodedLength(b: seq<Byte>)
    ensures |Encode(b)| == 4 * ((|b| + 2) / 3)
    decreases |b|
  {
    if |b| >= 3 {
      EncodeGroups(b);
      EncodedLength(b[3..]);
      NextGroup(|b| - 1);
    }
  }

  lemma NextGroup(k: nat)
    ensures (k + 3) / 3 == k / 3 + 1
  {
  }

  /** Four characters without padding become three bytes. */
  function DecodeGroup(s: string): (r: Option<seq<Byte>>)
    requires |s| == 4
    ensures r.Some? ==> |r.value| == 3
  {
    var a, b, c, d := DecodeSextet(s[0]), DecodeSextet(s[1]), DecodeSextet(s[2]), DecodeSextet(s[3]);
    if a.None? || b.None? || c.None? || d.None? then None
    else Some([a.value * 4 + b.value / 16,
               (b.value % 16) * 16 + c.value / 4,
               (c.value % 4) * 64 + d.value])
  }

  /** The final group, which may carry one or two padding characters. */
  function DecodeFinal(s: string): (r: Option<seq<Byte>>)
    requires |s| == 4
    ensures r.Some? ==> 1 <= |r.value| <= 3
  {
    if s[2] == '=' && s[3] == '=' then
      var a, b := DecodeSextet(s[0]), DecodeSextet(s[1]);
      if a.None? || b.None? || b.value % 16 != 0 then None
      else Some([a.value * 4 + b.value / 16])
    else if s[3] == '=' then
      var a, b, c := DecodeSextet(s[0]), DecodeSextet(s[1]), DecodeSextet(s[2]);
      if a.None? || b.None? || c.None? || c.value % 4 != 0 then None
      else Some([a.value * 4 + b.value / 16, (b.value % 16) * 16 + c.value / 4])
    else DecodeGroup(s)
  }

  /** Decoding: None for a length that is not a multiple of four, a character outside the alphabet, misplaced padding or non-zero unused bits. */
  function Decode(s: string): (r: Option<seq<Byte>>)
    ensures r.Some? ==> |s| % 4 == 0
    decreases |s|
  {
    if |s| == 0 then Some([])
    else if |s| % 4 != 0 then None
    else if |s| == 4 then DecodeFinal(s)
    else Join(DecodeGroup(s[..4]), Decode(s[4..]))
  }

  /** Both halves decoded, concatenated; None if either failed. */
  function Join(head: Option<seq<Byte>>, tail: Option<seq<Byte>>): (r: Option<seq<Byte>>)
    ensures r.Some? <==> head.Some? && tail.Some?
  {
    if head.Some? && tail.Some? then Some(head.value + tail.value) else None
  }

  lemma GroupRoundTrip(x: Byte, y: Byte, z: Byte)
    ensures DecodeGroup(EncodeGroup(x, y, z)) == Some([x, y, z])
  {
    var s := EncodeGroup(x, y, z);
    SextetRoundTrip(x / 4);
    SextetRoundTrip((x % 4) * 16 + y / 16);
    SextetRoundTrip((y % 16) * 4 + z / 64);
    SextetRoundTrip(z % 64);
    assert ((x % 4) * 16 + y / 16) / 16 == x % 4;
    assert ((x % 4) * 16 + y / 16) % 16 == y / 16;
    assert ((y % 16) * 4 + z / 64) / 4 == y % 16;
    assert ((y % 16) * 4 + z / 64) % 4 == z / 64;
  }

  lemma OnePaddedRoundTrip(x: Byte)
    ensures DecodeFinal([EncodeSextet(x / 4), EncodeSextet((x % 4) * 16), '=', '=']) == Some([x])
  {
    SextetRoundTrip(x / 4);
    SextetRoundTrip((x % 4) * 16);
  }

  lemma TwoPaddedRoundTrip(x: Byte, y: Byte)
    ensures DecodeFinal([EncodeSextet(x / 4), EncodeSextet((x % 4) * 16 + y / 16),
                         EncodeSextet((y % 16) * 4), '=']) == Some([x, y])
  {
    SextetRoundTrip(x / 4);
    SextetRoundTrip((x % 4) * 16 + y / 16);
    SextetRoundTrip((y % 16) * 4);
    assert ((x % 4) * 16 + y / 16) / 16 == x % 4;
    assert ((x % 4) * 16 + y / 16) % 16 == y / 16;
    assert ((y % 16) * 4) / 4 == y % 16;
    assert ((y % 16) * 4) % 4 == 0;
  }

  lemma EncodeGroups(b: seq<Byte>)
    requires |b| >= 3
    ensures Encode(b) == EncodeGroup(b[0], b[1], b[2]) + Encode(b[3..])
  {
  }

  /** Three bytes in front encode as their group in front. */
  lemma EncodeConcat(head: seq<Byte>, tail: seq<Byte>)
    requires |head| == 3
    ensures Encode(head + tail) == EncodeGroup(head[0], head[1], head[2]) + Encode(tail)
  {
    EncodeGroups(head + tail);
    assert (head + tail)[3..] == tail;
  }

  /** A full group followed by more groups decodes group by group. */
  lemma DecodeConcat(head: string, rest: string)
    requires |head| == 4 && |rest| > 0 && |rest| % 4 == 0
    ensures Decode(head + rest) == Join(DecodeGroup(head), Decode(rest))
  {
    var s := head + rest;
    DecodeStep(s);
    assert s[..4] == head;
    assert s[4..] == rest;
  }

  /** One step of decoding a string of more than one group. */
  lemma DecodeStep(s: string)
    requires |s| > 4 && |s| % 4 == 0
    ensures Decode(s) == Join(DecodeGroup(s[..4]), Decode(s[4..]))
  {
  }

  /** A final group without padding decodes as a full group. */
  lemma UnpaddedFinal(s: string)
    requires |s| == 4 && s[3] != '='
    ensures Decode(s) == DecodeGroup(s)
  {
  }

  /** RFC 4648 decoding undoes encoding. */
  lemma {:induction false} DecodeEncode(b: seq<Byte>)
    ensures Decode(Encode(b)) == Some(b)
    decreases |b|, 1
  {
    if |b| == 1 {
      OnePaddedRoundTrip(b[0]);
      assert b == [b[0]];
    } else if |b| == 2 {
      TwoPaddedRoundTrip(b[0], b[1]);
      assert b == [b[0], b[1]];
    } else if |b| >= 3 {
      GroupsRoundTrip(b);
    }
  }

  lemma {:induction false} GroupsRoundTrip(b: seq<Byte>)
    requires |b| >= 3
    ensures Decode(Encode(b)) == Some(b)
    decreases |b|, 0
  {
    if |b| == 3 {
      OneGroupRoundTrip(b);
    } else {
      DecodeEncode(b[3..]);
      GroupsRoundTripStep(b);
    }
  }

  lemma OneGroupRoundTrip(b: seq<Byte>)
    requires |b| == 3
    ensures Decode(Encode(b)) == Some(b)
  {
    var head := EncodeGroup(b[0], b[1], b[2]);
    EncodeGroups(b);
    assert b[3..] == [];
    assert Encode(b) == head;
    GroupRoundTrip(b[0], b[1], b[2]);
    UnpaddedFinal(head);
    assert b == [b[0], b[1], b[2]];
  }

  /** Bytes beyond the first group round-trip when the rest does. */
  lemma GroupsRoundTripStep(b: seq<Byte>)
    requires |b| > 3 && Decode(Encode(b[3..])) == Some(b[3..])
    ensures Decode(Encode(b)) == Some(b)
  {
    var head, tail := EncodeGroup(b[0], b[1], b[2]), Encode(b[3..]);
    EncodeGroups(b);
    DecodeConcat(head, tail);
    GroupRoundTrip(b[0], b[1], b[2]);
    FirstThree(b);
  }

  lemma FirstThree(b: seq<Byte>)
    requires |b| >= 3
    ensures [b[0], b[1], b[2]] + b[3..] == b
  {
  }


  /** Regrouping four sextets into three bytes and back is the identity. */
  lemma Regroup(a: Sextet, b: Sextet, c: Sextet, d: Sextet)
    ensures (a * 4 + b / 16) / 4 == a
    ensures ((a * 4 + b / 16) % 4) * 16 + ((b % 16) * 16 + c / 4) / 16 == b
    ensures (((b % 16) * 16 + c / 4) % 16) * 4 + ((c % 4) * 64 + d) / 64 == c
    ensures ((c % 4) * 64 + d) % 64 == d
  {
    assert (a * 4 + b / 16) % 4 == b / 16;
    assert ((b % 16) * 16 + c / 4) / 16 == b % 16;
    assert ((b % 16) * 16 + c / 4) % 16 == c / 4;
    assert ((c % 4) * 64 + d) / 64 == c % 4;
  }

  /** Decoding a group and encoding the bytes again gives back the group. */
  lemma GroupCanonical(s: string)
    requires |s| == 4 && DecodeGroup(s).Some?
    ensures var bs := DecodeGroup(s).value; EncodeGroup(bs[0], bs[1], bs[2]) == s
  {
    var a: int, b: int, c: int, d: int := DecodeSextet(s[0]).value, DecodeSextet(s[1]).value, DecodeSextet(s[2]).value, DecodeSextet(s[3]).value;
    var bs := DecodeGroup(s).value;
    assert bs == [a * 4 + b / 16, (b % 16) * 16 + c / 4, (c % 4) * 64 + d];
    Regroup(a, b, c, d);
    var x, y, z := bs[0], bs[1], bs[2];
    assert x / 4 == a && (x % 4) * 16 + y / 16 == b && (y % 16) * 4 + z / 64 == c && z % 64 == d;
  }

  /** The same for a final group, padded or not. */
  lemma FinalCanonical(s: string)
    requires |s| == 4 && DecodeFinal(s).Some?
    ensures Encode(DecodeFinal(s).value) == s
  {
    if s[2] == '=' && s[3] == '=' {
      OnePaddedCanonical(s);
    } else if s[3] == '=' {
      TwoPaddedCanonical(s);
    } else {
      UnpaddedCanonical(s);
    }
  }

  lemma OnePaddedCanonical(s: string)
    requires |s| == 4 && s[2] == '=' && s[3] == '=' && DecodeFinal(s).Some?
    ensures Encode(DecodeFinal(s).value) == s
  {
    var a: int, b: int := DecodeSextet(s[0]).value, DecodeSextet(s[1]).value;
    var bs := DecodeFinal(s).value;
    assert bs == [a * 4 + b / 16];
    Regroup(a, b, 0, 0);
    assert Encode(bs) == EncodePadded(bs);
  }

  lemma TwoPaddedCanonical(s: string)
    requires |s| == 4 && s[2] != '=' && s[3] == '=' && DecodeFinal(s).Some?
    ensures Encode(DecodeFinal(s).value) == s
  {
    var a: int, b: int, c: int := DecodeSextet(s[0]).value, DecodeSextet(s[1]).value, DecodeSextet(s[2]).value;
    var bs := DecodeFinal(s).value;
    assert bs == [a * 4 + b / 16, (b % 16) * 16 + c / 4];
    Regroup(a, b, c, 0);
    assert Encode(bs) == EncodePadded(bs);
  }

  lemma UnpaddedCanonical(s: string)
    requires |s| == 4 && s[3] != '=' && DecodeGroup(s).Some?
    ensures Encode(DecodeGroup(s).value) == s
  {
    GroupCanonical(s);
    var bs := DecodeGroup(s).value;
    EncodeGroups(bs);
    assert bs[3..] == [];
  }

  /** Only canonical strings decode: whatever decodes is the encoding of its result. */
  lemma {:induction false} EncodeDecode(s: string)
    requires Decode(s).Some?
    ensures Encode(Decode(s).value) == s
    decreases |s|
  {
    if |s| == 0 {
      assert Decode(s).value == [];
    } else if |s| == 4 {
      assert Decode(s) == DecodeFinal(s);
      FinalCanonical(s);
    } else if |s| > 4 {
      DecodeStep(s);
      EncodeDecode(s[4..]);
      CanonicalStep(s);
    }
  }

  /** A string of several groups is canonical when its first group and the rest are. */
  lemma CanonicalStep(s: string)
    requires |s| > 4 && |s| % 4 == 0 && Decode(s).Some?
    requires Decode(s) == Join(DecodeGroup(s[..4]), Decode(s[4..]))
    requires Encode(Decode(s[4..]).value) == s[4..]
    ensures Encode(Decode(s).value) == s
  {
    var head, tail := DecodeGroup(s[..4]).value, Decode(s[4..]).value;
    assert Decode(s).value == head + tail;
    GroupCanonical(s[..4]);
    EncodeConcat(head, tail);
    assert s == s[..4] + s[4..];
  }
}
