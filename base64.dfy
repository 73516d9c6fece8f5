/**
 * Base64 with the standard alphabet and `=` padding (section 4 of RFC 4648),
 * decoded strictly: the input length is a multiple of four, `=` appears only
 * in the final quantum, and the bits a padded final quantum leaves over must
 * be zero (section 3.5 of RFC 4648), so every accepted text is the one
 * canonical encoding of its bytes.
 */
module Base64 {
  import opened Common

  /** The 6-bit values. */
  type sextet = v: int | 0 <= v < 64

  /** Table 1 of RFC 4648: A-Z, a-z, 0-9, `+`, `/`. */
  function Char(v: sextet): (c: char)
    ensures c != '='
  {
    if v < 26 then ('A' as int + v) as char
    else if v < 52 then ('a' as int + (v - 26)) as char
    else if v < 62 then ('0' as int + (v - 52)) as char
    else if v == 62 then '+'
    else '/'
  }

  /** The inverse lookup of Table 1; `None` for every character outside the alphabet, `=` included. */
  function Value(c: char): (r: Option<sextet>)
    ensures c == '=' ==> r.None?
  {
    if 'A' <= c <= 'Z' then Some(c as int - 'A' as int)
    else if 'a' <= c <= 'z' then Some(c as int - 'a' as int + 26)
    else if '0' <= c <= '9' then Some(c as int - '0' as int + 52)
    else if c == '+' then Some(62)
    else if c == '/' then Some(63)
    else None
  }

  lemma ValueOfChar(v: sextet)
    ensures Value(Char(v)) == Some(v)
  {
  }

  lemma CharOfValue(c: char)
    requires Value(c).Some?
    ensures Char(Value(c).value) == c
  {
  }

  /** The number of `=` that end the encoding of `n` bytes. */
  function PadCount(n: nat): nat
  {
    if n % 3 == 0 then 0 else 3 - n % 3
  }

  /** Three bytes, read as 24 bits, cut into four 6-bit values (section 4 of RFC 4648). */
  function Sextets(b0: byte, b1: byte, b2: byte): (v: seq<sextet>)
    ensures |v| == 4
  {
    [b0 / 4, b0 % 4 * 16 + b1 / 16, b1 % 16 * 4 + b2 / 64, b2 % 64]
  }

  /** Four 6-bit values, read as 24 bits, cut into three bytes. */
  function Octets(v0: sextet, v1: sextet, v2: sextet, v3: sextet): (b: seq<byte>)
    ensures |b| == 3
  {
    var b0: int := v0 * 4 + v1 / 16;
    var b1: int := v1 % 16 * 16 + v2 / 4;
    var b2: int := v2 % 4 * 64 + v3;
    [b0, b1, b2]
  }

  lemma OctetsOfSextets(b0: byte, b1: byte, b2: byte)
    ensures var v := Sextets(b0, b1, b2); Octets(v[0], v[1], v[2], v[3]) == [b0, b1, b2]
  {
  }

  lemma SextetsOfOctets(v0: sextet, v1: sextet, v2: sextet, v3: sextet)
    ensures var b := Octets(v0, v1, v2, v3); Sextets(b[0], b[1], b[2]) == [v0, v1, v2, v3]
  {
    DivMod(v0, v1 / 16, 4);
    DivMod(v1 % 16, v2 / 4, 16);
    DivMod(v2 % 4, v3, 64);
  }

  /** Division by one of the field widths recovers quotient and remainder. */
  lemma DivMod(q: nat, r: nat, d: nat)
    requires (d == 4 || d == 16 || d == 64) && r < d
    ensures (q * d + r) / d == q && (q * d + r) % d == r
  {
    if d == 4 {
    } else if d == 16 {
    } else {
    }
  }

  function Chars(v: seq<sextet>): (s: string)
    ensures |s| == |v| && forall i :: 0 <= i < |v| ==> s[i] == Char(v[i])
  {
    seq(|v|, i requires 0 <= i < |v| => Char(v[i]))
  }

  /** Encoding: each 3-byte group becomes four characters; a final group of one or two bytes is padded. */
  function Encode(b: seq<byte>): (s: string)
    ensures |s| == 4 * ((|b| + 2) / 3)
  {
    if |b| == 0 then []
    else if |b| == 1 then Chars(Sextets(b[0], 0, 0)[..2]) + "=="
    else if |b| == 2 then Chars(Sextets(b[0], b[1], 0)[..3]) + "="
    else Chars(Sextets(b[0], b[1], b[2])) + Encode(b[3..])
  }

  /** Four alphabet characters: three bytes. */
  function DecodeFull(q: string): Option<seq<byte>>
    requires |q| == 4
  {
    match (Value(q[0]), Value(q[1]), Value(q[2]), Value(q[3]))
    case (Some(v0), Some(v1), Some(v2), Some(v3)) => Some(Octets(v0, v1, v2, v3))
    case _ => None
  }

  /** The last quantum: complete, or padded with `==` or `=` and with the left-over bits zero. */
  function DecodeLast(q: string): Option<seq<byte>>
    requires |q| == 4
  {
    if q[2] == '=' && q[3] == '=' then
      match (Value(q[0]), Value(q[1]))
      case (Some(v0), Some(v1)) =>
        if v1 % 16 == 0 then Some(Octets(v0, v1, 0, 0)[..1]) else None
      case _ => None
    else if q[3] == '=' then
      match (Value(q[0]), Value(q[1]), Value(q[2]))
      case (Some(v0), Some(v1), Some(v2)) =>
        if v2 % 4 == 0 then Some(Octets(v0, v1, v2, 0)[..2]) else None
      case _ => None
    else
      DecodeFull(q)
  }

  /** Strict decoding; `None` is the decode error. */
  function Decode(s: string): (r: Option<seq<byte>>)
    ensures r.Some? ==> |s| % 4 == 0 && 4 * |r.value| <= 3 * |s| <= 4 * |r.value| + 8
  {
    if |s| == 0 then Some([])
    else if |s| < 4 then None
    else if |s| == 4 then DecodeLast(s)
    else match (DecodeFull(s[..4]), Decode(s[4..]))
      case (Some(q), Some(rest)) => Some(q + rest)
      case _ => None
  }

  /** The characters of one quantum decode back to the sextets they were drawn from. */
  lemma ValuesOfChars(v: seq<sextet>, i: nat)
    requires i < |v|
    ensures Value(Chars(v)[i]) == Some(v[i])
  {
    ValueOfChar(v[i]);
  }

  lemma DecodeQuantum(b0: byte, b1: byte, b2: byte)
    ensures DecodeFull(Chars(Sextets(b0, b1, b2))) == Some([b0, b1, b2])
  {
    var v := Sextets(b0, b1, b2);
    ValuesOfChars(v, 0);
    ValuesOfChars(v, 1);
    ValuesOfChars(v, 2);
    ValuesOfChars(v, 3);
    OctetsOfSextets(b0, b1, b2);
  }

  lemma DecodeOneByte(b0: byte)
    ensures Decode(Encode([b0])) == Some([b0])
  {
    var s, v := Encode([b0]), Sextets(b0, 0, 0);
    ValuesOfChars(v[..2], 0);
    ValuesOfChars(v[..2], 1);
    OctetsOfSextets(b0, 0, 0);
    assert s[2] == '=' && s[3] == '=';
    assert v[1] % 16 == 0 && v[2] == 0 && v[3] == 0;
    assert Value(s[0]) == Some(v[0]) && Value(s[1]) == Some(v[1]);
    assert Octets(v[0], v[1], 0, 0)[..1] == [b0];
  }

  lemma DecodeTwoBytes(b0: byte, b1: byte)
    ensures Decode(Encode([b0, b1])) == Some([b0, b1])
  {
    var s, v := Encode([b0, b1]), Sextets(b0, b1, 0);
    ValuesOfChars(v[..3], 0);
    ValuesOfChars(v[..3], 1);
    ValuesOfChars(v[..3], 2);
    OctetsOfSextets(b0, b1, 0);
    assert s[..3] == Chars(v[..3]) && s[3] == '=';
    assert s[2] == Char(v[2]) != '=';
    assert v[2] % 4 == 0 && v[3] == 0;
    assert Value(s[0]) == Some(v[0]) && Value(s[1]) == Some(v[1]) && Value(s[2]) == Some(v[2]);
    assert Octets(v[0], v[1], v[2], 0)[..2] == [b0, b1];
  }

  /** Decoding a text of several quanta decodes the first as a complete one. */
  lemma DecodeAppend(q: string, rest: string, a: seq<byte>, r: seq<byte>)
    requires |q| == 4 && |rest| > 0 && DecodeFull(q) == Some(a) && Decode(rest) == Some(r)
    ensures Decode(q + rest) == Some(a + r)
  {
    var s := q + rest;
    assert s[..4] == q && s[4..] == rest;
  }

  lemma EncodeThree(b: seq<byte>)
    requires |b| == 3
    ensures Encode(b) == Chars(Sextets(b[0], b[1], b[2]))
  {
    assert Encode(b) == Chars(Sextets(b[0], b[1], b[2])) + Encode(b[3..]);
    assert b[3..] == [];
  }

  lemma DecodeUnpadded(s: string)
    requires |s| == 4 && s[3] != '='
    ensures Decode(s) == DecodeFull(s)
  {
  }

  lemma DecodeGroup(b: seq<byte>)
    requires |b| == 3
    ensures DecodeFull(Chars(Sextets(b[0], b[1], b[2]))) == Some(b)
  {
    DecodeQuantum(b[0], b[1], b[2]);
    assert [b[0], b[1], b[2]] == b;
  }

  lemma DecodeThreeBytes(b: seq<byte>)
    requires |b| == 3
    ensures Decode(Encode(b)) == Some(b)
  {
    var s := Chars(Sextets(b[0], b[1], b[2]));
    EncodeThree(b);
    DecodeUnpadded(s);
    DecodeGroup(b);
  }

  /** A lone final group of one to three bytes. */
  lemma RoundTripLast(b: seq<byte>)
    requires 1 <= |b| <= 3
    ensures Decode(Encode(b)) == Some(b)
  {
    if |b| == 1 {
      RoundTripOne(b);
    } else if |b| == 2 {
      RoundTripTwo(b);
    } else {
      DecodeThreeBytes(b);
    }
  }

  lemma RoundTripOne(b: seq<byte>)
    requires |b| == 1
    ensures Decode(Encode(b)) == Some(b)
  {
    DecodeOneByte(b[0]);
    assert b == [b[0]];
  }

  lemma RoundTripTwo(b: seq<byte>)
    requires |b| == 2
    ensures Decode(Encode(b)) == Some(b)
  {
    DecodeTwoBytes(b[0], b[1]);
    assert b == [b[0], b[1]];
  }

  lemma EncodeGroup(b: seq<byte>)
    requires |b| >= 3
    ensures Encode(b) == Chars(Sextets(b[0], b[1], b[2])) + Encode(b[3..])
  {
    assert |b| != 0 && |b| != 1 && |b| != 2;
  }

  lemma Regroup(b: seq<byte>)
    requires |b| > 3
    ensures [b[0], b[1], b[2]] + b[3..] == b
  {
  }

  /** One complete group in front of a text that already round-trips. */
  lemma RoundTripStep(b: seq<byte>)
    requires |b| > 3 && Decode(Encode(b[3..])) == Some(b[3..])
    ensures Decode(Encode(b)) == Some(b)
  {
    var q := Chars(Sextets(b[0], b[1], b[2]));
    EncodeGroup(b);
    DecodeQuantum(b[0], b[1], b[2]);
    DecodeAppend(q, Encode(b[3..]), [b[0], b[1], b[2]], b[3..]);
    Regroup(b);
  }

  /** Every byte string survives encoding and decoding. */
  lemma {:induction false} RoundTrip(b: seq<byte>)
    ensures Decode(Encode(b)) == Some(b)
  {
    if 1 <= |b| <= 3 {
      RoundTripLast(b);
    } else if |b| > 3 {
      RoundTrip(b[3..]);
      RoundTripStep(b);
    }
  }

  /** A complete quantum decodes only from the characters its bytes encode to. */
  lemma FullCanonical(q: string)
    requires |q| == 4 && DecodeFull(q).Some?
    ensures |DecodeFull(q).value| == 3
    ensures q == Chars(Sextets(DecodeFull(q).value[0], DecodeFull(q).value[1], DecodeFull(q).value[2]))
  {
    var v0, v1, v2, v3 := Value(q[0]).value, Value(q[1]).value, Value(q[2]).value, Value(q[3]).value;
    CharOfValue(q[0]);
    CharOfValue(q[1]);
    CharOfValue(q[2]);
    CharOfValue(q[3]);
    SextetsOfOctets(v0, v1, v2, v3);
    var c := Chars([v0, v1, v2, v3]);
    assert c[0] == q[0] && c[1] == q[1] && c[2] == q[2] && c[3] == q[3];
  }

  lemma LastCanonical(q: string)
    requires |q| == 4 && DecodeLast(q).Some?
    ensures q == Encode(DecodeLast(q).value)
  {
    var b := DecodeLast(q).value;
    if q[2] == '=' && q[3] == '=' {
      var v0, v1 := Value(q[0]).value, Value(q[1]).value;
      CharOfValue(q[0]);
      CharOfValue(q[1]);
      SextetsOfOctets(v0, v1, 0, 0);
      var c := Chars(Sextets(b[0], 0, 0)[..2]);
      assert c[0] == q[0] && c[1] == q[1];
    } else if q[3] == '=' {
      var v0, v1, v2 := Value(q[0]).value, Value(q[1]).value, Value(q[2]).value;
      CharOfValue(q[0]);
      CharOfValue(q[1]);
      CharOfValue(q[2]);
      SextetsOfOctets(v0, v1, v2, 0);
      var c := Chars(Sextets(b[0], b[1], 0)[..3]);
      assert c[0] == q[0] && c[1] == q[1] && c[2] == q[2];
    } else {
      FullCanonical(q);
      assert Encode(b) == Chars(Sextets(b[0], b[1], b[2])) + Encode(b[3..]);
      assert b[3..] == [];
    }
  }

  /** Decoding accepts only canonical encodings: whatever decodes re-encodes to the same text. */
  lemma {:induction false} Canonical(s: string)
    requires Decode(s).Some?
    ensures Encode(Decode(s).value) == s
  {
    if |s| == 4 {
      LastCanonical(s);
    } else if |s| > 4 {
      var q, rest := DecodeFull(s[..4]).value, Decode(s[4..]).value;
      FullCanonical(s[..4]);
      Canonical(s[4..]);
      var b := q + rest;
      assert b[..3] == q && b[3..] == rest;
      assert Encode(b) == Chars(Sextets(b[0], b[1], b[2])) + Encode(b[3..]);
      assert s == s[..4] + s[4..];
    }
  }

  /** The encoding ends in exactly `PadCount(|b|)` padding characters and has none elsewhere. */
  lemma {:induction false} Padding(b: seq<byte>)
    ensures forall i :: 0 <= i < |Encode(b)| ==> (Encode(b)[i] == '=' <==> i >= |Encode(b)| - PadCount(|b|))
  {
    if |b| >= 3 {
      Padding(b[3..]);
      var s := Encode(b);
      assert s[4..] == Encode(b[3..]);
      assert PadCount(|b|) == PadCount(|b| - 3);
      forall i | 4 <= i < |s| ensures s[i] == s[4..][i - 4] { }
    }
  }

  /** A 32-byte key encodes to 44 characters of which only the last is padding. */
  lemma KeyEncoding(k: seq<byte>)
    requires |k| == 32
    ensures |Encode(k)| == 44
    ensures Encode(k)[43] == '='
    ensures forall i :: 0 <= i < 43 ==> Encode(k)[i] != '='
  {
    Padding(k);
  }

  /** Every character of an encoding is in the alphabet or is padding. */
  lemma {:induction false} EncodedAlphabet(b: seq<byte>)
    ensures forall i :: 0 <= i < |Encode(b)| ==> Encode(b)[i] == '=' || Value(Encode(b)[i]).Some?
  {
    var s := Encode(b);
    if 1 <= |b| <= 2 {
      var v := if |b| == 1 then Sextets(b[0], 0, 0)[..2] else Sextets(b[0], b[1], 0)[..3];
      forall i | 0 <= i < |v| ensures Value(s[i]).Some? {
        ValuesOfChars(v, i);
      }
    } else if |b| >= 3 {
      var v := Sextets(b[0], b[1], b[2]);
      EncodeGroup(b);
      EncodedAlphabet(b[3..]);
      forall i | 0 <= i < |s| ensures s[i] == '=' || Value(s[i]).Some? {
        if i < 4 {
          ValuesOfChars(v, i);
        } else {
          assert s[i] == Encode(b[3..])[i - 4];
        }
      }
    }
  }

  /** A character outside the alphabet, anywhere, makes decoding fail. */
  lemma ForeignCharRejected(s: string, i: nat)
    requires i < |s| && s[i] != '=' && Value(s[i]).None?
    ensures Decode(s).None?
  {
    if Decode(s).Some? {
      Canonical(s);
      EncodedAlphabet(Decode(s).value);
    }
  }
}
