/**
 * UTF-8, the byte encoding that both encodeURIComponent (section 19.2.6.5 of
 * ECMA-262) and the application/x-www-form-urlencoded parser (section 5.1 of
 * the WHATWG URL Standard) put between strings and bytes.
 *
 * A Dafny `char` is a Unicode scalar value, so a `string` here is a
 * well-formed string: it holds no lone surrogate.
 */
module Utf8 {
  import opened Options

  type Byte = b: int | 0 <= b < 0x100

  /** The scalar value that the WHATWG decoder emits for every error. */
  const Replacement: char := '\U{FFFD}'

  /** The bytes of one scalar value (Table 3-6 of the Unicode Standard). */
  function EncodeChar(c: char): (r: seq<Byte>)
    ensures 1 <= |r| <= 4
    ensures |r| == 1 <==> c as int < 0x80
    ensures |r| == 1 ==> r[0] == c as int
    ensures forall i :: 1 <= i < |r| ==> 0x80 <= r[i] < 0xC0
  {
    var cp := c as int;
    if cp < 0x80 then [cp]
    else if cp < 0x800 then [0xC0 + cp / 0x40, 0x80 + cp % 0x40]
    else if cp < 0x10000 then [0xE0 + cp / 0x1000, 0x80 + cp / 0x40 % 0x40, 0x80 + cp % 0x40]
    else [0xF0 + cp / 0x40000, 0x80 + cp / 0x1000 % 0x40, 0x80 + cp / 0x40 % 0x40, 0x80 + cp % 0x40]
  }

  /** The UTF-8 encoding of a string: the bytes of its scalar values, in order. */
  function Encode(s: string): (r: seq<Byte>)
    ensures |s| <= |r| <= 4 * |s|
  {
    if s == "" then [] else EncodeChar(s[0]) + Encode(s[1..])
  }

  /** True when every character of `s` is ASCII. */
  predicate IsAscii(s: string)
  {
    forall i :: 0 <= i < |s| ==> s[i] as int < 0x80
  }

  /**
   * What the WHATWG UTF-8 decoder expects after a lead byte: how many
   * continuation bytes, and the admissible range of the first one (the
   * later ones are always 0x80 to 0xBF).
   */
  datatype Lead = Lead(needed: nat, lower: Byte, upper: Byte)

  /** The expectation set up by a non-ASCII byte, or None when it cannot start a sequence. */
  function LeadOf(b: Byte): (r: Option<Lead>)
    ensures r.Some? <==> 0xC2 <= b <= 0xF4
    ensures r.Some? ==> 1 <= r.value.needed <= 3 && 0x80 <= r.value.lower <= r.value.upper <= 0xBF
  {
    if 0xC2 <= b <= 0xDF then Some(Lead(1, 0x80, 0xBF))
    else if 0xE0 <= b <= 0xEF then
      Some(Lead(2, if b == 0xE0 then 0xA0 else 0x80, if b == 0xED then 0x9F else 0xBF))
    else if 0xF0 <= b <= 0xF4 then
      Some(Lead(3, if b == 0xF0 then 0x90 else 0x80, if b == 0xF4 then 0x8F else 0xBF))
    else None
  }

  /** How many of the `needed` continuation bytes at the front of `rest` the decoder accepts. */
  function Accepted(rest: seq<Byte>, needed: nat, lower: Byte, upper: Byte): (k: nat)
    ensures k <= needed && k <= |rest|
    ensures k > 0 ==> lower <= rest[0] <= upper
    decreases needed
  {
    if needed == 0 || rest == [] || !(lower <= rest[0] <= upper) then 0
    else 1 + Accepted(rest[1..], needed - 1, 0x80, 0xBF)
  }

  /** The continuation bytes `cont` fit the ranges the decoder demands. */
  predicate Fits(cont: seq<Byte>, lower: Byte, upper: Byte)
  {
    forall i :: 0 <= i < |cont| ==> (if i == 0 then lower <= cont[i] <= upper else 0x80 <= cont[i] <= 0xBF)
  }

  lemma {:induction false} AcceptedFits(rest: seq<Byte>, needed: nat, lower: Byte, upper: Byte)
    requires Accepted(rest, needed, lower, upper) == needed
    ensures needed <= |rest| && Fits(rest[..needed], lower, upper)
    decreases needed
  {
    if needed > 0 {
      AcceptedFits(rest[1..], needed - 1, 0x80, 0xBF);
      assert rest[..needed] == [rest[0]] + rest[1..][..needed - 1];
    }
  }

  lemma {:induction false} FitsAccepted(rest: seq<Byte>, needed: nat, lower: Byte, upper: Byte)
    requires needed <= |rest| && Fits(rest[..needed], lower, upper)
    ensures Accepted(rest, needed, lower, upper) == needed
    decreases needed
  {
    if needed > 0 {
      assert rest[0] == rest[..needed][0];
      assert rest[1..][..needed - 1] == rest[..needed][1..];
      FitsAccepted(rest[1..], needed - 1, 0x80, 0xBF);
    }
  }

  /** The scalar value of a complete, well-formed multi-byte sequence. */
  function Assemble(lead: Byte, cont: seq<Byte>): (c: char)
    requires LeadOf(lead).Some?
    requires |cont| == LeadOf(lead).value.needed
    requires Fits(cont, LeadOf(lead).value.lower, LeadOf(lead).value.upper)
    ensures c as int >= 0x80
  {
    var x: int := lead;
    if |cont| == 1 then
      var y: int := cont[0];
      ((x - 0xC0) * 0x40 + (y - 0x80)) as char
    else if |cont| == 2 then
      var y: int, z: int := cont[0], cont[1];
      ((x - 0xE0) * 0x1000 + (y - 0x80) * 0x40 + (z - 0x80)) as char
    else
      var y: int, z: int, w: int := cont[0], cont[1], cont[2];
      ((x - 0xF0) * 0x40000 + (y - 0x80) * 0x1000 + (z - 0x80) * 0x40 + (w - 0x80)) as char
  }

  /**
   * The WHATWG Encoding Standard's UTF-8 decoder in replacement mode (what
   * "UTF-8 decode without BOM" means): an invalid lead byte gives one
   * U+FFFD; a sequence cut short by an unexpected byte or by the end of
   * input gives one U+FFFD, and the unexpected byte is decoded afresh.
   * A byte-order mark is not stripped.
   */
  function Decode(b: seq<Byte>): (s: string)
    ensures |s| <= |b|
    ensures b == [] <==> s == ""
    decreases |b|
  {
    if b == [] then ""
    else if b[0] < 0x80 then [b[0] as char] + Decode(b[1..])
    else match LeadOf(b[0])
      case None => [Replacement] + Decode(b[1..])
      case Some(l) =>
        var k := Accepted(b[1..], l.needed, l.lower, l.upper);
        if k == l.needed then
          AcceptedFits(b[1..], l.needed, l.lower, l.upper);
          [Assemble(b[0], b[1..1 + k])] + Decode(b[1 + k..])
        else
          [Replacement] + Decode(b[1 + k..])
  }

  lemma {:induction false} EncodeAppend(a: string, b: string)
    ensures Encode(a + b) == Encode(a) + Encode(b)
  {
    if a == "" {
      assert a + b == b;
    } else {
      assert (a + b)[0] == a[0];
      assert (a + b)[1..] == a[1..] + b;
      EncodeAppend(a[1..], b);
    }
  }

  /** An ASCII string is encoded as its character codes, one byte each. */
  lemma {:induction false} EncodeAscii(s: string)
    requires IsAscii(s)
    ensures |Encode(s)| == |s|
    ensures forall i :: 0 <= i < |s| ==> Encode(s)[i] == s[i] as int
  {
    if s != "" {
      EncodeAscii(s[1..]);
    }
  }

  /** Decoding the two bytes of a scalar value in 0x80 to 0x7FF gives it back, whatever follows. */
  lemma DecodeEncodeTwo(c: char, rest: seq<Byte>)
    requires 0x80 <= c as int < 0x800
    ensures Decode(EncodeChar(c) + rest) == [c] + Decode(rest)
  {
    var cp := c as int;
    var q1, r0 := cp / 0x40, cp % 0x40;
    assert cp == q1 * 0x40 + r0;
    var b := EncodeChar(c) + rest;
    assert EncodeChar(c) == [0xC0 + q1, 0x80 + r0];
    assert LeadOf(b[0]) == Some(Lead(1, 0x80, 0xBF));
    assert b[1..][..1] == [0x80 + r0];
    FitsAccepted(b[1..], 1, 0x80, 0xBF);
    assert b[2..] == rest;
    assert Assemble(b[0], b[1..2]) == c;
  }

  /** Decoding the three bytes of a scalar value in 0x800 to 0xFFFF gives it back, whatever follows. */
  lemma DecodeEncodeThree(c: char, rest: seq<Byte>)
    requires 0x800 <= c as int < 0x10000
    ensures Decode(EncodeChar(c) + rest) == [c] + Decode(rest)
  {
    var cp := c as int;
    var q1, r0 := cp / 0x40, cp % 0x40;
    var q2, r1 := q1 / 0x40, q1 % 0x40;
    assert cp == q1 * 0x40 + r0 && q1 == q2 * 0x40 + r1;
    assert cp / 0x1000 == q2;
    var b := EncodeChar(c) + rest;
    assert EncodeChar(c) == [0xE0 + q2, 0x80 + r1, 0x80 + r0];
    var l := LeadOf(b[0]).value;
    assert l.needed == 2;
    assert b[1..][..2] == [0x80 + r1, 0x80 + r0];
    FitsAccepted(b[1..], 2, l.lower, l.upper);
    assert b[3..] == rest;
    assert Assemble(b[0], b[1..3]) == c;
  }

  /** Decoding the four bytes of a scalar value from 0x10000 on gives it back, whatever follows. */
  lemma DecodeEncodeFour(c: char, rest: seq<Byte>)
    requires 0x10000 <= c as int
    ensures Decode(EncodeChar(c) + rest) == [c] + Decode(rest)
  {
    var cp := c as int;
    var q1, r0 := cp / 0x40, cp % 0x40;
    var q2, r1 := q1 / 0x40, q1 % 0x40;
    var q3, r2 := q2 / 0x40, q2 % 0x40;
    assert cp == q1 * 0x40 + r0 && q1 == q2 * 0x40 + r1 && q2 == q3 * 0x40 + r2;
    assert cp / 0x40000 == q3 && cp / 0x1000 == q2;
    var b := EncodeChar(c) + rest;
    assert EncodeChar(c) == [0xF0 + q3, 0x80 + r2, 0x80 + r1, 0x80 + r0];
    var l := LeadOf(b[0]).value;
    assert l.needed == 3;
    assert b[1..][..3] == [0x80 + r2, 0x80 + r1, 0x80 + r0];
    FitsAccepted(b[1..], 3, l.lower, l.upper);
    assert b[4..] == rest;
    assert Assemble(b[0], b[1..4]) == c;
  }

  /** Decoding the bytes of one scalar value gives that value back, whatever follows. */
  lemma DecodeEncodeChar(c: char, rest: seq<Byte>)
    ensures Decode(EncodeChar(c) + rest) == [c] + Decode(rest)
  {
    var cp := c as int;
    if cp < 0x80 {
      assert (EncodeChar(c) + rest)[1..] == rest;
    } else if cp < 0x800 {
      DecodeEncodeTwo(c, rest);
    } else if cp < 0x10000 {
      DecodeEncodeThree(c, rest);
    } else {
      DecodeEncodeFour(c, rest);
    }
  }

  /** UTF-8 round trip: decoding the encoding of any well-formed string gives the string back. */
  lemma {:induction false} DecodeEncode(s: string)
    ensures Decode(Encode(s)) == s
  {
    if s != "" {
      DecodeEncodeChar(s[0], Encode(s[1..]));
      DecodeEncode(s[1..]);
    }
  }
}
