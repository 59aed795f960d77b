/**
 * URLSearchParams over a string: the constructor, the
 * application/x-www-form-urlencoded parser of section 5.1 of the WHATWG URL
 * Standard that it runs, and `get`.
 *
 * The round-trip lemmas at the end connect the parser with
 * encodeURIComponent: a query written as name=value pairs whose names and
 * values went through encodeURIComponent parses back to exactly those pairs.
 */
module FormUrlEncoded {
  import opened Options
  import opened Utf8
  import opened UriComponent

  /** One name-value pair of a parsed query, in the order it appeared. */
  datatype Pair = Pair(name: string, value: string)

  const Ampersand: Byte := 0x26
  const EqualsSign: Byte := 0x3D
  const PlusSign: Byte := 0x2B
  const Space: Byte := 0x20
  const PercentSign: Byte := 0x25

  /** An ASCII hex digit, either case (section 1.3 of the WHATWG URL Standard accepts both). */
  predicate IsHexByte(b: Byte)
  {
    (0x30 <= b <= 0x39) || (0x41 <= b <= 0x46) || (0x61 <= b <= 0x66)
  }

  function HexValue(b: Byte): (v: int)
    requires IsHexByte(b)
    ensures 0 <= v < 16
  {
    if b <= 0x39 then b - 0x30 else if b <= 0x46 then b - 0x41 + 10 else b - 0x61 + 10
  }

  /**
   * Percent-decode a byte sequence: `%` followed by two hex digits becomes
   * the byte they spell; any other byte, a lone `%` included, is kept.
   */
  function PercentDecode(b: seq<Byte>): (r: seq<Byte>)
    ensures |r| <= |b|
    ensures PercentSign !in b ==> r == b
    decreases |b|
  {
    if b == [] then []
    else if b[0] == PercentSign && |b| >= 3 && IsHexByte(b[1]) && IsHexByte(b[2]) then
      [HexValue(b[1]) * 16 + HexValue(b[2])] + PercentDecode(b[3..])
    else [b[0]] + PercentDecode(b[1..])
  }

  /** The index of the first `x` in `b`, or |b| when there is none. */
  function IndexOf(b: seq<Byte>, x: Byte): (i: nat)
    ensures i <= |b|
    ensures i < |b| ==> b[i] == x
    ensures forall j :: 0 <= j < i ==> b[j] != x
  {
    if b == [] then 0 else if b[0] == x then 0 else 1 + IndexOf(b[1..], x)
  }

  /**
   * Splitting on `sep`: the pieces between consecutive separators, empty
   * ones included, so there is always one more piece than separators.
   */
  function Split(b: seq<Byte>, sep: Byte): (r: seq<seq<Byte>>)
    ensures |r| >= 1
    ensures forall k :: 0 <= k < |r| ==> sep !in r[k]
    decreases |b|
  {
    var i := IndexOf(b, sep);
    if i == |b| then [b] else [b[..i]] + Split(b[i + 1..], sep)
  }

  /** Gluing the pieces back together with `sep` between them. */
  function Join(ps: seq<seq<Byte>>, sep: Byte): seq<Byte>
  {
    if ps == [] then []
    else if |ps| == 1 then ps[0]
    else ps[0] + [sep] + Join(ps[1..], sep)
  }

  /** Every 0x2B (+) becomes 0x20 (space). */
  function ReplacePlus(b: seq<Byte>): (r: seq<Byte>)
    ensures |r| == |b|
    ensures forall i :: 0 <= i < |b| ==> r[i] == if b[i] == PlusSign then Space else b[i]
    ensures PlusSign !in r
  {
    if b == [] then [] else [if b[0] == PlusSign then Space else b[0]] + ReplacePlus(b[1..])
  }

  /** A name or a value as the parser turns it into a string. */
  function DecodeComponent(b: seq<Byte>): (s: string)
    ensures |s| <= |b|
    ensures b == [] <==> s == ""
  {
    Decode(PercentDecode(ReplacePlus(b)))
  }

  /** One non-empty piece: name up to the first `=`, value after it (empty when there is no `=`). */
  function ParsePiece(bytes: seq<Byte>): (p: Pair)
    ensures EqualsSign !in bytes ==> p == Pair(DecodeComponent(bytes), "")
  {
    var i := IndexOf(bytes, EqualsSign);
    assert EqualsSign !in bytes ==> i == |bytes| && bytes[..i] == bytes;
    var value := if i < |bytes| then bytes[i + 1..] else [];
    Pair(DecodeComponent(bytes[..i]), DecodeComponent(value))
  }

  /** The pairs of the pieces in order, skipping empty pieces. */
  function ParsePieces(pieces: seq<seq<Byte>>): (r: seq<Pair>)
    ensures |r| <= |pieces|
    ensures (forall k :: 0 <= k < |pieces| ==> pieces[k] != []) ==> |r| == |pieces|
    ensures (forall k :: 0 <= k < |pieces| ==> pieces[k] != []) ==>
              forall k :: 0 <= k < |r| ==> r[k] == ParsePiece(pieces[k])
    ensures forall p :: p in r ==> exists k :: 0 <= k < |pieces| && pieces[k] != [] && p == ParsePiece(pieces[k])
  {
    if pieces == [] then []
    else
      var rest := ParsePieces(pieces[1..]);
      assert forall k :: 1 <= k < |pieces| ==> pieces[k] == pieces[1..][k - 1];
      (if pieces[0] == [] then [] else [ParsePiece(pieces[0])]) + rest
  }

  /** The application/x-www-form-urlencoded parser. */
  function Parse(input: seq<Byte>): (r: seq<Pair>)
    ensures input == [] ==> r == []
    ensures input != [] && Ampersand !in input ==> r == [ParsePiece(input)]
  {
    SplitWithout(input, Ampersand);
    ParsePieces(Split(input, Ampersand))
  }

  /** new URLSearchParams(init): one leading `?` is dropped, the rest is UTF-8 encoded and parsed. */
  function SearchParams(init: string): (r: seq<Pair>)
    ensures init == "" || init == "?" ==> r == []
  {
    Parse(Utf8.Encode(if |init| > 0 && init[0] == '?' then init[1..] else init))
  }

  /** URLSearchParams.get: the value of the FIRST pair with this name, or None (`null`). */
  function Get(ps: seq<Pair>, name: string): (r: Option<string>)
    ensures r.None? <==> forall i :: 0 <= i < |ps| ==> ps[i].name != name
    ensures r.Some? ==> exists i :: 0 <= i < |ps| && ps[i] == Pair(name, r.value) &&
                                    forall j :: 0 <= j < i ==> ps[j].name != name
  {
    if ps == [] then None
    else if ps[0].name == name then Some(ps[0].value)
    else Get(ps[1..], name)
  }

  // ---------------------------------------------------------------------
  // Splitting and joining

  lemma {:induction false} JoinSplit(b: seq<Byte>, sep: Byte)
    ensures Join(Split(b, sep), sep) == b
    decreases |b|
  {
    var i := IndexOf(b, sep);
    if i < |b| {
      JoinSplit(b[i + 1..], sep);
      assert b == b[..i] + [sep] + b[i + 1..];
    }
  }

  /** Input without the separator is a single piece. */
  lemma SplitWithout(b: seq<Byte>, sep: Byte)
    ensures sep !in b ==> Split(b, sep) == [b]
  {
  }

  /** A separator after a separator-free prefix: the prefix is the first piece. */
  lemma SplitFirst(x: seq<Byte>, y: seq<Byte>, sep: Byte)
    requires sep !in x
    ensures Split(x + [sep] + y, sep) == [x] + Split(y, sep)
  {
    var b := x + [sep] + y;
    IndexOfPrefix(x, [sep] + y, sep);
    assert b == x + ([sep] + y);
    assert IndexOf(b, sep) == |x|;
    assert b[..|x|] == x && b[|x| + 1..] == y;
  }

  lemma {:induction false} IndexOfPrefix(x: seq<Byte>, y: seq<Byte>, sep: Byte)
    ensures IndexOf(x, sep) < |x| ==> IndexOf(x + y, sep) == IndexOf(x, sep)
    ensures IndexOf(x, sep) == |x| ==> IndexOf(x + y, sep) == |x| + IndexOf(y, sep)
  {
    if x != [] {
      assert (x + y)[1..] == x[1..] + y;
      IndexOfPrefix(x[1..], y, sep);
    } else {
      assert x + y == y;
    }
  }

  lemma {:induction false} ParsePiecesAppend(a: seq<seq<Byte>>, b: seq<seq<Byte>>)
    ensures ParsePieces(a + b) == ParsePieces(a) + ParsePieces(b)
  {
    if a == [] {
      assert a + b == b;
    } else {
      assert (a + b)[0] == a[0];
      assert (a + b)[1..] == a[1..] + b;
      ParsePiecesAppend(a[1..], b);
    }
  }

  /** An `&` after a piece free of `&`: that piece's pair, then the pairs after it. */
  lemma ParseAround(x: seq<Byte>, y: seq<Byte>)
    requires Ampersand !in x
    ensures Parse(x + [Ampersand] + y) == Parse(x) + Parse(y)
  {
    SplitFirst(x, y, Ampersand);
    SplitWithout(x, Ampersand);
    ParsePiecesAppend([x], Split(y, Ampersand));
  }

  // ---------------------------------------------------------------------
  // The round trip with encodeURIComponent

  /** A `%XX` escape written by encodeURIComponent decodes to the byte it came from. */
  lemma EscapeDecodes(x: Byte, rest: seq<Byte>)
    ensures PercentDecode(Utf8.Encode(Escape(x)) + rest) == [x] + PercentDecode(rest)
  {
    var t := Escape(x);
    EncodeAscii(t);
    var b := Utf8.Encode(t) + rest;
    assert b[..3] == [PercentSign, HexDigit(x / 16) as int, HexDigit(x % 16) as int];
    assert HexValue(b[1]) == x / 16 && HexValue(b[2]) == x % 16;
    assert b[3..] == rest;
  }

  lemma {:induction false} EscapesDecode(bs: seq<Byte>, rest: seq<Byte>)
    ensures PercentDecode(Utf8.Encode(Escapes(bs)) + rest) == bs + PercentDecode(rest)
  {
    if bs != [] {
      var t := Escape(bs[0]);
      assert Escapes(bs) == t + Escapes(bs[1..]);
      Utf8.EncodeAppend(t, Escapes(bs[1..]));
      assert Utf8.Encode(Escapes(bs)) + rest == Utf8.Encode(t) + (Utf8.Encode(Escapes(bs[1..])) + rest);
      var tail := Utf8.Encode(Escapes(bs[1..])) + rest;
      calc {
        PercentDecode(Utf8.Encode(Escapes(bs)) + rest);
        PercentDecode(Utf8.Encode(t) + tail);
        { EscapeDecodes(bs[0], tail); }
        [bs[0]] + PercentDecode(tail);
        { EscapesDecode(bs[1..], rest); }
        [bs[0]] + (bs[1..] + PercentDecode(rest));
        { assert bs == [bs[0]] + bs[1..]; }
        bs + PercentDecode(rest);
      }
    } else {
      assert Utf8.Encode(Escapes(bs)) + rest == rest;
    }
  }

  lemma CodePointDecodes(c: char, rest: seq<Byte>)
    ensures PercentDecode(Utf8.Encode(EncodeCodePoint(c)) + rest) == EncodeChar(c) + PercentDecode(rest)
  {
    if Unreserved(c) {
      assert Utf8.Encode([c]) == EncodeChar(c) by {
        assert [c][1..] == "";
      }
      assert (EncodeChar(c) + rest)[1..] == rest;
    } else {
      EscapesDecode(EncodeChar(c), rest);
    }
  }

  /** Percent-decoding the bytes of encodeURIComponent(s) gives the UTF-8 bytes of s. */
  lemma {:induction false} PercentDecodeEncode(s: string)
    ensures PercentDecode(Utf8.Encode(EncodeUriComponent(s))) == Utf8.Encode(s)
  {
    if s != "" {
      Utf8.EncodeAppend(EncodeCodePoint(s[0]), EncodeUriComponent(s[1..]));
      CodePointDecodes(s[0], Utf8.Encode(EncodeUriComponent(s[1..])));
      PercentDecodeEncode(s[1..]);
    }
  }

  /** The bytes of an encodeURIComponent result: one per character, and never `&`, `=` or `+`. */
  lemma EncodedBytes(s: string)
    ensures var b := Utf8.Encode(EncodeUriComponent(s));
      Ampersand !in b && EqualsSign !in b && PlusSign !in b
  {
    var t := EncodeUriComponent(s);
    EncodedHasNoDelimiters(s);
    EncodeAscii(t);
    var b := Utf8.Encode(t);
    forall i | 0 <= i < |b| ensures b[i] != Ampersand && b[i] != EqualsSign && b[i] != PlusSign {
      assert b[i] == t[i] as int;
    }
  }

  /** The parser reads a value written by encodeURIComponent as exactly the original string. */
  lemma DecodeComponentEncode(s: string)
    ensures DecodeComponent(Utf8.Encode(EncodeUriComponent(s))) == s
  {
    var b := Utf8.Encode(EncodeUriComponent(s));
    EncodedBytes(s);
    assert ReplacePlus(b) == b;
    PercentDecodeEncode(s);
    Utf8.DecodeEncode(s);
  }

  /** `name=value`, each part through encodeURIComponent. */
  function Field(p: Pair): string
  {
    EncodeUriComponent(p.name) + "=" + EncodeUriComponent(p.value)
  }

  /** A query written from pairs: the fields, separated by `&`, the form the redirect URLs take. */
  function QueryString(ps: seq<Pair>): string
  {
    if ps == [] then ""
    else if |ps| == 1 then Field(ps[0])
    else Field(ps[0]) + "&" + QueryString(ps[1..])
  }

  /** A piece with an `=` after a name free of `=`: the name before it, the value after it. */
  lemma ParsePieceAt(nb: seq<Byte>, vb: seq<Byte>)
    requires EqualsSign !in nb
    ensures ParsePiece(nb + [EqualsSign] + vb) == Pair(DecodeComponent(nb), DecodeComponent(vb))
  {
    var b := nb + [EqualsSign] + vb;
    IndexOfPrefix(nb, [EqualsSign] + vb, EqualsSign);
    assert b == nb + ([EqualsSign] + vb);
    assert IndexOf(b, EqualsSign) == |nb|;
    assert b[..|nb|] == nb && b[|nb| + 1..] == vb;
  }

  lemma FieldBytes(p: Pair)
    ensures Utf8.Encode(Field(p)) ==
            Utf8.Encode(EncodeUriComponent(p.name)) + [EqualsSign] + Utf8.Encode(EncodeUriComponent(p.value))
  {
    var n, v := EncodeUriComponent(p.name), EncodeUriComponent(p.value);
    Utf8.EncodeAppend(n, "=");
    Utf8.EncodeAppend(n + "=", v);
    assert Utf8.Encode("=") == [EqualsSign];
  }

  lemma FieldParses(p: Pair)
    ensures Parse(Utf8.Encode(Field(p))) == [p]
  {
    var nb, vb := Utf8.Encode(EncodeUriComponent(p.name)), Utf8.Encode(EncodeUriComponent(p.value));
    var b := nb + [EqualsSign] + vb;
    FieldBytes(p);
    EncodedBytes(p.name);
    EncodedBytes(p.value);
    assert Ampersand !in b;
    SplitWithout(b, Ampersand);
    ParsePieceAt(nb, vb);
    DecodeComponentEncode(p.name);
    DecodeComponentEncode(p.value);
    assert ParsePieces([b]) == [ParsePiece(b)];
  }

  /** Query round trip: parsing a query written from pairs gives back the pairs, in order. */
  lemma {:induction false} QueryStringParses(ps: seq<Pair>)
    ensures Parse(Utf8.Encode(QueryString(ps))) == ps
  {
    if ps == [] {
      assert Split([], Ampersand) == [[]];
    } else if |ps| == 1 {
      FieldParses(ps[0]);
    } else {
      var f, q := Field(ps[0]), QueryString(ps[1..]);
      Utf8.EncodeAppend(f, "&");
      Utf8.EncodeAppend(f + "&", q);
      assert Utf8.Encode("&") == [Ampersand];
      FieldBytes(ps[0]);
      EncodedBytes(ps[0].name);
      EncodedBytes(ps[0].value);
      ParseAround(Utf8.Encode(f), Utf8.Encode(q));
      FieldParses(ps[0]);
      QueryStringParses(ps[1..]);
    }
  }

  /** A field never starts with `?`, so the constructor's `?` stripping leaves a query alone. */
  lemma FieldStart(p: Pair)
    ensures |Field(p)| > 0 && Field(p)[0] != '?'
  {
    var n := EncodeUriComponent(p.name);
    if n != "" {
      EncodeIsWellEscaped(p.name);
      WellEscapedChars(n);
      assert Field(p)[0] == n[0];
    } else {
      assert Field(p)[0] == '=';
    }
  }

  /** The same through the URLSearchParams constructor, with or without a leading `?`. */
  lemma SearchParamsQueryString(ps: seq<Pair>)
    ensures SearchParams(QueryString(ps)) == ps
    ensures SearchParams("?" + QueryString(ps)) == ps
  {
    var q := QueryString(ps);
    QueryStringParses(ps);
    assert ("?" + q)[1..] == q;
    if ps != [] {
      FieldStart(ps[0]);
      assert q[0] == Field(ps[0])[0];
    }
  }
}
