/**
 * encodeURIComponent, section 19.2.6.4 of ECMA-262 (ECMAScript 2022), with
 * the Encode operation of section 19.2.6.5 that it delegates to: every code
 * point outside the unreserved set is written as the %XX escapes of its
 * UTF-8 bytes, with upper-case hexadecimal digits.
 *
 * A `string` here holds no lone surrogate, so the URIError that the
 * operation throws for one cannot arise.
 */
module UriComponent {
  import opened Utf8

  /** The characters encodeURIComponent leaves alone: letters, digits and - _ . ! ~ * ' ( ) */
  predicate Unreserved(c: char)
  {
    ('A' <= c <= 'Z') || ('a' <= c <= 'z') || ('0' <= c <= '9') ||
    c == '-' || c == '_' || c == '.' || c == '!' || c == '~' || c == '*' || c == '\'' || c == '(' || c == ')'
  }

  /** An upper-case hexadecimal digit, as the escapes are written. */
  predicate UpperHex(c: char)
  {
    ('0' <= c <= '9') || ('A' <= c <= 'F')
  }

  /** The upper-case hexadecimal digit for `d`. */
  function HexDigit(d: int): (c: char)
    requires 0 <= d < 16
    ensures UpperHex(c)
  {
    if d < 10 then ('0' as int + d) as char else ('A' as int + d - 10) as char
  }

  /** The escape of one byte: `%`, then its high and its low hexadecimal digit. */
  function Escape(x: Byte): (e: string)
    ensures |e| == 3 && e[0] == '%' && UpperHex(e[1]) && UpperHex(e[2])
  {
    ['%', HexDigit(x / 16), HexDigit(x % 16)]
  }

  /** `%XX` for each byte, in order: the `k`th group of three characters is the escape of byte `k`. */
  function Escapes(b: seq<Byte>): (r: string)
    ensures |r| == 3 * |b|
    ensures forall k :: 0 <= k < |b| ==> r[3 * k..3 * k + 3] == Escape(b[k])
    ensures b != [] ==> r[0] == '%' && UpperHex(r[1]) && UpperHex(r[2])
  {
    if b == [] then ""
    else
      var t := Escapes(b[1..]);
      var r := Escape(b[0]) + t;
      assert forall k :: 1 <= k < |b| ==> r[3 * k..3 * k + 3] == t[3 * (k - 1)..3 * (k - 1) + 3] by {
        forall k | 1 <= k < |b| ensures r[3 * k..3 * k + 3] == t[3 * (k - 1)..3 * (k - 1) + 3] {
          assert 3 * k == 3 * (k - 1) + 3;
        }
      }
      assert forall k :: 1 <= k < |b| ==> b[k] == b[1..][k - 1];
      r
  }

  /** What encodeURIComponent writes for one code point. */
  function EncodeCodePoint(c: char): (r: string)
    ensures Unreserved(c) <==> r == [c]
    ensures !Unreserved(c) ==> 3 <= |r| <= 12 && |r| % 3 == 0 && r[0] == '%'
    ensures !Unreserved(c) ==>
              |r| == 3 * |EncodeChar(c)| &&
              (forall k :: 0 <= k < |EncodeChar(c)| ==> r[3 * k..3 * k + 3] == Escape(EncodeChar(c)[k]))
    ensures c as int < 0x80 ==> |r| == 1 || |r| == 3
  {
    if Unreserved(c) then [c] else Escapes(EncodeChar(c))
  }

  /** encodeURIComponent(s). */
  function EncodeUriComponent(s: string): (r: string)
    ensures |r| >= |s|
  {
    if s == "" then "" else EncodeCodePoint(s[0]) + EncodeUriComponent(s[1..])
  }

  /**
   * The shape of every encodeURIComponent result: a run of unreserved
   * characters and `%XX` escapes with upper-case digits.
   */
  predicate WellEscaped(t: string)
    decreases |t|
  {
    if t == "" then true
    else if Unreserved(t[0]) then WellEscaped(t[1..])
    else |t| >= 3 && t[0] == '%' && UpperHex(t[1]) && UpperHex(t[2]) && WellEscaped(t[3..])
  }

  lemma {:induction false} EncodeAppend(a: string, b: string)
    ensures EncodeUriComponent(a + b) == EncodeUriComponent(a) + EncodeUriComponent(b)
  {
    if a == "" {
      assert a + b == b;
    } else {
      assert (a + b)[0] == a[0];
      assert (a + b)[1..] == a[1..] + b;
      EncodeAppend(a[1..], b);
    }
  }

  /** A string of unreserved characters is its own encoding (parameter names such as `vault`). */
  lemma {:induction false} EncodeUnreserved(s: string)
    requires forall i :: 0 <= i < |s| ==> Unreserved(s[i])
    ensures EncodeUriComponent(s) == s
  {
    if s != "" {
      EncodeUnreserved(s[1..]);
    }
  }

  lemma {:induction false} WellEscapedAppend(a: string, b: string)
    requires WellEscaped(a) && WellEscaped(b)
    ensures WellEscaped(a + b)
    decreases |a|
  {
    if a == "" {
      assert a + b == b;
    } else {
      assert (a + b)[0] == a[0];
      if Unreserved(a[0]) {
        assert (a + b)[1..] == a[1..] + b;
        WellEscapedAppend(a[1..], b);
      } else {
        assert (a + b)[1] == a[1] && (a + b)[2] == a[2];
        assert (a + b)[3..] == a[3..] + b;
        WellEscapedAppend(a[3..], b);
      }
    }
  }

  lemma {:induction false} EscapesWellEscaped(b: seq<Byte>)
    ensures WellEscaped(Escapes(b))
  {
    if b != [] {
      var t := Escapes(b);
      assert t[3..] == Escapes(b[1..]);
      EscapesWellEscaped(b[1..]);
    }
  }

  /** Every encodeURIComponent result is unreserved characters and %XX escapes only. */
  lemma {:induction false} EncodeIsWellEscaped(s: string)
    ensures WellEscaped(EncodeUriComponent(s))
  {
    if s != "" {
      if !Unreserved(s[0]) {
        EscapesWellEscaped(EncodeChar(s[0]));
      }
      EncodeIsWellEscaped(s[1..]);
      WellEscapedAppend(EncodeCodePoint(s[0]), EncodeUriComponent(s[1..]));
    }
  }

  /**
   * A well-escaped string holds only unreserved characters, `%` and
   * upper-case hexadecimal digits: in particular no `&`, `=`, `#`, `+` or space.
   */
  lemma {:induction false} WellEscapedChars(t: string)
    requires WellEscaped(t)
    ensures forall i :: 0 <= i < |t| ==> Unreserved(t[i]) || t[i] == '%' || UpperHex(t[i])
    decreases |t|
  {
    if t != "" {
      if Unreserved(t[0]) {
        WellEscapedChars(t[1..]);
        assert forall i :: 1 <= i < |t| ==> t[i] == t[1..][i - 1];
      } else {
        WellEscapedChars(t[3..]);
        assert forall i :: 3 <= i < |t| ==> t[i] == t[3..][i - 3];
      }
    }
  }

  /** The encoding of any string has no raw `&`, `=`, `#`, `+` or space, and is ASCII. */
  lemma EncodedHasNoDelimiters(s: string)
    ensures forall i :: 0 <= i < |EncodeUriComponent(s)| ==>
      var c := EncodeUriComponent(s)[i];
      c != '&' && c != '=' && c != '#' && c != '+' && c != ' ' && c as int < 0x80
  {
    var t := EncodeUriComponent(s);
    EncodeIsWellEscaped(s);
    WellEscapedChars(t);
    forall i | 0 <= i < |t|
      ensures t[i] != '&' && t[i] != '=' && t[i] != '#' && t[i] != '+' && t[i] != ' ' && t[i] as int < 0x80
    {
      EscapedCharSafe(t[i]);
    }
  }

  lemma EscapedCharSafe(c: char)
    requires Unreserved(c) || c == '%' || UpperHex(c)
    ensures c != '&' && c != '=' && c != '#' && c != '+' && c != ' ' && c as int < 0x80
  {
  }
}
