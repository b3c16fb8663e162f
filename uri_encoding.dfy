/** The two standard encoders the request layer uses: ECMA-262
    `encodeURIComponent` (for path placeholders) and the
    application/x-www-form-urlencoded serializer of the WHATWG URL Standard,
    section 5.2 (what `URLSearchParams` turns into text, for the query string).
    Both work on the UTF-8 bytes of the text; a Dafny `char` is a Unicode
    scalar value, so every string here has a UTF-8 form. */
module UriEncoding {
  import opened Values

  /** Every entry is a byte value. */
  predicate AreBytes(bytes: seq<int>)
  {
    forall i :: 0 <= i < |bytes| ==> 0 <= bytes[i] < 256
  }

  /** UTF-8 encoding of one Unicode scalar value, as byte values. */
  function Utf8(c: char): (bytes: seq<int>)
    ensures 1 <= |bytes| <= 4
    ensures AreBytes(bytes)
    ensures |bytes| == 1 <==> c as int < 0x80
    ensures |bytes| == 1 ==> bytes[0] == c as int
  {
    var n := c as int;
    if n < 0x80 then [n]
    else if n < 0x800 then [0xC0 + n / 0x40, 0x80 + n % 0x40]
    else if n < 0x1_0000 then [0xE0 + n / 0x1000, 0x80 + n / 0x40 % 0x40, 0x80 + n % 0x40]
    else [0xF0 + n / 0x4_0000, 0x80 + n / 0x1000 % 0x40, 0x80 + n / 0x40 % 0x40, 0x80 + n % 0x40]
  }

  /** The UTF-8 bytes of a whole string. */
  function Utf8Text(s: string): seq<int>
  {
    if s == [] then [] else Utf8(s[0]) + Utf8Text(s[1..])
  }

  /** Upper-case hexadecimal digit, as both encoders write escapes. */
  function HexDigit(d: int): (h: char)
    requires 0 <= d < 16
    ensures IsHexDigit(h)
  {
    if d < 10 then ('0' as int + d) as char else ('A' as int + d - 10) as char
  }

  predicate IsHexDigit(h: char)
  {
    '0' <= h <= '9' || 'A' <= h <= 'F'
  }

  function HexValue(h: char): int
  {
    if '0' <= h <= '9' then h as int - '0' as int
    else if 'A' <= h <= 'F' then h as int - 'A' as int + 10
    else if 'a' <= h <= 'f' then h as int - 'a' as int + 10
    else 0
  }

  /** `%XX` for one byte. */
  function Escape(b: int): string
    requires 0 <= b < 256
  {
    ['%', HexDigit(b / 16), HexDigit(b % 16)]
  }

  /** The escapes of a run of bytes, one after the other. */
  function Escapes(bytes: seq<int>): (r: string)
    requires AreBytes(bytes)
    ensures forall c :: c in r ==> c == '%' || IsHexDigit(c)
  {
    if bytes == [] then "" else Escape(bytes[0]) + Escapes(bytes[1..])
  }

  /** Reading an escape's two digits back gives its byte. */
  lemma HexRoundTrip(b: int)
    requires 0 <= b < 256
    ensures var e := Escape(b); HexValue(e[1]) * 16 + HexValue(e[2]) == b
  {
  }

  /** Every `%` in the text starts a complete `%XX` escape. */
  predicate WellEscaped(r: string)
  {
    forall i :: 0 <= i < |r| && r[i] == '%' ==> i + 2 < |r| && IsHexDigit(r[i + 1]) && IsHexDigit(r[i + 2])
  }

  lemma WellEscapedAppend(a: string, b: string)
    requires WellEscaped(a) && WellEscaped(b)
    ensures WellEscaped(a + b)
  {
    forall i | 0 <= i < |a + b| && (a + b)[i] == '%'
      ensures i + 2 < |a + b| && IsHexDigit((a + b)[i + 1]) && IsHexDigit((a + b)[i + 2])
    {
      if i < |a| {
        assert a[i] == '%';
      } else {
        assert b[i - |a|] == '%';
      }
    }
  }

  /** A run of escapes is made of complete escapes. */
  lemma {:induction false} EscapesWellEscaped(bytes: seq<int>)
    requires AreBytes(bytes)
    ensures WellEscaped(Escapes(bytes))
    decreases |bytes|
  {
    if bytes != [] {
      EscapesWellEscaped(bytes[1..]);
      WellEscapedAppend(Escape(bytes[0]), Escapes(bytes[1..]));
    }
  }

  /** Reverses percent-escaping: `%XX` becomes the byte XX, any other
      character stands for its own code. */
  function PercentDecode(t: string): seq<int>
  {
    if t == [] then []
    else if t[0] == '%' && |t| >= 3 then [HexValue(t[1]) * 16 + HexValue(t[2])] + PercentDecode(t[3..])
    else [t[0] as int] + PercentDecode(t[1..])
  }

  lemma PercentDecodeEscape(b: int, rest: string)
    requires 0 <= b < 256
    ensures PercentDecode(Escape(b) + rest) == [b] + PercentDecode(rest)
  {
    var e := Escape(b) + rest;
    assert e[0] == '%' && |e| >= 3 && e[3..] == rest;
    HexRoundTrip(b);
  }

  lemma {:induction false} EscapesDecode(bytes: seq<int>, t: string)
    requires AreBytes(bytes)
    ensures PercentDecode(Escapes(bytes) + t) == bytes + PercentDecode(t)
    decreases |bytes|
  {
    if bytes == [] {
      assert Escapes(bytes) + t == t;
    } else {
      var b, rest := bytes[0], Escapes(bytes[1..]) + t;
      calc {
        PercentDecode(Escapes(bytes) + t);
        { assert Escapes(bytes) + t == Escape(b) + rest; }
        PercentDecode(Escape(b) + rest);
        { PercentDecodeEscape(b, rest); }
        [b] + PercentDecode(rest);
        { EscapesDecode(bytes[1..], t); }
        [b] + (bytes[1..] + PercentDecode(t));
        { assert bytes == [b] + bytes[1..]; }
        bytes + PercentDecode(t);
      }
    }
  }

  // ---------------------------------------------------------------------
  // encodeURIComponent

  /** The characters `encodeURIComponent` leaves as they are. */
  predicate IsUriUnreserved(c: char)
  {
    'A' <= c <= 'Z' || 'a' <= c <= 'z' || '0' <= c <= '9' ||
    c == '-' || c == '_' || c == '.' || c == '!' || c == '~' ||
    c == '*' || c == '\'' || c == '(' || c == ')'
  }

  function EncodeUriChar(c: char): string
  {
    if IsUriUnreserved(c) then [c] else Escapes(Utf8(c))
  }

  /** `encodeURIComponent(s)`. Its result is made of unreserved characters,
      `%` and hexadecimal digits: in particular it holds no `$`, `{` or `}`, so
      `String.prototype.replace`'s `$` patterns never apply and a substituted
      value itself holds no brace. Text that needs no escaping is unchanged. */
  function EncodeUriComponent(s: string): (r: string)
    ensures forall c :: c in r ==> IsUriUnreserved(c) || c == '%' || IsHexDigit(c)
    ensures '$' !in r && '{' !in r && '}' !in r
    ensures (forall c :: c in s ==> IsUriUnreserved(c)) ==> r == s
  {
    if s == [] then "" else EncodeUriChar(s[0]) + EncodeUriComponent(s[1..])
  }

  /** Every `%` that `encodeURIComponent` writes starts a complete `%XX`
      escape: no bare `%` comes out. */
  lemma {:induction false} EncodeUriWellEscaped(s: string)
    ensures WellEscaped(EncodeUriComponent(s))
  {
    if s != [] {
      var c := s[0];
      if !IsUriUnreserved(c) {
        EscapesWellEscaped(Utf8(c));
      }
      EncodeUriWellEscaped(s[1..]);
      WellEscapedAppend(EncodeUriChar(c), EncodeUriComponent(s[1..]));
    }
  }

  /** Decoding the escapes of `encodeURIComponent(s)` gives back exactly the
      UTF-8 bytes of `s`: the encoding loses nothing. */
  lemma {:induction false} UriRoundTrip(s: string)
    ensures PercentDecode(EncodeUriComponent(s)) == Utf8Text(s)
  {
    if s != [] {
      var c, t := s[0], EncodeUriComponent(s[1..]);
      if IsUriUnreserved(c) {
        assert ([c] + t)[1..] == t;
      } else {
        EscapesDecode(Utf8(c), t);
      }
      UriRoundTrip(s[1..]);
    }
  }

  // ---------------------------------------------------------------------
  // application/x-www-form-urlencoded (URLSearchParams)

  /** The bytes the form-urlencoded percent-encode set leaves as they are. */
  predicate IsFormSafe(c: char)
  {
    'A' <= c <= 'Z' || 'a' <= c <= 'z' || '0' <= c <= '9' ||
    c == '*' || c == '-' || c == '.' || c == '_'
  }

  function FormEncodeChar(c: char): string
  {
    if c == ' ' then "+" else if IsFormSafe(c) then [c] else Escapes(Utf8(c))
  }

  /** One name or value encoded for a query string. Its result holds no `&`
      and no `=`, so the pairs of a query string stay apart. */
  function FormEncode(s: string): (r: string)
    ensures forall c :: c in r ==> IsFormSafe(c) || c == '+' || c == '%' || IsHexDigit(c)
    ensures '&' !in r && '=' !in r
  {
    if s == [] then "" else FormEncodeChar(s[0]) + FormEncode(s[1..])
  }

  /** Reverses form encoding: `+` is a space, `%XX` the byte XX. */
  function FormDecode(t: string): seq<int>
  {
    if t == [] then []
    else if t[0] == '%' && |t| >= 3 then [HexValue(t[1]) * 16 + HexValue(t[2])] + FormDecode(t[3..])
    else if t[0] == '+' then [0x20] + FormDecode(t[1..])
    else [t[0] as int] + FormDecode(t[1..])
  }

  lemma FormDecodeEscape(b: int, rest: string)
    requires 0 <= b < 256
    ensures FormDecode(Escape(b) + rest) == [b] + FormDecode(rest)
  {
    var e := Escape(b) + rest;
    assert e[0] == '%' && |e| >= 3 && e[3..] == rest;
    HexRoundTrip(b);
  }

  lemma {:induction false} FormEscapesDecode(bytes: seq<int>, t: string)
    requires AreBytes(bytes)
    ensures FormDecode(Escapes(bytes) + t) == bytes + FormDecode(t)
    decreases |bytes|
  {
    if bytes == [] {
      assert Escapes(bytes) + t == t;
    } else {
      var b, rest := bytes[0], Escapes(bytes[1..]) + t;
      calc {
        FormDecode(Escapes(bytes) + t);
        { assert Escapes(bytes) + t == Escape(b) + rest; }
        FormDecode(Escape(b) + rest);
        { FormDecodeEscape(b, rest); }
        [b] + FormDecode(rest);
        { FormEscapesDecode(bytes[1..], t); }
        [b] + (bytes[1..] + FormDecode(t));
        { assert bytes == [b] + bytes[1..]; }
        bytes + FormDecode(t);
      }
    }
  }

  /** Every `%` in an encoded name or value starts a complete `%XX` escape. */
  lemma {:induction false} FormEncodeWellEscaped(s: string)
    ensures WellEscaped(FormEncode(s))
  {
    if s != [] {
      var c := s[0];
      if c != ' ' && !IsFormSafe(c) {
        EscapesWellEscaped(Utf8(c));
      }
      FormEncodeWellEscaped(s[1..]);
      WellEscapedAppend(FormEncodeChar(c), FormEncode(s[1..]));
    }
  }

  /** Decoding a form-encoded name or value gives back its UTF-8 bytes. */
  lemma {:induction false} FormRoundTrip(s: string)
    ensures FormDecode(FormEncode(s)) == Utf8Text(s)
  {
    if s != [] {
      var c, t := s[0], FormEncode(s[1..]);
      if c == ' ' {
        assert ("+" + t)[1..] == t;
      } else if IsFormSafe(c) {
        assert ([c] + t)[1..] == t;
      } else {
        FormEscapesDecode(Utf8(c), t);
      }
      FormRoundTrip(s[1..]);
    }
  }

  /** `name=value`, both form-encoded. */
  function EncodePair(pair: (string, string)): string
  {
    FormEncode(pair.0) + "=" + FormEncode(pair.1)
  }

  /** The application/x-www-form-urlencoded serializer: each pair as
      `name=value`, in order, with `&` written before every pair but the
      first. */
  function FormSerialize(pairs: seq<(string, string)>): (r: string)
    ensures r == "" <==> pairs == []
  {
    if pairs == [] then ""
    else
      var output := FormSerialize(pairs[..|pairs| - 1]);
      output + (if output == "" then "" else "&") + EncodePair(pairs[|pairs| - 1])
  }

  /** Each pair encoded as `name=value`, in order. */
  function EncodedPairs(pairs: seq<(string, string)>): (r: seq<string>)
    ensures |r| == |pairs|
    ensures forall i :: 0 <= i < |pairs| ==> r[i] == EncodePair(pairs[i])
  {
    if pairs == [] then [] else EncodedPairs(pairs[..|pairs| - 1]) + [EncodePair(pairs[|pairs| - 1])]
  }

  /** The serialized text is every pair's `name=value`, in order, joined
      with `&`: no pair is dropped, merged or reordered. */
  lemma {:induction false} SerializeIsJoin(pairs: seq<(string, string)>)
    ensures FormSerialize(pairs) == Join(EncodedPairs(pairs), "&")
  {
    if |pairs| >= 2 {
      var init := pairs[..|pairs| - 1];
      SerializeIsJoin(init);
      assert EncodedPairs(pairs)[..|pairs| - 1] == EncodedPairs(init);
    }
  }

  /** An encoded pair holds exactly one `=` and no `&`. */
  lemma PairSeparators(pair: (string, string))
    ensures multiset(EncodePair(pair))['='] == 1 && multiset(EncodePair(pair))['&'] == 0
  {
    var name, value := FormEncode(pair.0), FormEncode(pair.1);
    assert multiset(name)['='] == 0 && multiset(value)['='] == 0;
    assert multiset(name)['&'] == 0 && multiset(value)['&'] == 0;
  }

  /** No pair is dropped or merged, duplicate names included: the serialized
      text holds one `=` per pair and one `&` between each two neighbours. */
  lemma {:induction false} SerializeKeepsEveryPair(pairs: seq<(string, string)>)
    ensures multiset(FormSerialize(pairs))['='] == |pairs|
    ensures multiset(FormSerialize(pairs))['&'] == if pairs == [] then 0 else |pairs| - 1
  {
    if pairs != [] {
      SerializeKeepsEveryPair(pairs[..|pairs| - 1]);
      PairSeparators(pairs[|pairs| - 1]);
    }
  }

  /** Text made only of characters the form encoding keeps is left as it is. */
  lemma {:induction false} FormEncodeSafeText(s: string)
    requires forall i :: 0 <= i < |s| ==> IsFormSafe(s[i])
    ensures FormEncode(s) == s
  {
    if s != [] {
      FormEncodeSafeText(s[1..]);
      assert s == [s[0]] + s[1..];
    }
  }

  /** Two pairs: the first, `&`, the second. */
  lemma SerializeTwo(p: (string, string), q: (string, string))
    ensures FormSerialize([p, q]) == EncodePair(p) + "&" + EncodePair(q)
  {
    assert [p, q][..1] == [p];
    assert FormSerialize([p]) == EncodePair(p);
  }
}
