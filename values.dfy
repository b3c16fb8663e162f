/** JavaScript values as the generated client hands them to the request layer,
    and the two pieces of JavaScript string handling the layer relies on:
    `String(v)` conversion and `Array.prototype.join`. */
module Values {

  datatype Option<T> = None | Some(value: T)

  /** A JSON-like JavaScript value (the `value: any` of an API method argument).
      Numbers are integers here; see the README for what that leaves out. */
  datatype Value =
    | Null
    | Bool(b: bool)
    | Num(n: int)
    | Str(s: string)
    | Arr(elems: seq<Value>)
    | Obj(fields: map<string, Value>)

  /** The total length of the parts. */
  function TextLength(parts: seq<string>): nat
  {
    if parts == [] then 0 else TextLength(parts[..|parts| - 1]) + |parts[|parts| - 1]|
  }

  /** `parts.join(sep)`: the parts with `sep` between neighbours. Written as a
      left fold so that appending one more part appends `sep` and that part. */
  function Join(parts: seq<string>, sep: string): (r: string)
    // every part is there, with one separator between each two neighbours
    ensures |parts| > 0 ==> |r| == TextLength(parts) + (|parts| - 1) * |sep|
  {
    if |parts| == 0 then ""
    else if |parts| == 1 then parts[0]
    else
      Join(parts[..|parts| - 1], sep) + sep + parts[|parts| - 1]
  }

  lemma JoinSnoc(parts: seq<string>, last: string, sep: string)
    requires parts != []
    ensures Join(parts + [last], sep) == Join(parts, sep) + sep + last
  {
    assert (parts + [last])[..|parts|] == parts;
  }

  /** Read from the front: the first part, the separator, then the join of
      the rest. The join is the same whichever end it is built from. */
  lemma {:induction false} JoinCons(parts: seq<string>, sep: string)
    requires |parts| >= 2
    ensures Join(parts, sep) == parts[0] + sep + Join(parts[1..], sep)
    decreases |parts|
  {
    var init, last := parts[..|parts| - 1], parts[|parts| - 1];
    if |parts| == 2 {
      assert init == [parts[0]] && parts[1..] == [last];
    } else {
      JoinCons(init, sep);
      assert init[0] == parts[0] && init[1..] == parts[1..][..|parts| - 2];
      JoinSnoc(init[1..], last, sep);
      assert init[1..] + [last] == parts[1..];
    }
  }

  function DigitChar(d: nat): (c: char)
    requires d < 10
    ensures '0' <= c <= '9' && c as int - '0' as int == d
  {
    ('0' as int + d) as char
  }

  /** Decimal notation: digits only, and no leading zero unless the text is
      exactly `0`. */
  predicate IsDecimalNotation(s: string)
  {
    |s| >= 1 && (forall i :: 0 <= i < |s| ==> '0' <= s[i] <= '9') && (s[0] == '0' ==> |s| == 1)
  }

  /** Decimal notation of a natural number, most significant digit first. */
  function DecimalText(n: nat): (r: string)
    ensures IsDecimalNotation(r)
    ensures n > 0 ==> r[0] != '0'
    decreases n
  {
    if n < 10 then [DigitChar(n)] else DecimalText(n / 10) + [DigitChar(n % 10)]
  }

  /** The number a string of decimal digits denotes. */
  function DecimalValue(s: string): nat
  {
    if s == [] then 0
    else
      var d := s[|s| - 1] as int - '0' as int;
      DecimalValue(s[..|s| - 1]) * 10 + (if 0 <= d < 10 then d else 0)
  }

  /** Reading the decimal text back gives the number: the notation loses nothing. */
  lemma {:induction false} DecimalRoundTrip(n: nat)
    ensures DecimalValue(DecimalText(n)) == n
    decreases n
  {
    if n >= 10 {
      var t := DecimalText(n / 10);
      DecimalRoundTrip(n / 10);
      assert (t + [DigitChar(n % 10)])[..|t|] == t;
    }
  }

  /** `String(v)`: how JavaScript turns a value into text, as
      `URLSearchParams` does with each query value. */
  function ToText(v: Value): (r: string)
    ensures v.Str? ==> r == v.s
    // a number is written in decimal notation, with `-` in front when negative
    ensures v.Num? && v.n >= 0 ==> IsDecimalNotation(r) && DecimalValue(r) == v.n
    ensures v.Num? && v.n < 0 ==> |r| >= 2 && r[0] == '-' && IsDecimalNotation(r[1..]) && DecimalValue(r[1..]) == -v.n
  {
    match v
    case Null => "null"
    case Bool(b) => if b then "true" else "false"
    case Num(n) =>
      DecimalRoundTrip(if n < 0 then -n else n);
      if n < 0 then
        var t := DecimalText(-n);
        assert ("-" + t)[1..] == t;
        "-" + t
      else DecimalText(n)
    case Str(s) => s
    case Arr(elems) =>
      // Array.prototype.toString joins its elements, null ones as empty text
      Join(seq(|elems|, i requires 0 <= i < |elems| =>
                 if elems[i].Null? then "" else ToText(elems[i])), ",")
    case Obj(_) => "[object Object]"
  }
}
