/** Database values (`rusqlite::types::Value`) and their rendering as text
    (`format_value` in src/visit.rs), each rendering paired with a parser that
    recovers the value from it. */
module Values {
  import opened Wrappers
  import opened Strings

  type Byte = b: int | 0 <= b < 256

  /** Rust's `i64`. */
  type I64 = i: int | -0x8000_0000_0000_0000 <= i < 0x8000_0000_0000_0000

  /** An IEEE-754 binary64 number, kept as its bit pattern: its rendering is
      supplied from outside the model. */
  datatype Float = Float(bits: bv64)

  datatype Value =
    | Null
    | Integer(i: I64)
    | Real(f: Float)
    | Text(t: string)
    | Blob(bytes: seq<Byte>)

  // ----- decimal rendering of integers -----

  predicate IsDigit(c: char) {
    '0' <= c <= '9'
  }

  function DigitChar(d: nat): char
    requires d < 10
  {
    "0123456789"[d]
  }

  /** Decimal digits of `n`, most significant first, without leading zeros. */
  function Digits(n: nat): (s: string)
    ensures |s| > 0
    ensures forall i :: 0 <= i < |s| ==> IsDigit(s[i])
    ensures |s| > 1 ==> s[0] != '0'
  {
    if n < 10 then [DigitChar(n)] else Digits(n / 10) + [DigitChar(n % 10)]
  }

  /** The number a string of decimal digits denotes. */
  function DigitsValue(s: string): nat
    requires forall i :: 0 <= i < |s| ==> IsDigit(s[i])
  {
    if |s| == 0 then 0
    else
      assert IsDigit(s[|s| - 1]);
      10 * DigitsValue(s[..|s| - 1]) + (s[|s| - 1] as int - '0' as int)
  }

  lemma {:induction false} DigitsValueOfDigits(n: nat)
    ensures DigitsValue(Digits(n)) == n
  {
    var s := Digits(n);
    if n >= 10 {
      assert s[..|s| - 1] == Digits(n / 10);
      DigitsValueOfDigits(n / 10);
    }
  }

  /** A run of decimal digits as Rust writes one: non-empty, and without a
      leading zero unless it is the single digit `0`. */
  predicate CanonicalDigits(t: string) {
    && |t| > 0
    && (forall i :: 0 <= i < |t| ==> IsDigit(t[i]))
    && (|t| > 1 ==> t[0] != '0')
  }

  /** Digits that do not start with `0` denote a positive number. */
  lemma {:induction false} LeadingDigitPositive(t: string)
    requires |t| > 0 && (forall i :: 0 <= i < |t| ==> IsDigit(t[i])) && t[0] != '0'
    ensures DigitsValue(t) > 0
    decreases |t|
  {
    if |t| > 1 {
      var p := t[..|t| - 1];
      assert p[0] == t[0];
      LeadingDigitPositive(p);
    }
  }

  /** A digit character is the character written for its own value. */
  lemma DigitCharOfDigit(c: char)
    requires IsDigit(c)
    ensures DigitChar(c as int - '0' as int) == c
  {
  }

  /** Canonical digits are exactly the digits written for the number they
      denote. */
  lemma {:induction false} DigitsOfDigitsValue(t: string)
    requires CanonicalDigits(t)
    ensures Digits(DigitsValue(t)) == t
    decreases |t|
  {
    var last := t[|t| - 1];
    assert IsDigit(last);
    var d := last as int - '0' as int;
    DigitCharOfDigit(last);
    if |t| > 1 {
      var p := t[..|t| - 1];
      assert p[0] == t[0];
      LeadingDigitPositive(p);
      DigitsOfDigitsValue(p);
      var n := DigitsValue(t);
      assert n == 10 * DigitsValue(p) + d;
      assert n / 10 == DigitsValue(p) && n % 10 == d;
      assert Digits(n) == Digits(DigitsValue(p)) + [DigitChar(d)];
      assert t == p + [last];
    } else {
      assert DigitsValue(t) == d;
      assert t == [last];
    }
  }

  /** `format!("{}", i)` for an `i64`: a minus sign exactly for negatives,
      then the decimal digits of the magnitude. */
  function FormatInteger(i: int): (s: string)
    ensures ParseInteger(s) == Some(i)
    ensures (|s| > 0 && s[0] == '-') <==> i < 0
  {
    DigitsValueOfDigits(if i < 0 then -i else i);
    if i < 0 then
      assert Digits(-i) != "0";
      "-" + Digits(-i)
    else Digits(i)
  }

  /** Reads back the text `format!("{}", _)` writes for an integer: canonical
      digits, optionally negated, with no `-0`. */
  function ParseInteger(s: string): Option<int> {
    if |s| > 0 && s[0] == '-' then
      var t := s[1..];
      if CanonicalDigits(t) && t != "0" then Some(0 - DigitsValue(t) as int) else None
    else if CanonicalDigits(s) then Some(DigitsValue(s))
    else None
  }

  /** Only the rendering of an integer parses to it: together with
      `FormatInteger`'s round trip this fixes the rendering character by
      character. */
  lemma IntegerTextIsCanonical(s: string, i: int)
    requires ParseInteger(s) == Some(i)
    ensures s == FormatInteger(i)
  {
    if |s| > 0 && s[0] == '-' {
      var t := s[1..];
      assert CanonicalDigits(t) && t != "0" && i == 0 - DigitsValue(t);
      NonZeroDigits(t);
      NegativeRendering(DigitsValue(t));
      assert s == "-" + t;
    } else {
      assert CanonicalDigits(s) && i == DigitsValue(s);
      DigitsOfDigitsValue(s);
      NonNegativeRendering(DigitsValue(s));
    }
  }

  /** A negative integer is written as `-` and the digits of its magnitude. */
  lemma NegativeRendering(m: nat)
    requires m > 0
    ensures FormatInteger(0 - m) == "-" + Digits(m)
  {
    var i := 0 - m;
    assert i < 0 && -i == m;
  }

  /** Canonical digits other than `0` denote a positive number and are its
      rendering. */
  lemma NonZeroDigits(t: string)
    requires CanonicalDigits(t) && t != "0"
    ensures DigitsValue(t) > 0 && Digits(DigitsValue(t)) == t
  {
    assert t[0] != '0' by {
      if |t| == 1 {
        assert t == [t[0]];
      }
    }
    LeadingDigitPositive(t);
    DigitsOfDigitsValue(t);
  }

  /** A non-negative integer is written as the digits of its value. */
  lemma NonNegativeRendering(m: nat)
    ensures FormatInteger(m) == Digits(m)
  {
  }

  // ----- hexadecimal rendering of blobs -----

  function HexDigit(d: nat): char
    requires d < 16
  {
    "0123456789abcdef"[d]
  }

  function HexDigitValue(c: char): Option<nat> {
    if '0' <= c <= '9' then Some(c as int - '0' as int)
    else if 'a' <= c <= 'f' then Some(c as int - 'a' as int + 10)
    else None
  }

  lemma HexDigitRoundTrip(d: nat)
    requires d < 16
    ensures HexDigit(d) != ' '
    ensures HexDigitValue(HexDigit(d)) == Some(d)
  {
  }

  /** `format!("{:2x}", b)`: lower-case hexadecimal, right-aligned in two
      characters and padded with a space, not a zero. */
  function HexByte(b: Byte): (s: string)
    ensures |s| == 2
    ensures b < 16 <==> s[0] == ' '
    ensures ParseHexByte(s) == Some(b)
  {
    HexDigitRoundTrip(b as nat / 16);
    HexDigitRoundTrip(b as nat % 16);
    [if b < 16 then ' ' else HexDigit(b / 16), HexDigit(b % 16)]
  }

  /** Reads back two characters written by `HexByte`. */
  function ParseHexByte(s: string): Option<Byte> {
    if |s| != 2 then None
    else
      var hi := if s[0] == ' ' then Some(0) else HexDigitValue(s[0]);
      var lo := HexDigitValue(s[1]);
      if hi.Some? && lo.Some? && (s[0] != ' ' ==> hi.value > 0) then Some(16 * hi.value + lo.value)
      else None
  }

  function HexBytes(bs: seq<Byte>): (r: seq<string>)
    ensures |r| == |bs|
    ensures forall i :: 0 <= i < |bs| ==> r[i] == HexByte(bs[i])
  {
    if |bs| == 0 then [] else [HexByte(bs[0])] + HexBytes(bs[1..])
  }

  /** The blob rendering: `[`, the bytes joined with `", "`, then `]`. */
  function FormatBlob(bs: seq<Byte>): (s: string)
    ensures ParseBlob(s) == Some(bs)
    ensures |s| == if |bs| == 0 then 2 else 4 * |bs|
  {
    BlobBodyRoundTrip(bs);
    BlobBodyLength(bs);
    "[" + JoinWith(HexBytes(bs), ", ") + "]"
  }

  /** Reads back the bytes of a blob rendering. */
  function ParseBlob(s: string): Option<seq<Byte>> {
    if |s| >= 2 && s[0] == '[' && s[|s| - 1] == ']' then ParseHexList(s[1..|s| - 1]) else None
  }

  /** Reads back `", "`-separated two-character hexadecimal bytes. */
  function ParseHexList(s: string): Option<seq<Byte>>
    decreases |s|
  {
    if |s| == 0 then Some([])
    else if |s| < 2 then None
    else
      match ParseHexByte(s[..2])
      case None => None
      case Some(b) =>
        if |s| == 2 then Some([b])
        else if |s| >= 4 && s[2..4] == ", " then
          match ParseHexList(s[4..])
          case None => None
          case Some(rest) => if |rest| > 0 then Some([b] + rest) else None
        else None
  }

  /** One step of `ParseHexList`: a byte, the separator, then a non-empty list. */
  lemma HexListCons(h: string, b: Byte, tail: string, rest: seq<Byte>)
    requires |h| == 2 && ParseHexByte(h) == Some(b)
    requires ParseHexList(tail) == Some(rest) && |rest| > 0
    ensures ParseHexList(h + ", " + tail) == Some([b] + rest)
  {
    var body := h + ", " + tail;
    assert body[..2] == h;
    assert body[2..4] == ", ";
    assert body[4..] == tail;
  }

  lemma {:induction false} BlobBodyLength(bs: seq<Byte>)
    ensures |JoinWith(HexBytes(bs), ", ")| == if |bs| == 0 then 0 else 4 * |bs| - 2
  {
    if |bs| >= 2 {
      assert HexBytes(bs)[1..] == HexBytes(bs[1..]);
      BlobBodyLength(bs[1..]);
    }
  }

  lemma BlobBodyRoundTrip(bs: seq<Byte>)
    ensures ParseHexList(JoinWith(HexBytes(bs), ", ")) == Some(bs)
  {
    JoinedHexList(HexBytes(bs), bs);
  }

  /** Any two-character byte renderings, joined with `", "`, read back as
      their bytes. */
  lemma {:induction false} JoinedHexList(parts: seq<string>, bs: seq<Byte>)
    requires |parts| == |bs|
    requires forall i :: 0 <= i < |parts| ==> |parts[i]| == 2 && ParseHexByte(parts[i]) == Some(bs[i])
    ensures ParseHexList(JoinWith(parts, ", ")) == Some(bs)
  {
    if |parts| == 1 {
      HexListSingle(parts[0], bs[0]);
      assert bs == [bs[0]];
    } else if |parts| >= 2 {
      var tail := JoinWith(parts[1..], ", ");
      JoinedHexList(parts[1..], bs[1..]);
      HexListCons(parts[0], bs[0], tail, bs[1..]);
      assert bs == [bs[0]] + bs[1..];
    }
  }

  /** `ParseHexList` on a single two-character byte. */
  lemma HexListSingle(h: string, b: Byte)
    requires |h| == 2 && ParseHexByte(h) == Some(b)
    ensures ParseHexList(h) == Some([b])
  {
    assert h[..2] == h;
  }

  /** A hexadecimal digit character is the rendering of the value it denotes. */
  lemma HexDigitOfValue(c: char)
    requires HexDigitValue(c).Some?
    ensures HexDigitValue(c).value < 16 && HexDigit(HexDigitValue(c).value) == c
  {
    if c == '0' {} else if c == '1' {} else if c == '2' {} else if c == '3' {}
    else if c == '4' {} else if c == '5' {} else if c == '6' {} else if c == '7' {}
    else if c == '8' {} else if c == '9' {} else if c == 'a' {} else if c == 'b' {}
    else if c == 'c' {} else if c == 'd' {} else if c == 'e' {} else {
      assert c == 'f';
    }
  }

  /** Only the `{:2x}` rendering of a byte reads back as that byte. */
  lemma HexByteCanonical(s: string, b: Byte)
    requires ParseHexByte(s) == Some(b)
    ensures s == HexByte(b)
  {
    var lo := HexDigitValue(s[1]).value;
    HexDigitOfValue(s[1]);
    if s[0] == ' ' {
      assert b == lo;
    } else {
      var hi := HexDigitValue(s[0]).value;
      HexDigitOfValue(s[0]);
      assert b == 16 * hi + lo;
      assert b / 16 == hi && b % 16 == lo;
    }
  }

  lemma {:induction false} HexListCanonical(s: string, bs: seq<Byte>)
    requires ParseHexList(s) == Some(bs)
    ensures s == JoinWith(HexBytes(bs), ", ")
    decreases |s|
  {
    if |s| == 2 {
      HexByteCanonical(s[..2], bs[0]);
      assert s == s[..2];
    } else if |s| > 2 {
      var b := ParseHexByte(s[..2]).value;
      var rest := ParseHexList(s[4..]).value;
      HexByteCanonical(s[..2], b);
      HexListCanonical(s[4..], rest);
      assert bs == [b] + rest;
      assert HexBytes(bs)[1..] == HexBytes(rest);
      assert s == s[..2] + s[2..4] + s[4..];
    }
  }

  /** Only the blob rendering of some bytes reads back as those bytes:
      together with `FormatBlob`'s round trip this fixes the rendering
      character by character. */
  lemma BlobTextIsCanonical(s: string, bs: seq<Byte>)
    requires ParseBlob(s) == Some(bs)
    ensures s == FormatBlob(bs)
  {
    var body := BlobBody(s, bs);
    HexListCanonical(body, bs);
  }

  /** What `ParseBlob` accepted: brackets around a list `ParseHexList` reads. */
  lemma BlobBody(s: string, bs: seq<Byte>) returns (body: string)
    requires ParseBlob(s) == Some(bs)
    ensures ParseHexList(body) == Some(bs)
    ensures s == "[" + body + "]"
  {
    body := s[1..|s| - 1];
    assert s == [s[0]] + body + [s[|s| - 1]];
  }

  // ----- format_value -----

  /** `format_value`: how a value is written into the output document.
      `showReal` is Rust's floating-point `Display`, which the model leaves
      abstract. */
  function FormatValue(showReal: Float -> string, v: Value): (s: string)
    ensures v.Null? ==> s == "null"
    ensures v.Integer? ==> ParseInteger(s) == Some(v.i as int) && ((|s| > 0 && s[0] == '-') <==> v.i < 0)
    ensures v.Real? ==> s == showReal(v.f)
    ensures v.Text? ==> s == v.t
    ensures v.Blob? ==> ParseBlob(s) == Some(v.bytes) && s[0] == '[' && s[|s| - 1] == ']'
  {
    match v
    case Null => "null"
    case Integer(i) => FormatInteger(i)
    case Real(f) => showReal(f)
    case Text(t) => t
    case Blob(b) => FormatBlob(b)
  }
}
