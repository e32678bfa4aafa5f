/** Shared vocabulary of the model: optional values, bytes, the ASCII encoder
    the request line is written with, decimal text as `int.ToString()` renders
    it, and the .NET `int.Parse` rules the status code is read with. */
module Basics {

  datatype Option<+T> = None | Some(value: T)

  datatype Result<+T, +E> = Success(value: T) | Failure(error: E)

  newtype byte = x: int | 0 <= x < 256

  /** The range of a .NET `int`. */
  const MinInt32: int := -0x8000_0000
  const MaxInt32: int := 0x7FFF_FFFF

  // ---------------------------------------------------------------------------
  // Encoding.ASCII

  predicate IsAscii(s: string) {
    forall i :: 0 <= i < |s| ==> s[i] as int < 128
  }

  /** One char as `Encoding.ASCII` writes it: its code when it is below 128,
      otherwise the replacement byte '?'. */
  function AsciiByte(c: char): byte {
    if c as int < 128 then c as int as byte else '?' as int as byte
  }

  /** `Encoding.ASCII.GetBytes(s)`: one byte per char. */
  function Ascii(s: string): (bs: seq<byte>)
    ensures |bs| == |s|
    // an ASCII char keeps its code; any other becomes '?'
    ensures forall i :: 0 <= i < |s| ==>
              if s[i] as int < 128 then bs[i] as int == s[i] as int else bs[i] == '?' as int as byte
  {
    seq(|s|, i requires 0 <= i < |s| => AsciiByte(s[i]))
  }

  /** Bytes read back as chars, one char per byte. */
  function Chars(bs: seq<byte>): (s: string)
    ensures |s| == |bs|
  {
    seq(|bs|, i requires 0 <= i < |bs| => bs[i] as int as char)
  }

  /** ASCII text survives the ASCII encoder and reading the bytes back. */
  lemma AsciiRoundTrip(s: string)
    requires IsAscii(s)
    ensures Chars(Ascii(s)) == s
  {
  }

  // ---------------------------------------------------------------------------
  // Decimal text: int.ToString() of a non-negative value, and String.PadRight

  predicate IsDigit(c: char) {
    '0' <= c <= '9'
  }

  predicate AllDigits(s: string) {
    forall i :: 0 <= i < |s| ==> IsDigit(s[i])
  }

  function Digit(d: nat): (c: char)
    requires d < 10
    ensures IsDigit(c) && c as int - '0' as int == d
  {
    ('0' as int + d) as char
  }

  /** The value of a string of decimal digits, most significant first. */
  function DigitsValue(s: string): nat
    requires AllDigits(s)
  {
    if s == [] then 0
    else DigitsValue(s[..|s| - 1]) * 10 + (s[|s| - 1] as int - '0' as int)
  }

  function Pow10(k: nat): nat {
    if k == 0 then 1 else 10 * Pow10(k - 1)
  }

  /** `n.ToString()` for n >= 0: the digit string, without leading zeros,
      whose value is n. */
  function DecimalText(n: nat): (s: string)
    ensures 1 <= |s| && AllDigits(s) && DigitsValue(s) == n
    ensures s[0] != '0' || n == 0
  {
    if n < 10 then
      [Digit(n)]
    else
      var prefix := DecimalText(n / 10);
      var s := prefix + [Digit(n % 10)];
      assert s[..|s| - 1] == prefix;
      s
  }

  /** A count below 10^w is written with at most w digits. */
  lemma {:induction false} DecimalWidth(n: nat, w: nat)
    requires 1 <= w && n < Pow10(w)
    ensures |DecimalText(n)| <= w
  {
    if n >= 10 {
      assert 2 <= w;
      assert n / 10 < Pow10(w - 1);
      DecimalWidth(n / 10, w - 1);
    }
  }

  function Spaces(k: nat): (s: string)
    ensures |s| == k && forall i :: 0 <= i < k ==> s[i] == ' '
  {
    seq(k, _ => ' ')
  }

  /** `String.PadRight(width)`: spaces added on the right up to `width`;
      a longer string is left as it is. */
  function PadRight(s: string, width: nat): (p: string)
    ensures |p| == if |s| < width then width else |s|
    ensures p[..|s|] == s
    ensures forall i :: |s| <= i < |p| ==> p[i] == ' '
  {
    if |s| < width then s + Spaces(width - |s|) else s
  }

  // ---------------------------------------------------------------------------
  // int.Parse(string) with the default NumberStyles.Integer: leading and
  // trailing white space, an optional sign, one or more digits, Int32 range.

  predicate IsWhite(c: char) {
    c == ' ' || '\t' <= c <= '\r'
  }

  function TrimStart(s: string): (t: string)
    ensures |t| <= |s|
    ensures t == s[|s| - |t|..]
  {
    if s != [] && IsWhite(s[0]) then TrimStart(s[1..]) else s
  }

  function TrimEnd(s: string): (t: string)
    ensures |t| <= |s|
    ensures t == s[..|t|]
  {
    if s != [] && IsWhite(s[|s| - 1]) then TrimEnd(s[..|s| - 1]) else s
  }

  /** The value `int.Parse` returns for `s`, or None where it throws: a null
      string, no digits, a stray character, or a value outside Int32. */
  function ParseInt(s: Option<string>): (r: Option<int>)
    ensures r.Some? ==> MinInt32 <= r.value <= MaxInt32
  {
    if s.None? then None
    else
      var t := TrimEnd(TrimStart(s.value));
      if t == [] then None
      else
        var digits := if t[0] == '-' || t[0] == '+' then t[1..] else t;
        if digits == [] then None
        else
          match DigitsOf(digits)
          case None => None
          case Some(n) =>
            var v: int := if t[0] == '-' then -(n as int) else n;
            if MinInt32 <= v <= MaxInt32 then Some(v) else None
  }

  /** The digits read left to right, each one multiplying what was read
      before by ten; None at the first char that is not a digit. */
  function DigitsOf(s: string): Option<nat> {
    if s == [] then Some(0)
    else
      var c := s[|s| - 1];
      match DigitsOf(s[..|s| - 1])
      case None => None
      case Some(n) => if IsDigit(c) then Some(n * 10 + (c as int - '0' as int)) else None
  }

  /** Reading digits one by one succeeds exactly on a run of digits, with
      the value of that run. */
  lemma {:induction false} DigitsOfValue(s: string)
    ensures DigitsOf(s).Some? <==> AllDigits(s)
    ensures AllDigits(s) ==> DigitsOf(s) == Some(DigitsValue(s))
  {
    if s != [] {
      var p := s[..|s| - 1];
      DigitsOfValue(p);
      assert AllDigits(s) <==> AllDigits(p) && IsDigit(s[|s| - 1]) by {
        if AllDigits(p) && IsDigit(s[|s| - 1]) {
          forall i | 0 <= i < |s| ensures IsDigit(s[i]) {
            if i < |p| { assert s[i] == p[i]; }
          }
        }
      }
    }
  }

  lemma {:induction false} TrimEndSpaces(d: string, k: nat)
    requires d != [] && !IsWhite(d[|d| - 1])
    ensures TrimEnd(d + Spaces(k)) == d
  {
    if k > 0 {
      var s := d + Spaces(k);
      assert s[|s| - 1] == ' ';
      assert s[..|s| - 1] == d + Spaces(k - 1);
      TrimEndSpaces(d, k - 1);
    } else {
      assert d + Spaces(0) == d;
    }
  }

  /** A string whose trimmed form is a run of digits parses to their value
      when it is in range. */
  lemma ParseDigits(t: string, d: string)
    requires TrimEnd(TrimStart(t)) == d && d != [] && AllDigits(d) && DigitsValue(d) <= MaxInt32
    ensures ParseInt(Some(t)) == Some(DigitsValue(d))
  {
    assert d[0] != '-' && d[0] != '+';
    DigitsOfValue(d);
  }

  /** Trimming leaves text that starts and ends with a digit as it is. */
  lemma TrimDigits(d: string)
    requires d != [] && IsDigit(d[0]) && IsDigit(d[|d| - 1])
    ensures TrimEnd(TrimStart(d)) == d
  {
    assert TrimStart(d) == d;
  }

  /** What the receiver of a Content-Length field does with it: the decimal
      text of a count, padded on the right with spaces, parses back to the
      count. */
  lemma ParsePaddedDecimal(n: nat, width: nat)
    requires n <= MaxInt32
    ensures ParseInt(Some(PadRight(DecimalText(n), width))) == Some(n)
  {
    var d := DecimalText(n);
    var k := if |d| < width then width - |d| else 0;
    var t := d + Spaces(k);
    assert PadRight(d, width) == t;
    assert t[0] == d[0] && IsDigit(d[0]);
    assert TrimStart(t) == t;
    TrimEndSpaces(d, k);
    ParseDigits(t, d);
  }

  // ---------------------------------------------------------------------------
  // Joining pieces with a separator

  /** The pieces one after the other with `sep` between neighbours. */
  function Join<T>(sep: seq<T>, pieces: seq<seq<T>>): seq<T> {
    if |pieces| == 0 then []
    else if |pieces| == 1 then pieces[0]
    else Join(sep, pieces[..|pieces| - 1]) + sep + pieces[|pieces| - 1]
  }

  /** Joining one more piece appends the separator and the piece, except
      after no pieces at all. */
  lemma JoinSnoc<T>(sep: seq<T>, pieces: seq<seq<T>>, last: seq<T>)
    ensures Join(sep, pieces + [last]) == if |pieces| == 0 then last else Join(sep, pieces) + sep + last
  {
    var ps := pieces + [last];
    assert ps[..|ps| - 1] == pieces;
    if |pieces| == 0 {
      assert ps == [last];
    }
  }

  lemma AppendAssoc<T>(a: seq<T>, b: seq<T>, c: seq<T>)
    ensures a + b + c == a + (b + c)
  {
  }

  lemma Nest<T>(a: seq<T>, b: seq<T>, c: seq<T>, d: seq<T>, e: seq<T>)
    ensures a + b + c + d + e == a + (b + (c + d + e))
  {
  }

  lemma Regroup<T>(a: seq<T>, b: seq<T>, c: seq<T>, d: seq<T>, e: seq<T>)
    ensures a + b + c + (d + e) == a + (b + c + d + e)
  {
  }
}
