/**
 * Coordinates and the string keys the grid stores them under.
 *
 * The source keys its maps by the template string `${x},${y}` and decodes a key
 * by splitting it on "," and applying parseInt to each part. This module
 * models that encoding for integer coordinates and proves that decoding
 * recovers the pair, so the rest of the model may key its maps by the pair
 * itself.
 */
module GridKeys {

  /** A cell of the infinite plane. */
  type Coord = (int, int)

  /** A lookup result; `None` stands for JavaScript's `undefined`. */
  datatype Option<T> = None | Some(value: T)

  predicate IsDigit(ch: char) {
    '0' <= ch <= '9'
  }

  predicate AllDigits(s: string) {
    forall i :: 0 <= i < |s| ==> IsDigit(s[i])
  }

  function DigitChar(d: nat): (ch: char)
    requires d < 10
    ensures IsDigit(ch) && DigitValue(ch) == d
  {
    (48 + d) as char
  }

  function DigitValue(ch: char): nat
    requires IsDigit(ch)
  {
    ch as int - '0' as int
  }

  /** Decimal digits of a natural number, most significant first, no leading zeros. */
  function NatToString(n: nat): (s: string)
    ensures |s| > 0 && AllDigits(s)
    decreases n
  {
    if n < 10 then [DigitChar(n)] else NatToString(n / 10) + [DigitChar(n % 10)]
  }

  /** How JavaScript prints an integer-valued number in a template string. */
  function IntToString(n: int): (s: string)
    ensures |s| > 0
    ensures s[0] == '-' <==> n < 0
    ensures ',' !in s
  {
    var digits := NatToString(if n < 0 then -n else n);
    assert forall i :: 0 <= i < |digits| ==> digits[i] != ',' && digits[i] != '-';
    if n < 0 then "-" + digits else digits
  }

  /** The key `${x},${y}` (src/Grid.js:7). */
  function EncodeKey(c: Coord): string {
    IntToString(c.0) + "," + IntToString(c.1)
  }

  /** Value of a non-empty digit string. */
  function ParseDigits(s: string): nat
    requires |s| > 0 && AllDigits(s)
    decreases |s|
  {
    if |s| == 1 then DigitValue(s[0])
    else 10 * ParseDigits(s[..|s| - 1]) + DigitValue(s[|s| - 1])
  }

  /**
   * parseInt restricted to the strings the grid itself produces: an optional
   * minus sign followed by decimal digits. Anything else is refused.
   */
  function ParseInt(s: string): Option<int> {
    if |s| > 1 && s[0] == '-' && AllDigits(s[1..]) then Some(0 - ParseDigits(s[1..]))
    else if |s| > 0 && AllDigits(s) then Some(ParseDigits(s))
    else None
  }

  /** String.prototype.split(",") : the parts between commas, always at least one. */
  function Split(s: string): (parts: seq<string>)
    ensures |parts| > 0
  {
    if s == [] then [""]
    else if s[0] == ',' then [""] + Split(s[1..])
    else
      var rest := Split(s[1..]);
      [[s[0]] + rest[0]] + rest[1..]
  }

  /** The decoding step of the grid's iterator (src/Grid.js:38). */
  function DecodeKey(key: string): Option<Coord> {
    var parts := Split(key);
    if |parts| != 2 then None
    else match (ParseInt(parts[0]), ParseInt(parts[1]))
      case (Some(x), Some(y)) => Some((x, y))
      case _ => None
  }

  /** `key.split(",").map(parseInt)` on a key the grid wrote gives back the coordinate it was written from. */
  method ParseKey(key: string, ghost c: Coord) returns (x: int, y: int)
    requires key == EncodeKey(c)
    ensures (x, y) == c
  {
    KeyRoundTrip(c);
    var d := DecodeKey(key);
    x, y := d.value.0, d.value.1;
  }

  lemma {:induction false} ParseDigitsOfNat(n: nat)
    ensures ParseDigits(NatToString(n)) == n
    decreases n
  {
    if n >= 10 {
      var s := NatToString(n);
      ParseDigitsOfNat(n / 10);
      assert s[..|s| - 1] == NatToString(n / 10);
    }
  }

  /** parseInt undoes the printing of any integer, negative ones included. */
  lemma ParseIntRoundTrip(n: int)
    ensures ParseInt(IntToString(n)) == Some(n)
  {
    var digits := NatToString(if n < 0 then -n else n);
    ParseDigitsOfNat(if n < 0 then -n else n);
    if n < 0 {
      assert IntToString(n)[1..] == digits;
    } else {
      assert IntToString(n)[0] != '-';
      assert IntToString(n) == digits;
    }
  }

  /** Splitting a comma-free prefix off a string. */
  lemma {:induction false} SplitAtFirstComma(a: string, b: string)
    requires ',' !in a
    ensures Split(a + "," + b) == [a] + Split(b)
    decreases |a|
  {
    if a == [] {
      assert a + "," + b == [','] + b;
    } else {
      var s := a + "," + b;
      assert s[0] == a[0] && s[1..] == a[1..] + "," + b;
      SplitAtFirstComma(a[1..], b);
      assert [a[0]] + a[1..] == a;
    }
  }

  lemma {:induction false} SplitWithoutComma(s: string)
    requires ',' !in s
    ensures Split(s) == [s]
    decreases |s|
  {
    if s != [] {
      SplitWithoutComma(s[1..]);
      assert s[0] != ',';
      assert [s[0]] + s[1..] == s;
    }
  }

  /** The key of a coordinate decodes back to that coordinate (src/Grid.js:7,38). */
  lemma KeyRoundTrip(c: Coord)
    ensures DecodeKey(EncodeKey(c)) == Some(c)
  {
    var a, b := IntToString(c.0), IntToString(c.1);
    SplitAtFirstComma(a, b);
    SplitWithoutComma(b);
    ParseIntRoundTrip(c.0);
    ParseIntRoundTrip(c.1);
  }

  /** Distinct coordinates get distinct keys, so a map keyed by the strings is a map keyed by the pairs. */
  lemma EncodeKeyInjective(c: Coord, d: Coord)
    requires EncodeKey(c) == EncodeKey(d)
    ensures c == d
  {
    KeyRoundTrip(c);
    KeyRoundTrip(d);
  }
}
