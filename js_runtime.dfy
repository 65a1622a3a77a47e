/**
 * The parts of the JavaScript runtime that the catalogue service's decisions
 * are made of: property values of parsed JSON, thrown errors, strict equality,
 * and the string built-ins `startsWith`, `includes`, `toLowerCase`, `split`,
 * `parseInt` and the conversion of an integral number to its decimal text.
 */
module JsRuntime {

  datatype Option<T> = None | Some(value: T)

  /** A thrown error, by its constructor; `detail` stands for its `message`. */
  datatype Failure =
    | SyntaxError(detail: string)
    | TypeError(detail: string)
    | ReplyError(detail: string)

  /** The outcome of an operation that may throw. */
  datatype Result<T> = Ok(value: T) | Err(error: Failure)

  /**
   * A property value: `undefined`, a string, an integral number, or anything
   * else (`null`, a boolean, a fractional number, an array, an object).
   */
  datatype Value = Undefined | Text(s: string) | Num(n: int) | Other

  /** A plain object, by its own enumerable properties. */
  type Object = map<string, Value>

  /** Property access `o[name]`: a property the object lacks reads as `undefined`. */
  function Get(o: Object, name: string): Value {
    if name in o then o[name] else Undefined
  }

  /** What `JSON.parse` produced for a request body. */
  datatype Json = JsonObject(fields: Object) | JsonNull | JsonOther

  /** `a === b` for two property values (`Other` values are never equal here). */
  predicate StrictEquals(a: Value, b: Value) {
    match (a, b)
    case (Undefined, Undefined) => true
    case (Text(x), Text(y)) => x == y
    case (Num(x), Num(y)) => x == y
    case _ => false
  }

  /** `a === n` where `n` is a number or NaN (`None`). */
  predicate EqualsNumber(a: Value, n: Option<int>) {
    a.Num? && n == Some(a.n)
  }

  // ---------------------------------------------------------------- strings

  predicate StartsWith(s: string, prefix: string) {
    |prefix| <= |s| && s[..|prefix|] == prefix
  }

  /** `s.includes(t)`. */
  predicate Includes(s: string, t: string) {
    exists i :: 0 <= i <= |s| - |t| && OccursAt(s, t, i)
  }

  /** `t` occurs in `s` starting at index `i`. */
  predicate OccursAt(s: string, t: string, i: int)
    requires 0 <= i <= |s| - |t|
  {
    s[i..i + |t|] == t
  }

  lemma IncludesEmpty(s: string)
    ensures Includes(s, "")
  {
    assert OccursAt(s, "", 0);
  }

  function LowerChar(c: char): char {
    if 'A' <= c <= 'Z' then (c as int + 32) as char else c
  }

  /** `toLowerCase`, restricted to ASCII letters. */
  function ToLowerAscii(s: string): string {
    seq(|s|, i requires 0 <= i < |s| => LowerChar(s[i]))
  }

  /** The first index of `c` in `s`. */
  function IndexOf(s: string, c: char): (i: nat)
    requires c in s
    ensures i < |s| && s[i] == c && c !in s[..i]
  {
    if s[0] == c then 0
    else
      var j := IndexOf(s[1..], c);
      assert s[..j + 1] == [s[0]] + s[1..][..j];
      j + 1
  }

  /** `s.split(sep)` for a one-character separator. */
  function Split(s: string, sep: char): (parts: seq<string>)
    ensures |parts| >= 1
    decreases |s|
  {
    if sep !in s then [s]
    else
      var i := IndexOf(s, sep);
      [s[..i]] + Split(s[i + 1..], sep)
  }

  /** `parts.join(sep)`: the inverse of `Split`. */
  function Join(parts: seq<string>, sep: char): string
    requires |parts| >= 1
  {
    if |parts| == 1 then parts[0] else parts[0] + [sep] + Join(parts[1..], sep)
  }

  /** Splitting loses nothing and leaves no separator inside a part. */
  lemma {:induction false} SplitJoin(s: string, sep: char)
    ensures Join(Split(s, sep), sep) == s
    ensures forall p :: p in Split(s, sep) ==> sep !in p
    decreases |s|
  {
    if sep in s {
      var i := IndexOf(s, sep);
      SplitJoin(s[i + 1..], sep);
      assert s == s[..i] + [sep] + s[i + 1..];
    }
  }

  /** The last element of `Split(s, sep)`. */
  function LastPart(s: string, sep: char): string {
    var parts := Split(s, sep);
    parts[|parts| - 1]
  }

  lemma LastPartStep(s: string, sep: char, i: nat)
    requires sep in s && i == IndexOf(s, sep)
    ensures LastPart(s, sep) == LastPart(s[i + 1..], sep)
  {
    var rest := Split(s[i + 1..], sep);
    var parts := Split(s, sep);
    assert parts == [s[..i]] + rest;
    assert |parts| == |rest| + 1;
    assert parts[|parts| - 1] == rest[|rest| - 1];
  }

  /** The last part of a split is the text after the last separator. */
  lemma {:induction false} SplitLast(s: string, sep: char)
    ensures sep !in LastPart(s, sep)
    ensures |LastPart(s, sep)| <= |s| && s[|s| - |LastPart(s, sep)|..] == LastPart(s, sep)
    ensures sep in s ==> s[|s| - |LastPart(s, sep)| - 1] == sep
    ensures sep !in s ==> LastPart(s, sep) == s
    decreases |s|
  {
    if sep in s {
      var i := IndexOf(s, sep);
      var tail := s[i + 1..];
      SplitLast(tail, sep);
      LastPartStep(s, sep, i);
      var r := LastPart(s, sep);
      assert r == LastPart(tail, sep);
      assert s[|s| - |r|..] == tail[|tail| - |r|..];
      if sep in tail {
        assert s[|s| - |r| - 1] == tail[|tail| - |r| - 1];
      } else {
        assert r == tail;
        assert s[|s| - |r| - 1] == s[i];
      }
    }
  }

  // ------------------------------------------------------- number <-> text

  /** `\s` as `parseInt` skips it: white space and line terminators. */
  predicate IsStrWhiteSpace(c: char) {
    || c == '\t' || c == '\n' || c == '\U{B}' || c == '\U{C}' || c == '\r' || c == ' '
    || c == '\U{A0}' || c == '\U{1680}' || ('\U{2000}' <= c <= '\U{200A}')
    || c == '\U{2028}' || c == '\U{2029}' || c == '\U{202F}' || c == '\U{205F}'
    || c == '\U{3000}' || c == '\U{FEFF}'
  }

  function TrimStart(s: string): string
    decreases |s|
  {
    if |s| > 0 && IsStrWhiteSpace(s[0]) then TrimStart(s[1..]) else s
  }

  /** The value of an alphanumeric digit, 36 for any other character. */
  function DigitValue(c: char): nat {
    if '0' <= c <= '9' then c as int - '0' as int
    else if 'a' <= c <= 'z' then c as int - 'a' as int + 10
    else if 'A' <= c <= 'Z' then c as int - 'A' as int + 10
    else 36
  }

  /** The length of the longest prefix of `s` made of digits of `radix`. */
  function DigitRun(s: string, radix: nat): (k: nat)
    ensures k <= |s|
  {
    if |s| > 0 && DigitValue(s[0]) < radix then 1 + DigitRun(s[1..], radix) else 0
  }

  function DigitsValue(digits: string, radix: nat): nat {
    if digits == [] then 0
    else DigitsValue(digits[..|digits| - 1], radix) * radix + DigitValue(digits[|digits| - 1])
  }

  predicate IsDecimalDigits(s: string) {
    forall i :: 0 <= i < |s| ==> '0' <= s[i] <= '9'
  }

  /**
   * `parseInt(s)` without a radix: skip leading white space, take an optional
   * sign, read hexadecimal after `0x`/`0X` and decimal otherwise, and stop at
   * the first character that is not a digit. NaN is `None`.
   */
  function ParseInt(s: string): Option<int> {
    var t := TrimStart(s);
    var negative := |t| > 0 && t[0] == '-';
    var unsigned := if |t| > 0 && (t[0] == '-' || t[0] == '+') then t[1..] else t;
    var hex := |unsigned| >= 2 && unsigned[0] == '0' && (unsigned[1] == 'x' || unsigned[1] == 'X');
    var radix := if hex then 16 else 10;
    var digits := if hex then unsigned[2..] else unsigned;
    var k := DigitRun(digits, radix);
    if k == 0 then None
    else
      var magnitude: int := DigitsValue(digits[..k], radix);
      Some(if negative then -magnitude else magnitude)
  }

  function DigitChar(d: nat): char
    requires d < 10
  {
    (48 + d) as char
  }

  function NatToDecimal(n: nat): string {
    if n < 10 then [DigitChar(n)] else NatToDecimal(n / 10) + [DigitChar(n % 10)]
  }

  /** `String(n)` for an integral number. */
  function NumberToString(n: int): string {
    if n < 0 then "-" + NatToDecimal(-n) else NatToDecimal(n)
  }

  /** `parseInt(String(v))` for a property value. */
  function ParseIntValue(v: Value): Option<int> {
    match v
    case Text(s) => ParseInt(s)
    case Num(n) => ParseInt(NumberToString(n))
    case Undefined => ParseInt("undefined")
    case Other => None
  }

  lemma {:induction false} NatToDecimalShape(n: nat)
    ensures var d := NatToDecimal(n);
      && |d| >= 1
      && IsDecimalDigits(d)
      && DigitsValue(d, 10) == n
      && (n > 0 ==> d[0] != '0')
    decreases n
  {
    if n >= 10 {
      NatToDecimalShape(n / 10);
      var d := NatToDecimal(n);
      assert d[..|d| - 1] == NatToDecimal(n / 10);
      assert d[0] == NatToDecimal(n / 10)[0];
    }
  }

  lemma {:induction false} DigitRunOfDigits(s: string)
    requires IsDecimalDigits(s)
    ensures DigitRun(s, 10) == |s|
    decreases |s|
  {
    if |s| > 0 {
      DigitRunOfDigits(s[1..]);
    }
  }

  /** `parseInt` reads back a non-empty string of decimal digits as its value. */
  lemma ParseIntOfDigits(s: string)
    requires s != [] && IsDecimalDigits(s)
    ensures ParseInt(s) == Some(DigitsValue(s, 10))
  {
    assert !IsStrWhiteSpace(s[0]);
    DigitRunOfDigits(s);
    assert s[..|s|] == s;
  }

  /** `parseInt` reads a minus sign followed by decimal digits as the negated value. */
  lemma ParseIntOfNegative(d: string)
    requires d != [] && IsDecimalDigits(d)
    ensures ParseInt("-" + d) == Some(0 - DigitsValue(d, 10) as int)
  {
    var s := "-" + d;
    assert TrimStart(s) == s;
    assert s[1..] == d;
    DigitRunOfDigits(d);
    assert d[..|d|] == d;
  }

  /** `parseInt(String(n)) === n` for every integral number `n`. */
  lemma ParseIntInvertsNumberToString(n: int)
    ensures ParseInt(NumberToString(n)) == Some(n)
  {
    var m: nat := if n < 0 then -n else n;
    NatToDecimalShape(m);
    if n < 0 {
      ParseIntOfNegative(NatToDecimal(m));
    } else {
      ParseIntOfDigits(NatToDecimal(m));
    }
  }
}
