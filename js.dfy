/**
 * The JavaScript runtime behaviour the library relies on: its dynamically
 * typed values, truthiness, string conversion (`val + ''`), `parseInt(val, 10)`,
 * `toLowerCase`, `trim`, `join`, `split` and `slice`.
 */
module Js {

  /** A scalar JavaScript value as it reaches the library's converters. */
  datatype Value = Int(i: int) | Str(s: string) | Bool(b: bool) | Null | Undefined | NaN

  /** JavaScript truthiness of a scalar value. */
  predicate Truthy(v: Value) {
    match v
    case Int(i) => i != 0
    case Str(s) => s != ""
    case Bool(b) => b
    case _ => false
  }

  predicate IsDigit(c: char) {
    '0' <= c <= '9'
  }

  predicate AllDigits(s: string) {
    forall k :: 0 <= k < |s| ==> IsDigit(s[k])
  }

  function DigitChar(d: int): (c: char)
    requires 0 <= d < 10
    ensures IsDigit(c) && c as int - '0' as int == d
  {
    ('0' as int + d) as char
  }

  /** Decimal digits of a natural number, most significant first, no leading zero. */
  function NatToDecimal(n: nat): (s: string)
    ensures |s| > 0 && AllDigits(s)
    ensures n > 0 ==> s[0] != '0'
    decreases n
  {
    if n < 10 then [DigitChar(n)] else NatToDecimal(n / 10) + [DigitChar(n % 10)]
  }

  /** `String(i)` for an integer. */
  function IntToDecimal(i: int): string {
    if i < 0 then "-" + NatToDecimal(-i) else NatToDecimal(i)
  }

  /** `val + ''`: the string form of a value. */
  function ToStr(v: Value): string {
    match v
    case Int(i) => IntToDecimal(i)
    case Str(s) => s
    case Bool(b) => if b then "true" else "false"
    case Null => "null"
    case Undefined => "undefined"
    case NaN => "NaN"
  }

  /** The characters `trim` and `parseInt` skip: WhiteSpace and LineTerminator. */
  predicate IsWhiteSpace(c: char) {
    var n := c as int;
    n == 0x09 || n == 0x0A || n == 0x0B || n == 0x0C || n == 0x0D || n == 0x20
    || n == 0xA0 || n == 0x1680 || (0x2000 <= n <= 0x200A) || n == 0x2028 || n == 0x2029
    || n == 0x202F || n == 0x205F || n == 0x3000 || n == 0xFEFF
  }

  function TrimStart(s: string): (r: string)
    ensures |r| <= |s| && r == s[|s| - |r|..]
    ensures r == [] || !IsWhiteSpace(r[0])
    ensures |s| > 0 && !IsWhiteSpace(s[0]) ==> r == s
  {
    if |s| > 0 && IsWhiteSpace(s[0]) then TrimStart(s[1..]) else s
  }

  function TrimEnd(s: string): (r: string)
    ensures |r| <= |s| && r == s[..|r|]
    ensures r == [] || !IsWhiteSpace(r[|r| - 1])
  {
    if |s| > 0 && IsWhiteSpace(s[|s| - 1]) then TrimEnd(s[..|s| - 1]) else s
  }

  /** `s.trim()`. */
  function Trim(s: string): string {
    TrimEnd(TrimStart(s))
  }

  /** The longest prefix of `s` made of decimal digits. */
  function DigitPrefix(s: string): (d: string)
    ensures |d| <= |s| && d == s[..|d|] && AllDigits(d)
    ensures |d| < |s| ==> !IsDigit(s[|d|])
  {
    if |s| > 0 && IsDigit(s[0]) then [s[0]] + DigitPrefix(s[1..]) else []
  }

  function DigitsValue(d: string): nat
    requires AllDigits(d)
  {
    if |d| == 0 then 0 else DigitsValue(d[..|d| - 1]) * 10 + (d[|d| - 1] as int - '0' as int)
  }

  /** `parseInt(s, 10)`: skip white space, an optional sign, then the longest digit run. */
  function ParseIntString(s: string): (r: Value)
    ensures r.Int? || r.NaN?
  {
    if |s| > 0 && IsWhiteSpace(s[0]) then ParseIntString(s[1..]) else ParseSigned(s)
  }

  /** `parseInt` once the leading white space is gone. */
  function ParseSigned(t: string): (r: Value)
    ensures r.Int? || r.NaN?
  {
    var neg := |t| > 0 && t[0] == '-';
    var u := if |t| > 0 && (t[0] == '-' || t[0] == '+') then t[1..] else t;
    var d := DigitPrefix(u);
    var v: int := if d == [] then 0 else DigitsValue(d);
    if d == [] then NaN else Int(if neg then -v else v)
  }

  /** `parseInt(val, 10)`, which first turns its argument into a string. */
  function ParseInt(v: Value): (r: Value)
    ensures r.Int? || r.NaN?
  {
    ParseIntString(ToStr(v))
  }

  lemma {:induction false} DecimalValue(n: nat)
    ensures DigitsValue(NatToDecimal(n)) == n
    decreases n
  {
    if n >= 10 {
      var s := NatToDecimal(n / 10);
      var t := s + [DigitChar(n % 10)];
      assert t[..|t| - 1] == s;
      DecimalValue(n / 10);
    }
  }

  lemma {:induction false} DigitPrefixOfDigits(s: string)
    requires AllDigits(s)
    ensures DigitPrefix(s) == s
  {
    if |s| > 0 {
      DigitPrefixOfDigits(s[1..]);
    }
  }

  /** A string that starts with a character that is neither white space, a sign nor a digit is NaN. */
  lemma ParseIntNoDigits(s: string)
    requires |s| > 0 && !IsWhiteSpace(s[0]) && s[0] != '-' && s[0] != '+' && !IsDigit(s[0])
    ensures ParseIntString(s) == NaN
  {
    assert DigitPrefix(s) == [];
  }

  /** parseInt of a digit string is its value. */
  lemma ParseIntDigits(s: string)
    requires |s| > 0 && AllDigits(s)
    ensures ParseIntString(s) == Int(DigitsValue(s))
  {
    assert !IsWhiteSpace(s[0]);
    DigitPrefixOfDigits(s);
  }

  /** parseInt undoes the decimal form of an integer. */
  lemma ParseIntOfInt(i: int)
    ensures ParseInt(Int(i)) == Int(i)
  {
    if i < 0 {
      var s := NatToDecimal(-i);
      var t := "-" + s;
      assert ToStr(Int(i)) == t;
      assert !IsWhiteSpace(t[0]);
      assert t[1..] == s;
      DigitPrefixOfDigits(s);
      DecimalValue(-i);
    } else {
      var s := NatToDecimal(i);
      assert ToStr(Int(i)) == s;
      ParseIntDigits(s);
      DecimalValue(i);
    }
  }

  lemma ParseIntOfUndefined()
    ensures ParseInt(Undefined) == NaN
  {
    var u := "undefined";
    assert ToStr(Undefined) == u;
    assert u[0] == 'u';
    ParseIntNoDigits(u);
  }

  /** `toLowerCase` on the ASCII letters. */
  function LowerChar(c: char): char {
    if 'A' <= c <= 'Z' then (c as int + 32) as char else c
  }

  function ToLower(s: string): (r: string)
    ensures |r| == |s|
    ensures forall i :: 0 <= i < |s| ==> r[i] == LowerChar(s[i])
  {
    seq(|s|, k requires 0 <= k < |s| => LowerChar(s[k]))
  }

  lemma ToLowerIdempotent(s: string)
    ensures ToLower(ToLower(s)) == ToLower(s)
  {
  }

  /** `a.toLowerCase() === b.toLowerCase()`. */
  predicate SameIgnoringCase(a: string, b: string) {
    ToLower(a) == ToLower(b)
  }

  /** `parts.join(sep)`. */
  function Join(sep: string, parts: seq<string>): string {
    if |parts| == 0 then ""
    else if |parts| == 1 then parts[0]
    else parts[0] + sep + Join(sep, parts[1..])
  }

  lemma {:induction false} JoinSnoc(sep: string, parts: seq<string>, p: string)
    requires |parts| > 0
    ensures Join(sep, parts + [p]) == Join(sep, parts) + sep + p
  {
    if |parts| > 1 {
      assert (parts + [p])[1..] == parts[1..] + [p];
      JoinSnoc(sep, parts[1..], p);
    }
  }

  function IndexOfChar(s: string, c: char): (i: int)
    ensures -1 <= i < |s|
    ensures i == -1 <==> c !in s
    ensures i >= 0 ==> s[i] == c && c !in s[..i]
  {
    if |s| == 0 then -1
    else if s[0] == c then 0
    else var j := IndexOfChar(s[1..], c); if j == -1 then -1 else j + 1
  }

  /** `s.split(c)` for a one-character separator. */
  function Split(s: string, c: char): (parts: seq<string>)
    ensures |parts| >= 1
    decreases |s|
  {
    var i := IndexOfChar(s, c);
    if i == -1 then [s] else [s[..i]] + Split(s[i + 1..], c)
  }

  /** Splitting `a + [c] + b` at `c` gives back `a` and `b` when neither holds `c`. */
  lemma SplitPair(a: string, b: string, c: char)
    requires c !in a && c !in b
    ensures Split(a + [c] + b, c) == [a, b]
  {
    var s := a + [c] + b;
    assert s[|a|] == c;
    assert s[..|a|] == a;
    assert IndexOfChar(s, c) == |a|;
    assert s[|a| + 1..] == b;
  }

  /** Splitting a join at its one-character separator gives back the parts when none holds it. */
  lemma {:induction false} SplitJoin(parts: seq<string>, c: char)
    requires |parts| > 0 && forall k :: 0 <= k < |parts| ==> c !in parts[k]
    ensures Split(Join([c], parts), c) == parts
  {
    if |parts| > 1 {
      var a, rest := parts[0], Join([c], parts[1..]);
      var s := a + [c] + rest;
      assert Join([c], parts) == s;
      assert s[|a|] == c && s[..|a|] == a;
      assert IndexOfChar(s, c) == |a|;
      assert s[|a| + 1..] == rest;
      SplitJoin(parts[1..], c);
    }
  }

  /** `s.slice(0, end)`. */
  function SlicePrefix(s: string, end: int): (r: string)
    ensures 0 <= end ==> |r| == if end < |s| then end else |s|
    ensures end < 0 ==> |r| == if |s| + end < 0 then 0 else |s| + end
    ensures |r| <= |s| && r == s[..|r|]
  {
    var e := if end < 0 then (if |s| + end < 0 then 0 else |s| + end)
             else if end < |s| then end else |s|;
    s[..e]
  }
}
