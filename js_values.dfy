/** The parts of JavaScript's value semantics that the recommendation handler
    relies on: truthiness, conversion to string, `parseInt` with no radix,
    `String.prototype.includes`, and the white-space class shared by the
    regular-expression escape `\s` and `parseInt`'s leading-space trimming. */
module JsValues {

  datatype Option<T> = None | Some(value: T)

  /** A JavaScript value as it can occur in a request body or in a catalog
      record. Numbers are integers; `Obj` is a plain object with its own
      properties. */
  datatype Value =
    | Undefined
    | Null
    | Bool(b: bool)
    | Num(n: int)
    | Str(s: string)
    | Arr(elems: seq<Value>)
    | Obj(props: map<string, Value>)

  /** ToBoolean: `undefined`, `null`, `false`, `0` and `""` are falsy. */
  predicate Truthy(v: Value) {
    match v
    case Undefined => false
    case Null => false
    case Bool(b) => b
    case Num(n) => n != 0
    case Str(s) => s != ""
    case Arr(_) => true
    case Obj(_) => true
  }

  /** `a || b`: the first operand if it is truthy, otherwise the second. */
  function Or(a: Value, b: Value): Value {
    if Truthy(a) then a else b
  }

  /** The characters matched by `\s`; the same set is what `parseInt`
      skips before the number (white space and line terminators). */
  predicate IsJsSpace(c: char) {
    || c == '\t' || c == '\n' || c == '\U{000B}' || c == '\U{000C}' || c == '\r'
    || c == ' ' || c == '\U{00A0}' || c == '\U{1680}'
    || ('\U{2000}' <= c <= '\U{200A}')
    || c == '\U{2028}' || c == '\U{2029}' || c == '\U{202F}' || c == '\U{205F}'
    || c == '\U{3000}' || c == '\U{FEFF}'
  }

  /** The characters matched by `\d` (without the `u` flag). */
  predicate IsDecimalDigit(c: char) {
    '0' <= c <= '9'
  }

  /** The value of `c` as a digit of radix up to 36, or 36 if it is none. */
  function DigitVal(c: char): (d: nat)
    ensures d <= 36
    ensures d < 10 <==> IsDecimalDigit(c)
  {
    if '0' <= c <= '9' then c as int - '0' as int
    else if 'a' <= c <= 'z' then c as int - 'a' as int + 10
    else if 'A' <= c <= 'Z' then c as int - 'A' as int + 10
    else 36
  }

  predicate AllDecimal(s: string) {
    forall i :: 0 <= i < |s| ==> IsDecimalDigit(s[i])
  }

  /** `s` with its leading white space removed. */
  function TrimStart(s: string): (r: string)
    ensures |r| <= |s| && r == s[|s| - |r|..]
    ensures forall i :: 0 <= i < |s| - |r| ==> IsJsSpace(s[i])
    ensures r == [] || !IsJsSpace(r[0])
  {
    if s != [] && IsJsSpace(s[0]) then TrimStart(s[1..]) else s
  }

  /** Length of the longest prefix of `s` made of digits of the given radix. */
  function DigitRun(s: string, radix: nat): (n: nat)
    ensures n <= |s|
    ensures forall i :: 0 <= i < n ==> DigitVal(s[i]) < radix
    ensures n == |s| || DigitVal(s[n]) >= radix
  {
    if s != [] && DigitVal(s[0]) < radix then 1 + DigitRun(s[1..], radix) else 0
  }

  /** The number written by the digits `d` in the given radix. */
  function DigitsValue(d: string, radix: nat): nat {
    if d == [] then 0
    else DigitsValue(d[..|d| - 1], radix) * radix + (if DigitVal(d[|d| - 1]) < radix then DigitVal(d[|d| - 1]) else 0)
  }

  function DigitChar(d: nat): (c: char)
    requires d < 10
    ensures IsDecimalDigit(c) && DigitVal(c) == d
  {
    ('0' as int + d) as char
  }

  /** The decimal numeral of `n`, without leading zeros. */
  function NatToString(n: nat): (r: string)
    ensures |r| > 0 && AllDecimal(r)
    ensures r[0] == '0' ==> n == 0 && |r| == 1
    ensures DigitsValue(r, 10) == n
  {
    if n < 10 then [DigitChar(n)]
    else
      var p := NatToString(n / 10);
      var r := p + [DigitChar(n % 10)];
      DigitsValueAppend(p, DigitChar(n % 10), 10);
      r
  }

  /** `String(n)` for an integer. */
  function IntToString(n: int): string {
    if n < 0 then "-" + NatToString(-n) else NatToString(n)
  }

  /** `parts.join(",")`. */
  function JoinComma(parts: seq<string>): string {
    if |parts| == 0 then ""
    else if |parts| == 1 then parts[0]
    else parts[0] + "," + JoinComma(parts[1..])
  }

  /** ToString, as applied by template literals and `parseInt`. An array
      joins its elements with commas, `null` and `undefined` giving "". */
  function ToJsString(v: Value): string {
    match v
    case Undefined => "undefined"
    case Null => "null"
    case Bool(b) => if b then "true" else "false"
    case Num(n) => IntToString(n)
    case Str(s) => s
    case Arr(es) =>
      JoinComma(seq(|es|, i requires 0 <= i < |es| =>
        if es[i].Undefined? || es[i].Null? then "" else ToJsString(es[i])))
    case Obj(_) => "[object Object]"
  }

  /** The result of `parseInt`: an integer, or NaN. */
  datatype ParsedInt = NaN | Int(i: int)

  /** The longest prefix of digits of `w` in the given radix, read as a
      number; NaN when `w` does not start with such a digit. */
  function ParseDigits(w: string, radix: nat): ParsedInt {
    var n := DigitRun(w, radix);
    if n == 0 then NaN else Int(DigitsValue(w[..n], radix))
  }

  /** `u` starts with `0x` or `0X`. */
  predicate HasHexPrefix(u: string) {
    |u| >= 2 && u[0] == '0' && (u[1] == 'x' || u[1] == 'X')
  }

  /** The number after the sign: hexadecimal after a `0x`/`0X` prefix,
      decimal otherwise. */
  function ParseUnsigned(u: string): ParsedInt {
    if HasHexPrefix(u) then ParseDigits(u[2..], 16) else ParseDigits(u, 10)
  }

  function Negate(p: ParsedInt): ParsedInt {
    match p
    case NaN => NaN
    case Int(i) => Int(-i)
  }

  /** `parseInt(s)` with no radix: skip leading white space, take an optional
      sign, read hexadecimal after a `0x`/`0X` prefix and decimal otherwise,
      and convert the longest prefix of digits; NaN when there is none. */
  function ParseInt(s: string): ParsedInt {
    var t := TrimStart(s);
    if t != [] && t[0] == '-' then Negate(ParseUnsigned(t[1..]))
    else if t != [] && t[0] == '+' then ParseUnsigned(t[1..])
    else ParseUnsigned(t)
  }

  /** `a < b` on parsed numbers: every comparison with NaN is false. */
  predicate Less(a: ParsedInt, b: ParsedInt) {
    a.Int? && b.Int? && a.i < b.i
  }

  /** `s.includes(t)`. */
  predicate Contains(s: string, t: string)
    decreases |s|
  {
    |t| <= |s| && (s[..|t|] == t || Contains(s[1..], t))
  }

  /** `t` occurs in `s` starting at index `i`. */
  predicate OccursAt(s: string, t: string, i: int) {
    0 <= i && i + |t| <= |s| && s[i..i + |t|] == t
  }

  lemma SliceOfTail(s: string, i: int, n: nat)
    requires 1 <= i && i + n <= |s|
    ensures s[1..][i - 1..i - 1 + n] == s[i..i + n]
  {
    var a, b := s[1..][i - 1..i - 1 + n], s[i..i + n];
    forall k | 0 <= k < n ensures a[k] == b[k] { }
  }

  /** `includes` holds exactly when `t` occurs somewhere in `s`. */
  lemma {:induction false} ContainsIffOccurs(s: string, t: string)
    ensures Contains(s, t) <==> exists i :: OccursAt(s, t, i)
    decreases |s|
  {
    if |t| > |s| {
      forall i ensures !OccursAt(s, t, i) { }
    } else if s[..|t|] == t {
      assert OccursAt(s, t, 0);
    } else {
      ContainsIffOccurs(s[1..], t);
      forall i | OccursAt(s, t, i) ensures OccursAt(s[1..], t, i - 1) {
        assert i != 0;
        SliceOfTail(s, i, |t|);
      }
      if Contains(s, t) {
        var i :| OccursAt(s[1..], t, i);
        SliceOfTail(s, i + 1, |t|);
        assert OccursAt(s, t, i + 1);
      }
    }
  }

  lemma DigitsValueAppend(d: string, c: char, radix: nat)
    requires DigitVal(c) < radix
    ensures DigitsValue(d + [c], radix) == DigitsValue(d, radix) * radix + DigitVal(c)
  {
    assert (d + [c])[..|d|] == d;
  }

  /** `parseInt` of text that starts with a decimal digit and no `0x`
      prefix reads the decimal digits at its head. */
  lemma ParseIntUnsigned(w: string)
    requires w != [] && IsDecimalDigit(w[0]) && !HasHexPrefix(w)
    ensures ParseInt(w) == ParseDigits(w, 10)
  {
    assert !IsJsSpace(w[0]);
    assert TrimStart(w) == w;
  }

  /** The same behind a minus sign. */
  lemma ParseIntNegative(w: string)
    requires w != [] && IsDecimalDigit(w[0]) && !HasHexPrefix(w)
    ensures ParseInt("-" + w) == Negate(ParseDigits(w, 10))
  {
    var s := "-" + w;
    assert s[0] == '-' && !IsJsSpace(s[0]);
    assert TrimStart(s) == s;
    assert s[1..] == w;
  }

  /** The digit run at the head of `d + rest` is exactly `d`. */
  lemma DigitRunOfDecimal(d: string, rest: string)
    requires AllDecimal(d)
    requires rest != [] ==> !IsDecimalDigit(rest[0])
    ensures DigitRun(d + rest, 10) == |d|
    ensures (d + rest)[..|d|] == d
  {
    var s := d + rest;
    var n := DigitRun(s, 10);
    assert forall i :: 0 <= i < |d| ==> IsDecimalDigit(s[i]);
    assert rest != [] ==> s[|d|] == rest[0];
  }

  /** Decimal digits followed by a non-digit read as their value. */
  lemma ParseDigitsOfDecimal(d: string, rest: string)
    requires |d| > 0 && AllDecimal(d)
    requires rest != [] ==> !IsDecimalDigit(rest[0])
    ensures ParseDigits(d + rest, 10) == Int(DigitsValue(d, 10))
  {
    DigitRunOfDecimal(d, rest);
  }

  /** Decimal digits followed by a non-digit start with `0x` only when the
      digits are "0" and the next character is `x` or `X`. */
  lemma DecimalHexPrefix(d: string, rest: string)
    requires |d| > 0 && AllDecimal(d)
    requires rest != [] ==> !IsDecimalDigit(rest[0])
    ensures HasHexPrefix(d + rest) <==> d == "0" && rest != [] && (rest[0] == 'x' || rest[0] == 'X')
  {
    var s := d + rest;
    assert s[0] == d[0];
    if |d| >= 2 {
      assert s[1] == d[1] && IsDecimalDigit(s[1]);
    } else {
      assert d == [d[0]];
      assert rest != [] ==> s[1] == rest[0];
    }
  }

  /** `parseInt` reads a run of decimal digits followed by anything that
      neither continues the number nor turns "0" into a hexadecimal prefix. */
  lemma ParseIntOfDecimal(d: string, rest: string)
    requires |d| > 0 && AllDecimal(d)
    requires rest != [] ==> !IsDecimalDigit(rest[0])
    requires d == "0" && rest != [] ==> rest[0] != 'x' && rest[0] != 'X'
    ensures ParseInt(d + rest) == Int(DigitsValue(d, 10))
  {
    DecimalHexPrefix(d, rest);
    ParseDigitsOfDecimal(d, rest);
    assert (d + rest)[0] == d[0];
    ParseIntUnsigned(d + rest);
  }

  /** `parseInt(String(n)) == n` for every integer `n`. */
  lemma ParseIntOfIntToString(n: int)
    ensures ParseInt(IntToString(n)) == Int(n)
  {
    var d := NatToString(if n < 0 then -n else n);
    ParseDigitsOfDecimal(d, []);
    assert d + [] == d;
    DecimalHexPrefix(d, []);
    if n >= 0 {
      assert IntToString(n) == d;
      ParseIntUnsigned(d);
    } else {
      assert IntToString(n) == "-" + d;
      ParseIntNegative(d);
    }
  }
}
