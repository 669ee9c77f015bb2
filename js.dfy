/** JavaScript value semantics shared by the dashboard client, both servers and the
    device agent: JSON values, the coercions `Number()`, `String()` and truthiness,
    `Math.round`, and the string operations the monitoring code relies on
    (`trim`, `split`, `toUpperCase`, `slice`). */
module Js {

  datatype Option<+T> = None | Some(value: T)

  /** A JSON value as JavaScript sees it once a request or response body has been
      parsed. `Undefined` stands for an absent property. JSON cannot carry NaN or
      an infinity, so every `Num` is finite. */
  datatype Value = Undefined | Null | Bool(b: bool) | Num(x: real) | Str(s: string)

  /** A JSON object, as a map from property names to values. */
  type Object = map<string, Value>

  /** `obj.key` */
  function Get(obj: Object, key: string): (v: Value)
    ensures v.Undefined? <== key !in obj
    ensures key in obj ==> v == obj[key]
  {
    if key in obj then obj[key] else Undefined
  }

  /** JavaScript truthiness, as used by `if (v)`, `!v` and `v || w`. */
  predicate Truthy(v: Value) {
    match v
    case Undefined => false
    case Null => false
    case Bool(b) => b
    case Num(x) => x != 0.0
    case Str(s) => s != ""
  }

  /** `v === null || v === undefined`, the values that `??` replaces. */
  predicate Nullish(v: Value) {
    v.Undefined? || v.Null?
  }

  /** `x || y` */
  function Or(x: Value, y: Value): (r: Value)
    ensures Truthy(x) ==> r == x
    ensures !Truthy(x) ==> r == y
  {
    if Truthy(x) then x else y
  }

  /** `Number(v)`; None when the result is NaN. */
  function ToNumber(v: Value): Option<real> {
    match v
    case Undefined => None
    case Null => Some(0.0)
    case Bool(b) => Some(if b then 1.0 else 0.0)
    case Num(x) => Some(x)
    case Str(s) => ParseNumber(s)
  }

  /** `Number.isFinite(Number(v))` */
  predicate IsNum(v: Value) {
    ToNumber(v).Some?
  }

  /** `String(v)` */
  function ToString(v: Value): string {
    match v
    case Undefined => "undefined"
    case Null => "null"
    case Bool(b) => if b then "true" else "false"
    case Num(x) => NumberText(x)
    case Str(s) => s
  }

  // ---------------------------------------------------------------------------
  // Math.round

  /** `Math.round(x)`: the nearest integer, a half rounded up. */
  function Round(x: real): (r: int)
    ensures r as real - 0.5 <= x < r as real + 0.5
  {
    (x + 0.5).Floor
  }

  /** A whole number of tenths. */
  predicate OnTenths(r: real) {
    (r * 10.0).Floor as real == r * 10.0
  }

  /** A whole number of hundredths. */
  predicate OnHundredths(r: real) {
    (r * 100.0).Floor as real == r * 100.0
  }

  /** `Math.round(x * 10) / 10`: `x` to the nearest tenth. */
  function RoundTenth(x: real): (r: real)
    ensures OnTenths(r)
    ensures r - 0.05 <= x < r + 0.05
  {
    Round(x * 10.0) as real / 10.0
  }

  /** The nearest tenth is the only whole number of tenths in the band around `x`:
      a value stated on the grid and within the band is `RoundTenth(x)`. */
  lemma RoundTenthUnique(x: real, r: real)
    requires OnTenths(r) && r - 0.05 <= x < r + 0.05
    ensures r == RoundTenth(x)
  {
    var k := (r * 10.0).Floor;
    assert k as real - 0.5 <= x * 10.0 < k as real + 0.5;
    assert Round(x * 10.0) == k;
  }

  function Min(a: int, b: int): int { if a <= b then a else b }

  /** `Math.max` and `Math.min` of two numbers. */
  function MathMax(a: real, b: real): real { if a >= b then a else b }
  function MathMin(a: real, b: real): real { if a <= b then a else b }

  /** `s.slice(0, n)` */
  function Take<T>(s: seq<T>, n: nat): (r: seq<T>)
    ensures |r| == Min(n, |s|) && r == s[..|r|]
  {
    if n <= |s| then s[..n] else s
  }

  // ---------------------------------------------------------------------------
  // Whitespace and trim

  /** The characters `trim()` removes and the regular expression `\s` matches. */
  predicate IsSpace(c: char) {
    c == ' ' || ('\t' <= c <= '\r') || ('\U{00A0}' <= c && IsWideSpace(c))
  }

  /** The whitespace beyond ASCII that `trim` and `\s` also match. */
  predicate IsWideSpace(c: char) {
    c == '\U{00A0}' || c == '\U{1680}' || ('\U{2000}' <= c <= '\U{200A}')
    || c == '\U{2028}' || c == '\U{2029}' || c == '\U{202F}' || c == '\U{205F}'
    || c == '\U{3000}' || c == '\U{FEFF}'
  }

  predicate AllSpace(s: string) {
    forall i :: 0 <= i < |s| ==> IsSpace(s[i])
  }

  /** Neither starts nor ends with whitespace. */
  predicate Trimmed(s: string) {
    s == [] || (!IsSpace(s[0]) && !IsSpace(s[|s| - 1]))
  }

  function TrimStart(s: string): (r: string)
    ensures |r| <= |s| && r == s[|s| - |r|..]
    ensures r == [] || !IsSpace(r[0])
    ensures AllSpace(s[..|s| - |r|])
  {
    if s != [] && IsSpace(s[0]) then TrimStart(s[1..]) else s
  }

  function TrimEnd(s: string): (r: string)
    ensures |r| <= |s| && r == s[..|r|]
    ensures r == [] || !IsSpace(r[|r| - 1])
    ensures AllSpace(s[|r|..])
  {
    if s != [] && IsSpace(s[|s| - 1]) then TrimEnd(s[..|s| - 1]) else s
  }

  /** `s.trim()`: the text between the leading and the trailing whitespace. */
  function Trim(s: string): (r: string)
    ensures Trimmed(r) && |r| <= |s|
    ensures r == [] <==> AllSpace(s)
  {
    var t := TrimStart(s);
    var r := TrimEnd(t);
    TrimEndKeepsHead(t);
    AllSpaceSplit(s, |s| - |t|);
    r
  }

  /** `trim()` keeps the middle of the text: what it drops on either side is
      whitespace only. */
  lemma TrimIsMiddle(s: string) returns (i: nat)
    ensures i + |Trim(s)| <= |s| && Trim(s) == s[i..i + |Trim(s)|]
    ensures AllSpace(s[..i]) && AllSpace(s[i + |Trim(s)|..])
  {
    var t := TrimStart(s);
    var r := TrimEnd(t);
    assert Trim(s) == r;
    MiddleOf(s, t, r);
    i := |s| - |t|;
  }

  /** `r`, a prefix of the suffix `t` of `s` with only whitespace around it, is the
      middle of `s` between two runs of whitespace. */
  lemma MiddleOf(s: string, t: string, r: string)
    requires |t| <= |s| && t == s[|s| - |t|..] && AllSpace(s[..|s| - |t|])
    requires |r| <= |t| && r == t[..|r|] && AllSpace(t[|r|..])
    ensures var i := |s| - |t|;
      && 0 <= i <= |s| - |r| && r == s[i..i + |r|]
      && AllSpace(s[..i]) && AllSpace(s[i + |r|..])
  {
    var i := |s| - |t|;
    assert s[i + |r|..] == t[|r|..];
  }

  lemma TrimEndKeepsHead(t: string)
    requires t == [] || !IsSpace(t[0])
    ensures t != [] ==> TrimEnd(t) != [] && TrimEnd(t)[0] == t[0]
  {
  }

  lemma AllSpaceSplit(s: string, k: nat)
    requires k <= |s| && AllSpace(s[..k])
    requires k < |s| ==> !IsSpace(s[k])
    ensures AllSpace(s) <==> k == |s|
  {
    if k == |s| { assert s[..k] == s; }
  }

  lemma {:induction false} TrimStartOfTrimmed(s: string)
    requires s == [] || !IsSpace(s[0])
    ensures TrimStart(s) == s
  {
  }

  lemma {:induction false} TrimEndOfTrimmed(s: string)
    requires s == [] || !IsSpace(s[|s| - 1])
    ensures TrimEnd(s) == s
  {
  }

  /** Trimming text that neither starts nor ends with whitespace changes nothing;
      in particular `trim` is idempotent. */
  lemma TrimOfTrimmed(s: string)
    requires Trimmed(s)
    ensures Trim(s) == s
  {
    TrimStartOfTrimmed(s);
    TrimEndOfTrimmed(s);
  }

  // ---------------------------------------------------------------------------
  // split

  function IndexOf(s: string, c: char): (r: Option<nat>)
    ensures r.Some? ==> r.value < |s| && s[r.value] == c && c !in s[..r.value]
    ensures r.None? ==> c !in s
  {
    if s == [] then None
    else if s[0] == c then Some(0)
    else match IndexOf(s[1..], c)
      case None => None
      case Some(i) => assert s[..i + 1] == [s[0]] + s[1..][..i]; Some(i + 1)
  }

  /** `s.split(sep)` for a one-character separator. */
  function Split(s: string, sep: char): (r: seq<string>)
    ensures |r| >= 1
    ensures forall i :: 0 <= i < |r| ==> sep !in r[i]
    decreases |s|
  {
    match IndexOf(s, sep)
    case None => [s]
    case Some(i) => [s[..i]] + Split(s[i + 1..], sep)
  }

  /** The inverse of `Split`: the pieces glued back with the separator. */
  function Join(pieces: seq<string>, sep: char): string
    requires |pieces| >= 1
  {
    if |pieces| == 1 then pieces[0] else pieces[0] + [sep] + Join(pieces[1..], sep)
  }

  /** Splitting loses nothing: joining the pieces gives the text back. */
  lemma {:induction false} SplitJoin(s: string, sep: char)
    ensures Join(Split(s, sep), sep) == s
    decreases |s|
  {
    match IndexOf(s, sep)
    case None =>
    case Some(i) =>
      var pieces := Split(s, sep);
      assert pieces[0] == s[..i] && pieces[1..] == Split(s[i + 1..], sep);
      SplitJoin(s[i + 1..], sep);
      assert s == s[..i] + [sep] + s[i + 1..];
  }

  /** The first separator ends the first piece. */
  lemma SplitFirst(a: string, sep: char, b: string)
    requires sep !in a
    ensures Split(a + [sep] + b, sep) == [a] + Split(b, sep)
  {
    var s := a + [sep] + b;
    assert s[|a|] == sep && s[..|a|] == a && s[|a| + 1..] == b;
  }

  function IndexOfSpace(s: string): (r: Option<nat>)
    ensures r.Some? ==> r.value < |s| && IsSpace(s[r.value]) && !exists k :: 0 <= k < r.value && IsSpace(s[k])
    ensures r.None? ==> !exists k :: 0 <= k < |s| && IsSpace(s[k])
  {
    if s == [] then None
    else if IsSpace(s[0]) then Some(0)
    else match IndexOfSpace(s[1..])
      case None => None
      case Some(i) => Some(i + 1)
  }

  /** `s.split(/\s+/)`: the pieces between runs of whitespace. */
  function SplitWs(s: string): (r: seq<string>)
    ensures |r| >= 1
    ensures forall i, k :: 0 <= i < |r| && 0 <= k < |r[i]| ==> !IsSpace(r[i][k])
    decreases |s|
  {
    match IndexOfSpace(s)
    case None => [s]
    case Some(i) =>
      var rest := TrimStart(s[i..]);
      [s[..i]] + SplitWs(rest)
  }

  // ---------------------------------------------------------------------------
  // Decimal text

  predicate IsDigit(c: char) {
    '0' <= c <= '9'
  }

  predicate AllDigits(s: string) {
    forall i :: 0 <= i < |s| ==> IsDigit(s[i])
  }

  function DigitChar(d: nat): (c: char)
    requires d < 10
    ensures IsDigit(c)
  {
    ('0' as int + d) as char
  }

  function DigitValue(c: char): (d: nat)
    requires IsDigit(c)
    ensures d < 10 && DigitChar(d) == c
  {
    c as int - '0' as int
  }

  /** The value of a string of decimal digits. */
  function DigitsValue(s: string): nat
    requires AllDigits(s)
  {
    if s == [] then 0 else DigitsValue(s[..|s| - 1]) * 10 + DigitValue(s[|s| - 1])
  }

  /** The value of the digits after a decimal point. */
  function FractionValue(s: string): real
    requires AllDigits(s)
  {
    if s == [] then 0.0 else (DigitValue(s[0]) as real + FractionValue(s[1..])) / 10.0
  }

  function Pow10(k: nat): (p: nat)
    ensures p >= 1
  {
    if k == 0 then 1 else 10 * Pow10(k - 1)
  }

  /** The decimal text of a natural number, as `String(n)` writes it. */
  function NatText(n: nat): (r: string)
    ensures |r| >= 1 && AllDigits(r)
  {
    if n < 10 then [DigitChar(n)] else NatText(n / 10) + [DigitChar(n % 10)]
  }

  /** The decimal text of an integer, as `String(i)` or a template literal writes it. */
  function IntText(i: int): (r: string)
    ensures |r| >= 1
    ensures r[0] == '-' || IsDigit(r[0])
  {
    if i < 0 then "-" + NatText(-i) else NatText(i)
  }

  /** Reading back the text of a number gives the number. */
  lemma {:induction false} DigitsValueOfNatText(n: nat)
    ensures DigitsValue(NatText(n)) == n
  {
    if n >= 10 {
      var t := NatText(n);
      assert t[..|t| - 1] == NatText(n / 10);
      DigitsValueOfNatText(n / 10);
    }
  }

  /** `String(x)` for a finite number. Integers are written exactly; other numbers
      as their integer part and up to 17 fractional digits, trailing zeros dropped. */
  function NumberText(x: real): string {
    if x < 0.0 then "-" + NonNegativeText(-x) else NonNegativeText(x)
  }

  function NonNegativeText(x: real): string
    requires x >= 0.0
  {
    var whole := x.Floor;
    var digits := DropTrailingZeros(PadLeft(NatText(((x - whole as real) * Pow10(17) as real).Floor), 17));
    if digits == [] then NatText(whole) else NatText(whole) + "." + digits
  }

  function PadLeft(s: string, width: nat): (r: string)
    ensures |r| >= |s|
    decreases width - |s|
  {
    if |s| >= width then s else PadLeft("0" + s, width)
  }

  function DropTrailingZeros(s: string): string {
    if s != [] && s[|s| - 1] == '0' then DropTrailingZeros(s[..|s| - 1]) else s
  }

  /** The part of `Number(text)` this model covers: whitespace at either end is
      skipped, then an optional sign and decimal digits with an optional fraction;
      blank text is 0. None stands for NaN. */
  function ParseNumber(s: string): Option<real>
    decreases |s|
  {
    if s != [] && IsSpace(s[0]) then ParseNumber(s[1..])
    else if s != [] && IsSpace(s[|s| - 1]) then ParseNumber(s[..|s| - 1])
    else if s == [] then Some(0.0)
    else if s[0] == '-' then
      match ParseUnsigned(s[1..])
      case None => None
      case Some(x) => Some(-x)
    else if s[0] == '+' then ParseUnsigned(s[1..])
    else ParseUnsigned(s)
  }

  function ParseUnsigned(t: string): Option<real> {
    match IndexOf(t, '.')
    case None =>
      if t != [] && AllDigits(t) then Some(DigitsValue(t) as real) else None
    case Some(i) =>
      var whole, fraction := t[..i], t[i + 1..];
      if |whole| + |fraction| > 0 && AllDigits(whole) && AllDigits(fraction) then
        Some(DigitsValue(whole) as real + FractionValue(fraction))
      else None
  }

  lemma NoDotInDigits(s: string)
    requires AllDigits(s)
    ensures IndexOf(s, '.') == None
  {
  }

  lemma NatTextParses(n: nat)
    ensures ParseUnsigned(NatText(n)) == Some(n as real)
  {
    NoDotInDigits(NatText(n));
    DigitsValueOfNatText(n);
  }

  /** `Number(String(i)) == i` for every integer: the text of an integer reads back
      as that integer. */
  lemma IntTextRoundTrip(i: int)
    ensures ParseNumber(IntText(i)) == Some(i as real)
  {
    var t := IntText(i);
    if i < 0 {
      var d := NatText(-i);
      assert t[0] == '-' && t[1..] == d && t[|t| - 1] == d[|d| - 1];
      NatTextParses(-i);
      MinusReads(t, (-i) as real);
    } else {
      assert t == NatText(i);
      NatTextParses(i);
      UnsignedReads(t, i as real);
    }
  }

  /** `Number(s)` reads what `s.trim()` keeps: trimming first changes nothing. */
  lemma ParseIgnoresTrim(s: string)
    ensures ParseNumber(Trim(s)) == ParseNumber(s)
  {
    ParseSkipsLeading(s);
    ParseSkipsTrailing(TrimStart(s));
  }

  lemma {:induction false} ParseSkipsLeading(s: string)
    ensures ParseNumber(TrimStart(s)) == ParseNumber(s)
  {
    if s != [] && IsSpace(s[0]) {
      ParseSkipsLeading(s[1..]);
    }
  }

  lemma {:induction false} ParseSkipsTrailing(t: string)
    requires t == [] || !IsSpace(t[0])
    ensures ParseNumber(TrimEnd(t)) == ParseNumber(t)
  {
    if t != [] && IsSpace(t[|t| - 1]) {
      var u := t[..|t| - 1];
      assert u != [] && u[0] == t[0];
      ParseSkipsTrailing(u);
    }
  }

  /** Text with no whitespace around it and no sign is read as unsigned. */
  lemma PlainParse(t: string)
    requires t != [] && !IsSpace(t[0]) && !IsSpace(t[|t| - 1]) && t[0] != '-' && t[0] != '+'
    ensures ParseNumber(t) == ParseUnsigned(t)
  {
  }

  /** Unsigned digits, with no whitespace around them, read back unchanged. */
  lemma UnsignedReads(t: string, v: real)
    requires t != [] && IsDigit(t[0]) && IsDigit(t[|t| - 1])
    requires ParseUnsigned(t) == Some(v)
    ensures ParseNumber(t) == Some(v)
  {
  }

  /** A minus sign before unsigned digits reads back negated. */
  lemma MinusReads(t: string, v: real)
    requires |t| >= 2 && t[0] == '-' && IsDigit(t[1]) && IsDigit(t[|t| - 1])
    requires ParseUnsigned(t[1..]) == Some(v)
    ensures ParseNumber(t) == Some(-v)
  {
  }

  // ---------------------------------------------------------------------------
  // Case mapping and ordering

  function UpperChar(c: char): char {
    if 'a' <= c <= 'z' then (c as int - 32) as char else c
  }

  /** `s.toUpperCase()` for the ASCII letters. */
  function ToUpper(s: string): (r: string)
    ensures |r| == |s|
    ensures forall i :: 0 <= i < |s| ==> r[i] == UpperChar(s[i])
  {
    if s == [] then [] else [UpperChar(s[0])] + ToUpper(s[1..])
  }

  /** Lexicographic order on characters, the stand-in for `localeCompare`. */
  predicate StrLess(a: string, b: string)
    decreases |a|
  {
    if a == [] then b != []
    else if b == [] then false
    else if a[0] != b[0] then a[0] < b[0]
    else StrLess(a[1..], b[1..])
  }

  lemma {:induction false} StrLessIrreflexive(a: string)
    ensures !StrLess(a, a)
  {
    if a != [] { StrLessIrreflexive(a[1..]); }
  }

  lemma {:induction false} StrLessTransitive(a: string, b: string, c: string)
    requires StrLess(a, b) && StrLess(b, c)
    ensures StrLess(a, c)
    decreases |a|
  {
    if a != [] && b != [] && c != [] && a[0] == b[0] && b[0] == c[0] {
      StrLessTransitive(a[1..], b[1..], c[1..]);
    }
  }

  lemma {:induction false} StrLessTotal(a: string, b: string)
    ensures a == b || StrLess(a, b) || StrLess(b, a)
    decreases |a|
  {
    if a != [] && b != [] && a[0] == b[0] {
      StrLessTotal(a[1..], b[1..]);
      if a[1..] == b[1..] { assert a == [a[0]] + a[1..]; assert b == [b[0]] + b[1..]; }
    }
  }
}
