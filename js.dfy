/** The few pieces of JavaScript semantics the request handlers rely on:
    request-body values, truthiness, `length`, `trim`, `Number(...)`,
    numeric comparison and number-to-string conversion. */
module Js {

  datatype Option<T> = None | Some(value: T)

  /** A request-body value, reduced to what the handlers distinguish:
      absent (`undefined` or `null`), a string, or an integral number. */
  datatype Value = Absent | Str(s: string) | Num(n: int)

  /** `!v`: the value is falsy. */
  predicate Falsy(v: Value) {
    match v
    case Absent => true
    case Str(s) => s == ""
    case Num(n) => n == 0
  }

  // ---------------------------------------------------------------- length

  /** `s.length`: the number of UTF-16 code units of `s`. */
  function Utf16Length(s: string): (n: nat)
    ensures |s| <= n <= 2 * |s|
    ensures n == 0 <==> s == ""
  {
    if s == [] then 0
    else (if s[0] as int > 0xFFFF then 2 else 1) + Utf16Length(s[1..])
  }

  /** `v.length < k`. A number has no `length`, and `undefined < k` is false. */
  predicate LengthBelow(v: Value, k: int) {
    v.Str? && Utf16Length(v.s) < k
  }

  /** `!v || v.length < k`, the handlers' minimum-length guard. */
  predicate TooShort(v: Value, k: int) {
    Falsy(v) || LengthBelow(v, k)
  }

  // ---------------------------------------------------------------- trim

  /** The characters `String.prototype.trim` removes: ECMAScript WhiteSpace
      (TAB, VT, FF, SP, NBSP, ZWNBSP and category Zs) and LineTerminator. */
  predicate IsSpace(c: char) {
    c in SpaceChars || '\U{2000}' <= c <= '\U{200A}'
  }

  const SpaceChars: set<char> :=
    {'\t', '\n', '\U{B}', '\U{C}', '\r', ' ', '\U{A0}', '\U{1680}',
     '\U{2028}', '\U{2029}', '\U{202F}', '\U{205F}', '\U{3000}', '\U{FEFF}'}

  predicate AllSpace(s: string) {
    forall i | 0 <= i < |s| :: IsSpace(s[i])
  }

  /** `s` without its leading white space. */
  function TrimStart(s: string): (r: string)
    ensures |r| <= |s|
  {
    if s != [] && IsSpace(s[0]) then TrimStart(s[1..]) else s
  }

  /** `s` without its trailing white space. */
  function TrimEnd(s: string): (r: string)
    ensures |r| <= |s|
  {
    if s != [] && IsSpace(s[|s| - 1]) then TrimEnd(s[..|s| - 1]) else s
  }

  /** `s.trim()`. */
  function Trim(s: string): string {
    TrimEnd(TrimStart(s))
  }

  /** `TrimStart(s)` is a suffix of `s`, all that was cut is white space, and
      what is left does not start with white space. */
  lemma {:induction false} TrimStartSpec(s: string)
    ensures var r := TrimStart(s);
      r == s[|s| - |r|..] && AllSpace(s[..|s| - |r|]) && (r == [] || !IsSpace(r[0]))
  {
    if s != [] && IsSpace(s[0]) {
      TrimStartSpec(s[1..]);
      var r := TrimStart(s);
      var k := |s| - |r|;
      assert s[1..][..k - 1] == s[1..k];
      forall i | 0 <= i < k ensures IsSpace(s[..k][i]) {
        if i > 0 { assert s[..k][i] == s[1..][..k - 1][i - 1]; }
      }
    }
  }

  /** `TrimEnd(s)` is a prefix of `s`, all that was cut is white space, and
      what is left does not end with white space. */
  lemma {:induction false} TrimEndSpec(s: string)
    ensures var r := TrimEnd(s);
      r == s[..|r|] && AllSpace(s[|r|..]) && (r == [] || !IsSpace(r[|r| - 1]))
  {
    if s != [] && IsSpace(s[|s| - 1]) {
      var s' := s[..|s| - 1];
      TrimEndSpec(s');
      var r := TrimEnd(s);
      assert s'[..|r|] == s[..|r|];
      forall i | |r| <= i < |s| ensures IsSpace(s[i]) {
        if i < |s| - 1 { assert s[i] == s'[|r|..][i - |r|]; }
      }
      assert forall i | 0 <= i < |s| - |r| :: s[|r|..][i] == s[|r| + i];
    }
  }

  /** `s.trim()` is `s` with a white-space prefix and a white-space suffix cut
      off, and it neither starts nor ends with white space. */
  lemma TrimSpec(s: string)
    ensures var r, i := Trim(s), |s| - |TrimStart(s)|;
      i + |r| <= |s| && s[i..i + |r|] == r && AllSpace(s[..i]) && AllSpace(s[i + |r|..])
      && (r == [] || (!IsSpace(r[0]) && !IsSpace(r[|r| - 1])))
  {
    var t := TrimStart(s);
    var i := |s| - |t|;
    var r := TrimEnd(t);
    TrimStartSpec(s);
    TrimEndSpec(t);
    assert s[i..i + |r|] == t[..|r|];
    assert s[i + |r|..] == t[|r|..];
    if r != [] {
      assert r[0] == t[0];
    }
  }

  lemma {:induction false} TrimStartSkips(p: string, s: string)
    requires AllSpace(p)
    ensures TrimStart(p + s) == TrimStart(s)
  {
    if p != [] {
      var ps := p + s;
      assert ps[0] == p[0] && IsSpace(p[0]);
      assert TrimStart(ps) == TrimStart(ps[1..]);
      assert ps[1..] == p[1..] + s;
      assert AllSpace(p[1..]) by {
        forall i | 0 <= i < |p| - 1 ensures IsSpace(p[1..][i]) {
          assert p[1..][i] == p[i + 1];
        }
      }
      TrimStartSkips(p[1..], s);
    } else {
      assert p + s == s;
    }
  }

  lemma {:induction false} TrimEndSkips(s: string, q: string)
    requires AllSpace(q)
    ensures TrimEnd(s + q) == TrimEnd(s)
  {
    if q != [] {
      assert (s + q)[|s + q| - 1] == q[|q| - 1];
      var q' := q[..|q| - 1];
      assert (s + q)[..|s + q| - 1] == s + q';
      assert AllSpace(q') by {
        forall i | 0 <= i < |q'| ensures IsSpace(q'[i]) {
          assert q'[i] == q[i];
        }
      }
      TrimEndSkips(s, q');
    } else {
      assert s + q == s;
    }
  }

  lemma {:induction false} TrimStartAppend(s: string, q: string)
    ensures TrimStart(s + q) == if AllSpace(s) then TrimStart(q) else TrimStart(s) + q
  {
    if s == [] {
      assert s + q == q;
    } else if IsSpace(s[0]) {
      assert (s + q)[1..] == s[1..] + q;
      TrimStartAppend(s[1..], q);
      assert AllSpace(s) <==> AllSpace(s[1..]) by {
        if AllSpace(s[1..]) {
          forall i | 0 <= i < |s| ensures IsSpace(s[i]) {
            if i > 0 { assert s[i] == s[1..][i - 1]; }
          }
        }
      }
    } else {
      assert !AllSpace(s);
    }
  }

  /** White space around a string never changes what `trim` returns. */
  lemma TrimIgnoresSurroundingSpace(p: string, s: string, q: string)
    requires AllSpace(p) && AllSpace(q)
    ensures Trim(p + s + q) == Trim(s)
  {
    assert p + s + q == p + (s + q);
    TrimStartSkips(p, s + q);
    TrimStartAppend(s, q);
    if AllSpace(s) {
      TrimStartSkips(q, []);
      assert q + [] == q;
      TrimStartSkips(s, []);
      assert s + [] == s;
    } else {
      TrimEndSkips(TrimStart(s), q);
    }
  }

  /** A string made of white space only trims to the empty string. */
  lemma TrimAllSpace(s: string)
    requires AllSpace(s)
    ensures Trim(s) == []
  {
    TrimStartSkips(s, []);
    assert s + [] == s;
  }

  // ---------------------------------------------------------------- decimal digits

  predicate IsDigit(c: char) {
    '0' <= c <= '9'
  }

  predicate AllDigits(s: string) {
    forall i | 0 <= i < |s| :: IsDigit(s[i])
  }

  function DigitValue(c: char): (d: nat)
    requires IsDigit(c)
    ensures d <= 9
  {
    (c as int) - ('0' as int)
  }

  function DigitChar(d: nat): (c: char)
    requires d <= 9
    ensures IsDigit(c) && DigitValue(c) == d
  {
    ('0' as int + d) as char
  }

  /** The number a string of decimal digits denotes. */
  function DecimalValue(s: string): nat
    requires AllDigits(s)
  {
    if s == [] then 0 else 10 * DecimalValue(s[..|s| - 1]) + DigitValue(s[|s| - 1])
  }

  /** The decimal digits of `n`, without leading zeros. */
  function NatToDecimal(n: nat): (s: string)
    ensures |s| >= 1 && AllDigits(s)
    ensures |s| > 1 ==> s[0] != '0'
  {
    if n < 10 then [DigitChar(n)] else NatToDecimal(n / 10) + [DigitChar(n % 10)]
  }

  lemma {:induction false} DecimalRoundTrip(n: nat)
    ensures DecimalValue(NatToDecimal(n)) == n
  {
    if n >= 10 {
      var s := NatToDecimal(n);
      assert s[..|s| - 1] == NatToDecimal(n / 10);
      DecimalRoundTrip(n / 10);
    }
  }

  /** `String(n)` (and `${n}`) for an integral number. */
  function IntToString(n: int): (s: string)
    ensures |s| >= 1
  {
    if n < 0 then "-" + NatToDecimal(-n) else NatToDecimal(n)
  }

  // ---------------------------------------------------------------- Number(...)

  /** `Number(s)` for a string, with `None` standing for NaN: surrounding
      white space is ignored, the empty string is 0, and an optional sign
      followed by decimal digits is read as an integer. */
  function StringToNumber(s: string): Option<int>
  {
    var t := Trim(s);
    if t == [] then Some(0)
    else if AllDigits(t) then Some(DecimalValue(t))
    else if |t| >= 2 && (t[0] == '+' || t[0] == '-') && AllDigits(t[1..]) then
      var d: int := DecimalValue(t[1..]);
      Some(if t[0] == '-' then -d else d)
    else None
  }

  /** A string of decimal digits reads as the number it denotes. */
  lemma DigitsToNumber(s: string)
    requires s != [] && AllDigits(s)
    ensures StringToNumber(s) == Some(DecimalValue(s))
  {
    assert TrimStart(s) == s;
    assert TrimEnd(s) == s;
  }

  /** `Number(String(n))` is `n` for every integer: the printed form has no
      white space to trim and is an optional minus sign before decimal digits. */
  lemma IntToStringRoundTrip(n: int)
    ensures StringToNumber(IntToString(n)) == Some(n)
  {
    var s := IntToString(n);
    var digits := NatToDecimal(if n < 0 then -n else n);
    DecimalRoundTrip(if n < 0 then -n else n);
    assert !IsSpace(s[0]) && !IsSpace(s[|s| - 1]);
    assert TrimStart(s) == s;
    assert TrimEnd(s) == s;
    if n < 0 {
      assert s[1..] == digits;
      assert !AllDigits(s) by { assert !IsDigit(s[0]); }
    }
  }

  /** The number a value converts to in a numeric comparison (`None` is NaN). */
  function NumberOf(v: Value): Option<int> {
    match v
    case Absent => None
    case Str(s) => StringToNumber(s)
    case Num(n) => Some(n)
  }

  /** `v < k`: false when `v` converts to NaN. */
  predicate Below(v: Value, k: int) {
    NumberOf(v).Some? && NumberOf(v).value < k
  }

  /** `v > k`: false when `v` converts to NaN. */
  predicate Above(v: Value, k: int) {
    NumberOf(v).Some? && NumberOf(v).value > k
  }

  /** `String(v)`, the argument `Date.parse` and `RegExp.prototype.test` see. */
  function ToText(v: Value): string {
    match v
    case Absent => "undefined"
    case Str(s) => s
    case Num(n) => IntToString(n)
  }
}
