/**
 * Shared value types and string helpers used by every source module:
 * an Option type, decimal digits, zero padding, Python-style
 * whitespace, and the fixed-point reading of chapter numbers.
 */
module Common {

  datatype Option<+T> = None | Some(value: T)

  /** Calendar date of a timestamp, as the sources put it in ComicInfo. */
  datatype Date = Date(year: int, month: int, day: int)

  /**
   * Helpers whose code is not part of this model, taken as given functions:
   * `format_chapter_number` (default width and width 4), strftime
   * "%Y-%m-%d %H-%M-%S" of a timestamp, the `:g` rendering of a chapter
   * number held in hundredths, and the calendar date of a timestamp.
   */
  datatype Env = Env(
    formatNumber: string -> string,
    formatNumber4: string -> string,
    stamp: int -> string,
    render: int -> string,
    civil: int -> Date)

  predicate IsDigit(c: char) { '0' <= c <= '9' }

  predicate AllDigits(s: string) { forall i :: 0 <= i < |s| ==> IsDigit(s[i]) }

  function DigitValue(c: char): (d: nat)
    requires IsDigit(c)
    ensures d < 10
  {
    (c as int) - ('0' as int)
  }

  function DigitChar(d: nat): (c: char)
    requires d < 10
    ensures IsDigit(c) && DigitValue(c) == d
  {
    (('0' as int) + d) as char
  }

  /** Value of a run of decimal digits (most significant first). */
  function DigitsValue(s: string): nat
    requires AllDigits(s)
  {
    if s == [] then 0 else DigitsValue(s[..|s| - 1]) * 10 + DigitValue(s[|s| - 1])
  }

  /** Python's `str(n)` for a natural number. */
  function NatToString(n: nat): (s: string)
    ensures |s| >= 1 && AllDigits(s)
    ensures DigitsValue(s) == n
    ensures n >= 10 ==> s[0] != '0'
  {
    if n < 10 then [DigitChar(n)]
    else
      var h := NatToString(n / 10);
      var s := h + [DigitChar(n % 10)];
      assert s[..|s| - 1] == h;
      s
  }

  /** Python's `str(i)` for an integer. */
  function IntToString(i: int): (s: string)
    ensures |s| >= 1
    ensures i >= 0 ==> s == NatToString(i)
    ensures i < 0 ==> s == "-" + NatToString(-i)
  {
    if i < 0 then "-" + NatToString(-i) else NatToString(i)
  }

  function Zeros(n: nat): (z: string)
    ensures |z| == n && forall k :: 0 <= k < n ==> z[k] == '0'
  {
    if n == 0 then "" else "0" + Zeros(n - 1)
  }

  /** Python's `f"{n:0{width}}"` for a natural number: zero padding to at least `width` digits. */
  function Padded(n: nat, width: nat): (s: string)
    ensures |s| == if |NatToString(n)| >= width then |NatToString(n)| else width
    ensures AllDigits(s) && DigitsValue(s) == n
  {
    var d := NatToString(n);
    if |d| >= width then d
    else
      var s := Zeros(width - |d|) + d;
      PaddingKeepsValue(width - |d|, d);
      s
  }

  lemma {:induction false} PaddingKeepsValue(k: nat, d: string)
    requires AllDigits(d)
    ensures AllDigits(Zeros(k) + d) && DigitsValue(Zeros(k) + d) == DigitsValue(d)
  {
    if d == [] {
      ZerosValue(k);
      assert Zeros(k) + d == Zeros(k);
    } else {
      var s := Zeros(k) + d;
      assert s[..|s| - 1] == Zeros(k) + d[..|d| - 1];
      PaddingKeepsValue(k, d[..|d| - 1]);
    }
  }

  lemma {:induction false} ZerosValue(k: nat)
    ensures AllDigits(Zeros(k)) && DigitsValue(Zeros(k)) == 0
  {
    if k > 0 {
      var z := Zeros(k);
      assert z[..k - 1] == Zeros(k - 1);
      ZerosValue(k - 1);
    }
  }

  /**
   * Python's `str.isspace` for one character: the code points that
   * `str.strip()` and the regular-expression class `\s` treat as whitespace.
   */
  predicate IsSpace(c: char)
  {
    ('\t' <= c <= '\r') || ('\U{1C}' <= c <= ' ') || c == '\U{85}' || c == '\U{A0}'
    || c == '\U{1680}' || ('\U{2000}' <= c <= '\U{200A}') || c == '\U{2028}'
    || c == '\U{2029}' || c == '\U{202F}' || c == '\U{205F}' || c == '\U{3000}'
  }

  /** ASCII lower-casing of one character (Python's `str.lower`/`casefold` on ASCII). */
  function Lower(c: char): char
  {
    if 'A' <= c <= 'Z' then (c as int + 32) as char else c
  }

  function LowerString(s: string): (r: string)
    ensures |r| == |s| && forall i :: 0 <= i < |s| ==> r[i] == Lower(s[i])
  {
    if s == [] then [] else [Lower(s[0])] + LowerString(s[1..])
  }

  /** ASCII upper-casing of one character. */
  function Upper(c: char): char
  {
    if 'a' <= c <= 'z' then (c as int - 32) as char else c
  }

  /** `sub in s` for strings. */
  predicate Contains(s: string, sub: string)
    decreases |s|
  {
    sub <= s || (s != [] && Contains(s[1..], sub))
  }

  /** Index of the first `c` in `s`, if any. */
  function IndexOf(s: string, c: char): (r: Option<nat>)
    ensures r.None? ==> forall i :: 0 <= i < |s| ==> s[i] != c
    ensures r.Some? ==> r.value < |s| && s[r.value] == c && forall i :: 0 <= i < r.value ==> s[i] != c
  {
    if s == [] then None
    else if s[0] == c then Some(0)
    else match IndexOf(s[1..], c)
      case None => None
      case Some(k) => Some(k + 1)
  }

  /** Index of the last `c` in `s`, if any. */
  function LastIndexOf(s: string, c: char): (r: Option<nat>)
    ensures r.None? ==> forall i :: 0 <= i < |s| ==> s[i] != c
    ensures r.Some? ==> r.value < |s| && s[r.value] == c && forall i :: r.value < i < |s| ==> s[i] != c
  {
    if s == [] then None
    else if s[|s| - 1] == c then Some(|s| - 1)
    else LastIndexOf(s[..|s| - 1], c)
  }

  /** The last `c` is at `k` when `s[k]` is `c` and nothing after it is. */
  lemma LastIndexAt(s: string, c: char, k: nat)
    requires k < |s| && s[k] == c && forall i :: k < i < |s| ==> s[i] != c
    ensures LastIndexOf(s, c) == Some(k)
  {
  }

  /** Python's `s.split(c)[-1]`: the text after the last `c`, or all of `s`. */
  function AfterLast(s: string, c: char): (r: string)
    ensures r <= s || (exists k :: 0 <= k < |s| && s[k] == c && r == s[k + 1..])
    ensures forall i :: 0 <= i < |r| ==> r[i] != c
    ensures (forall i :: 0 <= i < |s| ==> s[i] != c) ==> r == s
  {
    match LastIndexOf(s, c)
    case None => s
    case Some(k) => s[k + 1..]
  }

  /** Tenths and hundredths digits of a fraction part, missing digits read as 0. */
  function Hundredths(frac: string): (h: nat)
    requires AllDigits(frac)
    ensures h < 100
  {
    (if |frac| >= 1 then DigitValue(frac[0]) * 10 else 0)
    + (if |frac| >= 2 then DigitValue(frac[1]) else 0)
  }

  /**
   * Python's `float(s)` for a plain decimal (`12`, `12.5`, `12.`, `.5`),
   * in hundredths rounded toward minus infinity; None where float() raises.
   */
  function ParseNumber(s: string): (r: Option<int>)
    ensures r.Some? ==> r.value >= 0
    ensures AllDigits(s) ==> r == (if s == [] then None else Some(DigitsValue(s) * 100))
  {
    match IndexOf(s, '.')
    case None =>
      if s != [] && AllDigits(s) then Some(DigitsValue(s) * 100) else None
    case Some(k) =>
      var whole, frac := s[..k], s[k + 1..];
      if AllDigits(whole) && AllDigits(frac) && (whole != [] || frac != [])
      then Some(DigitsValue(whole) * 100 + Hundredths(frac))
      else None
  }

  /** A rendered decimal `n.d` reads back as n and d tenths. */
  lemma ParseDecimal(n: nat, d: nat)
    requires d < 10
    ensures ParseNumber(NatToString(n) + "." + [DigitChar(d)]) == Some(n * 100 + d * 10)
  {
    var w := NatToString(n);
    var s := w + "." + [DigitChar(d)];
    assert s[|w|] == '.';
    assert IndexOf(s, '.') == Some(|w|);
    assert s[..|w|] == w;
    assert s[|w| + 1..] == [DigitChar(d)];
  }

  /** `D+.D*` reads as a number. */
  lemma DottedParses(whole: string, frac: string)
    requires whole != [] && AllDigits(whole) && AllDigits(frac)
    ensures ParseNumber(whole + "." + frac) == Some(DigitsValue(whole) * 100 + Hundredths(frac))
  {
    var r := whole + "." + frac;
    assert r[|whole|] == '.';
    assert forall k :: 0 <= k < |whole| ==> r[k] == whole[k];
    assert IndexOf(r, '.') == Some(|whole|);
    assert r[..|whole|] == whole && r[|whole| + 1..] == frac;
  }

  /** Python's `int(s)` for an optionally signed run of ASCII digits. */
  function ParseInt(s: string): (r: Option<int>)
    ensures AllDigits(s) && s != [] ==> r == Some(DigitsValue(s))
  {
    if s != [] && (s[0] == '-' || s[0] == '+') then
      var t := s[1..];
      if t != [] && AllDigits(t) then Some(if s[0] == '-' then 0 - DigitsValue(t) as int else DigitsValue(t))
      else None
    else if s != [] && AllDigits(s) then Some(DigitsValue(s))
    else None
  }

  /** String concatenation regroups freely. */
  lemma Concat3<T>(a: seq<T>, b: seq<T>, c: seq<T>)
    ensures a + b + c == a + (b + c)
  {
  }

  function Min(a: int, b: int): int { if a <= b then a else b }
  function Max(a: int, b: int): int { if a >= b then a else b }

  /** `s.replace(c, rep)` for a one-character pattern. */
  function Replace(s: string, c: char, rep: string): string
  {
    if s == [] then [] else (if s[0] == c then rep else [s[0]]) + Replace(s[1..], c, rep)
  }

  lemma {:induction false} ReplaceAppend(a: string, b: string, c: char, rep: string)
    ensures Replace(a + b, c, rep) == Replace(a, c, rep) + Replace(b, c, rep)
  {
    if a != [] {
      assert (a + b)[1..] == a[1..] + b;
      ReplaceAppend(a[1..], b, c, rep);
    } else {
      assert a + b == b;
    }
  }

  lemma ReplaceShort(s: string, c: char, rep: string)
    requires |s| <= 1
    ensures Replace(s, c, rep) == if s == [] then [] else if s[0] == c then rep else s
  {
    if s != [] {
      assert Replace(s[1..], c, rep) == [];
    }
  }
}
