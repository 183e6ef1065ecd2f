/**
 * The JavaScript built-ins that the map code uses to produce text:
 * `Number.prototype.toString` on integers (tile numbers),
 * `Number.prototype.toFixed(2)` (distance labels) and
 * `String.prototype.replace` with a string pattern (tile URL templates).
 */
module JsText {
  import opened Options

  predicate IsDigit(c: char) {
    '0' <= c <= '9'
  }

  predicate AllDigits(s: string) {
    forall i :: 0 <= i < |s| ==> IsDigit(s[i])
  }

  /** The character of the decimal digit `d`. */
  function Digit(d: nat): (c: char)
    requires d < 10
    ensures IsDigit(c)
  {
    (48 + d) as char
  }

  function DigitValue(c: char): (d: nat)
    requires IsDigit(c)
    ensures d < 10 && Digit(d) == c
  {
    c as int - 48
  }

  /** The number a string of decimal digits denotes (most significant digit first). */
  function DigitsValue(s: string): nat
    requires AllDigits(s)
  {
    if s == [] then 0 else DigitsValue(s[..|s| - 1]) * 10 + DigitValue(s[|s| - 1])
  }

  /**
   * Decimal notation of a non-negative integer, as `toString` writes it:
   * digits only, at least one, and no leading zero unless the number is 0.
   */
  function NatToDec(n: nat): (s: string)
    ensures |s| >= 1 && AllDigits(s)
    ensures |s| > 1 ==> s[0] != '0'
    ensures n == 0 <==> s == "0"
  {
    if n < 10 then [Digit(n)] else NatToDec(n / 10) + [Digit(n % 10)]
  }

  /** Reading the decimal notation back gives the number. */
  lemma {:induction false} NatToDecValue(n: nat)
    ensures DigitsValue(NatToDec(n)) == n
  {
    if n >= 10 {
      var s := NatToDec(n);
      assert s[..|s| - 1] == NatToDec(n / 10);
      NatToDecValue(n / 10);
    }
  }

  /** Decimal notation of any integer: a minus sign before the digits of a negative one. */
  function IntToDec(i: int): (s: string)
  {
    if i < 0 then "-" + NatToDec(-i) else NatToDec(i)
  }

  /** The text shapes `IntToDec` produces: an optional minus sign and a run of digits. */
  predicate IsIntText(s: string) {
    if |s| > 0 && s[0] == '-' then |s| > 1 && AllDigits(s[1..]) else |s| > 0 && AllDigits(s)
  }

  function IntTextValue(s: string): int
    requires IsIntText(s)
  {
    if s[0] == '-' then 0 - DigitsValue(s[1..]) else DigitsValue(s)
  }

  /** Tile numbers survive the trip to text and back, so a URL names exactly one tile. */
  lemma IntToDecRoundTrip(i: int)
    ensures IsIntText(IntToDec(i)) && IntTextValue(IntToDec(i)) == i
    ensures forall k :: 0 <= k < |IntToDec(i)| ==> IntToDec(i)[k] != '{'
  {
    var s := IntToDec(i);
    if i < 0 {
      assert s[1..] == NatToDec(-i);
      NatToDecValue(-i);
    } else {
      NatToDecValue(i);
    }
  }

  // ---------------------------------------------------------------------------
  // Number.prototype.toFixed(2)

  /**
   * The integer count of hundredths that `toFixed(2)` prints for the magnitude
   * of `x`: the n with n / 100 nearest to |x|, the larger one on a tie.
   */
  function Hundredths(x: real): (n: nat)
  {
    var m := if x < 0.0 then -x else x;
    (m * 100.0 + 0.5).Floor
  }

  /**
   * `x.toFixed(2)`: a minus sign for a negative `x`, the integer part of the
   * rounded magnitude in decimal, a point and exactly two decimals.
   */
  function ToFixed2(x: real): string
  {
    (if x < 0.0 then "-" else "") + HundredthsText(Hundredths(x))
  }

  /** A count of hundredths written as its integer part, a point and two decimals. */
  function HundredthsText(n: nat): string {
    NatToDec(n / 100) + "." + [Digit(n % 100 / 10), Digit(n % 10)]
  }

  /** The text after an optional leading minus sign. */
  function Magnitude(s: string): string {
    if |s| > 0 && s[0] == '-' then s[1..] else s
  }

  /** Text of the shape `[0-9]+\.[0-9][0-9]`. */
  predicate IsUnsignedFixed2(b: string) {
    |b| >= 4 && b[|b| - 3] == '.' && AllDigits(b[..|b| - 3]) && AllDigits(b[|b| - 2..])
  }

  /** Text of the shape `-?[0-9]+\.[0-9][0-9]`. */
  predicate IsFixed2Text(s: string) {
    IsUnsignedFixed2(Magnitude(s))
  }

  function UnsignedFixed2Value(b: string): real
    requires IsUnsignedFixed2(b)
  {
    DigitsValue(b[..|b| - 3]) as real + DigitsValue(b[|b| - 2..]) as real / 100.0
  }

  /** The number a text of the shape `-?[0-9]+\.[0-9][0-9]` denotes. */
  function Fixed2Value(s: string): real
    requires IsFixed2Text(s)
  {
    var v := UnsignedFixed2Value(Magnitude(s));
    if |s| > 0 && s[0] == '-' then -v else v
  }

  /**
   * `toFixed(2)` writes a number with two decimals that is within half a
   * hundredth of `x`, with the sign of `x`.
   */
  lemma ToFixed2Accurate(x: real)
    ensures IsFixed2Text(ToFixed2(x))
    ensures var v := Fixed2Value(ToFixed2(x));
            -0.005 <= v - x <= 0.005 && (x < 0.0 ==> v <= 0.0) && (x >= 0.0 ==> v >= 0.0)
  {
    var n := Hundredths(x);
    HundredthsTextValue(n);
    SignedRead(x < 0.0, HundredthsText(n));
    var m := if x < 0.0 then -x else x;
    assert n as real <= m * 100.0 + 0.5 < n as real + 1.0;
  }

  /** The text of a count of hundredths reads back as that many hundredths. */
  lemma HundredthsTextValue(n: nat)
    ensures IsUnsignedFixed2(HundredthsText(n)) && HundredthsText(n)[0] != '-'
    ensures UnsignedFixed2Value(HundredthsText(n)) == n as real / 100.0
  {
    var ip := NatToDec(n / 100);
    var fp := [Digit(n % 100 / 10), Digit(n % 10)];
    UnsignedParts(ip, fp);
    NatToDecValue(n / 100);
    TwoDigitsValue(n % 100 / 10, n % 10);
    assert (ip + "." + fp)[0] == ip[0];
    assert 10 * (n % 100 / 10) + n % 10 == n % 100;
    assert (n / 100) * 100 + n % 100 == n;
  }

  lemma SignedRead(neg: bool, body: string)
    requires IsUnsignedFixed2(body) && body[0] != '-'
    ensures IsFixed2Text((if neg then "-" else "") + body)
    ensures Fixed2Value((if neg then "-" else "") + body)
            == if neg then -UnsignedFixed2Value(body) else UnsignedFixed2Value(body)
  {
    var s := (if neg then "-" else "") + body;
    if neg {
      assert s[0] == '-';
      assert s[1..] == body;
    } else {
      assert s == body;
    }
  }

  lemma UnsignedParts(ip: string, fp: string)
    requires |ip| >= 1 && AllDigits(ip)
    requires |fp| == 2 && AllDigits(fp)
    ensures IsUnsignedFixed2(ip + "." + fp)
    ensures UnsignedFixed2Value(ip + "." + fp) == DigitsValue(ip) as real + DigitsValue(fp) as real / 100.0
  {
    var body := ip + "." + fp;
    assert body[..|body| - 3] == ip;
    assert body[|body| - 2..] == fp;
  }

  lemma TwoDigitsValue(d1: nat, d0: nat)
    requires d1 < 10 && d0 < 10
    ensures DigitsValue([Digit(d1), Digit(d0)]) == 10 * d1 + d0
  {
    var s := [Digit(d1), Digit(d0)];
    assert s[..1] == [Digit(d1)];
    assert s[..1][..0] == [];
    assert DigitValue(Digit(d1)) == d1 && DigitValue(Digit(d0)) == d0;
    assert DigitsValue(s[..1]) == d1;
  }

  // ---------------------------------------------------------------------------
  // String.prototype.replace with a string pattern

  /** `pat` occurs in `s` starting at index `j`. */
  predicate OccursAt(s: string, pat: string, j: int) {
    0 <= j && j + |pat| <= |s| && s[j..j + |pat|] == pat
  }

  /** The first index at or after `from` where `pat` occurs in `s`, as `indexOf` finds it. */
  function IndexFrom(s: string, pat: string, from: nat): (r: Option<nat>)
    requires from <= |s|
    ensures r.Some? ==> from <= r.value && OccursAt(s, pat, r.value)
    ensures r.Some? ==> forall j :: from <= j < r.value ==> !OccursAt(s, pat, j)
    ensures r.None? ==> forall j :: from <= j <= |s| ==> !OccursAt(s, pat, j)
    decreases |s| - from
  {
    if OccursAt(s, pat, from) then Some(from)
    else if from == |s| then None
    else IndexFrom(s, pat, from + 1)
  }

  /**
   * `s.replace(pat, rep)` for a string `pat` and a replacement without `$`
   * patterns: the first occurrence of `pat` is replaced, or `s` is returned unchanged.
   */
  function ReplaceFirst(s: string, pat: string, rep: string): string
  {
    match IndexFrom(s, pat, 0)
    case None => s
    case Some(i) => s[..i] + rep + s[i + |pat|..]
  }

  predicate NoBrace(s: string) {
    forall i :: 0 <= i < |s| ==> s[i] != '{'
  }

  /**
   * For a pattern that opens with `{`, the occurrence replaced is the one
   * right after a prefix free of `{`; everything after it is left alone,
   * including later occurrences.
   */
  lemma ReplaceFirstAfter(a: string, pat: string, b: string, rep: string)
    requires |pat| > 0 && pat[0] == '{' && NoBrace(a)
    ensures ReplaceFirst(a + pat + b, pat, rep) == a + rep + b
  {
    var s := a + pat + b;
    assert OccursAt(s, pat, |a|);
    forall j | 0 <= j < |a|
      ensures !OccursAt(s, pat, j)
    {
      assert s[j] == a[j] != pat[0];
      if j + |pat| <= |s| {
        assert s[j..j + |pat|][0] == s[j];
      }
    }
    assert IndexFrom(s, pat, 0) == Some(|a|);
    assert s[..|a|] == a;
    assert s[|a| + |pat|..] == b;
  }

  /** When `pat` does not occur, `replace` returns the text unchanged. */
  lemma ReplaceFirstAbsent(s: string, pat: string, rep: string)
    requires forall j :: 0 <= j <= |s| ==> !OccursAt(s, pat, j)
    ensures ReplaceFirst(s, pat, rep) == s
  {
    assert IndexFrom(s, pat, 0).None?;
  }
}
