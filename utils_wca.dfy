/** The two pure helpers of utils_wca.py that the statistics rely on: the
    centisecond formatter `timeconvert` and the comma-separated list parsing
    of `load_config`. */
module UtilsWca {

  import opened Tables

  // ---------------------------------------------------------------------
  // Decimal digits
  // ---------------------------------------------------------------------

  predicate IsDigit(c: char) {
    '0' <= c <= '9'
  }

  predicate AllDigits(s: string) {
    forall i :: 0 <= i < |s| ==> IsDigit(s[i])
  }

  function DigitChar(d: nat): (c: char)
    requires d < 10
    ensures IsDigit(c)
  {
    (48 + d) as char
  }

  function DigitValue(c: char): nat
    requires IsDigit(c)
  {
    (c as int - 48) as nat
  }

  /** Decimal notation of `n`, without leading zeros: Python's `str(n)`. */
  function NatToString(n: nat): (s: string)
    ensures |s| >= 1 && AllDigits(s)
    decreases n
  {
    if n < 10 then [DigitChar(n)] else NatToString(n / 10) + [DigitChar(n % 10)]
  }

  /** Python's `str` on a (possibly negative) integer. */
  function IntToString(n: int): string {
    if n < 0 then "-" + NatToString(-n) else NatToString(n)
  }

  /** The value of a digit string, read most significant digit first. */
  function ParseNat(s: string): nat
    requires AllDigits(s)
  {
    if s == [] then 0 else ParseNat(s[..|s| - 1]) * 10 + DigitValue(s[|s| - 1])
  }

  lemma {:induction false} ParseNatToString(n: nat)
    ensures ParseNat(NatToString(n)) == n
    decreases n
  {
    var s := NatToString(n);
    if n >= 10 {
      ParseNatToString(n / 10);
      assert s[..|s| - 1] == NatToString(n / 10);
    }
  }

  /** A leading zero does not change the value. */
  lemma {:induction false} ParseNatLeadingZero(t: string)
    requires AllDigits(t)
    ensures AllDigits("0" + t) && ParseNat("0" + t) == ParseNat(t)
    decreases |t|
  {
    if t != [] {
      var u := "0" + t;
      assert u[..|u| - 1] == "0" + t[..|t| - 1];
      ParseNatLeadingZero(t[..|t| - 1]);
    }
  }

  // ---------------------------------------------------------------------
  // timeconvert (utils_wca.py:296-320)
  // ---------------------------------------------------------------------

  /** Exactly two digits, with a leading zero below 10. */
  function TwoDigits(n: nat): (s: string)
    requires n < 100
    ensures |s| == 2 && AllDigits(s)
  {
    [DigitChar(n / 10), DigitChar(n % 10)]
  }

  /** `f"{n / 100:.2f}"` for a non-negative integer `n` of centiseconds. */
  function Cents(n: nat): string {
    NatToString(n / 100) + "." + TwoDigits(n % 100)
  }

  /** `timeconvert`: "SS.CC" below one minute (6000 centiseconds), "M:SS.CC" from one minute on. */
  function Timeconvert(x: int): string {
    if x < 6000 then
      if x < 0 then "-" + Cents(-x) else Cents(x)
    else
      var a := x % 6000;
      if a < 1000 then NatToString(x / 6000) + ":0" + Cents(a)
      else NatToString(x / 6000) + ":" + Cents(a)
  }

  /** Below one minute: seconds with exactly two decimals and no minutes field. */
  lemma {:induction false} TimeconvertUnderMinute(x: int)
    requires 0 <= x < 6000
    ensures ':' !in Timeconvert(x)
    ensures var s := Timeconvert(x);
      |s| >= 4 && s[|s| - 3] == '.' && '.' !in s[..|s| - 3]
      && AllDigits(s[..|s| - 3]) && AllDigits(s[|s| - 2..])
      && ParseNat(s[..|s| - 3]) == x / 100 && ParseNat(s[|s| - 2..]) == x % 100
  {
    var s := Timeconvert(x);
    var w := NatToString(x / 100);
    assert s == w + "." + TwoDigits(x % 100);
    assert s[..|s| - 3] == w;
    assert s[|s| - 2..] == TwoDigits(x % 100);
    ParseNatToString(x / 100);
    assert ParseNat(TwoDigits(x % 100)) == x % 100 by {
      assert TwoDigits(x % 100)[..1] == [DigitChar(x % 100 / 10)];
      assert [DigitChar(x % 100 / 10)][..0] == [];
    }
    assert ':' !in s by {
      forall i | 0 <= i < |s| ensures s[i] != ':' {
        if i < |w| { assert s[i] == w[i]; }
      }
    }
  }

  /** From one minute on: "M:SS.CC" with M = x div 6000 and a two-digit seconds
      field, the "0" inserted below ten seconds included. */
  lemma {:induction false} TimeconvertMinutes(x: int)
    requires x >= 6000
    ensures Timeconvert(x)
      == NatToString(x / 6000) + ":" + TwoDigits(x % 6000 / 100) + "." + TwoDigits(x % 100)
  {
    var a := x % 6000;
    assert a % 100 == x % 100;
    if a < 1000 {
      assert NatToString(a / 100) == [DigitChar(a / 100)];
      assert TwoDigits(a / 100) == "0" + [DigitChar(a / 100)];
    } else {
      var t := a / 100;
      assert 10 <= t < 60;
      assert NatToString(t) == NatToString(t / 10) + [DigitChar(t % 10)];
      assert NatToString(t / 10) == [DigitChar(t / 10)];
    }
  }

  /** Position of the first `c` in `s`, or |s| when there is none. */
  function IndexOf(s: string, c: char): (k: nat)
    ensures k <= |s|
    ensures k < |s| ==> s[k] == c
    ensures forall i :: 0 <= i < k ==> s[i] != c
  {
    if s == [] then 0 else if s[0] == c then 0 else 1 + IndexOf(s[1..], c)
  }

  lemma {:induction false} IndexOfAfterDigits(w: string, c: char, rest: string)
    requires AllDigits(w) && !IsDigit(c)
    ensures IndexOf(w + [c] + rest, c) == |w|
    decreases |w|
  {
    if w != [] {
      assert (w + [c] + rest)[1..] == w[1..] + [c] + rest;
      IndexOfAfterDigits(w[1..], c, rest);
    }
  }

  /** "S.CC" read back as centiseconds; 0 when it is not of that shape. */
  function ParseCents(s: string): int {
    var k := IndexOf(s, '.');
    if k < |s| && AllDigits(s[..k]) && AllDigits(s[k + 1..]) then
      ParseNat(s[..k]) * 100 + ParseNat(s[k + 1..])
    else 0
  }

  /** A `timeconvert` string read back as centiseconds: M * 6000 + SS * 100 + CC. */
  function ParseTime(s: string): int {
    if |s| > 0 && s[0] == '-' then -ParseUnsigned(s[1..]) else ParseUnsigned(s)
  }

  function ParseUnsigned(s: string): int {
    var k := IndexOf(s, ':');
    if k < |s| && AllDigits(s[..k]) then ParseNat(s[..k]) * 6000 + ParseCents(s[k + 1..])
    else ParseCents(s)
  }

  lemma {:induction false} ParseCentsOf(w: string, f: string)
    requires AllDigits(w) && AllDigits(f)
    ensures ParseCents(w + "." + f) == ParseNat(w) * 100 + ParseNat(f)
  {
    var s := w + "." + f;
    IndexOfAfterDigits(w, '.', f);
    assert s[..|w|] == w;
    assert s[|w| + 1..] == f;
  }

  lemma ParseTwoDigits(m: nat)
    requires m < 100
    ensures ParseNat(TwoDigits(m)) == m
  {
    var s := TwoDigits(m);
    assert s[..1] == [DigitChar(m / 10)];
    assert s[..1][..0] == [];
    assert DigitValue(DigitChar(m / 10)) == m / 10;
    assert DigitValue(DigitChar(m % 10)) == m % 10;
    assert ParseNat(s[..1]) == m / 10;
    assert ParseNat(s) == ParseNat(s[..1]) * 10 + DigitValue(s[1]);
  }

  lemma {:induction false} ParseCentsCents(n: nat)
    ensures ParseCents(Cents(n)) == n
  {
    ParseCentsOf(NatToString(n / 100), TwoDigits(n % 100));
    ParseNatToString(n / 100);
    ParseTwoDigits(n % 100);
  }

  /** `Cents` has no colon, so it is read as seconds only. */
  lemma {:induction false} ParseUnsignedCents(n: nat)
    ensures ParseUnsigned(Cents(n)) == n
  {
    var s := Cents(n);
    var w := NatToString(n / 100);
    assert s == w + "." + TwoDigits(n % 100);
    forall i | 0 <= i < |s| ensures s[i] != ':' {
      if i < |w| { assert s[i] == w[i]; } else if i > |w| { assert s[i] == TwoDigits(n % 100)[i - |w| - 1]; }
    }
    ParseCentsCents(n);
  }

  /** A colon after a digit run splits minutes from the seconds part. */
  lemma {:induction false} ParseUnsignedOf(m: string, rest: string)
    requires AllDigits(m)
    ensures ParseUnsigned(m + [':'] + rest) == ParseNat(m) * 6000 + ParseCents(rest)
  {
    var s := m + [':'] + rest;
    IndexOfAfterDigits(m, ':', rest);
    assert s[..|m|] == m;
    assert s[|m| + 1..] == rest;
  }

  lemma MinutesArith(x: nat)
    ensures (x / 6000) * 6000 + (x % 6000 / 100) * 100 + x % 100 == x
  {
    var q := x / 6000;
    var r := x % 6000;
    var a := r / 100;
    var c := r % 100;
    assert x == q * 6000 + r;
    assert r == a * 100 + c;
    assert x == (q * 60 + a) * 100 + c;
    assert x % 100 == c;
  }

  lemma {:induction false} ParseUnsignedMinutes(x: int)
    requires x >= 6000
    ensures ParseUnsigned(Timeconvert(x)) == x
  {
    var m := NatToString(x / 6000);
    var a := x % 6000 / 100;
    var c := x % 100;
    var rest := TwoDigits(a) + "." + TwoDigits(c);
    TimeconvertMinutes(x);
    assert Timeconvert(x) == m + [':'] + rest;
    ParseUnsignedOf(m, rest);
    ParseCentsOf(TwoDigits(a), TwoDigits(c));
    ParseNatToString(x / 6000);
    ParseTwoDigits(a);
    ParseTwoDigits(c);
    MinutesArith(x);
  }

  /** Round trip: the centiseconds are read back from the formatted string. */
  lemma {:induction false} TimeconvertRoundTrip(x: int)
    ensures ParseTime(Timeconvert(x)) == x
  {
    var s := Timeconvert(x);
    if x < 0 {
      assert s[1..] == Cents(-x);
      ParseUnsignedCents(-x);
    } else if x < 6000 {
      assert s[0] == NatToString(x / 100)[0];
      ParseUnsignedCents(x);
    } else {
      assert s[0] == NatToString(x / 6000)[0];
      ParseUnsignedMinutes(x);
    }
  }

  // ---------------------------------------------------------------------
  // Comma-separated lists of load_config (utils_wca.py:91-96)
  // ---------------------------------------------------------------------

  /** The whitespace that Python's `str.strip()` removes, restricted to ASCII. */
  predicate IsSpace(c: char) {
    // ' ', '\t', '\n', vertical tab, form feed, '\r', and the four separators 0x1c-0x1f
    c == ' ' || 9 <= c as int <= 13 || 28 <= c as int <= 31
  }

  function CountChar(s: string, c: char): nat {
    if s == [] then 0 else (if s[0] == c then 1 else 0) + CountChar(s[1..], c)
  }

  /** The pieces of `s` between occurrences of a one-character separator. */
  function Split(s: string, sep: char): (parts: seq<string>)
    ensures |parts| == CountChar(s, sep) + 1
    ensures forall i :: 0 <= i < |parts| ==> sep !in parts[i]
  {
    var k := IndexOf(s, sep);
    if k == |s| then
      CountCharNone(s, sep);
      [s]
    else
      CountCharSplit(s, sep, k);
      [s[..k]] + Split(s[k + 1..], sep)
  }

  lemma {:induction false} CountCharSplit(s: string, c: char, k: nat)
    requires k < |s| && s[k] == c && forall i :: 0 <= i < k ==> s[i] != c
    ensures CountChar(s, c) == 1 + CountChar(s[k + 1..], c)
    decreases k
  {
    if k > 0 {
      CountCharSplit(s[1..], c, k - 1);
      assert s[1..][k..] == s[k + 1..];
    }
  }

  lemma {:induction false} CountCharNone(s: string, c: char)
    requires forall i :: 0 <= i < |s| ==> s[i] != c
    ensures CountChar(s, c) == 0
  {
    if s != [] {
      CountCharNone(s[1..], c);
    }
  }

  function Join(parts: seq<string>, sep: char): string
    requires |parts| >= 1
  {
    if |parts| == 1 then parts[0] else parts[0] + [sep] + Join(parts[1..], sep)
  }

  /** Splitting loses nothing: joining the parts with the separator gives the input back. */
  lemma {:induction false} JoinSplit(s: string, sep: char)
    ensures Join(Split(s, sep), sep) == s
    decreases |s|
  {
    var k := IndexOf(s, sep);
    var parts := Split(s, sep);
    if k < |s| {
      var rest := Split(s[k + 1..], sep);
      assert parts == [s[..k]] + rest;
      assert parts[1..] == rest;
      JoinSplit(s[k + 1..], sep);
      assert Join(parts, sep) == s[..k] + [sep] + Join(rest, sep);
      assert s == s[..k] + [sep] + s[k + 1..];
    } else {
      assert parts == [s];
    }
  }

  function LeadingSpaces(s: string): (n: nat)
    ensures n <= |s|
    ensures forall i :: 0 <= i < n ==> IsSpace(s[i])
    ensures n < |s| ==> !IsSpace(s[n])
  {
    if s == [] || !IsSpace(s[0]) then 0 else 1 + LeadingSpaces(s[1..])
  }

  function TrailingSpaces(s: string): (n: nat)
    ensures n <= |s|
    ensures forall i :: |s| - n <= i < |s| ==> IsSpace(s[i])
    ensures n < |s| ==> !IsSpace(s[|s| - 1 - n])
  {
    if s == [] || !IsSpace(s[|s| - 1]) then 0 else 1 + TrailingSpaces(s[..|s| - 1])
  }

  /** The slice left after removing whitespace at both ends. */
  function Strip(s: string): (t: string)
    ensures t == [] || (!IsSpace(t[0]) && !IsSpace(t[|t| - 1]))
    ensures exists i, j :: (0 <= i <= j <= |s| && t == s[i..j]
      && (forall k :: 0 <= k < i ==> IsSpace(s[k]))
      && (forall k :: j <= k < |s| ==> IsSpace(s[k])))
  {
    var l := LeadingSpaces(s);
    if l == |s| then
      assert s[l..l] == [];
      []
    else
      var r := TrailingSpaces(s[l..]);
      assert r < |s| - l;
      s[l..|s| - r]
  }

  /** The comma-separated items of `value`, each without surrounding whitespace. */
  function ParseList(value: string): (items: seq<string>)
    ensures |items| == CountChar(value, ',') + 1
    ensures forall i :: 0 <= i < |items| ==>
      ',' !in items[i] && (items[i] == [] || (!IsSpace(items[i][0]) && !IsSpace(items[i][|items[i]| - 1])))
  {
    var parts := Split(value, ',');
    var items := MapSeq(parts, Strip);
    assert forall i :: 0 <= i < |items| ==> ',' !in items[i] by {
      forall i | 0 <= i < |items| ensures ',' !in items[i] {
        var t := Strip(parts[i]);
        var a, b :| 0 <= a <= b <= |parts[i]| && t == parts[i][a..b];
        assert forall c :: c in t ==> c in parts[i];
      }
    }
    items
  }
}
