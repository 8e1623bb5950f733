/**
 * Duration formatting (`format_length`): a whole number of seconds rendered as
 * `M:SS` below one hour and `H:MM:SS` from one hour on, plus the decimal digit
 * strings it is built from and a parser that reads such a string back.
 */
module Duration {
  import opened Wrappers

  predicate IsDigit(c: char) { '0' <= c <= '9' }

  predicate AllDigits(s: string) { forall i :: 0 <= i < |s| ==> IsDigit(s[i]) }

  /** A decimal numeral as Python's `str(int)` writes it: no sign, no leading zero. */
  predicate Canonical(s: string) { |s| >= 1 && AllDigits(s) && (s[0] == '0' ==> |s| == 1) }

  function DigitChar(d: nat): (c: char)
    requires d < 10
    ensures IsDigit(c) && c as int - '0' as int == d
  {
    ('0' as int + d) as char
  }

  /** The value of a string of decimal digits, read most significant digit first. */
  function DigitsValue(s: string): nat
    requires AllDigits(s)
  {
    if s == [] then 0 else DigitsValue(s[..|s| - 1]) * 10 + (s[|s| - 1] as int - '0' as int)
  }

  function ParseNat(s: string): Option<nat>
  {
    if |s| >= 1 && AllDigits(s) then Some(DigitsValue(s)) else None
  }

  /** Python's `str(n)` for a natural number. */
  function NatToString(n: nat): (s: string)
    ensures Canonical(s)
    ensures s[0] == '0' <==> n == 0
    decreases n
  {
    if n < 10 then [DigitChar(n)] else NatToString(n / 10) + [DigitChar(n % 10)]
  }

  /** Python's `f"{n:02}"` for a number below 100: exactly two digits, zero-padded. */
  function Pad2(n: nat): (s: string)
    requires n < 100
    ensures |s| == 2 && AllDigits(s)
  {
    [DigitChar(n / 10), DigitChar(n % 10)]
  }

  /** `format_length` (generate_library_html_export.py), on the truncated number of seconds. */
  function FormatLength(total: nat): (r: string)
    ensures forall i :: 0 <= i < |r| ==> IsDigit(r[i]) || r[i] == ':'
  {
    var hours := total / 3600;
    var minutes := (total % 3600) / 60;
    var seconds := total % 60;
    if hours > 0 then NatToString(hours) + ":" + Pad2(minutes) + ":" + Pad2(seconds)
    else NatToString(minutes) + ":" + Pad2(seconds)
  }

  /** The fields of `s` between occurrences of `sep`, as Python's `str.split(sep)`. */
  function Split(s: string, sep: char): (parts: seq<string>)
    ensures |parts| >= 1
    decreases |s|
  {
    if s == [] then [[]]
    else
      var rest := Split(s[1..], sep);
      if s[0] == sep then [[]] + rest else [[s[0]] + rest[0]] + rest[1..]
  }

  /**
   * The number of seconds a clock string `M:SS` or `H:MM:SS` denotes: the rightmost
   * field is seconds, the one before it minutes and a third, leading one hours.
   */
  function ClockValue(s: string): Option<nat>
  {
    var f := Split(s, ':');
    if |f| == 2 && ParseNat(f[0]).Some? && ParseNat(f[1]).Some? then
      Some(60 * ParseNat(f[0]).value + ParseNat(f[1]).value)
    else if |f| == 3 && ParseNat(f[0]).Some? && ParseNat(f[1]).Some? && ParseNat(f[2]).Some? then
      Some(3600 * ParseNat(f[0]).value + 60 * ParseNat(f[1]).value + ParseNat(f[2]).value)
    else None
  }

  lemma {:induction false} NatToStringValue(n: nat)
    ensures DigitsValue(NatToString(n)) == n
    decreases n
  {
    if n >= 10 {
      var s := NatToString(n / 10);
      var t := s + [DigitChar(n % 10)];
      assert t[..|t| - 1] == s;
      NatToStringValue(n / 10);
    }
  }

  lemma Pad2Value(n: nat)
    requires n < 100
    ensures DigitsValue(Pad2(n)) == n
  {
    var s := Pad2(n);
    assert s[..1] == [s[0]];
    assert [s[0]][..0] == [];
    assert DigitsValue([s[0]]) == n / 10;
  }

  lemma {:induction false} SplitWithout(a: string, sep: char)
    requires sep !in a
    ensures Split(a, sep) == [a]
    decreases |a|
  {
    if a != [] {
      SplitWithout(a[1..], sep);
      assert [a[0]] + a[1..] == a;
    }
  }

  lemma {:induction false} SplitAt(a: string, b: string, sep: char)
    requires sep !in a
    ensures Split(a + [sep] + b, sep) == [a] + Split(b, sep)
    decreases |a|
  {
    var s := a + [sep] + b;
    if a == [] {
      assert s[1..] == b;
    } else {
      assert s[1..] == a[1..] + [sep] + b;
      SplitAt(a[1..], b, sep);
      assert [a[0]] + a[1..] == a;
    }
  }

  /** The colon-separated fields of `format_length`'s output, as it builds them. */
  lemma FormatLengthSplit(total: nat)
    ensures var h, m, s := total / 3600, (total % 3600) / 60, total % 60;
      Split(FormatLength(total), ':') ==
        if h > 0 then [NatToString(h), Pad2(m), Pad2(s)] else [NatToString(m), Pad2(s)]
  {
    var h, m, s := total / 3600, (total % 3600) / 60, total % 60;
    assert ':' !in Pad2(s);
    SplitWithout(Pad2(s), ':');
    if h > 0 {
      assert ':' !in NatToString(h);
      assert ':' !in Pad2(m);
      assert FormatLength(total) == NatToString(h) + [':'] + (Pad2(m) + [':'] + Pad2(s));
      SplitAt(NatToString(h), Pad2(m) + [':'] + Pad2(s), ':');
      SplitAt(Pad2(m), Pad2(s), ':');
    } else {
      assert ':' !in NatToString(m);
      assert FormatLength(total) == NatToString(m) + [':'] + Pad2(s);
      SplitAt(NatToString(m), Pad2(s), ':');
    }
  }

  /** `total` splits into hours, minutes below 60 and seconds below 60. */
  lemma ClockArithmetic(total: nat)
    ensures (total % 3600) / 60 < 60
    ensures total == 3600 * (total / 3600) + 60 * ((total % 3600) / 60) + total % 60
    ensures total < 3600 ==> total / 3600 == 0 && (total % 3600) / 60 == total / 60
  {
    var h, r := total / 3600, total % 3600;
    var m, s := r / 60, r % 60;
    assert total == 3600 * h + r;
    assert r == 60 * m + s;
    assert total == 60 * (60 * h + m) + s;
    assert total % 60 == s;
  }

  /**
   * The shape of `format_length`'s output: two colon-separated fields below one hour,
   * three from one hour on; the leading field is an unpadded numeral (the minutes,
   * resp. the non-zero hours); every later field has exactly two digits and is below 60.
   */
  lemma FormatLengthFields(total: nat)
    ensures var f := Split(FormatLength(total), ':');
      && |f| == (if total < 3600 then 2 else 3)
      && Canonical(f[0])
      && (total < 3600 ==> DigitsValue(f[0]) == total / 60)
      && (total >= 3600 ==> DigitsValue(f[0]) == total / 3600 >= 1)
      && forall k :: 1 <= k < |f| ==> |f[k]| == 2 && AllDigits(f[k]) && DigitsValue(f[k]) < 60
  {
    var h, m, s := total / 3600, (total % 3600) / 60, total % 60;
    ClockArithmetic(total);
    FormatLengthSplit(total);
    Pad2Value(m);
    Pad2Value(s);
    if h > 0 { NatToStringValue(h); } else { NatToStringValue(m); }
  }

  /** Reading the H, M and S fields back gives the input: 3600*H + 60*M + S == total. */
  lemma FormatLengthRoundTrip(total: nat)
    ensures ClockValue(FormatLength(total)) == Some(total)
  {
    var h, m, s := total / 3600, (total % 3600) / 60, total % 60;
    ClockArithmetic(total);
    FormatLengthSplit(total);
    Pad2Value(m);
    Pad2Value(s);
    if h > 0 { NatToStringValue(h); } else { NatToStringValue(m); }
  }

  lemma FormatLengthExamples()
    ensures FormatLength(0) == "0:00"
    ensures FormatLength(61) == "1:01"
    ensures FormatLength(3661) == "1:01:01"
  {
  }
}
