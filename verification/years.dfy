/** Total years of experience: the numbers the experience patterns capture,
    read as years, and the largest of them kept. Years are counted in
    hundredths, which is exact for the one- or two-decimal numbers the
    patterns accept. */
module Years {
  import opened Optional
  import opened Text

  /** Most years a token can state: 99.99. */
  const MaxYears: nat := 9999

  function DigitValue(c: char): nat
    requires IsDigit(c)
  {
    c as int - '0' as int
  }

  /** The decimal value of a string of digits. */
  function Number(s: string): (n: nat)
    requires forall i :: 0 <= i < |s| ==> IsDigit(s[i])
    ensures n < Pow10(|s|)
  {
    if |s| == 0 then 0 else Number(s[..|s| - 1]) * 10 + DigitValue(s[|s| - 1])
  }

  function Pow10(k: nat): (p: nat)
    ensures p >= 1
  {
    if k == 0 then 1 else 10 * Pow10(k - 1)
  }

  /** One or two digits. */
  predicate ShortDigits(s: string) {
    1 <= |s| <= 2 && IsDigits(s)
  }

  /** `\d{1,2}(?:\.\d{1,2})?`, the token every experience pattern captures. */
  predicate IsYearsToken(t: string) {
    ShortDigits(t) || exists p :: 1 <= p <= 2 && p < |t| && DotAt(t, p)
  }

  /** `t` is `whole.frac` with the dot at `p` and both parts one or two digits. */
  predicate DotAt(t: string, p: nat) {
    p < |t| && t[p] == '.' && ShortDigits(t[..p]) && ShortDigits(t[p + 1..])
  }

  /** `float(token)` in hundredths of a year; `None` stands for strings the
      experience patterns cannot capture. */
  function ParseYears(t: string): (r: Option<nat>)
    ensures r.Some? <==> IsYearsToken(t)
    ensures r.Some? ==> r.value <= MaxYears
  {
    if ShortDigits(t) then Some(Number(t) * 100)
    else if 1 < |t| && DotAt(t, 1) then Some(Number(t[..1]) * 100 + Fraction(t[2..]))
    else if 2 < |t| && DotAt(t, 2) then Some(Number(t[..2]) * 100 + Fraction(t[3..]))
    else None
  }

  /** One fractional digit counts tenths, two count hundredths. */
  function Fraction(f: string): (h: nat)
    requires ShortDigits(f)
    ensures h < 100
  {
    if |f| == 1 then Number(f) * 10 else Number(f)
  }

  // -------------------------------------------------------------- rendering

  function DigitChar(d: nat): (c: char)
    requires d < 10
    ensures IsDigit(c) && DigitValue(c) == d
  {
    ('0' as int + d) as char
  }

  /** A count of hundredths written as a years token with two decimals:
      `550` is `"5.50"`. */
  function ShowYears(y: nat): (t: string)
    requires y <= MaxYears
  {
    var whole := y / 100;
    var frac := y % 100;
    (if whole < 10 then [DigitChar(whole)] else [DigitChar(whole / 10), DigitChar(whole % 10)])
      + "." + [DigitChar(frac / 10), DigitChar(frac % 10)]
  }

  lemma NumberOfTwo(a: char, b: char)
    requires IsDigit(a) && IsDigit(b)
    ensures Number([a, b]) == DigitValue(a) * 10 + DigitValue(b)
  {
    assert [a, b][..1] == [a];
    assert [a][..0] == [];
  }

  /** Reading back a rendered amount gives the amount. */
  lemma ParseShowYears(y: nat)
    requires y <= MaxYears
    ensures ParseYears(ShowYears(y)) == Some(y)
  {
    var whole := y / 100;
    var frac := y % 100;
    var f := [DigitChar(frac / 10), DigitChar(frac % 10)];
    NumberOfTwo(f[0], f[1]);
    var t := ShowYears(y);
    if whole < 10 {
      var w := [DigitChar(whole)];
      assert t == w + "." + f;
      assert t[..1] == w && t[2..] == f;
      assert Number(w) == whole by { assert w[..0] == []; }
      assert DotAt(t, 1);
    } else {
      var w := [DigitChar(whole / 10), DigitChar(whole % 10)];
      NumberOfTwo(w[0], w[1]);
      assert t == w + "." + f;
      assert t[..2] == w && t[3..] == f;
      assert DotAt(t, 2);
      assert !ShortDigits(t);
      assert !DotAt(t, 1);
    }
  }

  // -------------------------------------------------------------- the fold

  /** The loop over the matches: a parsed value replaces the running maximum
      when it is larger; unparsable tokens are skipped. Starts at 0. */
  function Experience(tokens: seq<string>): (y: nat)
    ensures y <= MaxYears
    ensures forall k :: 0 <= k < |tokens| && ParseYears(tokens[k]).Some? ==> ParseYears(tokens[k]).value <= y
  {
    if |tokens| == 0 then 0
    else
      var m := Experience(tokens[..|tokens| - 1]);
      match ParseYears(tokens[|tokens| - 1])
      case Some(v) => if v > m then v else m
      case None => m
  }

  /** The result is one of the values read, or 0 when none was. */
  lemma {:induction false} ExperienceAttained(tokens: seq<string>)
    ensures var y := Experience(tokens);
      y == 0 || exists k :: 0 <= k < |tokens| && ParseYears(tokens[k]) == Some(y)
  {
    if |tokens| > 0 {
      var init := tokens[..|tokens| - 1];
      ExperienceAttained(init);
      var y := Experience(tokens);
      if y != 0 && y == Experience(init) {
        var k :| 0 <= k < |init| && ParseYears(init[k]) == Some(y);
        assert tokens[k] == init[k];
      } else if y != 0 {
        assert ParseYears(tokens[|tokens| - 1]) == Some(y);
      }
    }
  }

  /** With no match the experience stays 0. */
  lemma NoMatchNoExperience(tokens: seq<string>)
    requires forall k :: 0 <= k < |tokens| ==> !IsYearsToken(tokens[k])
    ensures Experience(tokens) == 0
  {
    ExperienceAttained(tokens);
  }

  /** "3.5" and "12" give 12 years. */
  lemma ExperienceExample()
    ensures Experience(["3.5", "12"]) == 1200
  {
    ParseThreeAndAHalf();
    ParseTwelve();
    assert ["3.5", "12"][..1] == ["3.5"];
  }

  lemma ParseThreeAndAHalf()
    ensures ParseYears("3.5") == Some(350)
  {
    assert DotAt("3.5", 1);
    assert "3.5"[..1] == "3" && "3.5"[2..] == "5";
    assert Number("3") == 3 by { assert "3"[..0] == []; }
    assert Number("5") == 5 by { assert "5"[..0] == []; }
  }

  lemma ParseTwelve()
    ensures ParseYears("12") == Some(1200)
  {
    NumberOfTwo('1', '2');
    assert "12" == ['1', '2'];
  }

  /** Example: "5.50" and "5.5" both state five and a half years. */
  lemma TrailingZero()
    ensures ParseYears("5.50") == ParseYears("5.5") == Some(550)
  {
    assert DotAt("5.5", 1);
    assert "5.5"[..1] == "5" && "5.5"[2..] == "5";
    assert Number("5") == 5 by { assert "5"[..0] == []; }
    assert DotAt("5.50", 1);
    assert "5.50"[..1] == "5" && "5.50"[2..] == "50";
    NumberOfTwo('5', '0');
    assert "50" == ['5', '0'];
  }

  /** A digit is not the decimal point. */
  lemma DigitNotDot(c: char)
    requires IsDigit(c)
    ensures c != '.'
  {
  }

  /** A token with one decimal reads as the same token with a zero appended:
      tenths are counted as hundredths. */
  lemma OneDecimalIsTwo(w: string, d: char)
    requires ShortDigits(w) && IsDigit(d)
    ensures ParseYears(w + "." + [d]) == ParseYears(w + "." + [d, '0'])
  {
    var t1 := w + "." + [d];
    var t2 := w + "." + [d, '0'];
    var p := |w|;
    assert t1[..p] == w && t1[p + 1..] == [d] && t1[p] == '.';
    assert t2[..p] == w && t2[p + 1..] == [d, '0'] && t2[p] == '.';
    assert !ShortDigits(t1) && !ShortDigits(t2);
    assert Number([d]) == DigitValue(d) by { assert [d][..0] == []; }
    NumberOfTwo(d, '0');
    if p == 2 {
      DigitNotDot(w[1]);
      assert t1[1] == w[1] && t2[1] == w[1];
    }
  }

  /** A token without decimals reads as the same number with ".00"
      appended: whole years are counted as hundredths. */
  lemma IntegerIsTwo(w: string)
    requires ShortDigits(w)
    ensures ParseYears(w) == ParseYears(w + ".00")
  {
    var t := w + ".00";
    var p := |w|;
    assert t[..p] == w && t[p + 1..] == "00" && t[p] == '.';
    assert !ShortDigits(t);
    NumberOfTwo('0', '0');
    if p == 2 {
      DigitNotDot(w[1]);
      assert t[1] == w[1];
    }
  }

  /** A whole part written with a leading zero, as in "05" or "05.5", reads
      as the same token without it; with `IntegerIsTwo`, `OneDecimalIsTwo`
      and `ParseShowYears` this fixes the value of every accepted token. */
  lemma LeadingZeroWhole(d: char, rest: string)
    requires IsDigit(d)
    requires rest == "" || (|rest| > 1 && rest[0] == '.' && ShortDigits(rest[1..]))
    ensures ParseYears(['0', d] + rest) == ParseYears([d] + rest)
  {
    var t1 := ['0', d] + rest;
    var t2 := [d] + rest;
    NumberOfTwo('0', d);
    assert Number([d]) == DigitValue(d) by { assert [d][..0] == []; }
    DigitNotDot(d);
    if rest == "" {
      assert t1 == ['0', d] && t2 == [d];
    } else {
      var f := rest[1..];
      assert t1[..2] == ['0', d] && t1[2] == '.' && t1[3..] == f && t1[1] == d;
      assert t2[..1] == [d] && t2[1] == '.' && t2[2..] == f;
      assert !ShortDigits(t1) && !ShortDigits(t2);
    }
  }
}
