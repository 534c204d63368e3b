/** Price text handling shared by both scrapers: Python's str.strip(),
    str.replace(c, ''), and float() restricted to plain decimal literals. */
module PriceText {
  import opened Wrappers

  /** The characters for which Python's str.isspace() holds. */
  predicate IsSpace(c: char) {
    var n := c as int;
    (9 <= n <= 13) || (28 <= n <= 32) || n == 0x85 || n == 0xA0 || n == 0x1680
    || (0x2000 <= n <= 0x200A) || n == 0x2028 || n == 0x2029 || n == 0x202F
    || n == 0x205F || n == 0x3000
  }

  /** Which characters a trim removes: str.strip() with no argument removes
      every str.isspace() character; float() maps the non-ASCII ones to ' '
      but trims only the ASCII whitespace " \t\n\v\f\r", so it keeps the
      separators U+001C to U+001F. */
  datatype Blanks = StrSpace | FloatSpace

  predicate IsBlank(c: char, blanks: Blanks) {
    IsSpace(c) && (blanks == StrSpace || !(28 <= c as int <= 31))
  }

  /** Drops leading blanks. */
  function TrimStart(s: string, blanks: Blanks): (r: string)
    ensures |r| <= |s| && r == s[|s| - |r|..]
    ensures r == [] || !IsBlank(r[0], blanks)
  {
    if s != [] && IsBlank(s[0], blanks) then TrimStart(s[1..], blanks) else s
  }

  /** Drops trailing blanks. */
  function TrimEnd(s: string, blanks: Blanks): (r: string)
    ensures |r| <= |s| && r == s[..|r|]
    ensures r == [] || !IsBlank(r[|r| - 1], blanks)
  {
    if s != [] && IsBlank(s[|s| - 1], blanks) then TrimEnd(s[..|s| - 1], blanks) else s
  }

  /** TrimStart removes nothing but blanks. */
  lemma {:induction false} TrimStartDropsSpaces(s: string, blanks: Blanks, i: nat)
    requires i < |s| - |TrimStart(s, blanks)|
    ensures IsBlank(s[i], blanks)
  {
    if i > 0 {
      TrimStartDropsSpaces(s[1..], blanks, i - 1);
    }
  }

  /** TrimEnd removes nothing but blanks. */
  lemma {:induction false} TrimEndDropsSpaces(s: string, blanks: Blanks, i: nat)
    requires |TrimEnd(s, blanks)| <= i < |s|
    ensures IsBlank(s[i], blanks)
  {
    if i < |s| - 1 {
      TrimEndDropsSpaces(s[..|s| - 1], blanks, i);
    }
  }

  /** The text between the first and the last non-blank character, or ""
      when there is none: str.strip() with StrSpace, the trim inside float()
      with FloatSpace. */
  function Strip(s: string, blanks: Blanks): (r: string)
    ensures r == [] || (!IsBlank(r[0], blanks) && !IsBlank(r[|r| - 1], blanks))
  {
    TrimEnd(TrimStart(s, blanks), blanks)
  }

  /** Stripping only removes characters. */
  lemma StripSubset(s: string, blanks: Blanks, c: char)
    requires c in Strip(s, blanks)
    ensures c in s
  {
    var t := TrimStart(s, blanks);
    var r := TrimEnd(t, blanks);
    var k :| 0 <= k < |r| && r[k] == c;
    assert t[k] == c;
    assert s[|s| - |t| + k] == c;
  }

  lemma StripKeepsTrimmed(s: string, blanks: Blanks)
    requires s != [] && !IsSpace(s[0]) && !IsSpace(s[|s| - 1])
    ensures Strip(s, blanks) == s
  {
  }

  /** s.replace(c, ''): every occurrence of c removed, the rest kept in order. */
  function Without(s: string, c: char): (r: string)
    ensures c !in r
    ensures |r| <= |s|
  {
    if s == [] then []
    else
      var init, last := s[..|s| - 1], s[|s| - 1];
      assert s == init + [last];
      Without(init, c) + (if last == c then [] else [last])
  }

  lemma {:induction false} WithoutAppend(a: string, b: string, c: char)
    ensures Without(a + b, c) == Without(a, c) + Without(b, c)
    decreases |b|
  {
    if b == [] {
      assert a + b == a;
    } else {
      var init, last := b[..|b| - 1], b[|b| - 1];
      var ab := a + b;
      assert ab[..|ab| - 1] == a + init && ab[|ab| - 1] == last;
      var kept := if last == c then [] else [last];
      calc {
        Without(ab, c);
        Without(a + init, c) + kept;
        { WithoutAppend(a, init, c); }
        (Without(a, c) + Without(init, c)) + kept;
        Without(a, c) + (Without(init, c) + kept);
        Without(a, c) + Without(b, c);
      }
    }
  }

  lemma {:induction false} WithoutAbsent(s: string, c: char)
    requires c !in s
    ensures Without(s, c) == s
  {
    if s != [] {
      var init := s[..|s| - 1];
      assert c !in init by { assert forall x :: x in init ==> x in s; }
      WithoutAbsent(init, c);
      assert s == init + [s[|s| - 1]];
    }
  }

  /** The cleaning step of offer.py: `.replace('$', '').replace(',', '').strip()`. */
  function Clean(s: string): (r: string)
    ensures '$' !in r && ',' !in r
    ensures r == [] || (!IsSpace(r[0]) && !IsSpace(r[|r| - 1]))
  {
    var t := Unformat(s);
    var r := Strip(t, StrSpace);
    assert '$' !in r by { if '$' in r { StripSubset(t, StrSpace, '$'); } }
    assert ',' !in r by { if ',' in r { StripSubset(t, StrSpace, ','); } }
    r
  }

  /** The cleaning step of offer2.py for the list price: only
      `.replace('$', '').replace(',', '')`, with no strip (float() trims). */
  function Unformat(s: string): (r: string)
    ensures '$' !in r && ',' !in r
    ensures forall x :: x in r ==> x in s
  {
    var t := Without(s, '$');
    var r := Without(t, ',');
    WithoutSubset(s, '$');
    WithoutSubset(t, ',');
    r
  }

  /** What float() accepts after the '$' and ',' are removed: the text had a
      digit, and without a minus sign its value is not negative. */
  lemma ParseUnformat(h: string)
    ensures ParseFloat(Unformat(h)).Some? ==> exists k :: 0 <= k < |h| && IsDigit(h[k])
    ensures ParseFloat(Unformat(h)).Some? && '-' !in h ==> ParseFloat(Unformat(h)).value >= 0.0
  {
    var u := Unformat(h);
    if ParseFloat(u).Some? {
      var k :| 0 <= k < |u| && IsDigit(u[k]);
      assert u[k] in h;
      var j :| 0 <= j < |h| && h[j] == u[k];
      assert '-' !in h ==> '-' !in u;
    }
  }

  lemma {:induction false} WithoutSubset(s: string, c: char)
    ensures forall x :: x in Without(s, c) ==> x in s
  {
    if s != [] {
      var init := s[..|s| - 1];
      WithoutSubset(init, c);
      assert s == init + [s[|s| - 1]];
    }
  }

  predicate IsDigit(c: char) { '0' <= c <= '9' }

  predicate AllDigits(s: string) {
    forall i :: 0 <= i < |s| ==> IsDigit(s[i])
  }

  function DigitValue(c: char): nat
    requires IsDigit(c)
  {
    c as int - '0' as int
  }

  function DigitChar(d: nat): (c: char)
    requires d < 10
    ensures IsDigit(c) && DigitValue(c) == d
  {
    ('0' as int + d) as char
  }

  /** The number a string of decimal digits denotes. */
  function DigitsValue(s: string): nat
    requires AllDigits(s)
  {
    if s == [] then 0 else 10 * DigitsValue(s[..|s| - 1]) + DigitValue(s[|s| - 1])
  }

  function Pow10(n: nat): (p: nat)
    ensures p > 0
  {
    if n == 0 then 1 else 10 * Pow10(n - 1)
  }

  /** The value of the literal `whole.fraction`. */
  function Decimal(whole: string, fraction: string): (v: real)
    requires AllDigits(whole) && AllDigits(fraction)
    ensures v >= DigitsValue(whole) as real
  {
    DigitsValue(whole) as real + DigitsValue(fraction) as real / Pow10(|fraction|) as real
  }

  lemma DecimalWholeOnly(whole: string, fraction: string)
    requires AllDigits(whole) && AllDigits(fraction) && DigitsValue(fraction) == 0
    ensures Decimal(whole, fraction) == DigitsValue(whole) as real
  {
  }

  function IndexOf(s: string, c: char): (i: nat)
    requires c in s
    ensures i < |s| && s[i] == c && c !in s[..i]
  {
    if s[0] == c then 0
    else
      var j := IndexOf(s[1..], c);
      assert s[..j + 1] == [s[0]] + s[1..][..j];
      j + 1
  }

  /** An unsigned decimal literal: digits with at most one point and at least
      one digit (so "12", "12.", ".5" and "12.50" are accepted, "." is not). */
  function ParseUnsigned(b: string): (r: Option<real>)
    ensures r.Some? ==> r.value >= 0.0
  {
    if '.' in b then
      var i := IndexOf(b, '.');
      var whole, fraction := b[..i], b[i + 1..];
      if AllDigits(whole) && AllDigits(fraction) && |whole| + |fraction| > 0
      then Some(Decimal(whole, fraction))
      else None
    else if b != [] && AllDigits(b) then Some(DigitsValue(b) as real)
    else None
  }

  /** An optional sign followed by an unsigned literal. */
  function ParseSigned(t: string): (r: Option<real>)
    ensures r.Some? ==> exists k :: 0 <= k < |t| && IsDigit(t[k])
    ensures r.Some? && '-' !in t ==> r.value >= 0.0
    ensures t != [] && AllDigits(t) ==> r == Some(DigitsValue(t) as real)
  {
    var signed := t != [] && (t[0] == '-' || t[0] == '+');
    var b := if signed then t[1..] else t;
    var r :=
      if signed then
        match ParseUnsigned(b)
        case None => None
        case Some(v) => Some(if t[0] == '-' then -v else v)
      else ParseUnsigned(b);
    assert r.Some? ==> exists k :: 0 <= k < |t| && IsDigit(t[k]) by {
      if r.Some? {
        ParseUnsignedHasDigit(b);
        var i :| 0 <= i < |b| && IsDigit(b[i]);
        assert b[i] == t[if signed then i + 1 else i];
      }
    }
    assert t != [] && AllDigits(t) ==> '.' !in t;
    r
  }

  /** Python's float() on a str, for decimal literals: surrounding blanks
      (FloatSpace) are ignored, an optional sign is honoured, anything else
      raises ValueError (None). */
  function ParseFloat(s: string): (r: Option<real>)
    ensures r.Some? ==> exists k :: 0 <= k < |s| && IsDigit(s[k])
    ensures r.Some? && '-' !in s ==> r.value >= 0.0
    ensures s != [] && AllDigits(s) ==> r == Some(DigitsValue(s) as real)
  {
    var t := Strip(s, FloatSpace);
    StripFloatSpace(s, t);
    ParseSigned(t)
  }

  /** What the trim inside float() keeps of its input: its digits, no minus
      sign that was not there, and all of a text of digits. */
  lemma StripFloatSpace(s: string, t: string)
    requires t == Strip(s, FloatSpace)
    ensures (exists i :: 0 <= i < |t| && IsDigit(t[i])) ==> exists k :: 0 <= k < |s| && IsDigit(s[k])
    ensures '-' !in s ==> '-' !in t
    ensures s != [] && AllDigits(s) ==> t == s
  {
    if exists i :: 0 <= i < |t| && IsDigit(t[i]) {
      var i :| 0 <= i < |t| && IsDigit(t[i]);
      StripSubset(s, FloatSpace, t[i]);
      var k :| 0 <= k < |s| && s[k] == t[i];
    }
    if '-' in t {
      StripSubset(s, FloatSpace, '-');
    }
    if s != [] && AllDigits(s) {
      StripKeepsTrimmed(s, FloatSpace);
    }
  }

  /** A text that starts with a digit has no sign. */
  lemma ParseSignedUnsigned(t: string)
    requires t != [] && IsDigit(t[0])
    ensures ParseSigned(t) == ParseUnsigned(t)
  {
  }

  /** float() keeps U+001F where str.strip() removes it: "5\U{1F}" strips
      to "5" but does not convert. */
  lemma FloatKeepsUnitSeparator()
    ensures Strip("5\U{1F}", StrSpace) == "5"
    ensures ParseFloat("5\U{1F}") == None
  {
    var s := "5\U{1F}";
    assert !IsBlank(s[0], StrSpace) && IsBlank(s[1], StrSpace) && !IsBlank(s[1], FloatSpace);
    assert s[..1] == "5";
    assert Strip(s, FloatSpace) == s;
    assert '.' !in s && !IsDigit(s[1]);
  }

  lemma ParseUnsignedHasDigit(b: string)
    requires ParseUnsigned(b).Some?
    ensures exists i :: 0 <= i < |b| && IsDigit(b[i])
  {
    if '.' in b {
      var i := IndexOf(b, '.');
      var whole, fraction := b[..i], b[i + 1..];
      if |whole| > 0 {
        assert IsDigit(b[0]);
      } else {
        assert b[i + 1] == fraction[0];
      }
    } else {
      assert IsDigit(b[0]);
    }
  }

  /** The decimal digits of n, most significant first, without leading zeros. */
  function NatDigits(n: nat): (r: string)
    ensures r != [] && AllDigits(r) && DigitsValue(r) == n
  {
    if n < 10 then
      var r := [DigitChar(n)];
      assert r[..0] == [];
      r
    else
      var init := NatDigits(n / 10);
      var r := init + [DigitChar(n % 10)];
      assert r[..|r| - 1] == init;
      r
  }

  /** Digits with a ',' before every group of three counted from the right,
      as prices over $999 are displayed ("1,299"). */
  function Grouped(ds: string): (r: string)
    ensures ds != [] ==> r != [] && r[0] == ds[0] && r[|r| - 1] == ds[|ds| - 1]
  {
    if |ds| <= 3 then ds
    else Grouped(ds[..|ds| - 3]) + [','] + ds[|ds| - 3..]
  }

  lemma {:induction false} GroupedWithoutCommas(ds: string)
    requires AllDigits(ds)
    ensures Without(Grouped(ds), ',') == ds
    decreases |ds|
  {
    if |ds| <= 3 {
      DigitsHaveNo(ds, ',');
      WithoutAbsent(ds, ',');
    } else {
      var head, tail := ds[..|ds| - 3], ds[|ds| - 3..];
      assert head + tail == ds;
      assert AllDigits(head) && AllDigits(tail);
      GroupedWithoutCommas(head);
      DigitsHaveNo(tail, ',');
      WithoutAbsent(tail, ',');
      WithoutSingle(',', ',');
      WithoutAppend(Grouped(head) + [','], tail, ',');
      WithoutAppend(Grouped(head), [','], ',');
      assert Grouped(ds) == Grouped(head) + [','] + tail;
      assert Without([','], ',') == [];
      assert Without(Grouped(head), ',') == head;
      assert Without(Grouped(head) + [','], ',') == head + [];
      var g := Grouped(head) + [','];
      assert Grouped(ds) == g + tail;
      assert Without(g + tail, ',') == Without(g, ',') + Without(tail, ',');
      assert Without(g, ',') == head;
      assert Without(tail, ',') == tail;
      assert Without(Grouped(ds), ',') == head + tail;
    }
  }

  lemma DigitsHaveNo(ds: string, c: char)
    requires AllDigits(ds) && !IsDigit(c)
    ensures c !in ds
  {
  }

  lemma WithoutSingle(x: char, c: char)
    ensures Without([x], c) == if x == c then [] else [x]
  {
    assert [x][..0] == [];
  }

  /** A whole number of cents shown as the retailers display prices:
      "$", the grouped dollars, ".", two cent digits ("$1,299.00"). */
  function FormatUsd(cents: nat): string {
    "$" + Grouped(NatDigits(cents / 100)) + "." + CentDigits(cents)
  }

  function CentDigits(cents: nat): (cc: string)
    ensures |cc| == 2 && AllDigits(cc) && DigitsValue(cc) == cents % 100
  {
    var cc := [DigitChar(cents % 100 / 10), DigitChar(cents % 10)];
    assert cc[..1] == [cc[0]] && cc[..1][..0] == [];
    assert DigitsValue(cc[..1]) == cents % 100 / 10;
    assert cents % 100 == 10 * (cents % 100 / 10) + cents % 10;
    cc
  }

  lemma {:induction false} GroupedChars(ds: string)
    ensures forall x :: x in Grouped(ds) ==> x in ds || x == ','
    decreases |ds|
  {
    if |ds| > 3 {
      var head := ds[..|ds| - 3];
      GroupedChars(head);
      assert forall x :: x in head ==> x in ds;
    }
  }

  /** The first '.' of `whole + "." + rest` is the one after `whole`. */
  lemma PointAfterDigits(whole: string, rest: string)
    requires AllDigits(whole)
    ensures '.' in whole + "." + rest
    ensures IndexOf(whole + "." + rest, '.') == |whole|
  {
    var b := whole + "." + rest;
    assert b[|whole|] == '.';
  }

  /** A literal made of digits, a point and digits converts to its value. */
  lemma ParseDecimalLiteral(whole: string, fraction: string)
    requires whole != [] && AllDigits(whole) && AllDigits(fraction)
    ensures ParseFloat(whole + "." + fraction) == Some(Decimal(whole, fraction))
  {
    var b := whole + "." + fraction;
    assert b[0] == whole[0];
    assert b[|b| - 1] == if fraction == [] then '.' else fraction[|fraction| - 1];
    calc {
      ParseFloat(b);
      ParseSigned(Strip(b, FloatSpace));
      { StripKeepsTrimmed(b, FloatSpace); }
      ParseSigned(b);
      { ParseSignedUnsigned(b); }
      ParseUnsigned(b);
      { UnsignedDecimalLiteral(whole, fraction); }
      Some(Decimal(whole, fraction));
    }
  }

  /** The same without surrounding whitespace or sign. */
  lemma UnsignedDecimalLiteral(whole: string, fraction: string)
    requires whole != [] && AllDigits(whole) && AllDigits(fraction)
    ensures ParseUnsigned(whole + "." + fraction) == Some(Decimal(whole, fraction))
  {
    var b := whole + "." + fraction;
    PointAfterDigits(whole, fraction);
    assert b[..|whole|] == whole && b[|whole| + 1..] == fraction;
  }

  /** Removing '$' from a displayed price leaves the grouped digits. */
  lemma FormatUsdWithoutDollar(cents: nat)
    ensures Without(FormatUsd(cents), '$') == Grouped(NatDigits(cents / 100)) + ("." + CentDigits(cents))
  {
    var dollars := NatDigits(cents / 100);
    var cc := CentDigits(cents);
    var rest := Grouped(dollars) + ("." + cc);
    assert FormatUsd(cents) == "$" + rest;
    WithoutAppend("$", rest, '$');
    WithoutSingle('$', '$');
    assert '$' !in rest by {
      GroupedChars(dollars);
      DigitsHaveNo(dollars, '$');
      DigitsHaveNo(cc, '$');
    }
    WithoutAbsent(rest, '$');
  }

  /** Removing ',' from the grouped digits leaves the plain literal. */
  lemma GroupedLiteralWithoutCommas(dollars: string, cc: string)
    requires AllDigits(dollars) && AllDigits(cc)
    ensures Without(Grouped(dollars) + ("." + cc), ',') == dollars + ("." + cc)
  {
    var tail := "." + cc;
    WithoutAppend(Grouped(dollars), tail, ',');
    GroupedWithoutCommas(dollars);
    DigitsHaveNo(cc, ',');
    WithoutAbsent(tail, ',');
  }

  /** Cleaning a displayed price leaves its digits and point. */
  lemma CleanFormatUsd(cents: nat)
    ensures Clean(FormatUsd(cents)) == NatDigits(cents / 100) + ("." + CentDigits(cents))
  {
    var dollars := NatDigits(cents / 100);
    var cc := CentDigits(cents);
    UnformatFormatUsd(cents);
    var body := dollars + ("." + cc);
    assert body[0] == dollars[0] && body[|body| - 1] == cc[1];
    StripKeepsTrimmed(body, StrSpace);
  }

  /** Removing '$' and ',' from a displayed price leaves its digits and
      point. */
  lemma UnformatFormatUsd(cents: nat)
    ensures Unformat(FormatUsd(cents)) == NatDigits(cents / 100) + ("." + CentDigits(cents))
  {
    FormatUsdWithoutDollar(cents);
    GroupedLiteralWithoutCommas(NatDigits(cents / 100), CentDigits(cents));
  }

  /** Round trip for the list price of offer2.py: removing '$' and ',' and
      converting any displayed price gives back its value. */
  lemma ParseUnformatFormatUsd(cents: nat)
    ensures ParseFloat(Unformat(FormatUsd(cents))) == Some(cents as real / 100.0)
  {
    var dollars := NatDigits(cents / 100);
    var cc := CentDigits(cents);
    calc {
      ParseFloat(Unformat(FormatUsd(cents)));
      { UnformatFormatUsd(cents); }
      ParseFloat(dollars + ("." + cc));
      { assert dollars + ("." + cc) == dollars + "." + cc; }
      ParseFloat(dollars + "." + cc);
      { ParseDecimalLiteral(dollars, cc); }
      Some(Decimal(dollars, cc));
      { DecimalOfCents(cents, dollars, cc); }
      Some(cents as real / 100.0);
    }
  }

  /** Round trip: cleaning then converting any displayed price gives back its
      value, so "$1,299.00" converts to 1299.0. */
  lemma ParseCleanFormatUsd(cents: nat)
    ensures ParseFloat(Clean(FormatUsd(cents))) == Some(cents as real / 100.0)
  {
    var dollars := NatDigits(cents / 100);
    var cc := CentDigits(cents);
    calc {
      ParseFloat(Clean(FormatUsd(cents)));
      { CleanFormatUsd(cents); }
      ParseFloat(dollars + ("." + cc));
      { assert dollars + ("." + cc) == dollars + "." + cc; }
      ParseFloat(dollars + "." + cc);
      { ParseDecimalLiteral(dollars, cc); }
      Some(Decimal(dollars, cc));
      { DecimalOfCents(cents, dollars, cc); }
      Some(cents as real / 100.0);
    }
  }

  /** The displayed price "$1,299.00" converts to 1299.0. */
  lemma ParseThousandsExample()
    ensures ParseFloat(Clean("$1,299.00")) == Some(1299.0)
  {
    FormatThousandsExample();
    ParseCleanFormatUsd(129900);
  }

  lemma FormatThousandsExample()
    ensures FormatUsd(129900) == "$1,299.00"
  {
    DigitsOf1299();
    assert Grouped("1299") == "1,299" by { assert "1299"[..1] == "1"; }
    assert CentDigits(129900) == "00";
  }

  lemma DigitsOf1299()
    ensures NatDigits(1299) == "1299"
  {
    assert NatDigits(1) == "1";
    assert NatDigits(12) == "12";
    assert NatDigits(129) == "129";
  }

  lemma DecimalOfCents(cents: nat, dollars: string, cc: string)
    requires AllDigits(dollars) && AllDigits(cc) && |cc| == 2
    requires DigitsValue(dollars) == cents / 100 && DigitsValue(cc) == cents % 100
    ensures Decimal(dollars, cc) == cents as real / 100.0
  {
    assert Pow10(|cc|) == 100;
    CentsAsReal(cents);
  }

  lemma CentsAsReal(cents: nat)
    ensures cents as real / 100.0 == (cents / 100) as real + (cents % 100) as real / 100.0
  {
    assert cents == 100 * (cents / 100) + cents % 100;
  }

  /** offer2.py builds the current price from the separately rendered whole
      and fraction parts, `float(f"{whole}.{fraction or '00'}")`: digit parts
      give `whole.fraction`, a missing fraction counts as ".00", and a whole
      part shown with a thousands separator never converts, because it is
      not cleaned. */
  function PriceFromParts(whole: string, fraction: Option<string>): (r: Option<real>)
    ensures whole != [] && AllDigits(whole) && fraction.Some? && AllDigits(fraction.value) ==>
      r == Some(Decimal(whole, fraction.value))
    ensures whole != [] && AllDigits(whole) && fraction.None? ==> r == Some(DigitsValue(whole) as real)
    ensures ',' in whole ==> r == None
  {
    var f := if fraction.Some? then fraction.value else "00";
    PartsLiteral(whole, f);
    ZeroFraction(whole);
    ParseFloat(whole + "." + f)
  }

  /** The three facts above, for the literal `whole.f`. */
  lemma PartsLiteral(whole: string, f: string)
    ensures whole != [] && AllDigits(whole) && AllDigits(f) ==>
      ParseFloat(whole + "." + f) == Some(Decimal(whole, f))
    ensures ',' in whole ==> ParseFloat(whole + "." + f) == None
  {
    if whole != [] && AllDigits(whole) && AllDigits(f) {
      ParseDecimalLiteral(whole, f);
    }
    if ',' in whole {
      SeparatorNeverParses(whole, f);
    }
  }

  lemma ZeroFraction(whole: string)
    ensures AllDigits("00")
    ensures AllDigits(whole) ==> Decimal(whole, "00") == DigitsValue(whole) as real
  {
    var f := "00";
    assert f[..1] == "0" && "0"[..0] == [];
    assert AllDigits(f) && DigitsValue(f) == 0;
    if AllDigits(whole) {
      DecimalWholeOnly(whole, f);
    }
  }

  /** A ',' before the point makes float() raise. */
  lemma SeparatorNeverParses(whole: string, f: string)
    requires ',' in whole
    ensures ParseFloat(whole + "." + f) == None
  {
    var s := whole + "." + f;
    var k := IndexOf(whole, ',');
    assert s[k] == ',';
    calc {
      ParseFloat(s);
      ParseSigned(Strip(s, FloatSpace));
      { StripKeepsNonSpace(s, FloatSpace, k); CommaNeverParses(Strip(s, FloatSpace)); }
      None;
    }
  }

  lemma TwoDigitsValue(s: string)
    requires |s| == 2 && AllDigits(s)
    ensures DigitsValue(s) == 10 * DigitValue(s[0]) + DigitValue(s[1])
  {
    var h := s[..1];
    assert h[..0] == [] && h[0] == s[0];
    assert DigitsValue(h) == DigitValue(s[0]);
  }

  /** The concrete split price of the Amazon result page: ("19", "99")
      gives 19.99. */
  lemma PriceFromPartsExample()
    ensures PriceFromParts("19", Some("99")) == Some(19.99)
  {
    var w, f := "19", "99";
    assert AllDigits(w) && AllDigits(f);
    calc {
      PriceFromParts(w, Some(f));
      Some(Decimal(w, f));
      { DecimalExample(); }
      Some(19.99);
    }
  }

  lemma DecimalExample()
    ensures Decimal("19", "99") == 19.99
  {
    var w, f := "19", "99";
    TwoDigitsValue(w);
    TwoDigitsValue(f);
    assert Pow10(|f|) == 100;
  }

  /** Without a rendered fraction, ("19", no fraction) gives 19.00. */
  lemma PriceFromPartsDefaultExample()
    ensures PriceFromParts("19", None) == Some(19.0)
  {
    TwoDigitsValue("19");
  }

  lemma CommaNeverParses(t: string)
    requires ',' in t
    ensures ParseSigned(t) == None
  {
    var j := IndexOf(t, ',');
    if t[0] == '-' || t[0] == '+' {
      assert t[1..][j - 1] == ',';
      CommaInUnsigned(t[1..], j - 1);
    } else {
      CommaInUnsigned(t, j);
    }
  }

  lemma CommaInUnsigned(b: string, j: nat)
    requires j < |b| && b[j] == ','
    ensures ParseUnsigned(b) == None
  {
    if '.' in b {
      var i := IndexOf(b, '.');
      if j < i { assert b[..i][j] == ','; } else { assert b[i + 1..][j - i - 1] == ','; }
    }
  }

  /** A non-blank character survives stripping. */
  lemma StripKeepsNonSpace(s: string, blanks: Blanks, k: nat)
    requires k < |s| && !IsBlank(s[k], blanks)
    ensures s[k] in Strip(s, blanks)
  {
    var t := TrimStart(s, blanks);
    var off := |s| - |t|;
    if k < off { TrimStartDropsSpaces(s, blanks, k); }
    assert t[k - off] == s[k];
    var r := TrimEnd(t, blanks);
    if k - off >= |r| { TrimEndDropsSpaces(t, blanks, k - off); }
    assert r[k - off] == s[k];
  }
}
