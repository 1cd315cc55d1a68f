/** Amounts as text (sepko/money.py): the Montenegrin form 1.234,56 and its reader. */
module Money {
  import opened Wrappers
  import opened Text
  import opened Rounding

  /** A finite decimal number, coef / 10^scale. */
  datatype Decimal = Decimal(coef: int, scale: nat)

  predicate Same(a: Decimal, b: Decimal) {
    a.coef * Pow10(b.scale) == b.coef * Pow10(a.scale)
  }

  /** d rounded half-up to n places, counted in units of 10^-n. */
  function Units(d: Decimal, n: nat): int {
    HalfUp(d.coef * Pow10(n), Pow10(d.scale))
  }

  // ---------- printing ----------

  /** Groups of three digits from the right. */
  function Groups(s: string): (g: seq<string>)
    requires AllDigits(s)
    ensures g == [] <==> s == []
    ensures forall x :: x in g ==> AllDigits(x) && 1 <= |x| <= 3
  {
    if s == [] then []
    else if |s| <= 3 then [s]
    else Groups(s[..|s| - 3]) + [s[|s| - 3..]]
  }

  /** The number written with a sign text before its digits. */
  function Signed(sign: string, n: nat): int { if sign == "-" then -(n as int) else n }

  function Sign(v: int): string { if v < 0 then "-" else "" }

  /** Integer and fractional digits of |v| * 10^-n. */
  function IntDigits(v: int, n: nat): (s: string)
    ensures s != [] && AllDigits(s)
  {
    var raw := Pad(Abs(v), n + 1);
    raw[..|raw| - n]
  }

  function FracDigits(v: int, n: nat): (s: string)
    ensures |s| == n && AllDigits(s)
  {
    var raw := Pad(Abs(v), n + 1);
    raw[|raw| - n..]
  }

  function Printed(v: int, n: nat): string {
    Sign(v) + Join(Groups(IntDigits(v, n)), ".") + (if n == 0 then "" else "," + FracDigits(v, n))
  }

  /** format_amount: a missing value prints as zero, negative digit counts as none. */
  function Formatted(value: Option<Decimal>, ndigits: int): string {
    var d := if value.Some? then value.value else Decimal(0, 0);
    var n := if ndigits < 0 then 0 else ndigits;
    Printed(Units(d, n), n)
  }

  lemma {:induction false} GroupsPrefix(s: string)
    requires AllDigits(s) && s != []
    ensures var k := if |s| > 3 then |s| - 3 else 0; Groups(s) == Groups(s[..k]) + [s[k..]]
  {
    if |s| <= 3 {
      assert s[..0] == [] && s[0..] == s;
    }
  }

  /** The loop of format_amount that peels three digits at a time off the right end. */
  method PeelGroups(digits: string) returns (groups: seq<string>)
    requires AllDigits(digits)
    ensures groups == Groups(digits)
  {
    var intPart := digits;
    groups := [];
    while intPart != []
      invariant AllDigits(intPart)
      invariant Groups(digits) == Groups(intPart) + groups
      decreases |intPart|
    {
      GroupsPrefix(intPart);
      var k := if |intPart| > 3 then |intPart| - 3 else 0;
      groups := [intPart[k..]] + groups;
      intPart := intPart[..k];
    }
  }

  method FormatAmount(value: Option<Decimal>, ndigits: int) returns (text: string)
    ensures text == Formatted(value, ndigits)
  {
    var d := if value.Some? then value.value else Decimal(0, 0);
    var n := if ndigits < 0 then 0 else ndigits;
    var v := Units(d, n);
    var groups := PeelGroups(IntDigits(v, n));
    var body := if groups != [] then Join(groups, ".") else "0";
    text := Sign(v) + body + (if n == 0 then "" else "," + FracDigits(v, n));
  }

  /** format_qty: at most `maxDigits` decimals, no trailing zeros. */
  function StripZeros(s: string): string {
    if s != [] && s[|s| - 1] == '0' then StripZeros(s[..|s| - 1]) else s
  }

  function Shortened(f: string): string {
    if ',' !in f then f
    else
      var k := IndexOf(f, ',');
      var frac := StripZeros(f[k + 1..]);
      if |frac| == 0 then f[..k] else f[..k] + ("," + frac)
  }

  function FormattedQty(value: Option<Decimal>, maxDigits: int): string {
    Shortened(Formatted(value, maxDigits))
  }

  // ---------- reading ----------

  const NBSP: char := 0xA0 as char

  predicate Digits(s: string) { s != [] && AllDigits(s) }

  /** \d{1,3}(\.\d{3})+ */
  predicate Grouped(s: string) {
    |s| >= 5 && s[|s| - 4] == '.' && AllDigits(s[|s| - 3..]) &&
    (var h := s[..|s| - 4]; (Digits(h) && |h| <= 3) || Grouped(h))
  }

  predicate Tail(s: string) {
    s == "" || ((s[0] == ',' || s[0] == '.') && Digits(s[1..]))
  }

  /** The pattern _AMOUNT_RE without its optional sign. */
  predicate Unsigned(s: string) {
    (exists k | 0 <= k <= |s| :: (Grouped(s[..k]) || Digits(s[..k])) && Tail(s[k..])) ||
    (exists k | 0 <= k < |s| :: AllDigits(s[..k]) && Tail(s[k..]))
  }

  function Unsign(s: string): string {
    if |s| > 0 && (s[0] == '+' || s[0] == '-') then s[1..] else s
  }

  predicate Amount(s: string) { Unsigned(Unsign(s)) }

  /** Removal of a trailing euro sign or the letters "eur", in either case. */
  function DropCurrency(s: string): string {
    if s != "" && s[|s| - 1] as int == 0x20AC then s[..|s| - 1]
    else if |s| >= 3 && Upper(s[|s| - 3..]) == "EUR" then s[..|s| - 3]
    else s
  }

  /** Thousands separators removed, decimal separator turned into a point. */
  function Normalized(t: string): string {
    if ',' in t && '.' in t then Replace(Remove(t, '.'), ',', '.')
    else if ',' in t then Replace(t, ',', '.')
    else if Count(t, '.') > 1 then Remove(t, '.')
    else t
  }

  /** Decimal(t) for a sign, digits and at most one point. */
  function Numeral(t: string): Option<Decimal> {
    var u := Unsign(t);
    var k := IndexOf(u, '.');
    var a := u[..k];
    var b := if k < |u| then u[k + 1..] else "";
    if AllDigits(a) && AllDigits(b) && |a + b| > 0 then
      Some(Decimal(Signed(t[..1], Val(a + b)), |b|))
    else None
  }

  /** parse_amount on text; `places` is the quantize argument, None for no rounding. */
  function ParseAmount(raw: string, places: Option<nat>): Option<Decimal> {
    var t := Trim(DropCurrency(Remove(Remove(Trim(raw), NBSP), ' ')));
    if t == "" || !Amount(t) then None
    else
      match Numeral(Normalized(t))
      case None => None
      case Some(d) => Some(if places.None? then d else Decimal(Units(d, places.value), places.value))
  }

  /** parse_nonneg_money: what is read, if it lies in 0..max. */
  function ParseNonneg(raw: string, places: Option<nat>, max: nat): (r: Option<Decimal>)
    ensures r.Some? ==> ParseAmount(raw, places) == r && 0 <= r.value.coef <= max * Pow10(r.value.scale)
    ensures r.None? ==>
      var d := ParseAmount(raw, places);
      d.None? || d.value.coef < 0 || d.value.coef > max * Pow10(d.value.scale)
  {
    var d := ParseAmount(raw, places);
    if d.None? || d.value.coef < 0 || d.value.coef > max * Pow10(d.value.scale) then None else d
  }

  // ---------- reading back what was printed ----------

  /** The characters of printed amounts. */
  predicate Plain(s: string) {
    forall i :: 0 <= i < |s| ==> IsDigit(s[i]) || s[i] == '.' || s[i] == ',' || s[i] == '-'
  }

  lemma PlainNoCurrency(s: string)
    requires Plain(s)
    ensures DropCurrency(s) == s
  {
    if |s| >= 3 {
      assert Upper(s[|s| - 3..])[0] == UpperChar(s[|s| - 3]) != 'E';
      assert "EUR"[0] == 'E';
    }
  }

  lemma PlainSurvivesCleaning(s: string)
    requires Plain(s) && s != ""
    ensures Trim(DropCurrency(Remove(Remove(Trim(s), NBSP), ' '))) == s
  {
    assert Trimmed(s);
    TrimTrims(s);
    RemoveAbsent(s, NBSP);
    RemoveAbsent(s, ' ');
    PlainNoCurrency(s);
  }

  /** Groups joined by points, defined on the text itself. */
  function GroupText(s: string): (g: string)
    requires Digits(s)
    ensures |g| > 0 && IsDigit(g[0])
  {
    if |s| <= 3 then s else GroupText(s[..|s| - 3]) + ("." + s[|s| - 3..])
  }

  lemma {:induction false} GroupTextPlain(s: string)
    requires Digits(s)
    ensures Plain(GroupText(s)) && ',' !in GroupText(s)
  {
    if |s| > 3 { GroupTextPlain(s[..|s| - 3]); }
  }

  lemma {:induction false} JoinGroups(s: string)
    requires Digits(s)
    ensures Join(Groups(s), ".") == GroupText(s)
  {
    if |s| > 3 {
      JoinGroups(s[..|s| - 3]);
      JoinSnoc(Groups(s[..|s| - 3]), s[|s| - 3..], ".");
    }
  }

  lemma {:induction false} GroupTextRemove(s: string)
    requires Digits(s)
    ensures Remove(GroupText(s), '.') == s
  {
    if |s| <= 3 {
      RemoveAbsent(s, '.');
    } else {
      var h, t := s[..|s| - 3], s[|s| - 3..];
      GroupTextRemove(h);
      assert Remove("." + t, '.') == t by {
        assert ("." + t)[1..] == t;
        RemoveAbsent(t, '.');
      }
      RemoveConcat(GroupText(h), "." + t, '.');
      assert h + t == s;
    }
  }

  lemma {:induction false} GroupTextCount(s: string)
    requires Digits(s)
    ensures Count(GroupText(s), '.') == (|s| - 1) / 3
  {
    if |s| <= 3 {
      CountZero(s, '.');
    } else {
      var h, t := s[..|s| - 3], s[|s| - 3..];
      GroupTextCount(h);
      CountConcat(GroupText(h), "." + t, '.');
      assert ("." + t)[1..] == t;
      CountZero(t, '.');
    }
  }

  lemma {:induction false} GroupTextShape(s: string)
    requires Digits(s)
    ensures if |s| <= 3 then GroupText(s) == s else Grouped(GroupText(s))
  {
    if |s| > 3 {
      var h, t := s[..|s| - 3], s[|s| - 3..];
      GroupTextShape(h);
      var g, whole := GroupText(h), GroupText(s);
      assert whole[..|whole| - 4] == g && whole[|whole| - 3..] == t;
    }
  }

  lemma {:induction false} JoinSnoc(parts: seq<string>, last: string, sep: string)
    requires parts != []
    ensures Join(parts + [last], sep) == Join(parts, sep) + (sep + last)
  {
    if |parts| > 1 {
      JoinSnoc(parts[1..], last, sep);
      assert (parts + [last])[1..] == parts[1..] + [last];
    }
  }

  lemma Assoc(a: string, b: string, c: string)
    ensures a + (b + c) == (a + b) + c
  {
  }

  lemma UnsignOf(sign: string, u: string)
    requires sign == "" || sign == "-"
    requires u != "" && IsDigit(u[0])
    ensures Unsign(sign + u) == u
    ensures (sign + u)[..1] == "-" <==> sign == "-"
  {
    var t := sign + u;
    if |sign| == 1 {
      assert t[0] == '-' && t[1..] == u;
    } else {
      assert t == u;
      assert IsDigit(t[0]) && t[0] != '+' && t[0] != '-';
      assert t[..1][0] == t[0];
    }
  }

  /** Reading a sign, an integer part and decimals gives their joint digits. */
  lemma PointAt(i: string, f: string)
    requires AllDigits(i)
    ensures var u := i + ("." + f);
      IndexOf(u, '.') == |i| && u[..|i|] == i && u[|i| + 1..] == f
  {
    var u := i + ("." + f);
    assert u[|i|] == '.' && forall k :: 0 <= k < |i| ==> u[k] == i[k];
    IndexOfIs(u, '.', |i|);
  }

  lemma NumeralOf(sign: string, i: string, f: string)
    requires sign == "" || sign == "-"
    requires Digits(i) && AllDigits(f)
    ensures Numeral(sign + (i + ("." + f))) == Some(Decimal(Signed(sign, Val(i + f)), |f|))
  {
    UnsignOf(sign, i + ("." + f));
    PointAt(i, f);
    assert |i + f| > 0;
    assert Signed((sign + (i + ("." + f)))[..1], Val(i + f)) == Signed(sign, Val(i + f));
  }

  lemma NumeralWhole(sign: string, i: string)
    requires sign == "" || sign == "-"
    requires Digits(i)
    ensures Numeral(sign + i) == Some(Decimal(Signed(sign, Val(i)), 0))
  {
    UnsignOf(sign, i);
    IndexOfNone(i, '.');
    assert i[..|i|] == i && i + "" == i;
  }

  lemma AmountShape(sign: string, i: string, rest: string)
    requires sign == "" || sign == "-"
    requires Digits(i) && Tail(rest)
    ensures Amount(sign + (GroupText(i) + rest))
  {
    var g := GroupText(i);
    GroupTextShape(i);
    UnsignOf(sign, g + rest);
    assert (g + rest)[..|g|] == g && (g + rest)[|g|..] == rest;
  }

  /** What is printed passes the cleaning and the pattern. */
  lemma ReadVia(sign: string, i: string, rest: string)
    requires sign == "" || sign == "-"
    requires Digits(i) && Tail(rest)
    ensures var t := sign + (GroupText(i) + rest); ParseAmount(t, None) == Numeral(Normalized(t))
  {
    GroupTextPlain(i);
    AmountShape(sign, i, rest);
    PlainSurvivesCleaning(sign + (GroupText(i) + rest));
  }

  lemma WithoutPoints(sign: string, i: string, rest: string)
    requires sign == "" || sign == "-"
    requires Digits(i) && '.' !in rest
    ensures Remove(sign + (GroupText(i) + rest), '.') == sign + (i + rest)
  {
    GroupTextRemove(i);
    RemoveConcat(sign, GroupText(i) + rest, '.');
    RemoveConcat(GroupText(i), rest, '.');
    RemoveAbsent(sign, '.');
    RemoveAbsent(rest, '.');
  }

  lemma NormalizedComma(t: string)
    requires ',' in t
    ensures Normalized(t) == Replace(Remove(t, '.'), ',', '.')
  {
    if '.' !in t { RemoveAbsent(t, '.'); }
  }

  lemma CommaToPoint(a: string, f: string)
    requires ',' !in a && ',' !in f
    ensures Replace(a + ("," + f), ',', '.') == a + ("." + f)
  {
  }

  lemma NormalizedDecimals(sign: string, i: string, f: string)
    requires sign == "" || sign == "-"
    requires Digits(i) && AllDigits(f)
    ensures Normalized(sign + (GroupText(i) + ("," + f))) == sign + (i + ("." + f))
  {
    var t := sign + (GroupText(i) + ("," + f));
    assert t[|sign| + |GroupText(i)|] == ',';
    NormalizedComma(t);
    WithoutPoints(sign, i, "," + f);
    Assoc(sign, i, "," + f);
    CommaToPoint(sign + i, f);
    Assoc(sign, i, "." + f);
  }

  /** sign + grouped integer + ',' + decimals is read as those digits. */
  lemma ReadDecimals(sign: string, i: string, f: string)
    requires sign == "" || sign == "-"
    requires Digits(i) && Digits(f)
    ensures ParseAmount(sign + (GroupText(i) + ("," + f)), None)
         == Some(Decimal(Signed(sign, Val(i + f)), |f|))
  {
    assert ("," + f)[1..] == f;
    ReadVia(sign, i, "," + f);
    NormalizedDecimals(sign, i, f);
    NumeralOf(sign, i, f);
  }

  /** The form with a decimal point, without separators, is read as well. */
  lemma ReadPoint(sign: string, i: string, f: string)
    requires sign == "" || sign == "-"
    requires Digits(i) && Digits(f)
    ensures ParseAmount(sign + (i + ("." + f)), None) == Some(Decimal(Signed(sign, Val(i + f)), |f|))
  {
    var t := sign + (i + ("." + f));
    assert Plain(t);
    PlainSurvivesCleaning(t);
    PointShape(sign, i, f);
    OnePoint(sign, i, f);
    NormalizedNoComma(t);
    NumeralOf(sign, i, f);
  }

  lemma PointShape(sign: string, i: string, f: string)
    requires sign == "" || sign == "-"
    requires Digits(i) && Digits(f)
    ensures Amount(sign + (i + ("." + f)))
  {
    var u := i + ("." + f);
    UnsignOf(sign, u);
    assert ("." + f)[1..] == f && Tail("." + f);
    assert u[..|i|] == i && u[|i|..] == "." + f;
  }

  lemma OnePoint(sign: string, i: string, f: string)
    requires sign == "" || sign == "-"
    requires Digits(i) && Digits(f)
    ensures Count(sign + (i + ("." + f)), '.') == 1 && ',' !in sign + (i + ("." + f))
  {
    CountConcat(sign, i + ("." + f), '.');
    CountConcat(i, "." + f, '.');
    CountConcat(".", f, '.');
    CountZero(sign, '.');
    CountZero(i, '.');
    CountZero(f, '.');
  }

  lemma NormalizedNoComma(t: string)
    requires ',' !in t
    ensures Normalized(t) == if Count(t, '.') > 1 then Remove(t, '.') else t
  {
  }

  lemma PointsIn(sign: string, i: string)
    requires sign == "" || sign == "-"
    requires Digits(i)
    ensures Count(sign + GroupText(i), '.') == (|i| - 1) / 3
    ensures ',' !in sign + GroupText(i)
  {
    GroupTextCount(i);
    GroupTextPlain(i);
    CountConcat(sign, GroupText(i), '.');
    CountZero(sign, '.');
  }

  lemma NormalizedWhole(sign: string, i: string)
    requires sign == "" || sign == "-"
    requires Digits(i)
    ensures Normalized(sign + GroupText(i)) == if |i| <= 6 then sign + GroupText(i) else sign + i
  {
    PointsIn(sign, i);
    NormalizedNoComma(sign + GroupText(i));
    if |i| > 6 {
      WithoutPoints(sign, i, "");
      assert GroupText(i) + "" == GroupText(i) && i + "" == i;
    }
  }

  lemma GroupTextOnce(a: string, b: string)
    requires Digits(a) && |a| <= 3 && AllDigits(b) && |b| == 3
    ensures GroupText(a + b) == a + ("." + b)
  {
    assert (a + b)[..|a + b| - 3] == a && (a + b)[|a + b| - 3..] == b;
    assert GroupText(a) == a;
  }

  lemma NumeralGrouped(sign: string, i: string)
    requires sign == "" || sign == "-"
    requires Digits(i) && 4 <= |i| <= 6
    ensures Numeral(sign + GroupText(i)) == Some(Decimal(Signed(sign, Val(i)), 3))
  {
    var a, b := i[..|i| - 3], i[|i| - 3..];
    assert a + b == i;
    GroupTextOnce(a, b);
    NumeralOf(sign, a, b);
  }

  /** Without decimals the text is read as the integer, unless exactly one group separator makes
      it look like a decimal point. */
  lemma ReadWhole(sign: string, i: string)
    requires sign == "" || sign == "-"
    requires Digits(i)
    ensures ParseAmount(sign + GroupText(i), None)
         == Some(Decimal(Signed(sign, Val(i)), if 4 <= |i| <= 6 then 3 else 0))
  {
    ReadVia(sign, i, "");
    assert GroupText(i) + "" == GroupText(i);
    NormalizedWhole(sign, i);
    if 4 <= |i| <= 6 { NumeralGrouped(sign, i); } else { NumeralWhole(sign, i); }
  }

  lemma DigitsRejoin(v: int, n: nat)
    ensures Val(IntDigits(v, n) + FracDigits(v, n)) == Abs(v)
  {
    var raw := Pad(Abs(v), n + 1);
    assert IntDigits(v, n) + FracDigits(v, n) == raw;
    PadVal(Abs(v), n + 1);
  }

  lemma ReadPrinted(v: int, n: nat)
    requires n >= 1
    ensures ParseAmount(Printed(v, n), None) == Some(Decimal(v, n))
  {
    var i, f := IntDigits(v, n), FracDigits(v, n);
    JoinGroups(i);
    assert Printed(v, n) == Sign(v) + (GroupText(i) + ("," + f));
    ReadDecimals(Sign(v), i, f);
    DigitsRejoin(v, n);
  }

  /** Printing with n >= 1 decimals and reading back is rounding half-up to n places. */
  lemma FormatParseRoundTrip(x: Decimal, n: nat)
    requires n >= 1
    ensures ParseAmount(Formatted(Some(x), n), None) == Some(Decimal(Units(x, n), n))
  {
    ReadPrinted(Units(x, n), n);
  }

  /** A printed amount is accepted exactly when its rounded value lies between zero and the maximum, and then
      it is that value. */
  lemma NonnegRoundTrip(x: Decimal, n: nat, max: nat)
    requires n >= 1
    ensures ParseNonneg(Formatted(Some(x), n), None, max)
         == if 0 <= Units(x, n) <= max * Pow10(n) then Some(Decimal(Units(x, n), n)) else None
  {
    FormatParseRoundTrip(x, n);
  }

  lemma WholeDigits(v: int)
    ensures IntDigits(v, 0) == Pad(Abs(v), 1)
    ensures Val(IntDigits(v, 0)) == Abs(v)
    ensures Signed(Sign(v), Abs(v)) == v
  {
    PadVal(Abs(v), 1);
  }

  lemma ReadPrintedWhole(v: int)
    ensures ParseAmount(Printed(v, 0), None)
         == Some(Decimal(v, if 1000 <= Abs(v) <= 999999 then 3 else 0))
  {
    var i := IntDigits(v, 0);
    JoinGroups(i);
    assert Printed(v, 0) == Sign(v) + GroupText(i);
    WholeDigits(v);
    PadOneLength(Abs(v));
    ReadWhole(Sign(v), i);
  }

  /** With n = 0 the same holds exactly outside four to six digits. */
  lemma WholeRoundTrip(x: Decimal)
    ensures var r := ParseAmount(Formatted(Some(x), 0), None);
      var v := Units(x, 0);
      r.Some? && (Same(r.value, Decimal(v, 0)) <==> Abs(v) < 1000 || Abs(v) > 999999)
  {
    ReadPrintedWhole(Units(x, 0));
    WholeSame(Units(x, 0));
  }

  lemma WholeSame(v: int)
    ensures Same(Decimal(v, 0), Decimal(v, 0))
    ensures v != 0 ==> !Same(Decimal(v, 3), Decimal(v, 0))
  {
    assert Pow10(3) == 1000 && Pow10(0) == 1;
  }

  lemma PadOneLength(n: nat)
    ensures 4 <= |Pad(n, 1)| <= 6 <==> 1000 <= n <= 999999
  {
    var k := |DigitsOf(n)|;
    DigitsOfSize(n);
    assert Pow10(3) == 1000 && Pow10(6) == 1000000;
    Pow10Grows(k, 3);
    Pow10Grows(k, 6);
    Pow10Grows(3, k - 1);
    Pow10Grows(6, k - 1);
  }

  // ---------- quantities ----------

  /** Cutting trailing zeros off the decimals divides by the power of ten cut. */
  lemma {:induction false} StripZerosVal(f: string)
    requires AllDigits(f)
    ensures StripZeros(f) <= f && AllDigits(StripZeros(f))
    ensures Val(f) == Val(StripZeros(f)) * Pow10(|f| - |StripZeros(f)|)
    ensures |StripZeros(f)| == 0 <==> Val(f) == 0
  {
    if f != "" && f[|f| - 1] == '0' {
      var h := f[..|f| - 1];
      StripZerosVal(h);
      MulTen(Val(StripZeros(h)), Pow10(|h| - |StripZeros(h)|));
    } else if f != "" {
      assert Val(f) >= DigitVal(f[|f| - 1]) > 0;
    }
  }

  lemma ShortenedText(a: string, frac: string)
    requires ',' !in a
    ensures |StripZeros(frac)| == 0 ==> Shortened(a + ("," + frac)) == a
    ensures |StripZeros(frac)| > 0 ==> Shortened(a + ("," + frac)) == a + ("," + StripZeros(frac))
  {
    var t := a + ("," + frac);
    assert t[|a|] == ',';
    IndexOfIs(t, ',', |a|);
    assert t[..|a|] == a && t[|a| + 1..] == frac;
  }

  lemma QtyText(v: int, n: nat)
    requires n >= 1
    ensures var f := StripZeros(FracDigits(v, n));
      && (|f| == 0 ==> Shortened(Printed(v, n)) == Sign(v) + GroupText(IntDigits(v, n)))
      && (|f| > 0 ==> Shortened(Printed(v, n)) == Sign(v) + (GroupText(IntDigits(v, n)) + ("," + f)))
  {
    var g, f := GroupText(IntDigits(v, n)), FracDigits(v, n);
    JoinGroups(IntDigits(v, n));
    GroupTextPlain(IntDigits(v, n));
    ShortenedText(Sign(v) + g, f);
    Assoc(Sign(v), g, "," + StripZeros(f));
  }

  lemma SameScaled(a: int, m: nat, k: nat)
    requires m <= k
    ensures Same(Decimal(a, m), Decimal(a * Pow10(k - m), k))
  {
    Pow10Add(m, k - m);
    assert a * (Pow10(m) * Pow10(k - m)) == a * Pow10(k - m) * Pow10(m);
  }

  lemma StrippedValue(v: int, n: nat)
    ensures var i, f := IntDigits(v, n), StripZeros(FracDigits(v, n));
      AllDigits(f) && |f| <= n && Abs(v) == Val(i + f) * Pow10(n - |f|)
  {
    var i, f, full := IntDigits(v, n), StripZeros(FracDigits(v, n)), FracDigits(v, n);
    StripZerosVal(full);
    DigitsRejoin(v, n);
    ValConcat(i, full);
    ValConcat(i, f);
    Pow10Add(|f|, n - |f|);
    MulAssoc(Val(i), Pow10(|f|), Pow10(n - |f|), Val(f));
  }

  lemma MulAssoc(a: nat, p: nat, q: nat, b: nat)
    ensures (a * p + b) * q == a * (p * q) + b * q
  {
  }

  lemma SignedTimes(sign: string, a: nat, p: nat)
    ensures Signed(sign, a * p) == Signed(sign, a) * p
  {
  }

  /** A quantity with a fractional part is read back as the rounded value. */
  lemma QtyFraction(v: int, n: nat)
    requires n >= 1 && |StripZeros(FracDigits(v, n))| > 0
    ensures var r := ParseAmount(Shortened(Printed(v, n)), None);
      r.Some? && Same(r.value, Decimal(v, n))
  {
    var i, f := IntDigits(v, n), StripZeros(FracDigits(v, n));
    StrippedValue(v, n);
    FractionValue(v, Val(i + f), |f|, n);
    assert ParseAmount(Shortened(Printed(v, n)), None) == Some(Decimal(Signed(Sign(v), Val(i + f)), |f|)) by {
      QtyText(v, n);
      ReadDecimals(Sign(v), i, f);
    }
  }

  lemma FractionValue(v: int, a: nat, m: nat, n: nat)
    requires m <= n && Abs(v) == a * Pow10(n - m)
    ensures Same(Decimal(Signed(Sign(v), a), m), Decimal(v, n))
  {
    SignedTimes(Sign(v), a, Pow10(n - m));
    SameScaled(Signed(Sign(v), a), m, n);
  }

  /** A whole quantity of w units is read back as w, or as w / 1000 when w has four to six digits. */
  lemma QtyWhole(v: int, n: nat)
    requires n >= 1 && |StripZeros(FracDigits(v, n))| == 0
    ensures var w := Val(IntDigits(v, n));
      && Abs(v) == w * Pow10(n)
      && ParseAmount(Shortened(Printed(v, n)), None)
           == Some(Decimal(Signed(Sign(v), w), if 1000 <= w <= 999999 then 3 else 0))
  {
    var i := IntDigits(v, n);
    QtyText(v, n);
    StrippedValue(v, n);
    assert i + "" == i;
    ReadWhole(Sign(v), i);
    IntDigitsLength(v, n);
  }

  /** The integer part carries no padding beyond a single zero. */
  lemma IntDigitsLength(v: int, n: nat)
    ensures var i := IntDigits(v, n); 4 <= |i| <= 6 <==> 1000 <= Val(i) <= 999999
  {
    var i, raw := IntDigits(v, n), Pad(Abs(v), n + 1);
    ValBound(i);
    assert Pow10(3) == 1000 && Pow10(6) == 1000000;
    if |i| > 1 {
      // no padding was needed, so the first digit is the leading digit of |v|
      assert raw == DigitsOf(Abs(v));
      LeadingDigit(Abs(v));
      assert i[0] == raw[0];
      LeadingVal(i);
    }
    Pow10Grows(|i|, 3);
    Pow10Grows(|i|, 6);
    Pow10Grows(3, |i| - 1);
    Pow10Grows(6, |i| - 1);
  }

  lemma {:induction false} LeadingDigit(n: nat)
    ensures n > 0 ==> DigitsOf(n)[0] != '0'
  {
    if n >= 10 { LeadingDigit(n / 10); }
  }

  lemma {:induction false} LeadingVal(s: string)
    requires Digits(s) && s[0] != '0'
    ensures Val(s) >= Pow10(|s| - 1)
  {
    if |s| > 1 { LeadingVal(s[..|s| - 1]); }
  }

  /** parse_amount after format_qty recovers the rounded quantity exactly when it has a fractional
      part or its magnitude is outside 1000..999999. */
  lemma QtyRoundTrip(x: Decimal, n: nat)
    requires n >= 1
    ensures var v := Units(x, n);
      var r := ParseAmount(FormattedQty(Some(x), n), None);
      r.Some? &&
      (Same(r.value, Decimal(v, n))
       <==> Abs(v) % Pow10(n) != 0 || Abs(v) < 1000 * Pow10(n) || Abs(v) > 999999 * Pow10(n))
  {
    var v := Units(x, n);
    StripZerosVal(FracDigits(v, n));
    FracVal(v, n);
    if |StripZeros(FracDigits(v, n))| > 0 {
      QtyFraction(v, n);
    } else {
      QtyWhole(v, n);
      WholeQtySame(v, Val(IntDigits(v, n)), n);
    }
  }

  lemma {:induction false} StripZerosEnd(f: string)
    requires AllDigits(f)
    ensures StripZeros(f) == "" || '1' <= StripZeros(f)[|StripZeros(f)| - 1] <= '9'
  {
    if f != "" && f[|f| - 1] == '0' { StripZerosEnd(f[..|f| - 1]); }
  }

  /** Decimals are printed exactly when the rounded quantity has some, and the last one is not a zero. */
  lemma QtyTrimmed(x: Decimal, n: nat)
    requires n >= 1
    ensures var q := FormattedQty(Some(x), n);
      && (',' in q <==> Abs(Units(x, n)) % Pow10(n) != 0)
      && (',' in q ==> '1' <= q[|q| - 1] <= '9')
  {
    var v := Units(x, n);
    var f := StripZeros(FracDigits(v, n));
    QtyText(v, n);
    FracVal(v, n);
    StripZerosVal(FracDigits(v, n));
    StripZerosEnd(FracDigits(v, n));
    GroupTextPlain(IntDigits(v, n));
    CommaEnds(Sign(v), GroupText(IntDigits(v, n)), f);
  }

  lemma CommaEnds(sign: string, g: string, f: string)
    requires ',' !in sign && ',' !in g
    ensures ',' !in sign + g
    ensures f != "" ==> var q := sign + (g + ("," + f)); ',' in q && q[|q| - 1] == f[|f| - 1]
  {
    var q := sign + (g + ("," + f));
    assert q[|sign| + |g|] == ',';
  }

  lemma FracVal(v: int, n: nat)
    ensures Val(FracDigits(v, n)) == Abs(v) % Pow10(n)
  {
    var i, f := IntDigits(v, n), FracDigits(v, n);
    DigitsRejoin(v, n);
    ValConcat(i, f);
    ValBound(f);
    DivIs(Abs(v), Pow10(n), Val(i));
    DivMod(Abs(v), Pow10(n));
  }

  lemma WholeQtySame(v: int, w: nat, n: nat)
    requires Abs(v) == w * Pow10(n)
    ensures var r := Decimal(Signed(Sign(v), w), if 1000 <= w <= 999999 then 3 else 0);
      Same(r, Decimal(v, n)) <==> Abs(v) < 1000 * Pow10(n) || Abs(v) > 999999 * Pow10(n)
  {
    var s := Signed(Sign(v), w);
    SignedTimes(Sign(v), w, Pow10(n));
    assert s * Pow10(n) == v;
    assert Pow10(3) == 1000 && Pow10(0) == 1;
    MulOrder(w, 1000, Pow10(n));
    MulOrder(999999, w, Pow10(n));
  }

  lemma MulOrder(a: nat, b: nat, p: nat)
    requires p > 0
    ensures a < b <==> a * p < b * p
  {
    MulFar(b - a, p);
    assert b * p - a * p == (b - a) * p;
  }
}
