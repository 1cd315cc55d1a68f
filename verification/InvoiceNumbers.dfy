/** The two written forms of an invoice number (sepko/efi.py): the EFI InvNum
    {unit}/{ordinal}/{year}/{device} and the local form 1-MM-NNN/YYYY. */
module InvoiceNumbers {
  import opened Wrappers
  import opened Text

  function OrDefault(code: string, default: string): string { if code == "" then default else code }

  /** build_inv_num */
  function InvNum(unitCode: string, ord: nat, year: nat, deviceCode: string): string {
    OrDefault(unitCode, "bu00000000")
    + ("/" + (DigitsOf(ord) + ("/" + (DigitsOf(year) + ("/" + OrDefault(deviceCode, "cr00000000"))))))
  }

  lemma CutAtSlash(a: string, r: string, b: string, s: string)
    requires AllDigits(a) && AllDigits(b)
    requires a + ("/" + r) == b + ("/" + s)
    ensures a == b && r == s
  {
    var t := a + ("/" + r);
    IndexOfIs(t, '/', |a|);
    assert t == b + ("/" + s);
    IndexOfIs(t, '/', |b|);
    assert t[..|a|] == a && t[..|b|] == b;
    assert t[|a| + 1..] == r && t[|b| + 1..] == s;
  }

  /** One device numbers its invoices injectively: equal InvNum means equal ordinal and year. */
  lemma InvNumInjective(unitCode: string, deviceCode: string, m: nat, y: nat, n: nat, z: nat)
    requires InvNum(unitCode, m, y, deviceCode) == InvNum(unitCode, n, z, deviceCode)
    ensures m == n && y == z
  {
    var u, d := OrDefault(unitCode, "bu00000000"), OrDefault(deviceCode, "cr00000000");
    var p, q := InvNum(unitCode, m, y, deviceCode), InvNum(unitCode, n, z, deviceCode);
    var p1, q1 := DigitsOf(y) + ("/" + d), DigitsOf(z) + ("/" + d);
    assert p[|u| + 1..] == DigitsOf(m) + ("/" + p1);
    assert q[|u| + 1..] == DigitsOf(n) + ("/" + q1);
    CutAtSlash(DigitsOf(m), p1, DigitsOf(n), q1);
    CutAtSlash(DigitsOf(y), d, DigitsOf(z), d);
    DigitsOfInjective(m, n);
    DigitsOfInjective(y, z);
  }

  // ---------- local numbers ----------

  /** What a local number says; year and month may be left open by the older forms. */
  datatype Local = Local(ord: nat, year: Option<nat>, month: Option<nat>)

  /** format_display_inv_num, series 1 */
  function Display(ord: nat, year: nat, month: nat): string {
    "1-" + (Pad(month, 2) + ("-" + (Pad(ord, 3) + ("/" + DigitsOf(year)))))
  }

  predicate DigitRun(s: string, lo: nat, hi: nat) { lo <= |s| <= hi && AllDigits(s) }

  /** NNN[/YYYY] after a month. */
  function OrdAndYear(month: nat, s: string): Option<Local> {
    var k := IndexOf(s, '/');
    if !DigitRun(s[..k], 1, 7) || Val(s[..k]) < 1 then None
    else if k == |s| then Some(Local(Val(s), None, Some(month)))
    else if DigitRun(s[k + 1..], 4, 4) then Some(Local(Val(s[..k]), Some(Val(s[k + 1..])), Some(month)))
    else None
  }

  /** The two forms with a month: 1-MM-NNN/YYYY and 1-MM-NNN. */
  function Monthly(raw: string): Option<Local> {
    if |raw| < 2 || raw[..2] != "1-" then None
    else
      var s := raw[2..];
      var k := IndexOf(s, '-');
      if k < |s| && DigitRun(s[..k], 1, 2) && 1 <= Val(s[..k]) <= 12 then OrdAndYear(Val(s[..k]), s[k + 1..])
      else None
  }

  /** N/YYYY, also with a point or a dash. */
  function Yearly(s: string): Option<Local> {
    if |s| < 6 then None
    else
      var c, k := s[|s| - 5], |s| - 5;
      if (c == '/' || c == '.' || c == '-') && AllDigits(s[..k]) && AllDigits(s[k + 1..])
      then Some(Local(Val(s[..k]), Some(Val(s[k + 1..])), None))
      else None
  }

  /** parse_display_inv_num, series 1: the forms are tried in this order. */
  function ParseDisplay(text: string): Option<Local> {
    var raw := Trim(text);
    var m := Monthly(raw);
    if m.Some? then m
    else
      var legacy := if |raw| >= 4 && raw[..4] == "1-1-" then Yearly(raw[4..]) else None;
      if legacy.Some? then legacy else Yearly(raw)
  }

  lemma CutsAt(a: string, c: char, r: string)
    requires c !in a
    ensures var t := a + ([c] + r); IndexOf(t, c) == |a| && t[..|a|] == a && t[|a| + 1..] == r
  {
    var t := a + ([c] + r);
    assert t[|a|] == c && forall i :: 0 <= i < |a| ==> t[i] == a[i];
    IndexOfIs(t, c, |a|);
  }

  lemma PadFits(n: nat, width: nat, most: nat)
    requires 1 <= width <= most && n < Pow10(most)
    ensures |Pad(n, width)| <= most && Val(Pad(n, width)) == n
  {
    PadVal(n, width);
    var d := DigitsOf(n);
    if |d| > most {
      PadWidth(n, most);
    }
  }

  lemma SevenDigits(ord: nat)
    ensures Val(Pad(ord, 3)) == ord && (|Pad(ord, 3)| <= 7 <==> ord <= 9999999)
  {
    assert Pow10(7) == 10000000 by { assert Pow10(4) == 10000; assert Pow10(5) == 10 * Pow10(4); }
    PadVal(ord, 3);
    if ord <= 9999999 {
      PadFits(ord, 3, 7);
    } else {
      ValBound(Pad(ord, 3));
      Pow10Grows(|Pad(ord, 3)|, 7);
    }
  }

  lemma YearDigits(year: nat)
    requires 1000 <= year <= 9999
    ensures |DigitsOf(year)| == 4 && Val(DigitsOf(year)) == year
  {
    ValDigitsOf(year);
    assert |DigitsOf(year / 1000)| == 1;
    assert |DigitsOf(year / 100)| == 2 by { assert year / 100 / 10 == year / 1000; }
    assert |DigitsOf(year / 10)| == 3 by { assert year / 10 / 10 == year / 100; }
  }

  /** A printed local number is read back completely when its ordinal has at most seven digits,
      and not at all otherwise. */
  lemma DisplayRoundTrip(ord: nat, year: nat, month: nat)
    requires 1000 <= year <= 9999 && 1 <= month <= 12
    ensures ParseDisplay(Display(ord, year, month))
         == if 1 <= ord <= 9999999 then Some(Local(ord, Some(year), Some(month))) else None
  {
    assert Pow10(2) == 100;
    PadFits(month, 2, 2);
    PadWidth(month, 2);
    SevenDigits(ord);
    MonthAndYearExactly(Pad(month, 2), Pad(ord, 3), year);
  }

  // ---------- the other forms ----------

  predicate Separator(c: char) { c == '/' || c == '.' || c == '-' }

  lemma PlainText(s: string)
    requires s != "" && IsDigit(s[0]) && (IsDigit(s[|s| - 1]) || s[|s| - 1] == '-')
    ensures Trim(s) == s
  {
    TrimTrims(s);
  }

  /** The forms tried in their order on a text without white space around it. */
  lemma Tried(s: string, monthly: Option<Local>, legacy: Option<Local>, yearly: Option<Local>)
    requires Trim(s) == s && Monthly(s) == monthly && Yearly(s) == yearly
    requires legacy == if |s| >= 4 && s[..4] == "1-1-" then Yearly(s[4..]) else None
    ensures ParseDisplay(s) == if monthly.Some? then monthly else if legacy.Some? then legacy else yearly
  {
  }

  lemma YearlyReads(ord: string, c: char, year: nat)
    requires AllDigits(ord) && ord != "" && Separator(c) && 1000 <= year <= 9999
    ensures Yearly(ord + ([c] + DigitsOf(year))) == Some(Local(Val(ord), Some(year), None))
  {
    var s := ord + ([c] + DigitsOf(year));
    YearDigits(year);
    assert s[|ord|] == c && s[..|ord|] == ord && s[|ord| + 1..] == DigitsOf(year);
  }

  lemma YearlyNotMonthly(ord: string, c: char, year: nat)
    requires AllDigits(ord) && ord != "" && Separator(c) && 1000 <= year <= 9999
    ensures var s := ord + ([c] + DigitsOf(year)); Monthly(s) == None && s[..4] != "1-1-" && Trim(s) == s
  {
    var y := DigitsOf(year);
    var s := ord + ([c] + y);
    YearDigits(year);
    assert s[|s| - 1] == y[3] && s[0] == ord[0];
    PlainText(s);
    if s[..2] == "1-" {
      assert s[1] == '-' && s[..2][1] == s[1];
      assert |ord| == 1;
      assert s[2..] == y;
      IndexOfNone(y, '-');
    }
  }

  /** An ordinal and a year, with any of the three separators. */
  lemma YearlyRoundTrip(ord: string, c: char, year: nat)
    requires AllDigits(ord) && ord != "" && Separator(c) && 1000 <= year <= 9999
    ensures ParseDisplay(ord + ([c] + DigitsOf(year))) == Some(Local(Val(ord), Some(year), None))
  {
    YearlyReads(ord, c, year);
    YearlyNotMonthly(ord, c, year);
    Tried(ord + ([c] + DigitsOf(year)), None, None, Some(Local(Val(ord), Some(year), None)));
  }

  lemma OrdReads(month: nat, ord: string)
    requires AllDigits(ord)
    ensures OrdAndYear(month, ord)
         == if 1 <= |ord| <= 7 && Val(ord) >= 1 then Some(Local(Val(ord), None, Some(month))) else None
  {
    IndexOfNone(ord, '/');
    assert ord[..|ord|] == ord;
  }

  lemma TailReads(month: nat, ord: string, c: char, year: nat)
    requires AllDigits(ord) && ord != "" && Separator(c) && 1000 <= year <= 9999
    ensures OrdAndYear(month, ord + ([c] + DigitsOf(year)))
         == if c == '/' && |ord| <= 7 && Val(ord) >= 1 then Some(Local(Val(ord), Some(year), Some(month))) else None
  {
    var s := ord + ([c] + DigitsOf(year));
    YearDigits(year);
    if c == '/' {
      CutsAt(ord, '/', DigitsOf(year));
    } else {
      IndexOfNone(s, '/');
      assert s[..|s|][|ord|] == c;
    }
  }

  lemma MonthTextReads(month: string, tail: string)
    requires DigitRun(month, 1, 2)
    ensures Monthly("1-" + (month + ("-" + tail)))
         == if 1 <= Val(month) <= 12 then OrdAndYear(Val(month), tail) else None
  {
    var s := month + ("-" + tail);
    var raw := "1-" + s;
    assert raw[..2] == "1-" && raw[2..] == s;
    CutsAt(month, '-', tail);
  }

  lemma WithDashes(month: string, tail: string)
    requires DigitRun(month, 1, 2) && (tail == "" || IsDigit(tail[|tail| - 1]))
    ensures var s := "1-" + (month + ("-" + tail));
      && Trim(s) == s && |s| == 3 + |month| + |tail| && s[1] == '-'
      && (s[..4] == "1-1-" <==> month == "1") && (|month| == 1 ==> s[4..] == tail)
  {
    var s := "1-" + (month + ("-" + tail));
    assert s[|s| - 1] == if tail == "" then '-' else tail[|tail| - 1];
    PlainText(s);
    if |month| == 1 {
      assert s[..4] == ['1', '-', month[0], '-'];
    } else {
      assert s[..4][3] == s[3] == month[1];
    }
  }

  lemma DashInside(s: string)
    requires |s| >= 2 && s[1] == '-'
    ensures |s| >= 7 ==> Yearly(s) == None
  {
    if |s| >= 7 { assert s[..|s| - 5][1] == s[1]; }
  }

  /** The older form 1-1-N/YYYY says no month, yet it is read as January's unless its ordinal is zero, has
      more than seven digits or stands before a point or a dash. */
  lemma OlderFormExactly(ord: string, c: char, year: nat)
    requires AllDigits(ord) && ord != "" && Separator(c) && 1000 <= year <= 9999
    ensures ParseDisplay("1-1-" + (ord + ([c] + DigitsOf(year))))
         == Some(Local(Val(ord), Some(year), if c == '/' && |ord| <= 7 && Val(ord) >= 1 then Some(1) else None))
  {
    var tail := ord + ([c] + DigitsOf(year));
    YearDigits(year);
    assert tail[|tail| - 1] == DigitsOf(year)[3];
    YearlyReads(ord, c, year);
    TailReads(1, ord, c, year);
    OlderTried(tail);
  }

  lemma OlderTried(tail: string)
    requires |tail| >= 6 && IsDigit(tail[|tail| - 1])
    ensures ParseDisplay("1-1-" + tail) == if OrdAndYear(1, tail).Some? then OrdAndYear(1, tail) else Yearly(tail)
  {
    assert Val("1") == 1;
    MonthTried("1", tail);
    assert "1-1-" + tail == "1-" + ("1" + ("-" + tail));
  }

  /** A month without a year is read for ordinals of one to seven digits, zero excepted, and for nothing else; a
      month past 12 never is. */
  lemma MonthOnlyExactly(month: string, ord: string)
    requires DigitRun(month, 1, 2) && AllDigits(ord)
    ensures ParseDisplay("1-" + (month + ("-" + ord)))
         == if 1 <= Val(month) <= 12 && 1 <= |ord| <= 7 && Val(ord) >= 1
            then Some(Local(Val(ord), None, Some(Val(month)))) else None
  {
    var s := "1-" + (month + ("-" + ord));
    OrdReads(Val(month), ord);
    MonthTextReads(month, ord);
    WithDashes(month, ord);
    NoYearAtEnd(month, ord);
    Tried(s, if 1 <= Val(month) <= 12 then OrdAndYear(Val(month), ord) else None, None, None);
  }

  /** The present form with a month of one or two digits: read completely for months 1 to 12 and ordinals of one to
      seven digits, zero excepted; otherwise only month 1 is read, as the older form that names no month. */
  lemma MonthAndYearExactly(month: string, ord: string, year: nat)
    requires DigitRun(month, 1, 2) && AllDigits(ord) && ord != "" && 1000 <= year <= 9999
    ensures ParseDisplay("1-" + (month + ("-" + (ord + ("/" + DigitsOf(year))))))
         == if 1 <= Val(month) <= 12 && |ord| <= 7 && Val(ord) >= 1
            then Some(Local(Val(ord), Some(year), Some(Val(month))))
            else if month == "1" then Some(Local(Val(ord), Some(year), None)) else None
  {
    YearlyReads(ord, '/', year);
    TailReads(Val(month), ord, '/', year);
    YearDigits(year);
    var tail := ord + ("/" + DigitsOf(year));
    assert tail[|tail| - 1] == DigitsOf(year)[3];
    MonthTried(month, tail);
  }

  lemma MonthTried(month: string, tail: string)
    requires DigitRun(month, 1, 2) && |tail| >= 6 && IsDigit(tail[|tail| - 1])
    ensures var m := if 1 <= Val(month) <= 12 then OrdAndYear(Val(month), tail) else None;
      ParseDisplay("1-" + (month + ("-" + tail)))
         == if m.Some? then m else if month == "1" then Yearly(tail) else None
  {
    var s := "1-" + (month + ("-" + tail));
    var m := if 1 <= Val(month) <= 12 then OrdAndYear(Val(month), tail) else None;
    MonthTextReads(month, tail);
    WithDashes(month, tail);
    DashInside(s);
    Tried(s, m, if month == "1" then Yearly(tail) else None, None);
  }

  lemma NoYearAtEnd(month: string, ord: string)
    requires DigitRun(month, 1, 2) && AllDigits(ord)
    ensures Yearly(ord) == None && Yearly("1-" + (month + ("-" + ord))) == None
  {
    var s := "1-" + (month + ("-" + ord));
    if |s| >= 7 { DashInside(s); }
    if |s| == 6 { assert |month| == 2 ==> s[4] == '-' && s[2..][2] == s[4]; assert |month| == 1 ==> s[2..][1] == s[3]; }
  }
}
