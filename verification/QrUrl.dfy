/** The verification URL printed on an invoice (build_qr_url, sepko/efi.py) and the reader that turns a
    scanned URL into a draft of an incoming invoice (parse_verify_url, sepko/qr_import.py). */
module QrUrl {
  import opened Wrappers
  import opened Text
  import opened Calendar
  import opened Urls
  import Money
  import Rounding
  import opened InvoiceNumbers
  import opened Partner

  // ---------- issue times as text ----------

  /** A datetime as its text shows it: the clock of its own zone and the offset of that zone in minutes. */
  datatype Issue = Issue(wall: Stamp, offset: Option<int>)

  predicate RealStamp(s: Stamp) { Valid(s.date) && s.second < 86400 }

  predicate RealIssue(i: Issue) {
    RealStamp(i.wall) && (i.offset.Some? ==> -1440 < i.offset.value < 1440)
  }

  function Clock(n: nat): string {
    Pad(n / 3600, 2) + (":" + (Pad(n / 60 % 60, 2) + (":" + Pad(n % 60, 2))))
  }

  function OffsetText(offset: Option<int>): string {
    if offset.None? then ""
    else
      var m := Rounding.Abs(offset.value);
      (if offset.value < 0 then "-" else "+") + (Pad(m / 60, 2) + (":" + Pad(m % 60, 2)))
  }

  /** datetime.isoformat(timespec="seconds") */
  function Iso(i: Issue): string
    requires RealIssue(i)
  {
    var d := i.wall.date;
    Pad(d.year, 4)
    + ("-" + (Pad(d.month, 2) + ("-" + (Pad(d.day, 2) + ("T" + (Clock(i.wall.second) + OffsetText(i.offset)))))))
  }

  datatype Read = Read(n: nat, rest: string)

  /** A number of the given width followed by a separator. */
  function Num(s: string, width: nat, sep: char): Option<Read> {
    if |s| > width && AllDigits(s[..width]) && s[width] == sep
    then Some(Read(Val(s[..width]), s[width + 1..]))
    else None
  }

  function Two(s: string): Option<Read> {
    if |s| >= 2 && AllDigits(s[..2]) then Some(Read(Val(s[..2]), s[2..])) else None
  }

  function ReadClock(s: string): Option<Read> {
    var h := Num(s, 2, ':');
    if h.None? then None else
    var m := Num(h.value.rest, 2, ':');
    if m.None? then None else
    var t := Two(m.value.rest);
    if t.None? || h.value.n >= 24 || m.value.n >= 60 || t.value.n >= 60 then None
    else Some(Read(3600 * h.value.n + 60 * m.value.n + t.value.n, t.value.rest))
  }

  /** The offset at the end of the text, if it is one. */
  function ReadOffset(s: string): Option<Option<int>> {
    if s == [] then Some(None)
    else if s[0] != '+' && s[0] != '-' then None
    else
      var m := ReadMinutes(s[1..]);
      if m.None? then None else Some(Some(if s[0] == '-' then -(m.value as int) else m.value))
  }

  function ReadMinutes(s: string): Option<nat> {
    var h := Num(s, 2, ':');
    if h.None? then None else
    var m := Two(h.value.rest);
    if m.None? || m.value.rest != [] || h.value.n >= 24 || m.value.n >= 60 then None
    else Some(60 * h.value.n + m.value.n)
  }

  /** datetime.fromisoformat on texts of the shape isoformat writes */
  function ReadIso(s: string): Option<Issue> {
    var y := Num(s, 4, '-');
    if y.None? then None else
    var m := Num(y.value.rest, 2, '-');
    if m.None? then None else
    var d := Num(m.value.rest, 2, 'T');
    if d.None? then None else
    var c := ReadClock(d.value.rest);
    if c.None? then None else
    var o := ReadOffset(c.value.rest);
    var date := Date(y.value.n, m.value.n, d.value.n);
    if o.None? || !Valid(date) then None else Some(Issue(Stamp(date, c.value.n), o.value))
  }

  lemma NumReads(n: nat, width: nat, sep: char, rest: string)
    requires width >= 1 && n < Pow10(width)
    ensures Num(Pad(n, width) + ([sep] + rest), width, sep) == Some(Read(n, rest))
  {
    var p := Pad(n, width);
    PadWidth(n, width);
    PadVal(n, width);
    var s := p + ([sep] + rest);
    assert s[..width] == p && s[width] == sep && s[width + 1..] == rest;
  }

  lemma TwoReads(n: nat, rest: string)
    requires n < 100
    ensures Two(Pad(n, 2) + rest) == Some(Read(n, rest))
  {
    assert Pow10(2) == 100;
    var p := Pad(n, 2);
    PadWidth(n, 2);
    PadVal(n, 2);
    assert (p + rest)[..2] == p && (p + rest)[2..] == rest;
  }

  lemma Assoc3(a: string, b: string, c: string)
    ensures (a + b) + c == a + (b + c)
  {
  }

  lemma ClockReads(n: nat, rest: string)
    requires n < 86400
    ensures ReadClock(Clock(n) + rest) == Some(Read(n, rest))
  {
    var h, m, s := n / 3600, n / 60 % 60, n % 60;
    assert 3600 * h + 60 * m + s == n by {
      assert n / 60 / 60 == h;
    }
    assert Pow10(2) == 100;
    var t1 := Pad(s, 2) + rest;
    var t2 := Pad(m, 2) + (":" + t1);
    assert Clock(n) + rest == Pad(h, 2) + (":" + t2);
    NumReads(h, 2, ':', t2);
    NumReads(m, 2, ':', t1);
    TwoReads(s, rest);
  }

  lemma MinutesRead(h: nat, m: nat)
    requires h < 24 && m < 60
    ensures ReadMinutes(Pad(h, 2) + (":" + Pad(m, 2))) == Some(60 * h + m)
  {
    assert Pow10(2) == 100;
    NumReads(h, 2, ':', Pad(m, 2));
    assert Pad(m, 2) + "" == Pad(m, 2);
    TwoReads(m, "");
  }

  lemma OffsetReads(offset: Option<int>)
    requires offset.Some? ==> -1440 < offset.value < 1440
    ensures ReadOffset(OffsetText(offset)) == Some(offset)
  {
    if offset.Some? {
      var m := Rounding.Abs(offset.value);
      var body := Pad(m / 60, 2) + (":" + Pad(m % 60, 2));
      assert OffsetText(offset)[1..] == body;
      MinutesRead(m / 60, m % 60);
    }
  }

  /** Every datetime is read back from its text. */
  lemma IsoRoundTrip(i: Issue)
    requires RealIssue(i)
    ensures ReadIso(Iso(i)) == Some(i)
  {
    var d := i.wall.date;
    assert Pow10(2) == 100 && Pow10(4) == 10000 by { assert Pow10(3) == 1000; }
    var c := Clock(i.wall.second) + OffsetText(i.offset);
    var t1 := Pad(d.day, 2) + ("T" + c);
    var t2 := Pad(d.month, 2) + ("-" + t1);
    NumReads(d.year, 4, '-', t2);
    NumReads(d.month, 2, '-', t1);
    NumReads(d.day, 2, 'T', c);
    ClockReads(i.wall.second, OffsetText(i.offset));
    OffsetReads(i.offset);
  }

  /** How far the wall clock is ahead of UTC. */
  function OffsetSeconds(t: DateTime): int
    requires Valid(t.wall.date) && Valid(t.utc.date)
  {
    86400 * (Ordinal(t.wall.date) - Ordinal(t.utc.date)) + t.wall.second - t.utc.second
  }

  /** An aware datetime whose zone lies whole minutes, and less than a day, from UTC. */
  predicate Zoned(t: DateTime) {
    RealStamp(t.utc) && RealStamp(t.wall) && OffsetSeconds(t) % 60 == 0 && -86400 < OffsetSeconds(t) < 86400
  }

  function IssueOf(t: DateTime): (i: Issue)
    requires Zoned(t)
    ensures RealIssue(i)
  {
    Issue(t.wall, Some(OffsetSeconds(t) / 60))
  }

  /** The text determines the instant and the wall clock. */
  lemma IssueDetermines(t: DateTime, u: DateTime)
    requires Zoned(t) && Zoned(u) && IssueOf(t) == IssueOf(u)
    ensures t == u
  {
    OrdinalOrders(t.utc.date, u.utc.date);
    OrdinalOrders(u.utc.date, t.utc.date);
    assert OffsetSeconds(t) == OffsetSeconds(u);
    var d := Ordinal(t.utc.date) - Ordinal(u.utc.date);
    assert 86400 * d == u.utc.second - t.utc.second;
    assert d == 0;
  }

  // ---------- building ----------

  function PriceText(cents: int): string {
    Money.Sign(cents) + (Money.IntDigits(cents, 2) + ("." + Money.FracDigits(cents, 2)))
  }

  const NAMES: seq<string> := ["iic", "tin", "crtd", "ord", "bu", "cr", "sw", "prc"]

  function Eight(iic: string, tin: string, crtd: string, ord: string, bu: string, cr: string, sw: string, prc: string)
    : (v: seq<string>)
    ensures |v| == |NAMES|
  {
    [iic, tin, crtd, ord, bu, cr, sw, prc]
  }

  /** What the seller puts into the URL; `issue` is the issue time as its text shows it. */
  function Values(f: QrFields, issue: Issue): (v: seq<string>)
    requires RealIssue(issue)
    ensures |v| == |NAMES|
  {
    Eight(f.iic, f.tin, Iso(issue), DigitsOf(f.ord), OrDefault(f.unitCode, "bu00000000"),
          OrDefault(f.deviceCode, "cr00000000"), OrDefault(f.softCode, "sw00000000"), PriceText(f.price))
  }

  function Named(v: seq<string>): (r: seq<Field>)
    requires |v| == |NAMES|
    ensures |r| == |v|
  {
    seq(|v|, i requires 0 <= i < |v| => Field(NAMES[i], v[i]))
  }

  /** The two portals, without the route. */
  function Portal(prod: bool): string {
    "https://" + ((if prod then "mapr" else "efitest") + ".tax.gov.me/ic/")
  }

  predicate Encodable(f: QrFields) {
    Bytes(f.iic) && Bytes(f.tin) && Bytes(f.unitCode) && Bytes(f.deviceCode) && Bytes(f.softCode)
  }

  predicate Printable(s: string) {
    forall i :: 0 <= i < |s| ==> 33 <= s[i] as int < 127 && s[i] != '%'
  }

  lemma JoinPrintable(a: string, b: string)
    requires Printable(a) && Printable(b)
    ensures Printable(a + b)
  {
  }

  lemma PadPrintable(n: nat, width: nat, sep: string, rest: string)
    requires Printable(sep) && Printable(rest)
    ensures Printable(Pad(n, width) + (sep + rest))
  {
    JoinPrintable(sep, rest);
    JoinPrintable(Pad(n, width), sep + rest);
  }

  lemma IsoPrintable(issue: Issue)
    requires RealIssue(issue)
    ensures Printable(Iso(issue)) && Iso(issue) != ""
  {
    var d, n, o := issue.wall.date, issue.wall.second, issue.offset;
    if o.Some? {
      var m := Rounding.Abs(o.value);
      PadPrintable(m / 60, 2, ":", Pad(m % 60, 2));
      JoinPrintable(if o.value < 0 then "-" else "+", Pad(m / 60, 2) + (":" + Pad(m % 60, 2)));
    }
    PadPrintable(n / 60 % 60, 2, ":", Pad(n % 60, 2));
    PadPrintable(n / 3600, 2, ":", Pad(n / 60 % 60, 2) + (":" + Pad(n % 60, 2)));
    var t0 := Clock(n) + OffsetText(o);
    JoinPrintable(Clock(n), OffsetText(o));
    var t1 := Pad(d.day, 2) + ("T" + t0);
    PadPrintable(d.day, 2, "T", t0);
    var t2 := Pad(d.month, 2) + ("-" + t1);
    PadPrintable(d.month, 2, "-", t1);
    PadPrintable(d.year, 4, "-", t2);
  }

  lemma PricePrintable(cents: int)
    ensures Printable(PriceText(cents)) && PriceText(cents) != ""
  {
    var i, f := Money.IntDigits(cents, 2), Money.FracDigits(cents, 2);
    JoinPrintable(".", f);
    JoinPrintable(i, "." + f);
    JoinPrintable(Money.Sign(cents), i + ("." + f));
  }

  lemma PrintableBytes(s: string)
    requires Printable(s)
    ensures Bytes(s)
  {
  }

  lemma NamesPrintable(i: nat)
    requires i < |NAMES|
    ensures Printable(NAMES[i])
  {
    if i < 4 {
      assert NAMES[i] == "iic" || NAMES[i] == "tin" || NAMES[i] == "crtd" || NAMES[i] == "ord";
    } else {
      assert NAMES[i] == "bu" || NAMES[i] == "cr" || NAMES[i] == "sw" || NAMES[i] == "prc";
    }
  }

  lemma DefaultBytes(code: string, default: string)
    requires Bytes(code) && Printable(default)
    ensures Bytes(OrDefault(code, default))
  {
  }

  lemma NamedBytes(v: seq<string>)
    requires |v| == |NAMES| && forall i :: 0 <= i < |v| ==> Bytes(v[i])
    ensures FieldBytes(Named(v))
  {
    forall i | 0 <= i < |v| ensures Bytes(NAMES[i]) {
      NamesPrintable(i);
      PrintableBytes(NAMES[i]);
    }
  }

  lemma EightBytes(iic: string, tin: string, crtd: string, ord: string, bu: string, cr: string, sw: string, prc: string)
    requires Bytes(iic) && Bytes(tin) && Bytes(crtd) && Bytes(ord) && Bytes(bu) && Bytes(cr) && Bytes(sw) && Bytes(prc)
    ensures FieldBytes(Named(Eight(iic, tin, crtd, ord, bu, cr, sw, prc)))
  {
    var v := Eight(iic, tin, crtd, ord, bu, cr, sw, prc);
    forall i | 0 <= i < |v| ensures Bytes(v[i]) {
      assert v[i] in [iic, tin, crtd, ord, bu, cr, sw, prc];
    }
    NamedBytes(v);
  }

  lemma FieldsBytes(f: QrFields, crtd: string, ord: string, prc: string)
    requires Encodable(f) && Printable(crtd) && Printable(ord) && Printable(prc)
    ensures FieldBytes(Named(Eight(f.iic, f.tin, crtd, ord, OrDefault(f.unitCode, "bu00000000"),
                                   OrDefault(f.deviceCode, "cr00000000"), OrDefault(f.softCode, "sw00000000"), prc)))
  {
    PrintableBytes(crtd);
    PrintableBytes(ord);
    PrintableBytes(prc);
    DefaultBytes(f.unitCode, "bu00000000");
    DefaultBytes(f.deviceCode, "cr00000000");
    DefaultBytes(f.softCode, "sw00000000");
    EightBytes(f.iic, f.tin, crtd, ord, OrDefault(f.unitCode, "bu00000000"), OrDefault(f.deviceCode, "cr00000000"),
               OrDefault(f.softCode, "sw00000000"), prc);
  }

  lemma OrdPrintable(n: nat)
    ensures Printable(DigitsOf(n)) && DigitsOf(n) != ""
  {
  }

  lemma ValuesBytes(f: QrFields, issue: Issue)
    requires RealIssue(issue) && Encodable(f)
    ensures FieldBytes(Named(Values(f, issue)))
  {
    IsoPrintable(issue);
    OrdPrintable(f.ord);
    PricePrintable(f.price);
    FieldsBytes(f, Iso(issue), DigitsOf(f.ord), PriceText(f.price));
  }

  function Query(f: QrFields, issue: Issue): string
    requires RealIssue(issue) && Encodable(f)
  {
    ValuesBytes(f, issue);
    Urlencode(Named(Values(f, issue)))
  }

  function UrlText(f: QrFields, issue: Issue): string
    requires RealIssue(issue) && Encodable(f)
  {
    Portal(f.prod) + ("#/verify?" + Query(f, issue))
  }

  /** build_qr_url */
  function BuildUrl(f: QrFields): string
    requires Zoned(f.issue) && Encodable(f)
  {
    UrlText(f, IssueOf(f.issue))
  }

  // ---------- reading ----------

  /** White space among single bytes */
  predicate Blank(c: char) { 9 <= c as int <= 13 || 28 <= c as int <= 32 }

  function StripLeft(s: string): string { if s != [] && Blank(s[0]) then StripLeft(s[1..]) else s }

  function StripRight(s: string): string { if s != [] && Blank(s[|s| - 1]) then StripRight(s[..|s| - 1]) else s }

  function Strip(s: string): string { StripRight(StripLeft(s)) }

  predicate Stripped(s: string) { s == [] || (!Blank(s[0]) && !Blank(s[|s| - 1])) }

  lemma {:induction false} StripRightShort(s: string)
    ensures |StripRight(s)| <= |s| && (|StripRight(s)| == |s| ==> StripRight(s) == s)
    ensures StripRight(s) == s <==> s == [] || !Blank(s[|s| - 1])
  {
    if s != [] { StripRightShort(s[..|s| - 1]); }
  }

  lemma {:induction false} StripLeftShort(s: string)
    ensures |StripLeft(s)| <= |s| && (|StripLeft(s)| == |s| ==> StripLeft(s) == s)
    ensures StripLeft(s) == s <==> s == [] || !Blank(s[0])
  {
    if s != [] { StripLeftShort(s[1..]); }
  }

  lemma StripShort(s: string)
    ensures |Strip(s)| <= |s|
    ensures Strip(s) == s <==> Stripped(s)
  {
    StripLeftShort(s);
    StripRightShort(StripLeft(s));
  }

  /** text.split("?", 1)[1], or nothing */
  function AfterQuestion(s: string): string {
    var k := IndexOf(s, '?');
    if k == |s| then "" else s[k + 1..]
  }

  function StripQuery(s: string): string {
    if s != [] && (s[|s| - 1] == '?' || s[|s| - 1] == '&') then StripQuery(s[..|s| - 1]) else s
  }

  function StripQuestions(s: string): string { if s != [] && s[0] == '?' then StripQuestions(s[1..]) else s }

  /** Some scanners return only the query. */
  function WithPortal(text: string): string {
    if !Contains(text, "://") && (Contains(text, "iic=") || Contains(text, "tin="))
    then Portal(true) + ("#/verify?" + StripQuestions(text)) else text
  }

  function Rerouted(before: string, after: string): string { StripQuery(before) + ("?" + AfterQuestion(after)) }

  /** A query behind a hash route is brought before it. */
  function Unrouted(text: string): string { UnroutedFrom(text, IndexOf(text, '#'), Contains(text, "#/")) }

  function UnroutedFrom(text: string, hash: nat, routed: bool): string
    requires hash <= |text|
  {
    if routed && hash < |text| && '?' in text[hash + 1..] then Rerouted(text[..hash], text[hash + 1..]) else text
  }

  /** urlparse(text).query and .fragment */
  function QueryOf(text: string): string { AfterQuestion(text[..IndexOf(text, '#')]) }

  function FragmentOf(text: string): string {
    var h := IndexOf(text, '#');
    if h == |text| then "" else text[h + 1..]
  }

  function FieldsIn(text: string): seq<Field> {
    var qs := ParseQs(QueryOf(text));
    if qs == [] && '?' in FragmentOf(text) then ParseQs(AfterQuestion(FragmentOf(text))) else qs
  }

  function One(fields: seq<Field>, name: string): Option<string> {
    var v := Lookup(fields, name);
    var w := if v.Some? then v else Lookup(fields, Upper(name));
    if w.None? then None
    else
      var s := Strip(Unquote(w.value));
      if s == [] then None else Some(s)
  }

  function Cut(s: string, n: nat): string { if |s| <= n then s else s[..n] }

  datatype Draft = Draft(qrUrl: string, ikof: Option<string>, supplierPib: Option<string>, issue: Option<Issue>,
                         ord: Option<int>, unitCode: Option<string>, deviceCode: Option<string>,
                         softCode: Option<string>, gross: Option<Money.Decimal>, number: string)

  function NumberText(n: int): string { if n < 0 then "-" + DigitsOf(-n) else DigitsOf(n) }

  function NumberOf(unitCode: Option<string>, ord: Option<int>, issue: Option<Issue>, deviceCode: Option<string>)
    : string
  {
    if ord.None? || ord.value == 0 || issue.None? || issue.value.wall.date.year < 0 then ""
    else
      var year := DigitsOf(issue.value.wall.date.year);
      if unitCode.Some? && deviceCode.Some?
      then unitCode.value + ("/" + (NumberText(ord.value) + ("/" + (year + ("/" + deviceCode.value)))))
      else NumberText(ord.value) + ("/" + year)
  }

  /** The URL kept with the draft. */
  function Canonical(raw: string, text: string): string {
    if "http" <= text && Contains(raw, "#/") then
      (if Contains(text, "efitest") then Portal(false) else Portal(true))
      + ("#/verify?" + if QueryOf(text) == [] then AfterQuestion(text) else QueryOf(text))
    else if "http" <= text then text
    else Portal(true) + ("#/verify?" + QueryOf(text))
  }

  function DraftOf(fields: seq<Field>, url: string): Result<Draft> {
    if One(fields, "iic").None? && One(fields, "tin").None? then Err("no iic or tin")
    else
      var crtd, ordText, prc := One(fields, "crtd"), One(fields, "ord"), One(fields, "prc");
      var issue := if crtd.None? then None else ReadIso(crtd.value);
      var ord := if ordText.None? then None else ReadInt(ordText.value);
      var gross := if prc.None? then None else Money.ParseAmount(prc.value, Some(2));
      Ok(Assembled(Cut(url, 512), One(fields, "iic"), One(fields, "tin"), issue, ord, One(fields, "bu"),
                   One(fields, "cr"), One(fields, "sw"), gross))
  }

  function Assembled(url: string, iic: Option<string>, tin: Option<string>, issue: Option<Issue>, ord: Option<int>,
                     bu: Option<string>, cr: Option<string>, sw: Option<string>, gross: Option<Money.Decimal>): Draft {
    Draft(url, iic, tin, issue, ord, bu, cr, sw, gross, Cut(NumberOf(bu, ord, issue, cr), 64))
  }

  /** parse_verify_url */
  function Parsed(raw: string): Result<Draft> {
    if Strip(raw) == [] then Err("empty")
    else
      var text := Unrouted(WithPortal(Strip(raw)));
      DraftOf(FieldsIn(text), Canonical(raw, text))
  }

  method ParseVerifyUrl(raw: string) returns (r: Result<Draft>)
    ensures r == Parsed(raw)
  {
    var text := Strip(raw);
    if text == [] { return Err("empty"); }
    text := WithPortal(text);
    var hash := IndexOf(text, '#');
    if Contains(text, "#/") && hash < |text| && '?' in text[hash + 1..] {
      text := StripQuery(text[..hash]) + ("?" + AfterQuestion(text[hash + 1..]));
    }
    var qs := ReadFields(text);
    r := DraftOf(qs, Canonical(raw, text));
  }

  method ReadFields(text: string) returns (qs: seq<Field>)
    ensures qs == FieldsIn(text)
  {
    qs := ParseQs(QueryOf(text));
    if qs == [] && '?' in FragmentOf(text) {
      qs := ParseQs(AfterQuestion(FragmentOf(text)));
    }
  }

  // ---------- scanning what the seller printed ----------

  /** A value that one() hands back unchanged: not empty, no white space around it, and no percent sign
      followed by two hexadecimal digits, which the second unquoting would take for an escape. */
  predicate Clean(v: string) { v != "" && Stripped(v) && NoEscape(v) }

  lemma PrintableClean(s: string)
    requires Printable(s) && s != ""
    ensures Clean(s)
  {
  }

  lemma OneOf(fields: seq<Field>, name: string, v: string)
    requires Lookup(fields, name) == Some(v)
    ensures One(fields, name) == Some(v) <==> Clean(v)
  {
    UnquoteAgain(v);
    StripShort(Unquote(v));
    StripShort(v);
  }

  lemma {:induction false} LookupNonBlank(fields: seq<Field>, i: nat)
    requires i < |fields| && fields[i].value != []
    requires forall j | 0 <= j < i :: fields[j].name != fields[i].name
    ensures Lookup(NonBlank(fields), fields[i].name) == Some(fields[i].value)
  {
    var rest := NonBlank(fields[1..]);
    if i > 0 {
      LookupNonBlank(fields[1..], i - 1);
      assert Lookup(rest, fields[i].name) == Some(fields[i].value);
      assert ([fields[0]] + rest)[1..] == rest;
      assert [] + rest == rest;
    } else {
      assert NonBlank(fields)[0] == fields[0];
    }
  }

  lemma NamesDiffer(i: nat, j: nat)
    requires i < j < |NAMES|
    ensures NAMES[i] != NAMES[j]
  {
    assert forall k | 0 <= k < |NAMES| :: |NAMES[k]| > 0;
    assert i == 2 && j == 5 ==> |NAMES[i]| != |NAMES[j]|;
    assert !(i == 2 && j == 5) ==> NAMES[i][0] != NAMES[j][0];
  }

  /** A field is recovered exactly when its value is clean. */
  lemma FieldRecovered(v: seq<string>, i: nat)
    requires |v| == |NAMES| && i < |v|
    ensures One(NonBlank(Named(v)), NAMES[i]) == Some(v[i]) <==> Clean(v[i])
  {
    if v[i] != "" {
      forall j | 0 <= j < i ensures Named(v)[j].name != NAMES[i] { NamesDiffer(j, i); }
      LookupNonBlank(Named(v), i);
      OneOf(NonBlank(Named(v)), NAMES[i], v[i]);
    }
  }

  lemma PriceRead(cents: int)
    ensures Money.ParseAmount(PriceText(cents), Some(2)) == Some(Money.Decimal(cents, 2))
  {
    Money.ReadPoint(Money.Sign(cents), Money.IntDigits(cents, 2), Money.FracDigits(cents, 2));
    Money.DigitsRejoin(cents, 2);
    Rounding.HalfUpExact(cents, Pow10(2));
  }

  lemma ContainsAt(s: string, t: string, k: nat)
    requires k + |t| <= |s| && s[k..k + |t|] == t
    ensures Contains(s, t)
  {
    assert s[k..][..|t|] == t;
    assert t <= s[k..];
  }

  /** What reading relies on in the address of a portal. */
  predicate PortalLike(p: string) {
    && |p| >= 8 && p[0] == 'h' && p[1] == 't' && p[2] == 't' && p[3] == 'p'
    && p[5] == ':' && p[6] == '/' && p[7] == '/' && p[|p| - 1] == '/'
    && forall i :: 0 <= i < |p| ==> p[i] != '#' && p[i] != '?'
  }

  lemma PortalText(prod: bool)
    ensures PortalLike(Portal(prod))
  {
  }

  lemma HasScheme(p: string, r: string)
    requires |p| >= 8 && p[5] == ':' && p[6] == '/' && p[7] == '/'
    ensures Contains(p + r, "://")
  {
    var url := p + r;
    assert url[5..8] == [url[5], url[6], url[7]] == "://";
    ContainsAt(url, "://", 5);
  }

  lemma HasRoute(p: string, q: string)
    ensures Contains(p + ("#/verify?" + q), "#/")
  {
    var url := p + ("#/verify?" + q);
    assert url[|p|] == '#' && url[|p| + 1] == '/';
    assert url[|p|..|p| + 2] == [url[|p|], url[|p| + 1]] == "#/";
    ContainsAt(url, "#/", |p|);
  }

  lemma CutAt(p: string, c: char, r: string)
    requires forall i :: 0 <= i < |p| ==> p[i] != c
    ensures var t := p + ([c] + r); IndexOf(t, c) == |p| && t[..|p|] == p && t[|p| + 1..] == r
  {
    var t := p + ([c] + r);
    assert t[|p|] == c && forall i :: 0 <= i < |p| ==> t[i] == p[i];
    IndexOfIs(t, c, |p|);
  }

  lemma RouteSeen(p: string, q: string)
    requires PortalLike(p)
    ensures var url := p + ("#/verify?" + q); Contains(url, "#/") && WithPortal(url) == url
  {
    HasScheme(p, "#/verify?" + q);
    KeepsPortal(p + ("#/verify?" + q));
    HasRoute(p, q);
  }

  /** Undoing the hash route. */
  lemma Unroutes(p: string, q: string)
    requires PortalLike(p)
    ensures var url := p + ("#/verify?" + q); UnroutedFrom(url, IndexOf(url, '#'), true) == p + ("?" + q)
  {
    RouteSplit(q);
    AfterRoute(q);
    UnroutesAfter(p, "/verify?" + q, q);
  }

  lemma RouteSplit(q: string)
    ensures "#/verify?" + q == ['#'] + ("/verify?" + q)
  {
  }

  lemma UnroutesAfter(p: string, after: string, q: string)
    requires PortalLike(p) && '?' in after && AfterQuestion(after) == q
    ensures var url := p + (['#'] + after); UnroutedFrom(url, IndexOf(url, '#'), true) == p + ("?" + q)
  {
    CutAt(p, '#', after);
    UnroutedAt(p + (['#'] + after), |p|, p, after);
    ReroutedIs(p, after);
  }

  lemma UnroutedAt(text: string, hash: nat, p: string, after: string)
    requires hash < |text| && text[..hash] == p && text[hash + 1..] == after && '?' in after
    ensures UnroutedFrom(text, hash, true) == Rerouted(p, after)
  {
  }

  lemma ReroutedIs(p: string, after: string)
    requires PortalLike(p)
    ensures Rerouted(p, after) == p + ("?" + AfterQuestion(after))
  {
    assert StripQuery(p) == p;
  }

  lemma KeepsPortal(url: string)
    requires Contains(url, "://")
    ensures WithPortal(url) == url
  {
  }

  lemma AfterRoute(q: string)
    ensures '?' in "/verify?" + q && AfterQuestion("/verify?" + q) == q
  {
    var after := "/verify?" + q;
    assert after == "/verify" + (['?'] + q);
    CutAt("/verify", '?', q);
    assert after[7] == '?';
  }

  lemma QueryAfterPortal(p: string, q: string)
    requires PortalLike(p) && QueryText(q)
    ensures var t := p + ("?" + q); QueryOf(t) == q && FragmentOf(t) == "" && AfterQuestion(t) == q && "http" <= t
  {
    var t := p + ("?" + q);
    IndexOfNone(t, '#');
    assert t[..|t|] == t;
    CutAt(p, '?', q);
    assert t[0] == 'h' && t[1] == 't' && t[2] == 't' && t[3] == 'p';
  }

  lemma UrlStripped(p: string, q: string)
    requires PortalLike(p) && QueryText(q)
    ensures var url := p + ("#/verify?" + q); Strip(url) == url && url != []
  {
    var url := p + ("#/verify?" + q);
    assert url[0] == p[0];
    StripShort(url);
  }

  /** Reading a URL of the seller's form comes down to reading its query. */
  lemma ParsedIs(p: string, q: string)
    requires PortalLike(p) && QueryText(q)
    ensures var home := if Contains(p + ("?" + q), "efitest") then Portal(false) else Portal(true);
      Parsed(p + ("#/verify?" + q)) == DraftOf(ParseQs(q), home + ("#/verify?" + q))
  {
    UrlStripped(p, q);
    RouteSeen(p, q);
    Unroutes(p, q);
    QueryAfterPortal(p, q);
  }

  lemma LaterContains(p: string, q: string, t: string)
    requires Contains(q, t)
    ensures Contains(p + q, t)
  {
    var k :| 0 <= k <= |q| && t <= q[k..];
    assert (p + q)[|p| + k..] == q[k..];
    assert t <= (p + q)[|p| + k..];
  }

  lemma StartsLater(p: string, q: string, k: nat)
    requires k <= |p + q| && "efitest" <= (p + q)[k..]
    requires forall i :: 0 <= i < |p| ==> p[i] != 'e' || (i + 1 < |p| && p[i + 1] != 'f')
    ensures Contains(q, "efitest")
  {
    var t := p + q;
    assert t[k..][0] == 'e' && t[k..][1] == 'f';
    assert t[k] == 'e' && t[k + 1] == 'f';
    assert k >= |p|;
    assert t[k..] == q[k - |p|..];
    assert "efitest" <= q[k - |p|..];
  }

  lemma EarlierContains(p: string, q: string, t: string)
    requires Contains(p, t)
    ensures Contains(p + q, t)
  {
    var k :| 0 <= k <= |p| && t <= p[k..];
    assert (p + q)[k..] == p[k..] + q;
    assert t <= (p + q)[k..];
  }

  lemma TestPortal()
    ensures Contains(Portal(false), "efitest")
  {
    LaterContains("https://", "efitest" + ".tax.gov.me/ic/", "efitest") by {
      assert "efitest" <= ("efitest" + ".tax.gov.me/ic/")[0..];
    }
  }

  /** The portal's address holds "efitest" exactly in test mode, so only the query can mislead. */
  lemma WhichPortal(prod: bool, q: string)
    ensures Contains(Portal(prod) + ("?" + q), "efitest") <==> !prod || Contains(q, "efitest")
  {
    Assoc3(Portal(prod), "?", q);
    if Contains(q, "efitest") { LaterContains(Portal(prod) + "?", q, "efitest"); }
    if !prod {
      TestPortal();
      EarlierContains(Portal(prod), "?" + q, "efitest");
    } else if Contains(Portal(prod) + ("?" + q), "efitest") {
      ProdPortal(q);
    }
  }

  lemma ProdPortal(q: string)
    requires Contains(Portal(true) + "?" + q, "efitest")
    ensures Contains(q, "efitest")
  {
    var p := Portal(true) + "?";
    var k :| 0 <= k <= |p + q| && "efitest" <= (p + q)[k..];
    forall i | 0 <= i < |p| ensures p[i] != 'e' || (i + 1 < |p| && p[i + 1] != 'f') { NoEf(i); }
    StartsLater(p, q, k);
  }

  lemma NoEf(k: nat)
    requires k < 28
    ensures var p := Portal(true) + "?"; |p| == 28 && (p[k] == 'e' ==> k < 27 && p[k + 1] != 'f')
  {
  }

  lemma ScanText(f: QrFields, issue: Issue)
    requires RealIssue(issue) && Encodable(f) && f.ord >= 1
    ensures var unitCode, deviceCode, softCode :=
        OrDefault(f.unitCode, "bu00000000"), OrDefault(f.deviceCode, "cr00000000"), OrDefault(f.softCode, "sw00000000");
      var r := Parsed(UrlText(f, issue));
      && (r.Ok? ==>
            && r.value.ord == Some(f.ord) && r.value.issue == Some(issue)
            && r.value.gross == Some(Money.Decimal(f.price, 2))
            && r.value.qrUrl == Cut(if f.prod && Contains(Query(f, issue), "efitest")
                                    then UrlText(f.(prod := false), issue) else UrlText(f, issue), 512))
      && ((r.Ok? && r.value.ikof == Some(f.iic) && r.value.supplierPib == Some(f.tin)
           && r.value.unitCode == Some(unitCode) && r.value.deviceCode == Some(deviceCode)
           && r.value.softCode == Some(softCode))
          <==> Clean(f.iic) && Clean(f.tin) && Clean(unitCode) && Clean(deviceCode) && Clean(softCode))
      && (Clean(f.iic) && Clean(unitCode) && Clean(deviceCode) ==>
            r.Ok? && r.value.number == Cut(InvNum(f.unitCode, f.ord, issue.wall.date.year, f.deviceCode), 64))
  {
    var v := Values(f, issue);
    var q := Query(f, issue);
    ValuesBytes(f, issue);
    WrittenText(Named(v));
    UrlencodeRoundTrip(Named(v));
    PortalText(f.prod);
    ParsedIs(Portal(f.prod), q);
    WhichPortal(f.prod, q);
    OwnTexts(f, issue);
    var fields := NonBlank(Named(v));
    FieldRecovered(v, 0);
    FieldRecovered(v, 1);
    FieldRecovered(v, 4);
    FieldRecovered(v, 5);
    FieldRecovered(v, 6);
    var home := (if f.prod && !Contains(q, "efitest") then Portal(true) else Portal(false)) + ("#/verify?" + q);
    DraftReads(fields, home, Iso(issue), DigitsOf(f.ord), PriceText(f.price), issue, f.ord, Money.Decimal(f.price, 2));
    NumberIs(v[4], f.ord, issue, v[5]);
  }

  lemma DraftReads(fields: seq<Field>, url: string, crtd: string, ordText: string, prc: string,
                   issue: Issue, ord: int, gross: Money.Decimal)
    requires One(fields, "crtd") == Some(crtd) && ReadIso(crtd) == Some(issue)
    requires One(fields, "ord") == Some(ordText) && ReadInt(ordText) == Some(ord)
    requires One(fields, "prc") == Some(prc) && Money.ParseAmount(prc, Some(2)) == Some(gross)
    ensures DraftOf(fields, url)
         == if One(fields, "iic").None? && One(fields, "tin").None? then Err("no iic or tin")
            else Ok(Assembled(Cut(url, 512), One(fields, "iic"), One(fields, "tin"), Some(issue), Some(ord),
                              One(fields, "bu"), One(fields, "cr"), One(fields, "sw"), Some(gross)))
  {
  }

  lemma NumberIs(bu: string, ord: nat, issue: Issue, cr: string)
    requires ord >= 1 && issue.wall.date.year >= 0
    ensures NumberOf(Some(bu), Some(ord), Some(issue), Some(cr))
         == bu + ("/" + (DigitsOf(ord) + ("/" + (DigitsOf(issue.wall.date.year) + ("/" + cr)))))
  {
  }

  /** What the seller writes itself is always read back. */
  lemma OwnTexts(f: QrFields, issue: Issue)
    requires RealIssue(issue)
    ensures var fields := NonBlank(Named(Values(f, issue)));
      && One(fields, "crtd") == Some(Iso(issue)) && ReadIso(Iso(issue)) == Some(issue)
      && One(fields, "ord") == Some(DigitsOf(f.ord)) && ReadInt(DigitsOf(f.ord)) == Some(f.ord)
      && One(fields, "prc") == Some(PriceText(f.price))
      && Money.ParseAmount(PriceText(f.price), Some(2)) == Some(Money.Decimal(f.price, 2))
  {
    IsoPrintable(issue);
    OrdPrintable(f.ord);
    PricePrintable(f.price);
    OwnRecovered(Values(f, issue), Iso(issue), DigitsOf(f.ord), PriceText(f.price));
    IsoRoundTrip(issue);
    ReadsPlain(f.ord);
    PriceRead(f.price);
  }

  lemma OwnRecovered(v: seq<string>, crtd: string, ord: string, prc: string)
    requires |v| == |NAMES| && v[2] == crtd && v[3] == ord && v[7] == prc
    requires Printable(crtd) && Printable(ord) && Printable(prc) && crtd != "" && ord != "" && prc != ""
    ensures var fields := NonBlank(Named(v));
      One(fields, "crtd") == Some(crtd) && One(fields, "ord") == Some(ord) && One(fields, "prc") == Some(prc)
  {
    PrintableClean(crtd);
    PrintableClean(ord);
    PrintableClean(prc);
    FieldRecovered(v, 2);
    FieldRecovered(v, 3);
    FieldRecovered(v, 7);
  }

  /** Scanning the seller's URL: order number, issue time and price always come back; the identifiers come
      back exactly when they are clean; and then the draft carries the seller's InvNum, cut to 64
      characters.  The stored URL is the scanned one, cut to 512, unless a production query itself
      contains "efitest". */
  lemma ScanRecovers(f: QrFields)
    requires Zoned(f.issue) && Encodable(f) && f.ord >= 1
    ensures var unitCode, deviceCode, softCode :=
        OrDefault(f.unitCode, "bu00000000"), OrDefault(f.deviceCode, "cr00000000"), OrDefault(f.softCode, "sw00000000");
      var r := Parsed(BuildUrl(f));
      && (r.Ok? ==>
            && r.value.ord == Some(f.ord) && r.value.issue == Some(IssueOf(f.issue))
            && r.value.gross == Some(Money.Decimal(f.price, 2))
            && r.value.qrUrl == Cut(if f.prod && Contains(Query(f, IssueOf(f.issue)), "efitest")
                                    then BuildUrl(f.(prod := false)) else BuildUrl(f), 512))
      && ((r.Ok? && r.value.ikof == Some(f.iic) && r.value.supplierPib == Some(f.tin)
           && r.value.unitCode == Some(unitCode) && r.value.deviceCode == Some(deviceCode)
           && r.value.softCode == Some(softCode))
          <==> Clean(f.iic) && Clean(f.tin) && Clean(unitCode) && Clean(deviceCode) && Clean(softCode))
      && (Clean(f.iic) && Clean(unitCode) && Clean(deviceCode) ==>
            r.Ok? && r.value.number == Cut(InvNum(f.unitCode, f.ord, YearOf(f.issue), f.deviceCode), 64))
  {
    ScanText(f, IssueOf(f.issue));
  }

  lemma AssembledNumber(raw: string)
    requires Parsed(raw).Ok?
    ensures var d := Parsed(raw).value; d.number == Cut(NumberOf(d.unitCode, d.ord, d.issue, d.deviceCode), 64)
  {
    var text := Unrouted(WithPortal(Strip(raw)));
    DraftNumber(FieldsIn(text), Canonical(raw, text));
  }

  lemma DraftNumber(fields: seq<Field>, url: string)
    requires DraftOf(fields, url).Ok?
    ensures var d := DraftOf(fields, url).value; d.number == Cut(NumberOf(d.unitCode, d.ord, d.issue, d.deviceCode), 64)
  {
  }

  /** A scanned invoice gets a number exactly when its ordinal is there and not zero and its time is there. */
  lemma NumberedExactly(raw: string)
    requires Parsed(raw).Ok?
    ensures var d := Parsed(raw).value;
      d.number != "" <==> d.ord.Some? && d.ord.value != 0 && d.issue.Some? && d.issue.value.wall.date.year >= 0
  {
    AssembledNumber(raw);
    var d := Parsed(raw).value;
    NumberGiven(d.unitCode, d.ord, d.issue, d.deviceCode);
  }

  lemma NumberGiven(unitCode: Option<string>, ord: Option<int>, issue: Option<Issue>, deviceCode: Option<string>)
    ensures Cut(NumberOf(unitCode, ord, issue, deviceCode), 64) != ""
       <==> ord.Some? && ord.value != 0 && issue.Some? && issue.value.wall.date.year >= 0
  {
  }

  /** A scan that names no unit or no device, but an ordinal and a time, gets a short number, which as a local
      number reads back as that ordinal in that year, of no month. */
  lemma ShortNumberReads(raw: string)
    requires Parsed(raw).Ok?
    ensures var d := Parsed(raw).value;
      (d.unitCode.None? || d.deviceCode.None?) && d.ord.Some? && 1 <= d.ord.value && |DigitsOf(d.ord.value)| <= 59
      && d.issue.Some? && 1000 <= d.issue.value.wall.date.year <= 9999
      ==> ParseDisplay(d.number) == Some(Local(d.ord.value, Some(d.issue.value.wall.date.year as nat), None))
  {
    var d := Parsed(raw).value;
    AssembledNumber(raw);
    if d.ord.Some? && 1 <= d.ord.value && d.issue.Some? && 1000 <= d.issue.value.wall.date.year <= 9999 {
      ValDigitsOf(d.ord.value);
      YearDigits(d.issue.value.wall.date.year);
      YearlyRoundTrip(DigitsOf(d.ord.value), '/', d.issue.value.wall.date.year);
    }
  }

  // ---------- scanning only the query ----------

  lemma NoScheme(s: string, t: string)
    requires t != "" && t[0] !in s
    ensures !Contains(s, t)
  {
  }

  /** What the seller writes into the query starts with the IKOF. */
  lemma QueryStarts(f: QrFields, issue: Issue)
    requires RealIssue(issue) && Encodable(f)
    ensures var q := Query(f, issue); QueryText(q) && "iic=" <= q
  {
    var v := Values(f, issue);
    ValuesBytes(f, issue);
    WrittenText(Named(v));
    QuoteName();
    var parts := AllWritten(Named(v));
    assert Named(v)[0] == Field("iic", f.iic);
    assert "iic=" <= parts[0];
    assert parts[0] <= Join(parts, "&");
  }

  lemma QuoteName()
    ensures Quote("iic") == "iic"
  {
    assert "iic"[1..] == "ic" && "ic"[1..] == "c" && "c"[1..] == "";
    assert Quote("c") == "c";
    assert Quote("ic") == "ic";
  }

  /** A query without an address is given the production portal's. */
  lemma QueryPortal(lead: string, q: string)
    requires (lead == "" || lead == "?") && QueryText(q) && "iic=" <= q
    ensures WithPortal(lead + q) == Portal(true) + ("#/verify?" + q)
  {
    NoScheme(lead + q, "://");
    NamesIkof(lead, q);
    QueryAlone(lead, q);
  }

  lemma NamesIkof(lead: string, q: string)
    requires "iic=" <= q
    ensures Contains(lead + q, "iic=")
  {
    assert (lead + q)[|lead|..] == q;
  }

  lemma QueryStripped(lead: string, q: string)
    requires (lead == "" || lead == "?") && QueryText(q) && q != ""
    ensures Strip(lead + q) == lead + q
  {
    StripShort(lead + q);
  }

  lemma ParsedAs(raw: string, p: string, q: string)
    requires PortalLike(p) && QueryText(q) && Strip(raw) != [] && !Contains(raw, "#/")
    requires WithPortal(Strip(raw)) == p + ("#/verify?" + q)
    ensures Parsed(raw) == DraftOf(ParseQs(q), p + ("?" + q))
  {
    HasRoute(p, q);
    Unroutes(p, q);
    QueryAfterPortal(p, q);
  }

  lemma QueryParsed(lead: string, q: string)
    requires (lead == "" || lead == "?") && QueryText(q) && "iic=" <= q
    ensures Parsed(lead + q) == DraftOf(ParseQs(q), Portal(true) + ("?" + q))
  {
    QueryPortal(lead, q);
    QueryStripped(lead, q);
    NoScheme(lead + q, "#/");
    PortalText(true);
    ParsedAs(lead + q, Portal(true), q);
  }

  lemma QueryAlone(lead: string, q: string)
    requires (lead == "" || lead == "?") && "iic=" <= q
    ensures StripQuestions(lead + q) == q
  {
    assert q[0] == 'i';
    if lead == "?" { assert (lead + q)[1..] == q; } else { assert lead + q == q; }
  }

  /** A scanner that returns only the query, with or without its question mark, loses nothing: the draft is the
      one the whole URL gives, stored under the production portal's address. */
  lemma QueryScans(f: QrFields, lead: string)
    requires Zoned(f.issue) && Encodable(f) && (lead == "" || lead == "?")
    ensures var q, r := Query(f, IssueOf(f.issue)), Parsed(BuildUrl(f));
      Parsed(lead + q) == if r.Ok? then Ok(r.value.(qrUrl := Cut(Portal(true) + ("?" + q), 512))) else r
  {
    var q := Query(f, IssueOf(f.issue));
    QueryStarts(f, IssueOf(f.issue));
    QueryParsed(lead, q);
    PortalText(f.prod);
    ParsedIs(Portal(f.prod), q);
  }
}
