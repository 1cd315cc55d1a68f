/** Monthly invoice schedules (sepko/schedules.py): the days a schedule names, the day a run is due, the
    invoice a run makes, and the billing period it is for. */
module Schedules {
  import opened Wrappers
  import opened Text
  import opened Calendar
  import opened Sorting

  // ---------- the days a schedule names ----------

  /** The comma- or semicolon-separated parts; nothing stored means "1". */
  function Parts(raw: Option<string>): seq<string> {
    Split(Replace(if raw.None? || raw.value == [] then "1" else raw.value, ';', ','), ',')
  }

  predicate NamesDay(parts: seq<string>, d: int) {
    1 <= d <= 31 && exists i :: 0 <= i < |parts| && ReadInt(Trim(parts[i])) == Some(d)
  }

  function NamedDays(parts: seq<string>): set<int> { set d | 1 <= d <= 31 && NamesDay(parts, d) }

  function OrFirst(days: set<int>): set<int> { if days == {} then {1} else days }

  predicate StrictlyAscending(s: seq<int>) { forall i, j | 0 <= i < j < |s| :: s[i] < s[j] }

  /** The days from `from` to 31 that are in the set, in order. */
  function Ascending(days: set<int>, from: int): seq<int>
    decreases 32 - from
  {
    if from > 31 then [] else (if from in days then [from] else []) + Ascending(days, from + 1)
  }

  lemma {:induction false} AscendingIs(days: set<int>, from: int)
    ensures StrictlyAscending(Ascending(days, from))
    ensures forall d :: d in Ascending(days, from) <==> d in days && from <= d <= 31
    decreases 32 - from
  {
    if from <= 31 {
      AscendingIs(days, from + 1);
      var rest := Ascending(days, from + 1);
      forall j | 0 <= j < |rest| ensures from < rest[j] {
        assert rest[j] in rest;
      }
    }
  }

  lemma {:induction false} AscendingUnique(a: seq<int>, b: seq<int>)
    requires StrictlyAscending(a) && StrictlyAscending(b) && forall d :: d in a <==> d in b
    ensures a == b
  {
    if |a| == 0 {
      NoMembers(b);
    } else {
      assert a[0] in a;
      assert b[0] in b by { assert |b| > 0; }
      assert a[0] == b[0];
      forall d ensures d in a[1..] <==> d in b[1..] {
        if d in a[1..] { TailMember(a, b, d); }
        if d in b[1..] { TailMember(b, a, d); }
      }
      AscendingUnique(a[1..], b[1..]);
      assert a == [a[0]] + a[1..] && b == [b[0]] + b[1..];
    }
  }

  lemma NoMembers(s: seq<int>)
    requires forall d :: d !in s
    ensures s == []
  {
    if |s| > 0 {
      var d := s[0];
      if d in s { assert false; }
    }
  }

  lemma TailMember(a: seq<int>, b: seq<int>, d: int)
    requires |a| > 0 && |b| > 0 && a[0] == b[0] && StrictlyAscending(a)
    requires d in a[1..] && forall d :: d in a ==> d in b
    ensures d in b[1..]
  {
    var i :| 1 <= i < |a| && a[i] == d;
    assert a[i] in b;
    var j :| 0 <= j < |b| && b[j] == d;
    assert b[j] == b[1..][j - 1];
  }

  /** What parse_days_of_month returns. */
  function DayList(raw: Option<string>): seq<int> { Ascending(OrFirst(NamedDays(Parts(raw))), 1) }

  /** The days named by the parts, each once. */
  ghost predicate Collected(days: seq<int>, parts: seq<string>) {
    Distinct(days) && forall d :: d in days <==> NamesDay(parts, d)
  }

  /** The days once one more part is read. */
  function WithPart(days: seq<int>, part: string): seq<int> {
    var d := ReadInt(Trim(part));
    if d.Some? && 1 <= d.value <= 31 && d.value !in days then days + [d.value] else days
  }

  lemma OneMoreDay(parts: seq<string>, part: string, days: seq<int>)
    requires Collected(days, parts)
    ensures Collected(WithPart(days, part), parts + [part])
  {
    NamesOneMore(parts, part);
  }

  lemma NextDays(parts: seq<string>, i: nat, days: seq<int>)
    requires i < |parts| && Collected(days, parts[..i])
    ensures Collected(WithPart(days, parts[i]), parts[..i + 1])
  {
    OneMoreDay(parts[..i], parts[i], days);
    assert parts[..i + 1] == parts[..i] + [parts[i]];
  }

  /** The loop of parse_days_of_month. */
  method CollectDays(parts: seq<string>) returns (days: seq<int>)
    ensures Collected(days, parts)
  {
    days := [];
    var i := 0;
    while i < |parts|
      invariant i <= |parts| && Collected(days, parts[..i])
    {
      var d := ReadInt(Trim(parts[i]));
      NextDays(parts, i, days);
      if d.Some? && 1 <= d.value <= 31 && d.value !in days {
        days := days + [d.value];
      }
      i := i + 1;
    }
    assert parts[..i] == parts;
  }

  /** parse_days_of_month */
  method ParseDays(raw: Option<string>) returns (r: seq<int>)
    ensures r == DayList(raw)
  {
    var days := CollectDays(Parts(raw));
    var sorted := Sorted(days, Leq);
    SortedDays(days, sorted);
    r := if sorted == [] then [1] else sorted;
    ListOfNamed(Parts(raw), sorted);
  }

  lemma ListOfNamed(parts: seq<string>, sorted: seq<int>)
    requires StrictlyAscending(sorted) && forall d :: d in sorted <==> NamesDay(parts, d)
    ensures (if sorted == [] then [1] else sorted) == Ascending(OrFirst(NamedDays(parts)), 1)
  {
    var days := NamedDays(parts);
    AscendingIs(OrFirst(days), 1);
    assert forall d :: d in days <==> d in sorted;
    if |sorted| == 0 {
      assert days == {};
      AscendingUnique([1], Ascending({1}, 1));
    } else {
      assert sorted[0] in days;
      AscendingUnique(sorted, Ascending(days, 1));
    }
  }

  predicate Leq(a: int, b: int) { a <= b }

  lemma NamesOneMore(parts: seq<string>, part: string)
    ensures forall d :: NamesDay(parts + [part], d)
                        <==> NamesDay(parts, d) || (1 <= d <= 31 && ReadInt(Trim(part)) == Some(d))
  {
    forall d | 1 <= d <= 31
      ensures NamesDay(parts + [part], d) <==> NamesDay(parts, d) || ReadInt(Trim(part)) == Some(d)
    {
      if NamesDay(parts, d) {
        var i :| 0 <= i < |parts| && ReadInt(Trim(parts[i])) == Some(d);
        assert (parts + [part])[i] == parts[i];
      } else if ReadInt(Trim(part)) == Some(d) {
        assert (parts + [part])[|parts|] == part;
      }
    }
  }

  lemma SortedDays(days: seq<int>, sorted: seq<int>)
    requires Distinct(days) && sorted == Sorted(days, Leq)
    ensures StrictlyAscending(sorted) && forall d :: d in sorted <==> d in days
  {
    SortedPermutes(days, Leq);
    SortedSorts(days, Leq);
    PermutationDistinct(days, sorted);
  }

  function InRange(days: seq<int>): set<int> { set d | d in days && 1 <= d <= 31 }

  function Printed(days: seq<int>): (r: seq<string>)
    requires forall d :: d in days ==> d >= 0
    ensures |r| == |days|
  {
    seq(|days|, i requires 0 <= i < |days| => assert days[i] in days; DigitsOf(days[i]))
  }

  /** format_days_of_month */
  function FormatDays(days: seq<int>): string {
    AscendingIs(InRange(days), 1);
    var s := Join(Printed(Ascending(InRange(days), 1)), ",");
    if s == [] then "1" else s
  }

  lemma {:induction false} JoinKeepsOut(parts: seq<string>, sep: string, c: char)
    requires c !in sep && forall p :: p in parts ==> c !in p
    ensures c !in Join(parts, sep)
  {
    if |parts| > 0 {
      assert parts[0] in parts;
      if |parts| > 1 { JoinKeepsOut(parts[1..], sep, c); }
    }
  }

  lemma PrintedParts(days: seq<int>)
    requires |days| > 0 && forall d :: d in days ==> d >= 0
    ensures var s := Join(Printed(days), ","); |s| > 0 && Parts(Some(s)) == Printed(days)
  {
    var parts := Printed(days);
    var s := Join(parts, ",");
    forall p | p in parts ensures ',' !in p && ';' !in p {
      var i :| 0 <= i < |parts| && parts[i] == p;
      assert days[i] in days;
    }
    assert days[0] in days && |parts[0]| > 0;
    JoinKeepsOut(parts, ",", ';');
    assert Replace(s, ';', ',') == s;
    SplitJoin(parts, ',');
  }

  /** The list written out: never empty. */
  function Kept(days: seq<int>): (r: seq<int>)
    ensures forall d :: d in r ==> d >= 1
  {
    AscendingIs(InRange(days), 1);
    if InRange(days) == {} then [1] else Ascending(InRange(days), 1)
  }

  lemma KeptIs(days: seq<int>)
    ensures |Kept(days)| > 0 && forall d :: d in Kept(days) <==> d in OrFirst(InRange(days))
  {
    AscendingIs(InRange(days), 1);
    if InRange(days) != {} {
      var d :| d in InRange(days);
      assert d in Kept(days);
    }
  }

  lemma FormatKept(days: seq<int>)
    ensures FormatDays(days) == Join(Printed(Kept(days)), ",")
  {
    AscendingIs(InRange(days), 1);
    KeptIs(days);
    PrintedParts(Kept(days));
    if InRange(days) == {} {
      NoMembers(Ascending(InRange(days), 1));
      assert Printed([1]) == [DigitsOf(1)] == ["1"];
    }
  }

  /** Reading back what was written gives the days 1 to 31 that were written, or the first. */
  lemma DaysRoundTrip(days: seq<int>)
    ensures DayList(Some(FormatDays(days))) == Ascending(OrFirst(InRange(days)), 1)
  {
    var kept := Kept(days);
    KeptIs(days);
    FormatKept(days);
    PrintedParts(kept);
    forall d ensures d in NamedDays(Printed(kept)) <==> d in OrFirst(InRange(days)) {
      PrintedNames(kept, d);
    }
    assert NamedDays(Printed(kept)) == OrFirst(InRange(days));
  }

  lemma PrintedNames(days: seq<int>, d: int)
    requires forall d :: d in days ==> 1 <= d <= 31
    ensures NamesDay(Printed(days), d) <==> d in days
  {
    forall i | 0 <= i < |days| ensures ReadInt(Trim(Printed(days)[i])) == Some(days[i]) {
      assert days[i] in days;
      ReadsDigits(days[i]);
    }
    if d in days {
      var i :| 0 <= i < |days| && days[i] == d;
      assert ReadInt(Trim(Printed(days)[i])) == Some(d);
    }
  }

  // ---------- the day a run is due ----------

  function Min(a: int, b: int): int { if a <= b then a else b }

  /** The days of the month on which the schedule runs: a named day past the end becomes the last day. */
  function Effective(raw: Option<string>, y: int, m: int): set<int> {
    set k | k in DayList(raw) :: Min(k, DaysIn(y, m))
  }

  lemma DayListIs(raw: Option<string>)
    ensures |DayList(raw)| > 0 && forall k :: k in DayList(raw) ==> 1 <= k <= 31
  {
    var days := OrFirst(NamedDays(Parts(raw)));
    AscendingIs(days, 1);
    var k :| k in days;
    assert k in DayList(raw);
  }

  lemma EffectiveDays(raw: Option<string>, y: int, m: int)
    ensures Effective(raw, y, m) != {}
    ensures forall d :: d in Effective(raw, y, m) ==> 1 <= d <= DaysIn(y, m)
  {
    DayListIs(raw);
    var k := DayList(raw)[0];
    assert k in DayList(raw);
    assert Min(k, DaysIn(y, m)) in Effective(raw, y, m);
  }

  /** A schedule runs on a day exactly when it names that day, or names one past the end of a month of which this is the
      last day. */
  lemma RunDayExactly(raw: Option<string>, y: int, m: int, d: int)
    ensures d in Effective(raw, y, m)
       <==> (d in DayList(raw) && d <= DaysIn(y, m))
            || (d == DaysIn(y, m) && exists k :: k in DayList(raw) && k > DaysIn(y, m))
  {
    if d in DayList(raw) && d <= DaysIn(y, m) { assert Min(d, DaysIn(y, m)) == d; }
    if k :| k in DayList(raw) && k > DaysIn(y, m) { assert Min(k, DaysIn(y, m)) in Effective(raw, y, m); }
  }

  datatype Fault = TemplateMissing | NotRegistered | MailFailed | Raised

  datatype Schedule = Schedule(days: Option<string>, active: bool, autoFiscalize: bool, autoEmail: bool,
                               lastRun: Option<Date>, lastError: Option<Fault>)

  predicate Named(days: Option<string>, today: Date) { today.day in Effective(days, today.year, today.month) }

  /** schedule_due_today */
  predicate Due(s: Schedule, today: Date) { Named(s.days, today) && s.lastRun != Some(today) }

  // ---------- one run ----------

  /** What the world answers: the template exists, the partner registers, the mail goes out. */
  datatype Mail = Sent | Refused | Breaks
  datatype Outcome = Outcome(template: bool, registered: bool, mail: Mail)

  datatype Report = Skipped | NoTemplate | Ran(registered: Option<bool>, mailed: Option<bool>) | Broke

  predicate Attempts(s: Schedule, today: Date, force: bool) { force || (s.active && Due(s, today)) }

  predicate Breaking(s: Schedule, o: Outcome) { s.autoEmail && o.mail.Breaks? }

  /** An invoice is made as soon as the template is copied, whatever happens afterwards. */
  predicate Makes(s: Schedule, today: Date, force: bool, o: Outcome) { Attempts(s, today, force) && o.template }

  /** The row after a run. */
  function RowAfter(s: Schedule, today: Date, force: bool, o: Outcome): Schedule {
    if !Attempts(s, today, force) then s
    else if !o.template then s.(lastError := Some(TemplateMissing))
    else if Breaking(s, o) then s
    else
      s.(lastRun := Some(today),
         lastError := if s.autoEmail && o.mail.Refused? then Some(MailFailed)
                      else if s.autoFiscalize && !o.registered then Some(NotRegistered)
                      else None)
  }

  function ReportOf(s: Schedule, today: Date, force: bool, o: Outcome): Report {
    if !Attempts(s, today, force) then Skipped
    else if !o.template then NoTemplate
    else if Breaking(s, o) then Broke
    else Ran(if s.autoFiscalize then Some(o.registered) else None,
             if s.autoEmail then Some(o.mail.Sent?) else None)
  }

  /** The row after the daily job reached it; the job records an exception on the row. */
  function DailyRow(s: Schedule, today: Date, o: Outcome): Schedule {
    if Makes(s, today, false, o) && Breaking(s, o) then s.(lastError := Some(Raised)) else RowAfter(s, today, false, o)
  }

  /** What is asked of a run: the template, registration if wanted, mail if wanted. */
  predicate AllDone(s: Schedule, o: Outcome) {
    o.template && (s.autoFiscalize ==> o.registered) && (s.autoEmail ==> o.mail.Sent?)
  }

  /** The report of a run that made its invoice and failed in nothing. */
  predicate CleanReport(r: Report) { r.Ran? && r.registered != Some(false) && r.mailed != Some(false) }

  /** After the daily job reached a schedule that was due, its error is clear exactly if everything asked was done,
      and then the report is clean; it names the latest step that failed; the day counts as run exactly if an invoice
      was made and nothing raised. */
  lemma RunRecorded(s: Schedule, today: Date, o: Outcome)
    requires s.active && Due(s, today)
    ensures var r := DailyRow(s, today, o);
      && (r.lastError.None? <==> AllDone(s, o))
      && (r.lastError == Some(TemplateMissing) <==> !o.template)
      && (r.lastError == Some(Raised) <==> o.template && s.autoEmail && o.mail.Breaks?)
      && (r.lastError == Some(MailFailed) <==> o.template && s.autoEmail && o.mail.Refused?)
      && (r.lastRun == Some(today) <==> r.lastError != Some(TemplateMissing) && r.lastError != Some(Raised))
      && (r.days, r.active, r.autoFiscalize, r.autoEmail) == (s.days, s.active, s.autoFiscalize, s.autoEmail)
      && (r.lastError.None? <==> CleanReport(ReportOf(s, today, false, o)))
  {
  }

  datatype Made = Made(schedule: nat, day: Date)

  /** The invoices one pass of the daily job makes. */
  function NewMade(calls: seq<bool>, today: Date): seq<Made> {
    if calls == [] then []
    else
      var n := |calls| - 1;
      NewMade(calls[..n], today) + if calls[n] then [Made(n, today)] else []
  }

  /** Which schedules make an invoice in a pass. */
  function Calls(rows: seq<Schedule>, outcomes: seq<Outcome>, today: Date): (calls: seq<bool>)
    requires |outcomes| == |rows|
    ensures |calls| == |rows|
  {
    seq(|rows|, k requires 0 <= k < |rows| => Makes(rows[k], today, false, outcomes[k]))
  }

  /** One pass makes at most one invoice for a schedule, and makes it exactly when it is called for. */
  lemma {:induction false} PassMakesOne(calls: seq<bool>, today: Date, k: nat, day: Date)
    ensures multiset(NewMade(calls, today))[Made(k, day)] == if k < |calls| && today == day && calls[k] then 1 else 0
  {
    if calls != [] { PassMakesOne(calls[..|calls| - 1], today, k, day); }
  }

  function ActiveCount(rows: seq<Schedule>): nat {
    if rows == [] then 0 else ActiveCount(rows[..|rows| - 1]) + if rows[|rows| - 1].active then 1 else 0
  }

  /** The rows once the job has reached the first n of them. */
  function Pass(rows: seq<Schedule>, outcomes: seq<Outcome>, today: Date, n: nat): seq<Schedule>
    requires n <= |outcomes| == |rows|
  {
    seq(|rows|, k requires 0 <= k < |rows| => if k < n then DailyRow(rows[k], today, outcomes[k]) else rows[k])
  }

  lemma PassOneMore(rows: seq<Schedule>, outcomes: seq<Outcome>, today: Date, i: nat)
    requires i < |outcomes| == |rows|
    ensures var s, o := rows[i], outcomes[i];
      && Pass(rows, outcomes, today, i)[i] == s
      && Pass(rows, outcomes, today, i + 1) == Pass(rows, outcomes, today, i)[i := DailyRow(s, today, o)]
      && ActiveCount(rows[..i + 1]) == ActiveCount(rows[..i]) + (if s.active then 1 else 0)
      && NewMade(Calls(rows, outcomes, today)[..i + 1], today)
         == NewMade(Calls(rows, outcomes, today)[..i], today)
            + (if Makes(s, today, false, o) then [Made(i, today)] else [])
      && (!s.active ==> DailyRow(s, today, o) == s && !Makes(s, today, false, o))
      && (ReportOf(s, today, false, o).Ran? ==> Makes(s, today, false, o))
      && (ReportOf(s, today, false, o).Skipped? ==> !Makes(s, today, false, o))
  {
    var calls := Calls(rows, outcomes, today);
    assert rows[..i + 1][..i] == rows[..i] && calls[..i + 1][..i] == calls[..i];
  }

  class Scheduler {
    var rows: seq<Schedule>
    var made: seq<Made>

    /** run_schedule */
    method RunSchedule(k: nat, today: Date, force: bool, o: Outcome) returns (report: Report)
      requires k < |rows|
      modifies this
      ensures rows == old(rows)[k := RowAfter(old(rows[k]), today, force, o)]
      ensures made == old(made) + if Makes(old(rows[k]), today, force, o) then [Made(k, today)] else []
      ensures report == ReportOf(old(rows[k]), today, force, o)
    {
      var row := rows[k];
      if (!row.active && !force) || (!force && !Due(row, today)) {
        return Skipped;
      }
      if !o.template {
        rows := rows[k := row.(lastError := Some(TemplateMissing))];
        return NoTemplate;
      }
      made := made + [Made(k, today)];
      var registered, mailed: Option<bool> := None, None;
      if row.autoFiscalize {
        registered := Some(o.registered);
        if !o.registered { row := row.(lastError := Some(NotRegistered)); }
      }
      if row.autoEmail {
        if o.mail.Breaks? { return Broke; }
        mailed := Some(o.mail.Sent?);
        if !o.mail.Sent? { row := row.(lastError := Some(MailFailed)); }
      }
      row := row.(lastRun := Some(today));
      if registered != Some(false) && mailed != Some(false) { row := row.(lastError := None); }
      rows := rows[k := row];
      report := Ran(registered, mailed);
    }

    /** One turn of the job's loop: a broken-off run is noted on the row. */
    method Attempt(k: nat, today: Date, o: Outcome) returns (report: Report)
      requires k < |rows|
      modifies this
      ensures rows == old(rows)[k := DailyRow(old(rows[k]), today, o)]
      ensures made == old(made) + if Makes(old(rows[k]), today, false, o) then [Made(k, today)] else []
      ensures report == ReportOf(old(rows[k]), today, false, o)
    {
      if !Due(rows[k], today) { return Skipped; }
      report := RunSchedule(k, today, false, o);
      if report.Broke? { rows := rows[k := rows[k].(lastError := Some(Raised))]; }
    }

    /** run_due_schedules: every active schedule is counted once and each row is treated on its own. */
    method RunDue(today: Date, outcomes: seq<Outcome>) returns (ran: nat, skipped: nat, failed: nat)
      requires |outcomes| == |rows|
      modifies this
      ensures rows == Pass(old(rows), outcomes, today, |outcomes|)
      ensures made == old(made) + NewMade(Calls(old(rows), outcomes, today), today)
      ensures ran + skipped + failed == ActiveCount(old(rows))
      ensures ran <= |NewMade(Calls(old(rows), outcomes, today), today)| <= ran + failed
    {
      ran, skipped, failed := 0, 0, 0;
      var i := 0;
      while i < |rows|
        invariant i <= |rows| == |old(rows)|
        invariant rows == Pass(old(rows), outcomes, today, i)
        invariant made == old(made) + NewMade(Calls(old(rows), outcomes, today)[..i], today)
        invariant ran + skipped + failed == ActiveCount(old(rows)[..i])
        invariant ran <= |NewMade(Calls(old(rows), outcomes, today)[..i], today)| <= ran + failed
      {
        PassOneMore(old(rows), outcomes, today, i);
        if rows[i].active {
          var report := Attempt(i, today, outcomes[i]);
          if report.Skipped? {
            skipped := skipped + 1;
          } else if report.Ran? {
            ran := ran + 1;
          } else {
            failed := failed + 1;
          }
        }
        i := i + 1;
      }
      assert old(rows)[..i] == old(rows);
      assert Calls(old(rows), outcomes, today)[..i] == Calls(old(rows), outcomes, today);
    }
  }


  /** A second run on the day of a run that made an invoice makes another one exactly when the first was
      broken off by its mail: then the day was never recorded. */
  lemma SecondRunSameDay(s: Schedule, today: Date, first: Outcome, second: Outcome)
    requires Makes(s, today, false, first)
    ensures Makes(DailyRow(s, today, first), today, false, second) <==> second.template && Breaking(s, first)
  {
  }

  // ---------- whole histories of one schedule ----------

  datatype Run = Run(today: Date, o: Outcome)

  function After(s: Schedule, runs: seq<Run>): Schedule {
    if runs == [] then s
    else
      var n := |runs| - 1;
      DailyRow(After(s, runs[..n]), runs[n].today, runs[n].o)
  }

  /** The invoices made on the day. */
  function MadeOn(s: Schedule, runs: seq<Run>, day: Date): nat {
    if runs == [] then 0
    else
      var n := |runs| - 1;
      MadeOn(s, runs[..n], day)
      + if runs[n].today == day && Makes(After(s, runs[..n]), day, false, runs[n].o) then 1 else 0
  }

  /** The job runs any number of times a day, days never go back, and no mail breaks off a run. */
  ghost predicate Orderly(s: Schedule, runs: seq<Run>) {
    && (forall i, j | 0 <= i < j < |runs| :: NotAfter(runs[i].today, runs[j].today))
    && (forall i | 0 <= i < |runs| :: s.lastRun.Some? ==> NotAfter(s.lastRun.value, runs[i].today))
    && (forall i | 0 <= i < |runs| :: !Breaking(s, runs[i].o))
  }

  ghost predicate Chance(runs: seq<Run>, day: Date) {
    exists i :: 0 <= i < |runs| && runs[i].today == day && runs[i].o.template
  }

  lemma ChanceOneMore(runs: seq<Run>, day: Date)
    requires |runs| > 0
    ensures var n := |runs| - 1;
      Chance(runs, day) <==> Chance(runs[..n], day) || (runs[n].today == day && runs[n].o.template)
  {
    var n := |runs| - 1;
    if Chance(runs[..n], day) {
      var i :| 0 <= i < n && runs[..n][i].today == day && runs[..n][i].o.template;
      assert runs[i].today == day;
    }
    if Chance(runs, day) {
      var i :| 0 <= i < |runs| && runs[i].today == day && runs[i].o.template;
      if i < n { assert runs[..n][i] == runs[i]; }
    }
  }

  lemma DailyRowIs(s: Schedule, today: Date, o: Outcome)
    requires !Breaking(s, o)
    ensures var t := DailyRow(s, today, o);
      && t.days == s.days && t.active == s.active && t.autoEmail == s.autoEmail
      && t.lastRun == if Makes(s, today, false, o) then Some(today) else s.lastRun
  {
  }

  lemma {:induction false} Untouched(s: Schedule, runs: seq<Run>)
    requires forall i | 0 <= i < |runs| :: !Breaking(s, runs[i].o)
    ensures var t := After(s, runs); t.days == s.days && t.active == s.active && t.autoEmail == s.autoEmail
  {
    if runs != [] {
      var n := |runs| - 1;
      Untouched(s, runs[..n]);
      DailyRowIs(After(s, runs[..n]), runs[n].today, runs[n].o);
    }
  }

  lemma {:induction false} MadeNeedsRun(s: Schedule, runs: seq<Run>, day: Date)
    requires forall i | 0 <= i < |runs| :: runs[i].today != day
    ensures MadeOn(s, runs, day) == 0
  {
    if runs != [] { MadeNeedsRun(s, runs[..|runs| - 1], day); }
  }

  /** The recorded day tells whether the day's invoice was made. */
  lemma {:induction false} Recorded(s: Schedule, runs: seq<Run>, day: Date)
    requires Orderly(s, runs) && forall i | 0 <= i < |runs| :: NotAfter(runs[i].today, day)
    ensures After(s, runs).lastRun == Some(day) <==> s.lastRun == Some(day) || MadeOn(s, runs, day) > 0
  {
    if runs != [] {
      var n := |runs| - 1;
      Recorded(s, runs[..n], day);
      Untouched(s, runs[..n]);
      DailyRowIs(After(s, runs[..n]), runs[n].today, runs[n].o);
      if runs[n].today != day {
        MadeNeedsRun(s, runs, day);
        MadeNeedsRun(s, runs[..n], day);
      }
    }
  }

  lemma OrderlyPrefix(s: Schedule, runs: seq<Run>)
    requires Orderly(s, runs) && runs != []
    ensures var n := |runs| - 1;
      Orderly(s, runs[..n]) && forall i | 0 <= i < n :: NotAfter(runs[..n][i].today, runs[n].today)
  {
  }

  lemma MakesIs(s: Schedule, t: Schedule, day: Date, o: Outcome)
    requires t.days == s.days && t.active == s.active
    ensures Makes(t, day, false, o) <==> s.active && Named(s.days, day) && t.lastRun != Some(day) && o.template
  {
  }

  /** On every day the job makes exactly one invoice if the schedule is active, the day is due, it was not
      already done, and the template could be found in some run of the day; otherwise none. */
  lemma {:induction false} OncePerDay(s: Schedule, runs: seq<Run>, day: Date)
    requires Orderly(s, runs)
    ensures MadeOn(s, runs, day)
         == if s.active && Due(s, day) && Chance(runs, day) then 1 else 0
  {
    if runs != [] {
      var n := |runs| - 1;
      OrderlyPrefix(s, runs);
      OncePerDay(s, runs[..n], day);
      ChanceOneMore(runs, day);
      if runs[n].today == day {
        Recorded(s, runs[..n], day);
        Untouched(s, runs[..n]);
        MakesIs(s, After(s, runs[..n]), day, runs[n].o);
      }
    }
  }

  function SumTo(count: nat -> nat, n: nat): nat { if n == 0 then 0 else SumTo(count, n - 1) + count(n) }

  function UpTo(days: set<int>, n: nat): set<int> { set d | d in days && 1 <= d <= n }

  lemma {:induction false} SumCounts(count: nat -> nat, n: nat, days: set<int>)
    requires forall d | 1 <= d <= n :: count(d) == if d in days then 1 else 0
    ensures SumTo(count, n) == |UpTo(days, n)|
  {
    if n > 0 {
      SumCounts(count, n - 1, days);
      assert UpTo(days, n) == if n in days then UpTo(days, n - 1) + {n as int} else UpTo(days, n - 1);
    }
  }

  /** The invoices made in a month. */
  function MadeInMonth(s: Schedule, runs: seq<Run>, y: int, m: int): nat {
    SumTo((d: nat) => MadeOn(s, runs, Date(y, m, d)), DaysIn(y, m))
  }

  /** A month in which the job runs on each due day, and finds the template then, gets exactly as many
      invoices as there are distinct days left after cutting to the length of the month: at least one. */
  lemma MonthlyInvoices(s: Schedule, runs: seq<Run>, y: int, m: int)
    requires Orderly(s, runs) && s.active
    requires s.lastRun.Some? ==> s.lastRun.value.year != y || s.lastRun.value.month != m
    requires forall d | d in Effective(s.days, y, m) :: Chance(runs, Date(y, m, d))
    ensures MadeInMonth(s, runs, y, m) == |Effective(s.days, y, m)| >= 1
  {
    var due, last := Effective(s.days, y, m), DaysIn(y, m);
    EffectiveDays(s.days, y, m);
    var count := (d: nat) => MadeOn(s, runs, Date(y, m, d));
    forall d | 1 <= d <= last ensures count(d) == if d in due then 1 else 0 {
      OncePerDay(s, runs, Date(y, m, d));
    }
    SumCounts(count, last, due);
    assert UpTo(due, last) == due;
  }

  // ---------- whole histories of the job ----------

  datatype DailyPass = DailyPass(today: Date, outcomes: seq<Outcome>)

  predicate Fits(rows: seq<Schedule>, passes: seq<DailyPass>) {
    forall i | 0 <= i < |passes| :: |passes[i].outcomes| == |rows|
  }

  function RowsAfter(rows: seq<Schedule>, passes: seq<DailyPass>): (r: seq<Schedule>)
    requires Fits(rows, passes)
    ensures |r| == |rows|
  {
    if passes == [] then rows
    else
      var n := |passes| - 1;
      Pass(RowsAfter(rows, passes[..n]), passes[n].outcomes, passes[n].today, |rows|)
  }

  function MadeAfter(rows: seq<Schedule>, passes: seq<DailyPass>): seq<Made>
    requires Fits(rows, passes)
  {
    if passes == [] then []
    else
      var n := |passes| - 1;
      MadeAfter(rows, passes[..n])
      + NewMade(Calls(RowsAfter(rows, passes[..n]), passes[n].outcomes, passes[n].today), passes[n].today)
  }

  /** What the passes were for one schedule. */
  function RunsOf(rows: seq<Schedule>, passes: seq<DailyPass>, k: nat): (runs: seq<Run>)
    requires Fits(rows, passes) && k < |rows|
    ensures |runs| == |passes|
  {
    seq(|passes|, i requires 0 <= i < |passes| => Run(passes[i].today, passes[i].outcomes[k]))
  }

  /** Each schedule's row and invoices after any passes of the job are those of its own runs alone. */
  lemma {:induction false} SchedulesIndependent(rows: seq<Schedule>, passes: seq<DailyPass>, k: nat, day: Date)
    requires Fits(rows, passes) && k < |rows|
    ensures RowsAfter(rows, passes)[k] == After(rows[k], RunsOf(rows, passes, k))
    ensures multiset(MadeAfter(rows, passes))[Made(k, day)] == MadeOn(rows[k], RunsOf(rows, passes, k), day)
  {
    if passes != [] {
      var n := |passes| - 1;
      SchedulesIndependent(rows, passes[..n], k, day);
      assert RunsOf(rows, passes, k)[..n] == RunsOf(rows, passes[..n], k);
      PassMakesOne(Calls(RowsAfter(rows, passes[..n]), passes[n].outcomes, passes[n].today), passes[n].today, k, day);
    }
  }

  // ---------- billing periods ----------

  datatype Period = Period(start: Date, end: Date)

  /** billing_period: the running month, or the one before; the month before January of year 1 raises. */
  function BillingPeriod(today: Date, current: bool): Result<Period> {
    var y := if current || today.month > 1 then today.year else today.year - 1;
    var m := if current then today.month else if today.month == 1 then 12 else today.month - 1;
    if y < 1 then Err("year is out of range") else Ok(Period(Date(y, m, 1), Date(y, m, DaysIn(y, m))))
  }

  /** The periods of invoices made in consecutive months follow each other without gap or overlap, and a
      period holds exactly the days of one calendar month. */
  lemma PeriodsTile(a: Date, b: Date, current: bool, d: Date)
    requires Valid(a) && Valid(b) && Valid(d) && MonthIndex(b) == MonthIndex(a) + 1
    requires BillingPeriod(a, current).Ok?
    ensures BillingPeriod(b, current).Ok?
    ensures var p, q := BillingPeriod(a, current).value, BillingPeriod(b, current).value;
      && Valid(p.start) && Valid(p.end)
      && NextDay(p.end) == q.start
      && (NotAfter(p.start, d) && NotAfter(d, p.end) <==> MonthIndex(d) == MonthIndex(a) - if current then 0 else 1)
  {
  }
}
