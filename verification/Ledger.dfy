/** A customer's financial card: the full ledger (sepko/finansije.py) and its yearly cards with
    carried balance and turnover summary (sepko/kartica_export.py).  Amounts are in cents. */
module Ledger {
  import opened Wrappers
  import opened Text
  import opened Sorting
  import Rounding

  datatype Kind = OpeningBalance | InvoiceRow | PaymentRow

  /** A booked event: an invoice debits, a payment credits. */
  datatype Event = Event(date: string, kind: Kind, id: nat, debit: int, credit: int)

  /** A printed row; the cells of a zero amount are empty. */
  datatype Row = Row(date: string, kind: Kind, debit: Option<int>, credit: Option<int>, balance: int)

  function Cell(amount: int): Option<int> { if amount == 0 then None else Some(amount) }

  function Amount(cell: Option<int>): int { if cell.Some? then cell.value else 0 }

  // ---------- the full ledger ----------

  /** Invoices before payments on the same day. */
  function KindRank(k: Kind): nat { if k.PaymentRow? then 1 else 0 }

  predicate EventLeq(a: Event, b: Event) {
    if a.date != b.date then LexLeq(a.date, b.date)
    else if KindRank(a.kind) != KindRank(b.kind) then KindRank(a.kind) < KindRank(b.kind)
    else a.id <= b.id
  }

  function InOrder(events: seq<Event>): seq<Event> { Sorted(events, (a, b) => EventLeq(a, b)) }

  lemma EventOrderTotal()
    ensures TotalOn((a: Event, b: Event) => EventLeq(a, b))
  {
    forall a: Event, b: Event ensures EventLeq(a, b) || EventLeq(b, a) { LexTotal(a.date, b.date); }
    forall a: Event, b: Event, c: Event | EventLeq(a, b) && EventLeq(b, c) ensures EventLeq(a, c) {
      LexTotal(a.date, b.date);
      LexTotal(b.date, c.date);
      if LexLeq(a.date, b.date) && LexLeq(b.date, c.date) {
        LexTrans(a.date, b.date, c.date);
        if a.date == c.date { LexTotal(a.date, b.date); }
      }
    }
  }

  /** Balance after the first n events. */
  function BalanceAfter(events: seq<Event>, n: nat): int
    requires n <= |events|
  {
    if n == 0 then 0 else BalanceAfter(events, n - 1) + events[n - 1].debit - events[n - 1].credit
  }

  function LedgerRow(events: seq<Event>, i: nat): Row
    requires i < |events|
  {
    Row(events[i].date, events[i].kind, Cell(events[i].debit), Cell(events[i].credit), BalanceAfter(events, i + 1))
  }

  /** The rows of a ledger: in booking order, each with the running balance. */
  function LedgerOf(events: seq<Event>): (rows: seq<Row>)
    ensures |rows| == |events|
  {
    var sorted := InOrder(events);
    seq(|sorted|, i requires 0 <= i < |sorted| => LedgerRow(sorted, i))
  }

  /** customer_ledger: sort, then keep the balance. */
  method CustomerLedger(invoices: seq<Event>, payments: seq<Event>) returns (rows: seq<Row>)
    ensures rows == LedgerOf(invoices + payments)
  {
    var events := InOrder(invoices + payments);
    var saldo := 0;
    rows := [];
    var i := 0;
    while i < |events|
      invariant i <= |events|
      invariant saldo == BalanceAfter(events, i)
      invariant rows == seq(i, k requires 0 <= k < i => LedgerRow(events, k))
    {
      saldo := saldo + events[i].debit - events[i].credit;
      rows := rows + [Row(events[i].date, events[i].kind, Cell(events[i].debit), Cell(events[i].credit), saldo)];
      i := i + 1;
    }
  }

  /** The ledger's own properties: dates never go back, and each balance continues the one before. */
  predicate DateSorted(rows: seq<Row>) { forall i, j | 0 <= i < j < |rows| :: LexLeq(rows[i].date, rows[j].date) }

  function Moved(r: Row): int { Amount(r.debit) - Amount(r.credit) }

  function BalanceBefore(rows: seq<Row>, start: int, i: nat): int
    requires i < |rows|
  {
    if i == 0 then start else rows[i - 1].balance
  }

  predicate Linked(rows: seq<Row>, start: int, i: nat)
    requires i < |rows|
  {
    rows[i].balance == BalanceBefore(rows, start, i) + Moved(rows[i])
  }

  predicate Continues(rows: seq<Row>, start: int) { forall i | 0 <= i < |rows| :: Linked(rows, start, i) }

  lemma PrefixContinues(rows: seq<Row>, start: int, n: nat)
    requires Continues(rows, start) && n <= |rows|
    ensures Continues(rows[..n], start)
  {
    forall i | 0 <= i < n ensures Linked(rows[..n], start, i) { assert Linked(rows, start, i); }
  }

  lemma LastLinked(rows: seq<Row>, start: int)
    requires Continues(rows, start) && rows != []
    ensures rows[|rows| - 1].balance == Closing(rows[..|rows| - 1], start) + Moved(rows[|rows| - 1])
  {
    assert Linked(rows, start, |rows| - 1);
  }

  lemma LedgerWellKept(events: seq<Event>)
    ensures DateSorted(LedgerOf(events)) && Continues(LedgerOf(events), 0)
    ensures multiset(InOrder(events)) == multiset(events)
  {
    var leq := (a: Event, b: Event) => EventLeq(a, b);
    EventOrderTotal();
    SortedSorts(events, leq);
    SortedPermutes(events, leq);
    var sorted, rows := InOrder(events), LedgerOf(events);
    forall i, j | 0 <= i < j < |rows| ensures LexLeq(rows[i].date, rows[j].date) {
      assert EventLeq(sorted[i], sorted[j]);
      LexTotal(sorted[i].date, sorted[j].date);
    }
    forall i | 0 <= i < |rows| ensures Linked(rows, 0, i) {
      assert BalanceAfter(sorted, i + 1) == BalanceAfter(sorted, i) + sorted[i].debit - sorted[i].credit;
      assert rows[i] == LedgerRow(sorted, i);
      if i > 0 { assert rows[i - 1] == LedgerRow(sorted, i - 1); }
    }
  }

  /** The i-th row shows the i-th event: its date, kind and amounts. */
  predicate ShowsEvent(r: Row, e: Event) {
    r.date == e.date && r.kind == e.kind && Amount(r.debit) == e.debit && Amount(r.credit) == e.credit
  }

  /** Booked before: an earlier date; on one day an invoice before a payment; among these the smaller id. */
  predicate BookedBefore(a: Event, b: Event) {
    && LexLeq(a.date, b.date)
    && (a.date == b.date ==> !(a.kind == PaymentRow && b.kind != PaymentRow))
    && (a.date == b.date && (a.kind == PaymentRow <==> b.kind == PaymentRow) ==> a.id <= b.id)
  }

  /** The ledger shows the events in booking order, each on one row. */
  lemma BookingOrder(events: seq<Event>)
    ensures multiset(InOrder(events)) == multiset(events)
    ensures forall i, j | 0 <= i < j < |InOrder(events)| :: BookedBefore(InOrder(events)[i], InOrder(events)[j])
    ensures |InOrder(events)| == |events|
    ensures forall i | 0 <= i < |events| :: ShowsEvent(LedgerOf(events)[i], InOrder(events)[i])
  {
    var leq := (a: Event, b: Event) => EventLeq(a, b);
    EventOrderTotal();
    SortedSorts(events, leq);
    SortedPermutes(events, leq);
    var sorted := InOrder(events);
    forall i, j | 0 <= i < j < |sorted| ensures BookedBefore(sorted[i], sorted[j]) {
      assert EventLeq(sorted[i], sorted[j]);
      LexTotal(sorted[i].date, sorted[j].date);
    }
    forall i | 0 <= i < |events| ensures ShowsEvent(LedgerOf(events)[i], sorted[i]) {
      assert LedgerOf(events)[i] == LedgerRow(sorted, i);
    }
  }

  // ---------- turnover ----------

  function Debits(rows: seq<Row>): int {
    if rows == [] then 0 else Debits(rows[..|rows| - 1]) + Amount(rows[|rows| - 1].debit)
  }

  function Credits(rows: seq<Row>): int {
    if rows == [] then 0 else Credits(rows[..|rows| - 1]) + Amount(rows[|rows| - 1].credit)
  }

  function Closing(rows: seq<Row>, start: int): int {
    if rows == [] then start else rows[|rows| - 1].balance
  }

  /** A running balance closes at its start plus debits minus credits. */
  lemma {:induction false} ClosingIsTurnover(rows: seq<Row>, start: int)
    requires Continues(rows, start)
    ensures Closing(rows, start) == start + Debits(rows) - Credits(rows)
  {
    if rows != [] {
      PrefixContinues(rows, start, |rows| - 1);
      LastLinked(rows, start);
      ClosingIsTurnover(rows[..|rows| - 1], start);
    }
  }

  /** customer_summary */
  datatype Summary = Summary(invoiced: int, paid: int, owed: int, items: nat)

  function CustomerSummary(ledger: seq<Row>): Summary {
    Summary(Debits(ledger), Credits(ledger), Closing(ledger, 0), |ledger|)
  }

  /** What a customer owes is what was invoiced minus what was paid. */
  lemma OwedIsInvoicedMinusPaid(events: seq<Event>)
    ensures var s := CustomerSummary(LedgerOf(events)); s.owed == s.invoiced - s.paid
  {
    LedgerWellKept(events);
    ClosingIsTurnover(LedgerOf(events), 0);
  }

  /** All that was invoiced, and all that was paid, whatever the order. */
  function Invoiced(events: seq<Event>): int { if events == [] then 0 else events[0].debit + Invoiced(events[1..]) }

  function Paid(events: seq<Event>): int { if events == [] then 0 else events[0].credit + Paid(events[1..]) }

  lemma {:induction false} InvoicedConcat(a: seq<Event>, b: seq<Event>)
    ensures Invoiced(a + b) == Invoiced(a) + Invoiced(b) && Paid(a + b) == Paid(a) + Paid(b)
  {
    if a == [] {
      assert a + b == b;
    } else {
      assert (a + b)[1..] == a[1..] + b;
      InvoicedConcat(a[1..], b);
    }
  }

  lemma {:induction false} InvoicedPlaced(x: Event, s: seq<Event>, leq: (Event, Event) -> bool)
    ensures Invoiced(Placed(x, s, leq)) == x.debit + Invoiced(s) && Paid(Placed(x, s, leq)) == x.credit + Paid(s)
  {
    if s == [] || leq(x, s[0]) {
      assert ([x] + s)[1..] == s;
    } else {
      InvoicedPlaced(x, s[1..], leq);
      assert ([s[0]] + Placed(x, s[1..], leq))[1..] == Placed(x, s[1..], leq);
    }
  }

  lemma {:induction false} InvoicedSorted(events: seq<Event>, leq: (Event, Event) -> bool)
    ensures Invoiced(Sorted(events, leq)) == Invoiced(events) && Paid(Sorted(events, leq)) == Paid(events)
  {
    if events != [] {
      InvoicedSorted(events[1..], leq);
      InvoicedPlaced(events[0], Sorted(events[1..], leq), leq);
    }
  }

  lemma {:induction false} DebitsShow(rows: seq<Row>, events: seq<Event>)
    requires |rows| == |events| && forall i | 0 <= i < |rows| :: ShowsEvent(rows[i], events[i])
    ensures Debits(rows) == Invoiced(events) && Credits(rows) == Paid(events)
  {
    if rows != [] {
      var n := |rows| - 1;
      DebitsShow(rows[..n], events[..n]);
      InvoicedConcat(events[..n], [events[n]]);
      assert events == events[..n] + [events[n]];
    }
  }

  /** The summary of a customer: all that was invoiced, all that was paid, what is left, and how many rows. */
  lemma SummaryIs(events: seq<Event>)
    ensures CustomerSummary(LedgerOf(events))
         == Summary(Invoiced(events), Paid(events), Invoiced(events) - Paid(events), |events|)
  {
    BookingOrder(events);
    InvoicedSorted(events, (a, b) => EventLeq(a, b));
    DebitsShow(LedgerOf(events), InOrder(events));
    OwedIsInvoicedMinusPaid(events);
  }

  /** Debits minus credits of events, in whatever order: of all, or of those without a date. */
  function NetOf(events: seq<Event>, undated: bool): int {
    if events == [] then 0
    else (if undated && events[0].date != "" then 0 else events[0].debit - events[0].credit)
         + NetOf(events[1..], undated)
  }

  lemma {:induction false} NetConcat(a: seq<Event>, b: seq<Event>, undated: bool)
    ensures NetOf(a + b, undated) == NetOf(a, undated) + NetOf(b, undated)
  {
    if a == [] {
      assert a + b == b;
    } else {
      assert (a + b)[1..] == a[1..] + b;
      NetConcat(a[1..], b, undated);
    }
  }

  lemma {:induction false} NetPlaced(x: Event, s: seq<Event>, leq: (Event, Event) -> bool, undated: bool)
    ensures NetOf(Placed(x, s, leq), undated) == NetOf([x], undated) + NetOf(s, undated)
  {
    if s == [] || leq(x, s[0]) {
      assert ([x] + s)[1..] == s;
    } else {
      NetPlaced(x, s[1..], leq, undated);
      assert ([s[0]] + Placed(x, s[1..], leq))[1..] == Placed(x, s[1..], leq);
    }
  }

  lemma {:induction false} NetSorted(events: seq<Event>, leq: (Event, Event) -> bool, undated: bool)
    ensures NetOf(Sorted(events, leq), undated) == NetOf(events, undated)
  {
    if events != [] {
      NetSorted(events[1..], leq, undated);
      NetPlaced(events[0], Sorted(events[1..], leq), leq, undated);
    }
  }

  lemma {:induction false} BalanceIsNet(events: seq<Event>, n: nat)
    requires n <= |events|
    ensures BalanceAfter(events, n) == NetOf(events[..n], false)
  {
    if n > 0 {
      BalanceIsNet(events, n - 1);
      NetConcat(events[..n - 1], [events[n - 1]], false);
      assert events[..n] == events[..n - 1] + [events[n - 1]];
    }
  }

  /** What is owed is the net of all events. */
  lemma OwedIsNet(events: seq<Event>)
    ensures CustomerSummary(LedgerOf(events)).owed == NetOf(events, false)
  {
    var sorted := InOrder(events);
    NetSorted(events, (a, b) => EventLeq(a, b), false);
    BalanceIsNet(sorted, |sorted|);
    assert sorted[..|sorted|] == sorted;
  }

  /** One more event moves what is owed by its own debit and credit. */
  lemma OwedAfter(events: seq<Event>, e: Event)
    ensures CustomerSummary(LedgerOf(events + [e])).owed == CustomerSummary(LedgerOf(events)).owed + e.debit - e.credit
  {
    OwedIsNet(events + [e]);
    OwedIsNet(events);
    NetConcat(events, [e], false);
  }

  // ---------- years ----------

  /** _row_year: the first four characters if they are digits, else nothing. */
  function RowYear(r: Row): string {
    var t := Trim(r.date);
    var y := if |t| <= 4 then t else t[..4];
    if y != "" && AllDigits(y) then y else ""
  }

  /** The rows of a year among the first n. */
  function YearRowsBelow(ledger: seq<Row>, y: string, n: nat): seq<Row>
    requires n <= |ledger|
  {
    if n == 0 then []
    else YearRowsBelow(ledger, y, n - 1) + (if RowYear(ledger[n - 1]) == y then [ledger[n - 1]] else [])
  }

  function YearRows(ledger: seq<Row>, y: string): seq<Row> { YearRowsBelow(ledger, y, |ledger|) }

  predicate Prior(r: Row, y: string) { RowYear(r) != "" && LexLess(RowYear(r), y) }

  /** The balance of the last row of an earlier year among the first n, 0 if there is none. */
  function OpeningBelow(ledger: seq<Row>, y: string, n: nat): int
    requires n <= |ledger|
  {
    if n == 0 then 0
    else if Prior(ledger[n - 1], y) then ledger[n - 1].balance
    else OpeningBelow(ledger, y, n - 1)
  }

  function OpeningOf(ledger: seq<Row>, y: string): int { OpeningBelow(ledger, y, |ledger|) }

  /** The opening row shows the carried balance on its own side. */
  function OpeningRow(y: string, opening: int): Row {
    Row(y + "-01-01", OpeningBalance, if opening > 0 then Some(opening) else None,
        if opening < 0 then Some(-opening) else None, opening)
  }

  function Rebalanced(rows: seq<Row>, start: int): (out: seq<Row>)
    ensures |out| == |rows|
  {
    if rows == [] then []
    else
      var init := Rebalanced(rows[..|rows| - 1], start);
      init + [rows[|rows| - 1].(balance := Closing(init, start) + Moved(rows[|rows| - 1]))]
  }

  /** filter_ledger_year for a year: the opening row and the year's rows, balances kept anew. */
  function Card(ledger: seq<Row>, y: string): seq<Row> {
    var opening := OpeningOf(ledger, y);
    [OpeningRow(y, opening)] + Rebalanced(YearRows(ledger, y), opening)
  }

  /** filter_ledger_year */
  method FilterLedgerYear(ledger: seq<Row>, year: string) returns (out: seq<Row>)
    ensures out == if year == "" then ledger else Card(ledger, year)
  {
    if year == "" { return ledger; }
    var opening := OpeningOf(ledger, year);
    var yearRows := YearRows(ledger, year);
    out := [OpeningRow(year, opening)];
    var saldo := opening;
    var i := 0;
    while i < |yearRows|
      invariant i <= |yearRows|
      invariant out == [OpeningRow(year, opening)] + Rebalanced(yearRows[..i], opening)
      invariant saldo == Closing(Rebalanced(yearRows[..i], opening), opening)
    {
      assert yearRows[..i + 1][..i] == yearRows[..i];
      saldo := saldo + Amount(yearRows[i].debit) - Amount(yearRows[i].credit);
      out := out + [yearRows[i].(balance := saldo)];
      i := i + 1;
    }
    assert yearRows[..i] == yearRows;
  }

  // ---------- year cards agree with the ledger ----------

  /** A date that starts with a four-digit year. */
  predicate FullDate(date: string) { |date| >= 4 && AllDigits(date[..4]) && Trimmed(date) }

  predicate WellDated(r: Row) { FullDate(r.date) }

  predicate Year(y: string) { |y| == 4 && AllDigits(y) }

  /** A ledger as customer_ledger builds it, with well-formed dates. */
  predicate Dated(ledger: seq<Row>) { DateSorted(ledger) && forall i | 0 <= i < |ledger| :: WellDated(ledger[i]) }

  predicate Proper(ledger: seq<Row>) { Dated(ledger) && Continues(ledger, 0) }

  lemma RowYearIs(r: Row)
    requires WellDated(r)
    ensures RowYear(r) == r.date[..4] && Year(RowYear(r))
  {
    TrimTrims(r.date);
  }

  lemma YearsAscend(ledger: seq<Row>, i: nat, j: nat)
    requires Dated(ledger) && i < j < |ledger|
    ensures LexLeq(RowYear(ledger[i]), RowYear(ledger[j]))
  {
    RowYearIs(ledger[i]);
    RowYearIs(ledger[j]);
    LexPrefix(ledger[i].date, ledger[j].date, 4);
  }

  /** Balance after the first k rows of a ledger. */
  function BalanceAt(ledger: seq<Row>, k: nat): int
    requires k <= |ledger|
  {
    if k == 0 then 0 else ledger[k - 1].balance
  }

  lemma PriorBefore(ledger: seq<Row>, y: string, i: nat, n: nat)
    requires Dated(ledger) && i < n < |ledger| && Prior(ledger[n], y)
    ensures Prior(ledger[i], y)
  {
    YearsAscend(ledger, i, n);
    RowYearIs(ledger[i]);
    if LexLeq(y, RowYear(ledger[i])) { LexTrans(y, RowYear(ledger[i]), RowYear(ledger[n])); }
  }

  /** Among the first n rows exactly the first k lie in earlier years. */
  predicate SplitAt(ledger: seq<Row>, y: string, k: nat, n: nat) {
    && k <= n <= |ledger|
    && (forall i | 0 <= i < k :: Prior(ledger[i], y))
    && (forall i | k <= i < n :: !Prior(ledger[i], y))
  }

  /** In a proper ledger the rows before a year form a prefix. */
  lemma {:induction false} PriorIsPrefix(ledger: seq<Row>, y: string, n: nat) returns (k: nat)
    requires Dated(ledger) && n <= |ledger|
    ensures SplitAt(ledger, y, k, n)
    ensures OpeningBelow(ledger, y, n) == BalanceAt(ledger, k)
  {
    if n == 0 {
      k := 0;
    } else if Prior(ledger[n - 1], y) {
      k := n;
      forall i | 0 <= i < n - 1 ensures Prior(ledger[i], y) { PriorBefore(ledger, y, i, n - 1); }
    } else {
      k := PriorIsPrefix(ledger, y, n - 1);
    }
  }

  /** The first n rows are k rows of earlier years, then those of year y, then later ones. */
  predicate BlockAt(ledger: seq<Row>, y: string, k: nat, m: nat, n: nat) {
    && k <= m <= n <= |ledger|
    && (forall i | k <= i < m :: RowYear(ledger[i]) == y)
    && (forall i | m <= i < n :: LexLess(y, RowYear(ledger[i])))
  }

  lemma {:induction false} YearIsBlock(ledger: seq<Row>, y: string, k: nat, n: nat) returns (m: nat)
    requires Dated(ledger) && SplitAt(ledger, y, k, n)
    ensures BlockAt(ledger, y, k, m, n)
    decreases n
  {
    if n == k {
      m := k;
    } else {
      m := YearIsBlock(ledger, y, k, n - 1);
      if RowYear(ledger[n - 1]) == y {
        BlockReaches(ledger, y, k, m, n - 1);
        m := n;
      } else {
        LaterRow(ledger, y, n - 1);
      }
    }
  }

  function Least(a: nat, b: nat): nat { if a < b then a else b }

  lemma SliceStep<T>(s: seq<T>, k: nat, m: nat, n: nat)
    requires k <= m <= |s| && 0 < n <= |s|
    ensures s[Least(k, n)..Least(m, n)]
         == s[Least(k, n - 1)..Least(m, n - 1)] + if k <= n - 1 < m then [s[n - 1]] else []
  {
  }

  lemma {:induction false} YearRowsSlice(ledger: seq<Row>, y: string, k: nat, m: nat, n: nat)
    requires k <= m <= |ledger| && n <= |ledger|
    requires forall i | 0 <= i < n :: RowYear(ledger[i]) == y <==> k <= i < m
    ensures YearRowsBelow(ledger, y, n) == ledger[Least(k, n)..Least(m, n)]
  {
    if n > 0 {
      YearRowsSlice(ledger, y, k, m, n - 1);
      SliceStep(ledger, k, m, n);
    }
  }

  lemma YearRowsAreBlock(ledger: seq<Row>, y: string, k: nat, m: nat)
    requires SplitAt(ledger, y, k, |ledger|) && BlockAt(ledger, y, k, m, |ledger|)
    ensures YearRows(ledger, y) == ledger[k..m]
  {
    LexTotal(y, y);
    forall i | 0 <= i < |ledger| ensures RowYear(ledger[i]) == y <==> k <= i < m {
      if i < k { assert Prior(ledger[i], y); }
    }
    YearRowsSlice(ledger, y, k, m, |ledger|);
  }

  lemma BlockReaches(ledger: seq<Row>, y: string, k: nat, m: nat, n: nat)
    requires Dated(ledger) && BlockAt(ledger, y, k, m, n) && n < |ledger| && RowYear(ledger[n]) == y
    ensures m == n
  {
    if m < n { YearsAscend(ledger, m, n); }
  }

  lemma LaterRow(ledger: seq<Row>, y: string, n: nat)
    requires Dated(ledger) && n < |ledger| && !Prior(ledger[n], y) && RowYear(ledger[n]) != y
    ensures LexLess(y, RowYear(ledger[n]))
  {
    RowYearIs(ledger[n]);
    LexTotal(RowYear(ledger[n]), y);
  }

  lemma {:induction false} RebalancedSame(rows: seq<Row>, start: int)
    requires Continues(rows, start)
    ensures Rebalanced(rows, start) == rows
  {
    if rows != [] {
      PrefixContinues(rows, start, |rows| - 1);
      LastLinked(rows, start);
      RebalancedSame(rows[..|rows| - 1], start);
    }
  }

  /** Balance after the first k rows of a ledger that starts at some balance. */
  function BalanceFrom(ledger: seq<Row>, start: int, k: nat): int
    requires k <= |ledger|
  {
    if k == 0 then start else ledger[k - 1].balance
  }

  lemma BlockContinues(ledger: seq<Row>, start: int, k: nat, m: nat)
    requires Continues(ledger, start) && k <= m <= |ledger|
    ensures Continues(ledger[k..m], BalanceFrom(ledger, start, k))
  {
    var block := ledger[k..m];
    forall i | 0 <= i < |block| ensures Linked(block, BalanceFrom(ledger, start, k), i) {
      assert Linked(ledger, start, k + i);
      assert block[i] == ledger[k + i];
      if i > 0 { assert block[i - 1] == ledger[k + i - 1]; }
    }
  }

  /** Keeping the balance anew on a year card reproduces the ledger's own balances. */
  lemma CardReproducesBalances(ledger: seq<Row>, y: string)
    requires Proper(ledger) && y != ""
    ensures Card(ledger, y) == [OpeningRow(y, OpeningOf(ledger, y))] + YearRows(ledger, y)
  {
    var k := PriorIsPrefix(ledger, y, |ledger|);
    var m := YearIsBlock(ledger, y, k, |ledger|);
    YearRowsAreBlock(ledger, y, k, m);
    BlockContinues(ledger, 0, k, m);
    RebalancedSame(ledger[k..m], OpeningOf(ledger, y));
  }

  function CardClosing(ledger: seq<Row>, y: string): int {
    var card := Card(ledger, y); card[|card| - 1].balance
  }

  /** A year closes at the balance after the last row of that year or an earlier one. */
  lemma CardClosingIs(ledger: seq<Row>, y: string) returns (k: nat, m: nat)
    requires Proper(ledger) && y != ""
    ensures SplitAt(ledger, y, k, |ledger|) && BlockAt(ledger, y, k, m, |ledger|)
    ensures CardClosing(ledger, y) == BalanceAt(ledger, m)
  {
    k := PriorIsPrefix(ledger, y, |ledger|);
    m := YearIsBlock(ledger, y, k, |ledger|);
    YearRowsAreBlock(ledger, y, k, m);
    CardReproducesBalances(ledger, y);
    if k < m { assert ledger[k..m][m - k - 1] == ledger[m - 1]; }
  }

  /** A year closes where the next one with anything between them empty opens; in particular year n
      closes where year n + 1 opens. */
  lemma ClosingIsNextOpening(ledger: seq<Row>, y: string, z: string)
    requires Proper(ledger) && y != "" && LexLess(y, z)
    requires forall i | 0 <= i < |ledger| :: !(LexLess(y, RowYear(ledger[i])) && LexLess(RowYear(ledger[i]), z))
    ensures CardClosing(ledger, y) == OpeningOf(ledger, z)
  {
    var k, m := CardClosingIs(ledger, y);
    NextYearStarts(ledger, y, z, k, m);
  }

  lemma NextYearStarts(ledger: seq<Row>, y: string, z: string, k: nat, m: nat)
    requires Dated(ledger) && LexLess(y, z)
    requires SplitAt(ledger, y, k, |ledger|) && BlockAt(ledger, y, k, m, |ledger|)
    requires forall i | 0 <= i < |ledger| :: !(LexLess(y, RowYear(ledger[i])) && LexLess(RowYear(ledger[i]), z))
    ensures OpeningOf(ledger, z) == BalanceAt(ledger, m)
  {
    var j := PriorIsPrefix(ledger, z, |ledger|);
    if m < j {
      assert false;
    } else if j < m {
      var x := RowYear(ledger[j]);
      RowYearIs(ledger[j]);
      LexTotal(x, y);
      assert LexLeq(z, x) && LexLeq(x, y);
      LexTrans(z, x, y);
    }
  }

  // ---------- four-digit years in order ----------

  lemma {:induction false} LexByValue(a: string, b: string)
    requires |a| == |b| && AllDigits(a) && AllDigits(b)
    ensures LexLeq(a, b) <==> Val(a) <= Val(b)
  {
    if |a| > 0 {
      assert a == [a[0]] + a[1..] && b == [b[0]] + b[1..];
      ValConcat([a[0]], a[1..]);
      ValConcat([b[0]], b[1..]);
      ValBound(a[1..]);
      ValBound(b[1..]);
      LexByValue(a[1..], b[1..]);
      assert Val([a[0]]) == DigitVal(a[0]) && Val([b[0]]) == DigitVal(b[0]);
      DigitOrder(DigitVal(a[0]), DigitVal(b[0]), Pow10(|a| - 1), Val(a[1..]), Val(b[1..]));
    }
  }

  lemma DigitOrder(d: nat, e: nat, p: nat, x: nat, y: nat)
    requires x < p && y < p
    ensures d < e ==> d * p + x < e * p + y
    ensures e < d ==> d * p + x > e * p + y
  {
    Rounding.MulFar(e - d, p);
    assert e * p - d * p == (e - d) * p;
  }

  /** closing(n) = opening(n + 1) for every year n, with or without rows. */
  lemma YearClosesWhereNextOpens(ledger: seq<Row>, n: nat)
    requires Proper(ledger) && 1000 <= n < 9999
    ensures CardClosing(ledger, DigitsOf(n)) == OpeningOf(ledger, DigitsOf(n + 1))
  {
    NothingBetween(ledger, n);
    ClosingIsNextOpening(ledger, DigitsOf(n), DigitsOf(n + 1));
  }

  lemma NothingBetween(ledger: seq<Row>, n: nat)
    requires Dated(ledger) && 1000 <= n < 9999
    ensures LexLess(DigitsOf(n), DigitsOf(n + 1))
    ensures forall i | 0 <= i < |ledger| ::
      !(LexLess(DigitsOf(n), RowYear(ledger[i])) && LexLess(RowYear(ledger[i]), DigitsOf(n + 1)))
  {
    var y, z := DigitsOf(n), DigitsOf(n + 1);
    FourDigits(n);
    FourDigits(n + 1);
    LexByValue(z, y);
    forall i | 0 <= i < |ledger|
      ensures !(LexLess(y, RowYear(ledger[i])) && LexLess(RowYear(ledger[i]), z))
    {
      var x := RowYear(ledger[i]);
      RowYearIs(ledger[i]);
      LexByValue(x, y);
      LexByValue(z, x);
    }
  }

  lemma FourDigits(n: nat)
    requires 1000 <= n <= 9999
    ensures |DigitsOf(n)| == 4 && Val(DigitsOf(n)) == n
  {
    ValDigitsOf(n);
    DigitsOfSize(n);
    assert Pow10(3) == 1000 && Pow10(4) == 10000;
    Pow10Grows(|DigitsOf(n)|, 3);
    Pow10Grows(4, |DigitsOf(n)| - 1);
  }

  // ---------- the turnover summary ----------

  datatype Turnover = Turnover(openDebit: int, openCredit: int, debit: int, credit: int,
                               totalDebit: int, totalCredit: int, balance: int)

  /** promet_summary */
  function TurnoverOf(rows: seq<Row>): Turnover {
    if rows == [] then Turnover(0, 0, 0, 0, 0, 0, 0)
    else
      var isOpen := rows[0].kind.OpeningBalance?;
      var od, oc := if isOpen then Amount(rows[0].debit) else 0, if isOpen then Amount(rows[0].credit) else 0;
      var rest := if isOpen then rows[1..] else rows;
      var d, c := Debits(rest), Credits(rest);
      Turnover(od, oc, d, c, od + d, oc + c, rows[|rows| - 1].balance)
  }

  lemma {:induction false} RebalancedTurnover(rows: seq<Row>, start: int)
    ensures Closing(Rebalanced(rows, start), start) == start + Debits(rows) - Credits(rows)
    ensures Debits(Rebalanced(rows, start)) == Debits(rows) && Credits(Rebalanced(rows, start)) == Credits(rows)
  {
    if rows != [] {
      var init := rows[..|rows| - 1];
      RebalancedTurnover(init, start);
      var out := Rebalanced(rows, start);
      assert out[..|out| - 1] == Rebalanced(init, start);
    }
  }

  /** On every year card, of any ledger, total debit minus total credit is the final balance, and the
      opening columns are the carried balance split by sign. */
  lemma CardTurnoverBalances(ledger: seq<Row>, y: string)
    ensures var s, opening := TurnoverOf(Card(ledger, y)), OpeningOf(ledger, y);
      && s.totalDebit - s.totalCredit == s.balance == CardClosing(ledger, y)
      && s.openDebit - s.openCredit == opening
      && s.openDebit >= 0 && s.openCredit >= 0 && (s.openDebit == 0 || s.openCredit == 0)
      && s.debit == Debits(YearRows(ledger, y)) && s.credit == Credits(YearRows(ledger, y))
      && s.totalDebit == s.openDebit + s.debit && s.totalCredit == s.openCredit + s.credit
  {
    var opening, rows := OpeningOf(ledger, y), YearRows(ledger, y);
    RebalancedTurnover(rows, opening);
    assert Card(ledger, y)[1..] == Rebalanced(rows, opening);
  }

  // ---------- the cards of customer_ledger's own output ----------

  lemma RowIsEvent(events: seq<Event>, i: nat)
    requires i < |events|
    ensures InOrder(events)[i] in events && LedgerOf(events)[i].date == InOrder(events)[i].date
  {
    SortedPermutes(events, (a, b) => EventLeq(a, b));
    assert InOrder(events)[i] in multiset(InOrder(events));
  }

  lemma EventIsRow(events: seq<Event>, e: Event) returns (i: nat)
    requires e in events
    ensures i < |events| && InOrder(events)[i] == e && LedgerOf(events)[i].date == e.date
  {
    SortedPermutes(events, (a, b) => EventLeq(a, b));
    assert e in multiset(InOrder(events));
    i :| i < |InOrder(events)| && InOrder(events)[i] == e;
  }

  /** With every event dated, the ledger of any events is one the card theorems speak of. */
  lemma LedgerIsProper(events: seq<Event>)
    requires forall e | e in events :: FullDate(e.date)
    ensures Proper(LedgerOf(events))
  {
    LedgerWellKept(events);
    forall i | 0 <= i < |events| ensures WellDated(LedgerOf(events)[i]) { RowIsEvent(events, i); }
  }

  /** Rows without a date come first. */
  predicate UndatedThenDated(ledger: seq<Row>, p: nat) {
    && p <= |ledger|
    && (forall i | 0 <= i < p :: ledger[i].date == "")
    && (forall i | p <= i < |ledger| :: WellDated(ledger[i]))
  }

  lemma UndatedBefore(ledger: seq<Row>, i: nat, j: nat)
    requires DateSorted(ledger) && i < j < |ledger| && ledger[j].date == ""
    ensures ledger[i].date == ""
  {
    assert LexLeq(ledger[i].date, ledger[j].date);
  }

  lemma {:induction false} UndatedFirst(ledger: seq<Row>, n: nat) returns (p: nat)
    requires DateSorted(ledger) && n <= |ledger|
    requires forall i | 0 <= i < |ledger| :: ledger[i].date == "" || WellDated(ledger[i])
    ensures p <= n && (forall i | 0 <= i < p :: ledger[i].date == "") && (forall i | p <= i < n :: WellDated(ledger[i]))
  {
    if n == 0 {
      p := 0;
    } else {
      p := UndatedFirst(ledger, n - 1);
      if ledger[n - 1].date == "" {
        forall i | 0 <= i < n - 1 ensures ledger[i].date == "" { UndatedBefore(ledger, i, n - 1); }
        p := n;
      }
    }
  }

  lemma NoYear(y: string, r: Row)
    requires y != "" && r.date == ""
    ensures !HasYearOf(y)(r) && !IsPriorTo(y)(r)
  {
    assert Trim("") == "";
  }

  /** The rows with a property among the first n, and the balance of the last of them (0 if there is none). */
  function Where(rows: seq<Row>, keep: Row -> bool, n: nat): seq<Row>
    requires n <= |rows|
  {
    if n == 0 then [] else Where(rows, keep, n - 1) + if keep(rows[n - 1]) then [rows[n - 1]] else []
  }

  function LastWhere(rows: seq<Row>, keep: Row -> bool, n: nat): int
    requires n <= |rows|
  {
    if n == 0 then 0 else if keep(rows[n - 1]) then rows[n - 1].balance else LastWhere(rows, keep, n - 1)
  }

  function HasYearOf(y: string): Row -> bool { r => RowYear(r) == y }

  function IsPriorTo(y: string): Row -> bool { r => Prior(r, y) }

  lemma {:induction false} YearRowsWhere(ledger: seq<Row>, y: string, n: nat)
    requires n <= |ledger|
    ensures YearRowsBelow(ledger, y, n) == Where(ledger, HasYearOf(y), n)
  {
    if n > 0 { YearRowsWhere(ledger, y, n - 1); }
  }

  lemma {:induction false} OpeningWhere(ledger: seq<Row>, y: string, n: nat)
    requires n <= |ledger|
    ensures OpeningBelow(ledger, y, n) == LastWhere(ledger, IsPriorTo(y), n)
  {
    if n > 0 { OpeningWhere(ledger, y, n - 1); }
  }

  lemma {:induction false} NothingWhere(rows: seq<Row>, keep: Row -> bool, n: nat)
    requires n <= |rows| && forall i | 0 <= i < n :: !keep(rows[i])
    ensures Where(rows, keep, n) == [] && LastWhere(rows, keep, n) == 0
  {
    if n > 0 { NothingWhere(rows, keep, n - 1); }
  }

  lemma {:induction false} WhereFrom(u: seq<Row>, d: seq<Row>, keep: Row -> bool, n: nat)
    requires n <= |d| && Where(u + d, keep, |u|) == [] && LastWhere(u + d, keep, |u|) == 0
    ensures Where(u + d, keep, |u| + n) == Where(d, keep, n)
    ensures LastWhere(u + d, keep, |u| + n) == LastWhere(d, keep, n)
  {
    if n > 0 {
      WhereFrom(u, d, keep, n - 1);
      assert (u + d)[|u| + (n - 1)] == d[n - 1];
    }
  }

  lemma SameCard(a: seq<Row>, b: seq<Row>, y: string)
    requires OpeningOf(a, y) == OpeningOf(b, y) && YearRows(a, y) == YearRows(b, y)
    ensures Card(a, y) == Card(b, y)
  {
  }

  lemma WhereSkips(u: seq<Row>, d: seq<Row>, keep: Row -> bool)
    requires forall i | 0 <= i < |u| :: !keep(u[i])
    ensures Where(u + d, keep, |u + d|) == Where(d, keep, |d|)
    ensures LastWhere(u + d, keep, |u + d|) == LastWhere(d, keep, |d|)
  {
    NothingWhere(u + d, keep, |u|);
    WhereFrom(u, d, keep, |d|);
  }

  lemma OpeningSkipsUndated(u: seq<Row>, d: seq<Row>, y: string)
    requires y != "" && forall i | 0 <= i < |u| :: u[i].date == ""
    ensures OpeningOf(u + d, y) == OpeningOf(d, y)
  {
    forall i | 0 <= i < |u| ensures !IsPriorTo(y)(u[i]) { NoYear(y, u[i]); }
    WhereSkips(u, d, IsPriorTo(y));
    OpeningWhere(u + d, y, |u + d|);
    OpeningWhere(d, y, |d|);
  }

  lemma RowsSkipUndated(u: seq<Row>, d: seq<Row>, y: string)
    requires y != "" && forall i | 0 <= i < |u| :: u[i].date == ""
    ensures YearRows(u + d, y) == YearRows(d, y)
  {
    forall i | 0 <= i < |u| ensures !HasYearOf(y)(u[i]) { NoYear(y, u[i]); }
    WhereSkips(u, d, HasYearOf(y));
    YearRowsWhere(u + d, y, |u + d|);
    YearRowsWhere(d, y, |d|);
  }

  /** A card does not see the undated rows. */
  lemma CardSkipsUndated(u: seq<Row>, d: seq<Row>, y: string)
    requires y != "" && forall i | 0 <= i < |u| :: u[i].date == ""
    ensures Card(u + d, y) == Card(d, y)
  {
    OpeningSkipsUndated(u, d, y);
    RowsSkipUndated(u, d, y);
    SameCard(u + d, d, y);
  }

  /** The closing of a card over rows that start at some balance. */
  lemma ClosingFrom(ledger: seq<Row>, start: int, y: string, k: nat, m: nat)
    requires Dated(ledger) && Continues(ledger, start) && y != ""
    requires SplitAt(ledger, y, k, |ledger|) && BlockAt(ledger, y, k, m, |ledger|)
    requires OpeningOf(ledger, y) == BalanceAt(ledger, k)
    ensures CardClosing(ledger, y)
         == BalanceAt(ledger, k) + BalanceFrom(ledger, start, m) - BalanceFrom(ledger, start, k)
  {
    var opening, block := OpeningOf(ledger, y), ledger[k..m];
    YearRowsAreBlock(ledger, y, k, m);
    BlockContinues(ledger, start, k, m);
    ClosingIsTurnover(block, BalanceFrom(ledger, start, k));
    RebalancedTurnover(block, opening);
    if k < m { assert block[m - k - 1] == ledger[m - 1]; }
  }

  predicate HasYear(ledger: seq<Row>, y: string) { exists i :: 0 <= i < |ledger| && RowYear(ledger[i]) == y }

  predicate HasEarlier(ledger: seq<Row>, y: string) { exists i :: 0 <= i < |ledger| && Prior(ledger[i], y) }

  lemma JoinFrom(ledger: seq<Row>, start: int, y: string, z: string)
    requires Dated(ledger) && Continues(ledger, start) && y != "" && LexLess(y, z)
    requires forall i | 0 <= i < |ledger| :: !(LexLess(y, RowYear(ledger[i])) && LexLess(RowYear(ledger[i]), z))
    ensures CardClosing(ledger, y) == OpeningOf(ledger, z)
       <==> start == 0 || HasEarlier(ledger, y) || !HasYear(ledger, y)
  {
    var k := PriorIsPrefix(ledger, y, |ledger|);
    var m := YearIsBlock(ledger, y, k, |ledger|);
    ClosingFrom(ledger, start, y, k, m);
    NextYearStarts(ledger, y, z, k, m);
    LexTotal(y, y);
    assert k > 0 <==> HasEarlier(ledger, y) by { if k > 0 { assert Prior(ledger[0], y); } }
    if k == 0 {
      assert m > 0 <==> HasYear(ledger, y) by { if m > 0 { assert RowYear(ledger[0]) == y; } }
    }
  }

  lemma {:induction false} NetUndated(events: seq<Event>)
    ensures (forall e | e in events :: e.date == "") ==> NetOf(events, true) == NetOf(events, false)
    ensures (forall e | e in events :: e.date != "") ==> NetOf(events, true) == 0
  {
    if events != [] {
      assert events[0] in events && forall e | e in events[1..] :: e in events;
      NetUndated(events[1..]);
    }
  }

  /** The balance after the undated rows is the net of the undated events. */
  lemma UndatedBalance(events: seq<Event>, p: nat)
    requires UndatedThenDated(LedgerOf(events), p)
    ensures BalanceAt(LedgerOf(events), p) == NetOf(events, true)
  {
    var sorted := InOrder(events);
    NetSorted(events, (a, b) => EventLeq(a, b), true);
    forall e | e in sorted[..p] ensures e.date == "" {
      var i :| 0 <= i < p && sorted[i] == e;
      RowIsEvent(events, i);
    }
    forall e | e in sorted[p..] ensures e.date != "" {
      var i :| p <= i < |sorted| && sorted[i] == e;
      RowIsEvent(events, i);
      assert WellDated(LedgerOf(events)[i]);
    }
    NetUndated(sorted[..p]);
    NetUndated(sorted[p..]);
    NetConcat(sorted[..p], sorted[p..], true);
    assert sorted == sorted[..p] + sorted[p..];
    BalanceIsNet(sorted, p);
  }

  lemma HasAfterUndated(ledger: seq<Row>, p: nat, y: string)
    requires UndatedThenDated(ledger, p) && y != ""
    ensures HasYear(ledger[p..], y) <==> HasYear(ledger, y)
    ensures HasEarlier(ledger[p..], y) <==> HasEarlier(ledger, y)
  {
    if HasYear(ledger, y) {
      var i :| 0 <= i < |ledger| && RowYear(ledger[i]) == y;
      assert i >= p && ledger[p..][i - p] == ledger[i];
    }
    if HasEarlier(ledger, y) {
      var i :| 0 <= i < |ledger| && Prior(ledger[i], y);
      assert i >= p && ledger[p..][i - p] == ledger[i];
    }
  }

  /** The year of a row with this date. */
  function YearOf(date: string): string { RowYear(Row(date, PaymentRow, None, None, 0)) }

  lemma YearByDate(r: Row)
    ensures RowYear(r) == YearOf(r.date)
  {
  }

  /** Some event lies in the year; some event lies in an earlier one. */
  predicate EventIn(events: seq<Event>, y: string) { exists e :: e in events && YearOf(e.date) == y }

  predicate EventBefore(events: seq<Event>, y: string) {
    exists e :: e in events && YearOf(e.date) != "" && LexLess(YearOf(e.date), y)
  }

  lemma RowsHaveEvents(events: seq<Event>, y: string)
    ensures HasYear(LedgerOf(events), y) <==> EventIn(events, y)
    ensures HasEarlier(LedgerOf(events), y) <==> EventBefore(events, y)
  {
    var ledger := LedgerOf(events);
    forall i | 0 <= i < |ledger| ensures RowYear(ledger[i]) == YearOf(ledger[i].date) { YearByDate(ledger[i]); }
    forall i | 0 <= i < |ledger| ensures exists e :: e in events && e.date == ledger[i].date {
      RowIsEvent(events, i);
      assert InOrder(events)[i] in events;
    }
    forall e | e in events ensures exists i :: 0 <= i < |ledger| && ledger[i].date == e.date {
      var i := EventIsRow(events, e);
      assert ledger[i].date == e.date;
    }
  }

  /** The cards of two consecutive years of any customer join, payments without a date included, exactly when
      the undated payments cancel out, or there is an earlier dated year, or nothing in the first of the two:
      an undated amount is missing from the customer's first card alone. */
  lemma CustomerYearsJoinExactly(events: seq<Event>, n: nat)
    requires 1000 <= n < 9999 && forall e | e in events :: e.date == "" || FullDate(e.date)
    ensures CardClosing(LedgerOf(events), DigitsOf(n)) == OpeningOf(LedgerOf(events), DigitsOf(n + 1))
       <==> NetOf(events, true) == 0 || EventBefore(events, DigitsOf(n)) || !EventIn(events, DigitsOf(n))
  {
    var ledger := LedgerOf(events);
    LedgerWellKept(events);
    forall i | 0 <= i < |ledger| ensures ledger[i].date == "" || WellDated(ledger[i]) { RowIsEvent(events, i); }
    var p := UndatedFirst(ledger, |ledger|);
    UndatedBalance(events, p);
    JoinWithUndated(ledger, p, n);
    RowsHaveEvents(events, DigitsOf(n));
  }

  lemma JoinWithUndated(ledger: seq<Row>, p: nat, n: nat)
    requires DateSorted(ledger) && Continues(ledger, 0) && UndatedThenDated(ledger, p) && 1000 <= n < 9999
    ensures CardClosing(ledger, DigitsOf(n)) == OpeningOf(ledger, DigitsOf(n + 1))
       <==> BalanceAt(ledger, p) == 0 || HasEarlier(ledger, DigitsOf(n)) || !HasYear(ledger, DigitsOf(n))
  {
    var u, d, y, z := ledger[..p], ledger[p..], DigitsOf(n), DigitsOf(n + 1);
    assert ledger == u + d && d == ledger[p..|ledger|];
    CardSkipsUndated(u, d, y);
    OpeningSkipsUndated(u, d, z);
    BlockContinues(ledger, 0, p, |ledger|);
    NothingBetween(d, n);
    JoinFrom(d, BalanceAt(ledger, p), y, z);
    HasAfterUndated(ledger, p, y);
  }
}
