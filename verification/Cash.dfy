/** The cash register's day: opening deposit, withdrawals and cash sales
    (register_cash_deposit, cash_day_summary in sepko/services.py). */
module Cash {
  import opened Calendar
  import opened Partner
  import opened Invoices
  import opened Integrity

  datatype DepositRequest = DepositRequest(operation: CashOperation, amount: nat, at: DateTime)

  // ---------- queries ----------

  predicate OpenIn(d: Deposit, tenant: nat, day: Date) {
    d.tenant == tenant && d.operation.INITIAL? && d.status.Registered? && InDay(d.at, day)
  }

  /** The registered INITIAL found in the day's window, the oldest if there are several. */
  function FirstOpen(ds: seq<Deposit>, tenant: nat, day: Date): (k: nat)
    ensures k <= |ds|
    ensures k < |ds| ==> OpenIn(ds[k], tenant, day)
    ensures forall i :: 0 <= i < k ==> !OpenIn(ds[i], tenant, day)
  {
    if ds == [] || OpenIn(ds[0], tenant, day) then 0 else 1 + FirstOpen(ds[1..], tenant, day)
  }

  predicate SaleIn(r: Invoice, tenant: nat, day: Date) {
    r.tenant == tenant && r.status.Fiscalized? && InDay(r.issue, day)
  }

  predicate Sold(b: Book, tenant: nat, day: Date) { exists id :: id in b.rows && SaleIn(b.rows[id], tenant, day) }

  // ---------- registering a deposit ----------

  /** Only the mock and Navira channels register deposits at all. */
  predicate DepositAccepted(t: Tenant, w: World) {
    t.channel.Mock? || (t.channel.Navira? && w.ready && Post(w.attempts).Delivered?)
  }

  function Entry(t: Tenant, req: DepositRequest, w: World): Deposit {
    Deposit(t.id, req.operation, req.amount, req.at, if DepositAccepted(t, w) then Registered else NotRegistered)
  }

  predicate DepositRefused(b: Book, t: Tenant, req: DepositRequest) {
    var day := req.at.wall.date;
    req.operation.INITIAL? && FirstOpen(b.deposits, t.id, day) < |b.deposits| && Sold(b, t.id, day)
  }

  /** The deposits with the one to be replaced marked superseded. */
  function Replaced(b: Book, t: Tenant, req: DepositRequest): (ds: seq<Deposit>)
    ensures |ds| == |b.deposits|
  {
    var k := FirstOpen(b.deposits, t.id, req.at.wall.date);
    if req.operation.INITIAL? && k < |b.deposits|
    then b.deposits[k := b.deposits[k].(status := Superseded)]
    else b.deposits
  }

  /** register_cash_deposit */
  function RegisterDeposit(b: Book, t: Tenant, req: DepositRequest, w: World): Book {
    if DepositRefused(b, t, req) then b
    else b.(deposits := Replaced(b, t, req) + [Entry(t, req, w)])
  }

  // ---------- when a deposit is refused, and when registered ----------

  /** The days a deposit looks at: its own, and in December also the rest of the month. */
  predicate Looked(date: Date, day: Date) {
    if day.month == 12 then date.year == day.year && date.month == 12 && date.day >= day.day else date == day
  }

  predicate OpeningLooked(d: Deposit, tenant: nat, day: Date) {
    d.tenant == tenant && d.operation == INITIAL && d.status == Registered && Looked(d.at.utc.date, day)
  }

  predicate SaleLooked(r: Invoice, tenant: nat, day: Date) {
    r.tenant == tenant && r.status == Fiscalized && Looked(r.issue.utc.date, day)
  }

  /** A deposit is refused exactly when it is an INITIAL, one is registered in the days it looks at, and an invoice of
      these days is fiscalized; a withdrawal never is. */
  lemma RefusedExactly(b: Book, t: Tenant, req: DepositRequest)
    requires DatedDeposits(b) && DatedRows(b) && Valid(req.at.wall.date)
    ensures DepositRefused(b, t, req)
       <==> req.operation == INITIAL && (exists d :: d in b.deposits && OpeningLooked(d, t.id, req.at.wall.date))
            && exists id :: id in b.rows && SaleLooked(b.rows[id], t.id, req.at.wall.date)
  {
    var day := req.at.wall.date;
    forall d | d in b.deposits ensures OpenIn(d, t.id, day) <==> OpeningLooked(d, t.id, day) { DayWindow(d.at, day); }
    forall id | id in b.rows ensures SaleIn(b.rows[id], t.id, day) <==> SaleLooked(b.rows[id], t.id, day) {
      DayWindow(b.rows[id].issue, day);
    }
    var k := FirstOpen(b.deposits, t.id, day);
    if k < |b.deposits| { assert b.deposits[k] in b.deposits; }
  }

  /** A deposit is registered exactly on the mock channel, or on a configured Navira channel that gave a good answer. */
  lemma AcceptedExactly(t: Tenant, w: World)
    ensures DepositAccepted(t, w)
       <==> t.channel == Mock
            || (t.channel == Navira && w.ready && exists k :: 0 <= k < |w.attempts| && AnsweredAt(w.attempts, k))
  {
    if Post(w.attempts).Delivered? { var k := DeliveredAt(w.attempts); }
    forall k | 0 <= k < |w.attempts| && AnsweredAt(w.attempts, k) ensures Post(w.attempts).Delivered? {
      DeliveredIs(w.attempts, k);
    }
  }

  /** A deposit not refused is booked last, as it was given; before it only the status of one deposit may change. */
  lemma BookedLast(b: Book, t: Tenant, req: DepositRequest, w: World)
    requires !DepositRefused(b, t, req)
    ensures var after, n, k := RegisterDeposit(b, t, req, w).deposits, |b.deposits|,
                               FirstOpen(b.deposits, t.id, req.at.wall.date);
      && |after| == n + 1
      && after[n] == Deposit(t.id, req.operation, req.amount, req.at,
                             if DepositAccepted(t, w) then Registered else NotRegistered)
      && (forall i | 0 <= i < n && i != k :: after[i] == b.deposits[i])
      && (k < n ==>
            after[k] == if req.operation == INITIAL then b.deposits[k].(status := Superseded) else b.deposits[k])
  {
  }

  // ---------- the opening deposit is frozen by the first sale ----------

  predicate DatedDeposits(b: Book) { forall d | d in b.deposits :: Valid(d.at.utc.date) }

  predicate DatedRows(b: Book) { forall id | id in b.rows :: Valid(b.rows[id].issue.utc.date) }

  /** A fiscalized invoice of the tenant issued on this UTC day. */
  predicate SoldOn(b: Book, tenant: nat, day: Date) {
    exists id :: id in b.rows && b.rows[id].tenant == tenant && b.rows[id].status.Fiscalized?
                 && b.rows[id].issue.utc.date == day
  }

  /** Once its day has a sale, a registered INITIAL is not touched by any later deposit, whatever
      date that deposit claims, in December too. */
  lemma OpeningFrozen(b: Book, t: Tenant, req: DepositRequest, w: World, i: nat)
    requires DatedDeposits(b) && DatedRows(b) && Valid(req.at.wall.date)
    requires i < |b.deposits| && b.deposits[i].operation.INITIAL? && b.deposits[i].status.Registered?
    requires SoldOn(b, b.deposits[i].tenant, b.deposits[i].at.utc.date)
    ensures i < |RegisterDeposit(b, t, req, w).deposits|
    ensures RegisterDeposit(b, t, req, w).deposits[i] == b.deposits[i]
  {
    var day := req.at.wall.date;
    var k := FirstOpen(b.deposits, t.id, day);
    if req.operation.INITIAL? && k == i {
      var d := b.deposits[i];
      var id :| id in b.rows && b.rows[id].tenant == d.tenant && b.rows[id].status.Fiscalized?
                && b.rows[id].issue.utc.date == d.at.utc.date;
      DayWindow(d.at, day);
      DayWindow(b.rows[id].issue, day);
      assert SaleIn(b.rows[id], t.id, day);
    }
  }

  // ---------- one opening deposit a day ----------

  predicate OpenOn(d: Deposit, tenant: nat, day: Date) {
    d.tenant == tenant && d.operation.INITIAL? && d.status.Registered? && d.at.utc.date == day
  }

  predicate OneOpening(ds: seq<Deposit>) {
    forall i, j | 0 <= i < j < |ds| && ds[i].operation.INITIAL? && ds[i].status.Registered? ::
      !OpenOn(ds[j], ds[i].tenant, ds[i].at.utc.date)
  }

  /** A registered INITIAL of the same day, if there is one, is the one the window finds first. */
  predicate FindsOwnDay(b: Book, t: Tenant, req: DepositRequest) {
    forall i | 0 <= i < |b.deposits| && OpenOn(b.deposits[i], t.id, req.at.utc.date) ::
      i == FirstOpen(b.deposits, t.id, req.at.wall.date)
  }

  /** An accepted INITIAL keeps at most one opening a day exactly when FindsOwnDay holds. */
  lemma OneOpeningKept(b: Book, t: Tenant, req: DepositRequest, w: World)
    requires OneOpening(b.deposits) && !DepositRefused(b, t, req)
    requires req.operation.INITIAL? && DepositAccepted(t, w)
    ensures OneOpening(RegisterDeposit(b, t, req, w).deposits) <==> FindsOwnDay(b, t, req)
  {
    var ds, k := b.deposits, FirstOpen(b.deposits, t.id, req.at.wall.date);
    var after := RegisterDeposit(b, t, req, w).deposits;
    assert forall i | 0 <= i < |ds| && i != k :: after[i] == ds[i];
    if !FindsOwnDay(b, t, req) {
      var i :| 0 <= i < |ds| && OpenOn(ds[i], t.id, req.at.utc.date) && i != k;
      assert OpenOn(after[|ds|], after[i].tenant, after[i].at.utc.date);
    }
  }

  /** Every other deposit keeps it. */
  lemma OneOpeningOtherwise(b: Book, t: Tenant, req: DepositRequest, w: World)
    requires OneOpening(b.deposits)
    requires req.operation.WITHDRAW? || !DepositAccepted(t, w) || DepositRefused(b, t, req)
    ensures OneOpening(RegisterDeposit(b, t, req, w).deposits)
  {
  }

  /** Outside December, or when no registered INITIAL of the tenant lies later in the month, the
      window finds the day's own. */
  lemma OwnDayFound(b: Book, t: Tenant, req: DepositRequest)
    requires DatedDeposits(b) && IsUtc(req.at) && Valid(req.at.utc.date) && OneOpening(b.deposits)
    requires req.at.utc.date.month == 12 ==>
      forall d | d in b.deposits && OpenIn(d, t.id, req.at.utc.date) :: d.at.utc.date == req.at.utc.date
    ensures FindsOwnDay(b, t, req)
  {
    var ds, day := b.deposits, req.at.utc.date;
    var k := FirstOpen(ds, t.id, day);
    forall i | 0 <= i < |ds| && OpenOn(ds[i], t.id, day) ensures i == k {
      assert ds[i] in ds;
      DayWindow(ds[i].at, day);
      assert OpenIn(ds[i], t.id, day) && k <= i;
      assert ds[k] in ds;
      DayWindow(ds[k].at, day);
    }
  }

  function At(d: Date): DateTime { DateTime(Midnight(d), Midnight(d)) }

  function Opening(day: nat): DepositRequest { DepositRequest(INITIAL, 100, At(Date(2026, 12, day))) }

  /** An accepted opening for a December day of a tenant without sales. */
  lemma DecemberOpening(ds: seq<Deposit>, t: Tenant, w: World, day: nat, k: nat)
    requires DepositAccepted(t, w) && 1 <= day <= 31 && k <= |ds|
    requires forall i | 0 <= i < k :: !OpenIn(ds[i], t.id, Date(2026, 12, day))
    requires k < |ds| ==> OpenIn(ds[k], t.id, Date(2026, 12, day))
    ensures RegisterDeposit(EMPTY.(deposits := ds), t, Opening(day), w)
         == EMPTY.(deposits := (if k < |ds| then ds[k := ds[k].(status := Superseded)] else ds)
                               + [Entry(t, Opening(day), w)])
  {
  }

  lemma DecemberWindow(t: Tenant, w: World, day: nat, other: nat)
    requires DepositAccepted(t, w) && 1 <= day <= 31 && 1 <= other <= 31
    ensures OpenIn(Entry(t, Opening(day), w), t.id, Date(2026, 12, other)) <==> day >= other
  {
    DayWindow(Opening(day).at, Date(2026, 12, other));
  }

  /** In December a back-dated sequence leaves two registered INITIALs on one day. */
  lemma DecemberTwoOpenings(t: Tenant, w: World)
    requires DepositAccepted(t, w)
    ensures
      var b1 := RegisterDeposit(EMPTY, t, Opening(12), w);
      var b2 := RegisterDeposit(b1, t, Opening(13), w);
      var b3 := RegisterDeposit(b2, t, Opening(10), w);
      var b4 := RegisterDeposit(b3, t, Opening(10), w);
      OneOpening(b3.deposits) && !OneOpening(b4.deposits)
  {
    var e12, e13, e10 := Entry(t, Opening(12), w), Entry(t, Opening(13), w), Entry(t, Opening(10), w);
    var s12, s13 := e12.(status := Superseded), e13.(status := Superseded);
    DecemberWindow(t, w, 12, 13);
    DecemberWindow(t, w, 12, 10);
    DecemberWindow(t, w, 13, 10);
    DecemberOpening([], t, w, 12, 0);
    DecemberOpening([e12], t, w, 13, 1);
    DecemberOpening([e12, e13], t, w, 10, 0);
    DecemberOpening([s12, e13, e10], t, w, 10, 1);
    assert [] + [e12] == [e12] && [e12] + [e13] == [e12, e13];
    assert [e12, e13][0 := s12] + [e10] == [s12, e13, e10];
    assert [s12, e13, e10][1 := s13] + [e10] == [s12, s13, e10, e10];
    var after := [s12, s13, e10, e10];
    assert OpenOn(after[3], after[2].tenant, after[2].at.utc.date);
  }

  // ---------- the drawer ----------

  /** The amount of the day's registered INITIAL: the last one seen wins. */
  function OpeningAmount(ds: seq<Deposit>, tenant: nat, day: Date): nat {
    if ds == [] then 0
    else if OpenIn(ds[|ds| - 1], tenant, day) then ds[|ds| - 1].amount
    else OpeningAmount(ds[..|ds| - 1], tenant, day)
  }

  function Withdrawn(d: Deposit, tenant: nat, day: Date): nat {
    if d.tenant == tenant && d.operation.WITHDRAW? && d.status.Registered? && InDay(d.at, day) then d.amount else 0
  }

  function Withdrawals(ds: seq<Deposit>, tenant: nat, day: Date): nat {
    if ds == [] then 0 else Withdrawals(ds[..|ds| - 1], tenant, day) + Withdrawn(ds[|ds| - 1], tenant, day)
  }

  function CashSale(r: Invoice, tenant: nat, day: Date): int {
    if SaleIn(r, tenant, day) && r.pay.BANKNOTE? then r.gross else 0
  }

  function CashSalesBelow(rows: map<nat, Invoice>, tenant: nat, day: Date, n: nat): int {
    if n == 0 then 0
    else CashSalesBelow(rows, tenant, day, n - 1)
         + if n - 1 in rows then CashSale(rows[n - 1], tenant, day) else 0
  }

  function Drawer(b: Book, tenant: nat, day: Date): int {
    OpeningAmount(b.deposits, tenant, day) + CashSalesBelow(b.rows, tenant, day, b.nextId)
    - Withdrawals(b.deposits, tenant, day)
  }

  /** The deposit loop of cash_day_summary. */
  method DayDeposits(ds: seq<Deposit>, tenant: nat, day: Date)
    returns (initial: nat, withdrawals: nat, hasInitial: bool)
    ensures initial == OpeningAmount(ds, tenant, day)
    ensures withdrawals == Withdrawals(ds, tenant, day)
    ensures hasInitial <==> exists d :: d in ds && OpenIn(d, tenant, day)
  {
    initial, withdrawals, hasInitial := 0, 0, false;
    var i := 0;
    while i < |ds|
      invariant i <= |ds|
      invariant initial == OpeningAmount(ds[..i], tenant, day)
      invariant withdrawals == Withdrawals(ds[..i], tenant, day)
      invariant hasInitial <==> exists d :: d in ds[..i] && OpenIn(d, tenant, day)
    {
      var d := ds[i];
      assert ds[..i + 1] == ds[..i] + [d] && ds[..i + 1][..i] == ds[..i];
      if d.tenant == tenant && d.status.Registered? && InDay(d.at, day) {
        if d.operation.INITIAL? {
          initial, hasInitial := d.amount, true;
          assert OpenIn(d, tenant, day);
        } else {
          withdrawals := withdrawals + d.amount;
        }
      }
      i := i + 1;
    }
    assert ds[..i] == ds;
  }

  lemma {:induction false} SalesFrame(before: map<nat, Invoice>, after: map<nat, Invoice>, tenant: nat, day: Date,
                                      n: nat)
    requires forall id | id < n :: (id in before <==> id in after) && (id in before ==> before[id] == after[id])
    ensures CashSalesBelow(before, tenant, day, n) == CashSalesBelow(after, tenant, day, n)
  {
    if n > 0 { SalesFrame(before, after, tenant, day, n - 1); }
  }

  function SaleAt(rows: map<nat, Invoice>, id: nat, tenant: nat, day: Date): int {
    if id in rows then CashSale(rows[id], tenant, day) else 0
  }

  lemma {:induction false} SalesAtOne(before: map<nat, Invoice>, after: map<nat, Invoice>, id: nat, tenant: nat,
                                      day: Date, n: nat)
    requires id < n
    requires forall j | j < n && j != id :: (j in before <==> j in after) && (j in before ==> before[j] == after[j])
    ensures CashSalesBelow(after, tenant, day, n) - CashSalesBelow(before, tenant, day, n)
         == SaleAt(after, id, tenant, day) - SaleAt(before, id, tenant, day)
  {
    if id == n - 1 { SalesFrame(before, after, tenant, day, n - 1); }
    else { SalesAtOne(before, after, id, tenant, day, n - 1); }
  }

  /** Cash that a change of the invoice table brings in: the gross of a row that becomes fiscalized. */
  function CashIn(c: Change, tenant: nat, day: Date): int {
    match c
    case Insert(row) => CashSale(row, tenant, day)
    case Replace(id, row) => CashSale(row, tenant, day)
    case _ => 0
  }

  lemma DrawerAfterChange(b: Book, c: Change, tenant: nat, day: Date)
    requires BookInv(b) && WellFormedChange(b, c) && Guarded(b, c)
    ensures Drawer(Apply(b, c), tenant, day) == Drawer(b, tenant, day) + CashIn(c, tenant, day)
  {
    var after := Apply(b, c);
    match c {
      case Nothing =>
      case Insert(row) => SalesFrame(b.rows, after.rows, tenant, day, b.nextId);
      case Replace(id, row) => SalesAtOne(b.rows, after.rows, id, tenant, day, b.nextId);
      case Remove(id) => SalesAtOne(b.rows, after.rows, id, tenant, day, b.nextId);
    }
  }

  lemma {:induction false} SupersedeOpening(ds: seq<Deposit>, k: nat, tenant: nat, day: Date)
    requires k < |ds| && OpenIn(ds[k], tenant, day)
    requires forall i | 0 <= i < |ds| && i != k :: !OpenIn(ds[i], tenant, day)
    ensures var after := ds[k := ds[k].(status := Superseded)];
      && OpeningAmount(after, tenant, day) == 0
      && OpeningAmount(ds, tenant, day) == ds[k].amount
      && Withdrawals(after, tenant, day) == Withdrawals(ds, tenant, day)
    decreases |ds|
  {
    var after := ds[k := ds[k].(status := Superseded)];
    var n := |ds| - 1;
    if k == n {
      assert after[..n] == ds[..n];
      NoOpening(ds[..n], tenant, day);
    } else {
      SupersedeOpening(ds[..n], k, tenant, day);
      assert after[..n] == ds[..n][k := ds[k].(status := Superseded)];
    }
  }

  lemma {:induction false} NoOpening(ds: seq<Deposit>, tenant: nat, day: Date)
    requires forall i | 0 <= i < |ds| :: !OpenIn(ds[i], tenant, day)
    ensures OpeningAmount(ds, tenant, day) == 0
  {
    if ds != [] { NoOpening(ds[..|ds| - 1], tenant, day); }
  }

  /** Cash a deposit brings into its own day's drawer. */
  function DepositIn(b: Book, t: Tenant, req: DepositRequest, w: World, day: Date): int {
    if DepositRefused(b, t, req) || req.at.utc.date != day then 0
    else if req.operation.WITHDRAW? then (if DepositAccepted(t, w) then -(req.amount as int) else 0)
    else (if DepositAccepted(t, w) then req.amount else 0) - OpeningAmount(b.deposits, t.id, day)
  }

  predicate OneOpeningIn(ds: seq<Deposit>, tenant: nat, day: Date) {
    forall i, j | 0 <= i < |ds| && 0 <= j < |ds| && OpenIn(ds[i], tenant, day) && OpenIn(ds[j], tenant, day) :: i == j
  }

  lemma DaysApart(ds: seq<Deposit>, tenant: nat, day: Date)
    requires OneOpening(ds) && Valid(day) && day.month != 12
    requires forall d | d in ds :: Valid(d.at.utc.date)
    ensures OneOpeningIn(ds, tenant, day)
  {
    forall i, j | 0 <= i < |ds| && 0 <= j < |ds| && OpenIn(ds[i], tenant, day) && OpenIn(ds[j], tenant, day)
      ensures i == j
    {
      assert ds[i] in ds && ds[j] in ds;
      DayWindow(ds[i].at, day);
      DayWindow(ds[j].at, day);
      assert OpenOn(ds[i], ds[j].tenant, ds[j].at.utc.date) && OpenOn(ds[j], ds[i].tenant, ds[i].at.utc.date);
    }
  }

  lemma EntrySums(ds: seq<Deposit>, e: Deposit, tenant: nat, day: Date)
    ensures OpeningAmount(ds + [e], tenant, day)
         == if OpenIn(e, tenant, day) then e.amount else OpeningAmount(ds, tenant, day)
    ensures Withdrawals(ds + [e], tenant, day) == Withdrawals(ds, tenant, day) + Withdrawn(e, tenant, day)
  {
    assert (ds + [e])[..|ds|] == ds;
  }

  /** Outside December the drawer of every day moves by exactly what the deposit brings in. */
  lemma DrawerAfterDeposit(b: Book, t: Tenant, req: DepositRequest, w: World, day: Date)
    requires DatedDeposits(b) && OneOpening(b.deposits)
    requires IsUtc(req.at) && Valid(req.at.utc.date) && Valid(day)
    requires day.month != 12 && req.at.utc.date.month != 12
    ensures Drawer(RegisterDeposit(b, t, req, w), t.id, day)
         == Drawer(b, t.id, day) + DepositIn(b, t, req, w, day)
  {
    if !DepositRefused(b, t, req) {
      var e, ds := Entry(t, req, w), Replaced(b, t, req);
      EntrySums(ds, e, t.id, day);
      DayWindow(req.at, day);
      ReplacedSums(b, t, req, day);
    }
  }

  lemma ReplacedSums(b: Book, t: Tenant, req: DepositRequest, day: Date)
    requires DatedDeposits(b) && OneOpening(b.deposits)
    requires IsUtc(req.at) && Valid(req.at.utc.date) && Valid(day)
    requires day.month != 12 && req.at.utc.date.month != 12
    ensures var ds := Replaced(b, t, req);
      && OpeningAmount(ds, t.id, day)
           == (if req.operation.INITIAL? && req.at.utc.date == day then 0 else OpeningAmount(b.deposits, t.id, day))
      && Withdrawals(ds, t.id, day) == Withdrawals(b.deposits, t.id, day)
  {
    var own := req.at.utc.date;
    var k := FirstOpen(b.deposits, t.id, own);
    if req.operation.INITIAL? {
      if k < |b.deposits| {
        assert b.deposits[k] in b.deposits;
        DayWindow(b.deposits[k].at, own);
        DayWindow(b.deposits[k].at, day);
        if own == day {
          DaysApart(b.deposits, t.id, day);
          SupersedeOpening(b.deposits, k, t.id, day);
        } else {
          SupersedeElsewhere(b.deposits, k, t.id, day);
        }
      } else if own == day {
        NoOpening(b.deposits, t.id, day);
      }
    }
  }

  lemma {:induction false} SupersedeElsewhere(ds: seq<Deposit>, k: nat, tenant: nat, day: Date)
    requires k < |ds| && ds[k].operation.INITIAL? && !OpenIn(ds[k], tenant, day)
    ensures var after := ds[k := ds[k].(status := Superseded)];
      && OpeningAmount(after, tenant, day) == OpeningAmount(ds, tenant, day)
      && Withdrawals(after, tenant, day) == Withdrawals(ds, tenant, day)
    decreases |ds|
  {
    var after := ds[k := ds[k].(status := Superseded)];
    var n := |ds| - 1;
    if k == n {
      assert after[..n] == ds[..n];
    } else {
      SupersedeElsewhere(ds[..n], k, tenant, day);
      assert after[..n] == ds[..n][k := ds[k].(status := Superseded)];
    }
  }

  // ---------- the summary of a December day ----------

  /** What a row or a deposit comes to on exactly this UTC day. */
  function SaleOn(r: Invoice, tenant: nat, day: Date): int {
    if r.tenant == tenant && r.status.Fiscalized? && r.pay.BANKNOTE? && r.issue.utc.date == day then r.gross else 0
  }

  function WithdrawnOn(d: Deposit, tenant: nat, day: Date): nat {
    if d.tenant == tenant && d.operation.WITHDRAW? && d.status.Registered? && d.at.utc.date == day then d.amount else 0
  }

  function SalesOn(rows: map<nat, Invoice>, tenant: nat, day: Date, n: nat): int {
    if n == 0 then 0
    else SalesOn(rows, tenant, day, n - 1) + if n - 1 in rows then SaleOn(rows[n - 1], tenant, day) else 0
  }

  function WithdrawalsOn(ds: seq<Deposit>, tenant: nat, day: Date): nat {
    if ds == [] then 0 else WithdrawalsOn(ds[..|ds| - 1], tenant, day) + WithdrawnOn(ds[|ds| - 1], tenant, day)
  }

  /** Cash sales less withdrawals of each day from this one of December on, added up. */
  function RestOfDecember(b: Book, tenant: nat, year: int, day: nat): int
    decreases 32 - day
  {
    if day > 31 then 0
    else SalesOn(b.rows, tenant, Date(year, 12, day), b.nextId)
         - WithdrawalsOn(b.deposits, tenant, Date(year, 12, day))
         + RestOfDecember(b, tenant, year, day + 1)
  }

  /** The last registered INITIAL entered for this or a later day of December. */
  function LastOpening(ds: seq<Deposit>, tenant: nat, year: int, day: nat): nat {
    if ds == [] then 0
    else
      var d := ds[|ds| - 1];
      if d.tenant == tenant && d.operation.INITIAL? && d.status.Registered?
         && d.at.utc.date.year == year && d.at.utc.date.month == 12 && d.at.utc.date.day >= day
      then d.amount
      else LastOpening(ds[..|ds| - 1], tenant, year, day)
  }

  lemma {:induction false} DecemberSales(rows: map<nat, Invoice>, tenant: nat, year: int, day: nat, n: nat)
    requires forall id | id in rows :: Valid(rows[id].issue.utc.date)
    requires 1 <= day <= 31 && Valid(Date(year, 12, day))
    ensures CashSalesBelow(rows, tenant, Date(year, 12, day), n)
         == SalesOn(rows, tenant, Date(year, 12, day), n)
            + if day < 31 then CashSalesBelow(rows, tenant, Date(year, 12, day + 1), n) else 0
  {
    if n > 0 {
      DecemberSales(rows, tenant, year, day, n - 1);
      if n - 1 in rows {
        DayWindow(rows[n - 1].issue, Date(year, 12, day));
        if day < 31 { DayWindow(rows[n - 1].issue, Date(year, 12, day + 1)); }
      }
    }
  }

  lemma {:induction false} DecemberWithdrawals(ds: seq<Deposit>, tenant: nat, year: int, day: nat)
    requires forall d | d in ds :: Valid(d.at.utc.date)
    requires 1 <= day <= 31 && Valid(Date(year, 12, day))
    ensures Withdrawals(ds, tenant, Date(year, 12, day))
         == WithdrawalsOn(ds, tenant, Date(year, 12, day))
            + if day < 31 then Withdrawals(ds, tenant, Date(year, 12, day + 1)) else 0
    decreases |ds|
  {
    if ds != [] {
      var n := |ds| - 1;
      DecemberWithdrawals(ds[..n], tenant, year, day);
      assert ds[n] in ds;
      DayWindow(ds[n].at, Date(year, 12, day));
      if day < 31 { DayWindow(ds[n].at, Date(year, 12, day + 1)); }
    }
  }

  lemma {:induction false} DecemberOpeningAmount(ds: seq<Deposit>, tenant: nat, year: int, day: nat)
    requires forall d | d in ds :: Valid(d.at.utc.date)
    requires 1 <= day <= 31 && Valid(Date(year, 12, day))
    ensures OpeningAmount(ds, tenant, Date(year, 12, day)) == LastOpening(ds, tenant, year, day)
    decreases |ds|
  {
    if ds != [] {
      var n := |ds| - 1;
      assert ds[n] in ds;
      DayWindow(ds[n].at, Date(year, 12, day));
      DecemberOpeningAmount(ds[..n], tenant, year, day);
    }
  }

  lemma {:induction false} DecemberMoves(b: Book, tenant: nat, year: int, day: nat)
    requires DatedRows(b) && DatedDeposits(b)
    requires 1 <= day <= 31 && Valid(Date(year, 12, day))
    ensures CashSalesBelow(b.rows, tenant, Date(year, 12, day), b.nextId)
            - Withdrawals(b.deposits, tenant, Date(year, 12, day))
         == RestOfDecember(b, tenant, year, day)
    decreases 32 - day
  {
    DecemberSales(b.rows, tenant, year, day, b.nextId);
    DecemberWithdrawals(b.deposits, tenant, year, day);
    if day < 31 { DecemberMoves(b, tenant, year, day + 1); }
  }

  /** The summary of a December day shows the rest of the month: the last opening entered for that day or a
      later one, and the cash sales and withdrawals of every day up to the 31st. */
  lemma DecemberDrawer(b: Book, tenant: nat, year: int, day: nat)
    requires DatedRows(b) && DatedDeposits(b)
    requires 1 <= day <= 31 && Valid(Date(year, 12, day))
    ensures Drawer(b, tenant, Date(year, 12, day))
         == LastOpening(b.deposits, tenant, year, day) + RestOfDecember(b, tenant, year, day)
  {
    DecemberOpeningAmount(b.deposits, tenant, year, day);
    DecemberMoves(b, tenant, year, day);
  }
}
