/** Invoice numbers leave no gaps: each number the system chooses follows one that is there, so a year is numbered
    1 to n (next_ord_num, next_local_ord_num in sepko/services.py). */
module Consecutive {
  import opened Wrappers
  import opened Calendar
  import opened Requests
  import opened Partner
  import opened Invoices
  import opened Integrity
  import opened Backfill
  import opened Runs
  import opened Numbering

  predicate InYearOf(r: Invoice, tenant: nat, year: int) { r.tenant == tenant && r.issue.utc.date.year == year }

  predicate InMonthOf(r: Invoice, tenant: nat, year: int, month: int) {
    InYearOf(r, tenant, year) && r.issue.utc.date.month == month && !r.isTemplate
  }

  /** Some row of the tenant in the year has this ordinal. */
  predicate UsesOrd(b: Book, tenant: nat, year: int, n: nat) {
    exists id :: id in b.rows && InYearOf(b.rows[id], tenant, year) && b.rows[id].ordNum == Some(n)
  }

  /** Some row of the tenant in the month, templates aside, has this local number. */
  predicate UsesLocal(b: Book, tenant: nat, year: int, month: int, n: nat) {
    exists id :: id in b.rows && InMonthOf(b.rows[id], tenant, year, month) && b.rows[id].localNum == Some(n)
  }

  // ---------- the next number ----------

  /** The next ordinal of a year is 1 or follows one of that year, and is above them all. */
  lemma NextOrdFollows(b: Book, tenant: nat, year: int)
    requires BookInv(b) && AllUtc(b)
    ensures var n := Next(b, OrdInYear(tenant, year));
      && (n == 1 || UsesOrd(b, tenant, year, n - 1))
      && forall m: nat | UsesOrd(b, tenant, year, m) :: m < n
  {
    var q := OrdInYear(tenant, year);
    MaxIsMax(b.rows, q, b.nextId);
    forall id | id in b.rows ensures InYear(b.rows[id].issue, year) <==> b.rows[id].issue.utc.date.year == year {
      YearWindow(b.rows[id].issue, year);
    }
    if MaxBelow(b.rows, q, b.nextId) > 0 {
      var id :| id in b.rows && id < b.nextId && Counted(q, b.rows[id]) == MaxBelow(b.rows, q, b.nextId);
    }
    forall m: nat | UsesOrd(b, tenant, year, m) ensures m < Next(b, q) {
      var id :| id in b.rows && InYearOf(b.rows[id], tenant, year) && b.rows[id].ordNum == Some(m);
      assert Counted(q, b.rows[id]) == m;
    }
  }

  /** The next local number of a month is 1 or follows one of that month, and is above them all. */
  lemma NextLocalFollows(b: Book, tenant: nat, year: int, month: int)
    requires BookInv(b) && AllUtc(b) && 1 <= month <= 12
    ensures var n := Next(b, LocalInMonth(tenant, year, month, false));
      && (n == 1 || UsesLocal(b, tenant, year, month, n - 1))
      && forall m: nat | UsesLocal(b, tenant, year, month, m) :: m < n
  {
    var q := LocalInMonth(tenant, year, month, false);
    MaxIsMax(b.rows, q, b.nextId);
    forall id | id in b.rows
      ensures InMonth(b.rows[id].issue, year, month)
         <==> b.rows[id].issue.utc.date.year == year && b.rows[id].issue.utc.date.month == month
    {
      MonthWindow(b.rows[id].issue, year, month);
    }
    if MaxBelow(b.rows, q, b.nextId) > 0 {
      var id :| id in b.rows && id < b.nextId && Counted(q, b.rows[id]) == MaxBelow(b.rows, q, b.nextId);
    }
    forall m: nat | UsesLocal(b, tenant, year, month, m) ensures m < Next(b, q) {
      var id :| id in b.rows && InMonthOf(b.rows[id], tenant, year, month) && b.rows[id].localNum == Some(m);
      assert Counted(q, b.rows[id]) == m;
    }
  }

  /** The row the submission writes over, if there is one, has no number of its own. */
  predicate Unnumbered(b: Book, t: Tenant, req: Request, w: World) {
    var k := Target(b, t, req, w);
    !Positive(req.ordNum) && (k.Some? ==> b.rows[k.value].ordNum.None? && b.rows[k.value].localNum.None?)
  }

  /** A fresh ordinal: it follows the tenant's last of the year. */
  predicate FreshOrd(b: Book, tenant: nat, year: int, n: nat) {
    (n == 1 || (n > 1 && UsesOrd(b, tenant, year, n - 1))) && !UsesOrd(b, tenant, year, n)
  }

  predicate FreshLocal(b: Book, tenant: nat, year: int, month: int, n: nat) {
    (n == 1 || (n > 1 && UsesLocal(b, tenant, year, month, n - 1))) && !UsesLocal(b, tenant, year, month, n)
  }

  lemma ChosenFollow(b: Book, t: Tenant, req: Request, w: World)
    requires BookInv(b) && AllUtc(b) && UtcTime(req.issue) && Unnumbered(b, t, req, w)
    ensures FreshOrd(b, t.id, req.issue.utc.date.year, ChosenOrd(b, t, req))
    ensures FreshLocal(b, t.id, req.issue.utc.date.year, req.issue.utc.date.month, ChosenLocal(b, t, req))
  {
    NextOrdFollows(b, t.id, req.issue.utc.date.year);
    NextLocalFollows(b, t.id, req.issue.utc.date.year, req.issue.utc.date.month);
  }

  /** What a submission without numbers of its own writes: the ordinal that follows the tenant's last of the year,
      and the local number that follows the last of the month. */
  lemma NumbersFollow(b: Book, t: Tenant, req: Request, w: World, now: DateTime)
    requires BookInv(b) && AllUtc(b) && UtcTime(req.issue) && Writes(b, t, req, w, now) && Unnumbered(b, t, req, w)
    ensures var r, d := Written(b, t, req, w, now), req.issue.utc.date;
      && r.ordNum.Some? && FreshOrd(b, t.id, d.year, r.ordNum.value)
      && r.localNum.Some? && FreshLocal(b, t.id, d.year, d.month, r.localNum.value)
  {
    ChosenFollow(b, t, req, w);
    WrittenFields(b, t, req, w, now);
  }

  // ---------- no gaps over runs ----------

  /** Every ordinal is 1 or follows another one of its tenant and year. */
  predicate Dense(b: Book) {
    forall id | id in b.rows && b.rows[id].ordNum.Some? :: Follows(b, b.rows[id])
  }

  predicate Follows(b: Book, r: Invoice)
    requires r.ordNum.Some?
  {
    r.ordNum.value == 1
    || (r.ordNum.value > 1 && UsesOrd(b, r.tenant, r.issue.utc.date.year, r.ordNum.value - 1))
  }

  /** The same tenant, year and ordinal. */
  predicate SameNumber(r: Invoice, s: Invoice) { r.tenant == s.tenant && SameYear(r, s) && r.ordNum == s.ordNum }

  /** No ordinal is lost, and a new one follows. */
  predicate KeepsDense(b: Book, c: Change) {
    match c
    case Insert(row) => row.ordNum.Some? ==> Follows(b, row)
    case Replace(id, row) =>
      id in b.rows
      && (SameNumber(row, b.rows[id]) || (b.rows[id].ordNum.None? && (row.ordNum.Some? ==> Follows(b, row))))
    case Remove(id) => id in b.rows && b.rows[id].ordNum.None?
    case Nothing => true
  }

  lemma UseStays(b: Book, c: Change, tenant: nat, year: int, n: nat)
    requires BookInv(b) && KeepsDense(b, c) && UsesOrd(b, tenant, year, n)
    ensures UsesOrd(Apply(b, c), tenant, year, n)
  {
    var id :| id in b.rows && InYearOf(b.rows[id], tenant, year) && b.rows[id].ordNum == Some(n);
    assert id in Apply(b, c).rows && SameNumber(Apply(b, c).rows[id], b.rows[id]);
  }

  lemma ApplyKeepsDense(b: Book, c: Change)
    requires BookInv(b) && Dense(b) && KeepsDense(b, c)
    ensures Dense(Apply(b, c))
  {
    var after := Apply(b, c);
    forall id | id in after.rows && after.rows[id].ordNum.Some? ensures Follows(after, after.rows[id]) {
      var r := after.rows[id];
      AppliedRow(b, c, id);
      assert Follows(b, r) by {
        if WrittenAt(b, c) != Some(id) || (c.Replace? && SameNumber(r, b.rows[id])) { assert Follows(b, b.rows[id]); }
      }
      if r.ordNum.value > 1 { UseStays(b, c, r.tenant, r.issue.utc.date.year, r.ordNum.value - 1); }
    }
  }

  /** Rows with a number are not edited or deleted, and no submission takes the number of a row it finds only by its
      final id. */
  predicate KeepsNumbers(b: Book, op: Op) {
    match op
    case Update(tenant, id, req, flag) => id in b.rows ==> b.rows[id].ordNum.None?
    case Delete(tenant, id) => id in b.rows ==> b.rows[id].ordNum.None?
    case Submit(t, req, w, now) =>
      var k := Target(b, t, req, w);
      Existing(b, t, req).None? && k.Some? ==> b.rows[k.value].ordNum.None?
    case _ => true
  }

  /** A row written with its own ordinal, or without one before, with one that follows. */
  lemma RowKeepsDense(b: Book, c: Change, k: Option<nat>, tenant: nat, year: int, ord: nat)
    requires k.Some? ==> k.value in b.rows && b.rows[k.value].tenant == tenant
    requires if k.None? then c.Insert? else c.Replace? && c.id == k.value && c.row.issue == b.rows[k.value].issue
    requires c.row.tenant == tenant && c.row.issue.utc.date.year == year && c.row.ordNum == Some(ord)
    requires if k.Some? && b.rows[k.value].ordNum.Some? then b.rows[k.value].ordNum == Some(ord)
             else FreshOrd(b, tenant, year, ord)
    ensures KeepsDense(b, c)
  {
  }

  lemma ChosenKeeps(b: Book, t: Tenant, req: Request, w: World, k: Option<nat>)
    requires BookInv(b) && AllUtc(b) && UtcTime(req.issue) && k == Target(b, t, req, w)
    requires OwnOrSystemNumber(b, t, req)
    requires Existing(b, t, req).None? && k.Some? ==> b.rows[k.value].ordNum.None?
    ensures if k.Some? && b.rows[k.value].ordNum.Some? then b.rows[k.value].ordNum == Some(ChosenOrd(b, t, req))
            else FreshOrd(b, t.id, req.issue.utc.date.year, ChosenOrd(b, t, req))
  {
    NextOrdFollows(b, t.id, req.issue.utc.date.year);
    if k.Some? { assert RowInv(b.rows[k.value]); }
  }

  /** The number a submission writes is its row's own, or follows. */
  lemma WrittenKeepsDense(b: Book, t: Tenant, req: Request, w: World, now: DateTime)
    requires NumInv(b) && UtcTime(req.issue) && Writes(b, t, req, w, now)
    requires OwnOrSystemNumber(b, t, req) && TargetInMonth(b, t, req, w)
    requires var k := Target(b, t, req, w); Existing(b, t, req).None? && k.Some? ==> b.rows[k.value].ordNum.None?
    ensures KeepsDense(b, FiscalizeChange(b, t, req, w, now))
  {
    NumIsUtc(b);
    ChosenKeeps(b, t, req, w, Target(b, t, req, w));
    var c := WrittenChange(b, t, req, w, now);
    RowKeepsDense(b, c, Target(b, t, req, w), t.id, req.issue.utc.date.year, ChosenOrd(b, t, req));
  }

  lemma ChangeKeepsDense(b: Book, op: Op)
    requires NumInv(b) && OpOk(op) && SystemNumbered(b, op) && KeepsNumbers(b, op)
    ensures KeepsDense(b, ChangeOf(b, op))
  {
    match op {
      case Submit(t, req, w, now) => if Writes(b, t, req, w, now) { WrittenKeepsDense(b, t, req, w, now); }
      case SubmitSaved(t, id, w, now) => SavedKeepsDense(b, t, id, w, now);
      case _ =>
    }
  }

  lemma SavedKeepsDense(b: Book, t: Tenant, id: nat, w: World, now: DateTime)
    requires NumInv(b) && SystemNumbered(b, SubmitSaved(t, id, w, now))
    ensures KeepsDense(b, SavedChange(b, t, id, w, now))
  {
    if id in b.rows && b.rows[id].tenant == t.id {
      var req := SavedRequest(b.rows[id], now);
      assert PlainRow(b.rows[id]) && RowInv(b.rows[id]);
      FindIs(b, id);
      if Writes(b, t, req, w, now) { WrittenKeepsDense(b, t, req, w, now); }
    }
  }

  lemma FilledKeepsDense(b: Book, only: Option<nat>)
    requires Dense(b)
    ensures Dense(Filled(b, only))
  {
    var after := Filled(b, only);
    forall id | id in b.rows ensures SameNumber(after.rows[id], b.rows[id]) { FilledFrame(b, only, id); }
    forall id | id in after.rows && after.rows[id].ordNum.Some? ensures Follows(after, after.rows[id]) {
      var r := b.rows[id];
      assert Follows(b, r);
      if r.ordNum.value > 1 {
        var j :| j in b.rows && InYearOf(b.rows[j], r.tenant, r.issue.utc.date.year)
                 && b.rows[j].ordNum == Some(r.ordNum.value - 1);
        assert SameNumber(after.rows[j], b.rows[j]);
      }
    }
  }

  lemma SameRowsDense(b: Book, after: Book)
    requires Dense(b) && after.rows == b.rows
    ensures Dense(after)
  {
    forall id | id in after.rows && after.rows[id].ordNum.Some? ensures Follows(after, after.rows[id]) {
      assert Follows(b, b.rows[id]);
    }
  }

  lemma StepKeepsDense(b: Book, op: Op)
    requires NumInv(b) && Dense(b) && OpOk(op) && SystemNumbered(b, op) && KeepsNumbers(b, op)
    ensures Dense(Step(b, op))
  {
    if op.FillNumbers? {
      FilledKeepsDense(b, op.only);
    } else if !op.DepositCash? {
      ChangeKeepsDense(b, op);
      ApplyKeepsDense(b, ChangeOf(b, op));
      SameRowsDense(Apply(b, ChangeOf(b, op)), Linked(Apply(b, ChangeOf(b, op)), op));
    }
  }

  predicate KeepingRun(b: Book, ops: seq<Op>)
    decreases |ops|
  {
    ops == [] || (KeepsNumbers(b, ops[0]) && KeepingRun(Step(b, ops[0]), ops[1..]))
  }

  lemma {:induction false} DenseForever(b: Book, ops: seq<Op>)
    requires NumInv(b) && Dense(b) && NumberedRun(b, ops) && KeepingRun(b, ops)
    ensures NumInv(Run(b, ops)) && Dense(Run(b, ops))
    decreases |ops|
  {
    if ops != [] {
      StepKeepsDense(b, ops[0]);
      StepKeepsNumInv(b, ops[0]);
      DenseForever(Step(b, ops[0]), ops[1..]);
    }
  }

  /** The numbered rows of a tenant in a year. */
  function NumberedIn(b: Book, tenant: nat, year: int): set<nat> {
    set id | id in b.rows && InYearOf(b.rows[id], tenant, year) && b.rows[id].ordNum.Some?
  }

  lemma {:induction false} DownTo(b: Book, tenant: nat, year: int, n: nat, m: nat)
    requires Dense(b) && UsesOrd(b, tenant, year, n) && 1 <= m <= n
    ensures UsesOrd(b, tenant, year, m)
  {
    if m < n {
      var id :| id in b.rows && InYearOf(b.rows[id], tenant, year) && b.rows[id].ordNum == Some(n);
      assert Follows(b, b.rows[id]);
      DownTo(b, tenant, year, n - 1, m);
    }
  }

  predicate Among(rows: map<nat, Invoice>, ids: set<nat>, n: nat) {
    exists id :: id in ids && id in rows && rows[id].ordNum == Some(n)
  }

  /** The ordinals of a set of rows, each with one of its own, are as many as the rows. */
  lemma {:induction false} AsMany(rows: map<nat, Invoice>, ids: set<nat>, n: nat)
    requires forall id | id in ids :: id in rows && rows[id].ordNum.Some? && 1 <= rows[id].ordNum.value <= n
    requires forall i, j | i in ids && j in ids && rows[i].ordNum == rows[j].ordNum :: i == j
    requires forall m: nat | 1 <= m <= n :: Among(rows, ids, m)
    ensures |ids| == n
  {
    if n == 0 {
      assert forall id :: id !in ids;
    } else {
      assert Among(rows, ids, n);
      var last :| last in ids && rows[last].ordNum == Some(n);
      var rest := ids - {last};
      forall m: nat | 1 <= m <= n - 1 ensures Among(rows, rest, m) {
        assert Among(rows, ids, m);
        var id :| id in ids && rows[id].ordNum == Some(m);
        assert id in rest;
      }
      AsMany(rows, rest, n - 1);
    }
  }

  /** Without gaps or repetitions the ordinals of a year are exactly 1 to the number of its numbered rows. */
  lemma YearIsNumbered(b: Book, tenant: nat, year: int)
    requires NumInv(b) && Dense(b)
    ensures forall m: nat :: UsesOrd(b, tenant, year, m) <==> 1 <= m <= |NumberedIn(b, tenant, year)|
  {
    var n := Next(b, OrdInYear(tenant, year)) - 1;
    NumIsUtc(b);
    NextOrdFollows(b, tenant, year);
    forall m: nat | 1 <= m <= n ensures UsesOrd(b, tenant, year, m) { DownTo(b, tenant, year, n, m); }
    forall m: nat | UsesOrd(b, tenant, year, m) ensures 1 <= m <= n { PositiveOrd(b, tenant, year, m); }
    YearCounts(b, tenant, year, n);
  }

  lemma PositiveOrd(b: Book, tenant: nat, year: int, m: nat)
    requires Dense(b) && UsesOrd(b, tenant, year, m)
    ensures m >= 1
  {
    var id :| id in b.rows && InYearOf(b.rows[id], tenant, year) && b.rows[id].ordNum == Some(m);
    assert Follows(b, b.rows[id]);
  }

  lemma SameOrdSameRow(b: Book, i: nat, j: nat)
    requires NumInv(b) && i in b.rows && j in b.rows && ClashOrd(b.rows[i], b.rows[j])
    ensures i == j
  {
  }

  lemma YearCounts(b: Book, tenant: nat, year: int, n: nat)
    requires NumInv(b) && forall m: nat :: UsesOrd(b, tenant, year, m) <==> 1 <= m <= n
    ensures |NumberedIn(b, tenant, year)| == n
  {
    var ids := NumberedIn(b, tenant, year);
    forall id | id in ids ensures 1 <= b.rows[id].ordNum.value <= n {
      assert UsesOrd(b, tenant, year, b.rows[id].ordNum.value);
    }
    forall i, j | i in ids && j in ids && b.rows[i].ordNum == b.rows[j].ordNum ensures i == j {
      SameOrdSameRow(b, i, j);
    }
    forall m: nat | 1 <= m <= n ensures Among(b.rows, ids, m) {
      assert UsesOrd(b, tenant, year, m);
      var id :| id in b.rows && InYearOf(b.rows[id], tenant, year) && b.rows[id].ordNum == Some(m);
      assert id in ids;
    }
    AsMany(b.rows, ids, n);
  }

  /** From the empty table: after any run with system-chosen numbers, in which no row with a number is edited, deleted
      or overwritten, every tenant's invoices of a year are numbered 1 to n. */
  lemma YearsNumberedForever(ops: seq<Op>, tenant: nat, year: int)
    requires NumberedRun(EMPTY, ops) && KeepingRun(EMPTY, ops)
    ensures var b := Run(EMPTY, ops);
      forall m: nat :: UsesOrd(b, tenant, year, m) <==> 1 <= m <= |NumberedIn(b, tenant, year)|
  {
    DenseForever(EMPTY, ops);
    YearIsNumbered(Run(EMPTY, ops), tenant, year);
  }

  // ---------- exactly when a number lost leaves a gap ----------

  /** The change takes row id's ordinal away. */
  predicate Loses(b: Book, c: Change, id: nat) {
    && id in b.rows && b.rows[id].ordNum.Some?
    && (c == Remove(id) || (c.Replace? && c.id == id && c.row.ordNum.None?))
  }

  lemma OtherUse(b: Book, c: Change, id: nat, tenant: nat, year: int, n: nat)
    requires NumInv(b) && Loses(b, c, id) && UsesOrd(b, tenant, year, n)
    requires !(InYearOf(b.rows[id], tenant, year) && b.rows[id].ordNum == Some(n))
    ensures UsesOrd(Apply(b, c), tenant, year, n)
  {
    var j :| j in b.rows && InYearOf(b.rows[j], tenant, year) && b.rows[j].ordNum == Some(n);
    assert j != id && j in Apply(b, c).rows && Apply(b, c).rows[j] == b.rows[j];
  }

  /** Editing or deleting a row with a number leaves no gap exactly when its ordinal was the last of its year. */
  lemma LosingExactly(b: Book, c: Change, id: nat)
    requires NumInv(b) && Dense(b) && Loses(b, c, id)
    ensures var r := b.rows[id];
      Dense(Apply(b, c)) <==> !UsesOrd(b, r.tenant, r.issue.utc.date.year, r.ordNum.value + 1)
  {
    var r, after := b.rows[id], Apply(b, c);
    var year := r.issue.utc.date.year;
    if UsesOrd(b, r.tenant, year, r.ordNum.value + 1) {
      GapLeft(b, c, id);
    } else {
      forall j | j in after.rows && after.rows[j].ordNum.Some? ensures Follows(after, after.rows[j]) {
        var s := b.rows[j];
        assert after.rows[j] == s && Follows(b, s);
        if s.ordNum.value > 1 {
          assert UsesOrd(b, s.tenant, s.issue.utc.date.year, s.ordNum.value);
          OtherUse(b, c, id, s.tenant, s.issue.utc.date.year, s.ordNum.value - 1);
        }
      }
    }
  }

  lemma GapLeft(b: Book, c: Change, id: nat)
    requires NumInv(b) && Dense(b) && Loses(b, c, id)
    requires UsesOrd(b, b.rows[id].tenant, b.rows[id].issue.utc.date.year, b.rows[id].ordNum.value + 1)
    ensures !Dense(Apply(b, c))
  {
    var r, after := b.rows[id], Apply(b, c);
    var year := r.issue.utc.date.year;
    var j :| j in b.rows && InYearOf(b.rows[j], r.tenant, year) && b.rows[j].ordNum == Some(r.ordNum.value + 1);
    assert j in after.rows && after.rows[j] == b.rows[j];
    assert Follows(b, r);
    NobodyElse(b, c, id);
    assert !Follows(after, after.rows[j]);
  }

  /** Nobody else has the number lost. */
  lemma NobodyElse(b: Book, c: Change, id: nat)
    requires NumInv(b) && Loses(b, c, id)
    ensures var r := b.rows[id]; !UsesOrd(Apply(b, c), r.tenant, r.issue.utc.date.year, r.ordNum.value)
  {
    var r, after := b.rows[id], Apply(b, c);
    forall k | k in after.rows && after.rows[k].ordNum == r.ordNum
      ensures !InYearOf(after.rows[k], r.tenant, r.issue.utc.date.year)
    {
      assert k != id && after.rows[k] == b.rows[k] && !ClashOrd(b.rows[k], r);
    }
  }
}
