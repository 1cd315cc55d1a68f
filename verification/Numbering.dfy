/** Uniqueness of invoice numbers: the EFI ordinal within a year, the local number within a month. */
module Numbering {
  import opened Wrappers
  import opened Text
  import opened Calendar
  import opened Requests
  import opened Partner
  import opened Invoices
  import opened Integrity
  import opened Backfill
  import opened Runs

  predicate SameYear(r: Invoice, s: Invoice) { r.issue.utc.date.year == s.issue.utc.date.year }

  predicate SameMonth(a: DateTime, b: DateTime) {
    a.utc.date.year == b.utc.date.year && a.utc.date.month == b.utc.date.month
  }

  predicate ClashOrd(r: Invoice, s: Invoice) {
    r.tenant == s.tenant && r.ordNum.Some? && r.ordNum == s.ordNum && SameYear(r, s)
  }

  predicate ClashLocal(r: Invoice, s: Invoice) {
    r.tenant == s.tenant && !r.isTemplate && !s.isTemplate
    && r.localNum.Some? && r.localNum == s.localNum && SameMonth(r.issue, s.issue)
  }

  /** No two rows of a tenant share an ordinal in a year or, templates aside, a local number in a month. */
  predicate UniqueNumbers(b: Book) {
    forall i, j | i in b.rows && j in b.rows && i != j ::
      !ClashOrd(b.rows[i], b.rows[j]) && !ClashLocal(b.rows[i], b.rows[j])
  }

  predicate UtcTime(t: DateTime) { IsUtc(t) && Valid(t.utc.date) }

  /** Issue times in UTC, and a payload that carries no number but the row's own. */
  predicate PlainRow(r: Invoice) {
    UtcTime(r.issue) && (Positive(r.payload.ordNum) ==> r.ordNum == r.payload.ordNum)
  }

  predicate NumInv(b: Book) {
    BookInv(b) && UniqueNumbers(b) && forall id | id in b.rows :: PlainRow(b.rows[id])
  }

  predicate AllUtc(b: Book) { forall id | id in b.rows :: UtcTime(b.rows[id].issue) }

  /** Unique numbers and issue times in UTC, whatever numbers the payloads carry. */
  predicate UtcInv(b: Book) { BookInv(b) && UniqueNumbers(b) && AllUtc(b) }

  lemma NumIsUtc(b: Book)
    requires NumInv(b)
    ensures UtcInv(b)
  {
    forall id | id in b.rows ensures UtcTime(b.rows[id].issue) { assert PlainRow(b.rows[id]); }
  }

  // ---------- a change that keeps numbers apart ----------

  predicate ClearOf(b: Book, r: Invoice, id: nat) {
    PlainRow(r) && forall j | j in b.rows && j != id :: !ClashOrd(r, b.rows[j]) && !ClashLocal(r, b.rows[j])
  }

  predicate KeepsApart(b: Book, c: Change) {
    match c
    case Insert(row) => ClearOf(b, row, b.nextId)
    case Replace(id, row) => ClearOf(b, row, id)
    case _ => true
  }

  lemma ApplyKeepsApart(b: Book, c: Change)
    requires NumInv(b) && WellFormedChange(b, c) && KeepsApart(b, c)
    ensures NumInv(Apply(b, c))
  {
    ApplyKeepsInvariant(b, c);
    ApplyKeepsUnique(b, c);
  }

  lemma ClashSymmetric(r: Invoice, s: Invoice)
    ensures ClashOrd(r, s) == ClashOrd(s, r) && ClashLocal(r, s) == ClashLocal(s, r)
  {
  }

  lemma ApplyKeepsUnique(b: Book, c: Change)
    requires UniqueNumbers(b) && KeepsApart(b, c)
    requires forall id | id in b.rows :: PlainRow(b.rows[id])
    ensures UniqueNumbers(Apply(b, c)) && forall id | id in Apply(b, c).rows :: PlainRow(Apply(b, c).rows[id])
  {
    var after := Apply(b, c);
    forall i, j | i in after.rows && j in after.rows && i != j
      ensures !ClashOrd(after.rows[i], after.rows[j]) && !ClashLocal(after.rows[i], after.rows[j])
    {
      ClashSymmetric(after.rows[i], after.rows[j]);
    }
  }

  /** A number above the maximum of its window clashes with no row. */
  lemma NextOrdIsClear(b: Book, r: Invoice)
    requires UtcInv(b) && UtcTime(r.issue)
    requires r.ordNum == Some(Next(b, OrdInYear(r.tenant, r.issue.utc.date.year)))
    ensures forall j | j in b.rows :: !ClashOrd(r, b.rows[j])
  {
    var q := OrdInYear(r.tenant, r.issue.utc.date.year);
    MaxIsMax(b.rows, q, b.nextId);
    forall j | j in b.rows ensures !ClashOrd(r, b.rows[j]) {
      YearWindow(b.rows[j].issue, r.issue.utc.date.year);
      assert Counted(q, b.rows[j]) < r.ordNum.value;
    }
  }

  lemma NextLocalIsClear(b: Book, r: Invoice)
    requires UtcInv(b) && UtcTime(r.issue)
    requires r.localNum == Some(Next(b, LocalInMonth(r.tenant, r.issue.utc.date.year, r.issue.utc.date.month, false)))
    ensures forall j | j in b.rows :: !ClashLocal(r, b.rows[j])
  {
    var q := LocalInMonth(r.tenant, r.issue.utc.date.year, r.issue.utc.date.month, false);
    MaxIsMax(b.rows, q, b.nextId);
    forall j | j in b.rows ensures !ClashLocal(r, b.rows[j]) {
      MonthWindow(b.rows[j].issue, r.issue.utc.date.year, r.issue.utc.date.month);
      assert Counted(q, b.rows[j]) < r.localNum.value;
    }
  }

  // ---------- submissions ----------

  /** The number is left to the system, or is the row's own. */
  predicate OwnOrSystemNumber(b: Book, t: Tenant, req: Request) {
    Positive(req.ordNum) ==>
      Existing(b, t, req).Some? && b.rows[Existing(b, t, req).value].ordNum == req.ordNum
  }

  /** A row written over was issued in the month of the request. */
  predicate TargetInMonth(b: Book, t: Tenant, req: Request, w: World) {
    var k := Target(b, t, req, w);
    k.Some? ==> SameMonth(b.rows[k.value].issue, req.issue)
  }

  function Written(b: Book, t: Tenant, req: Request, w: World, now: DateTime): Invoice
    requires FiscalizeChange(b, t, req, w, now).Insert? || FiscalizeChange(b, t, req, w, now).Replace?
  {
    FiscalizeChange(b, t, req, w, now).row
  }

  predicate Writes(b: Book, t: Tenant, req: Request, w: World, now: DateTime) {
    FiscalizeChange(b, t, req, w, now).Insert? || FiscalizeChange(b, t, req, w, now).Replace?
  }

  /** What a submission writes into the numbered fields. */
  lemma WrittenFields(b: Book, t: Tenant, req: Request, w: World, now: DateTime)
    requires BookInv(b) && Writes(b, t, req, w, now)
    ensures var r, k := Written(b, t, req, w, now), Target(b, t, req, w);
      && r.tenant == t.id && r.payload == req && r.ordNum == Some(ChosenOrd(b, t, req))
      && (k.None? ==> r.issue == req.issue && !r.isTemplate && r.localNum == Some(ChosenLocal(b, t, req)))
      && (k.Some? ==>
            var before := b.rows[k.value];
            && r.issue == before.issue && r.isTemplate == before.isTemplate
            && r.localNum == if Positive(before.localNum) then before.localNum else Some(ChosenLocal(b, t, req)))
  {
    AdapterContract(t, w, req, ChosenOrd(b, t, req), ReuseIic(b, t, req), ReuseSig(b, t, req));
  }

  lemma WrittenOrdClear(b: Book, t: Tenant, req: Request, w: World, now: DateTime)
    requires NumInv(b) && UtcTime(req.issue) && Writes(b, t, req, w, now)
    requires OwnOrSystemNumber(b, t, req) && TargetInMonth(b, t, req, w)
    ensures var r, k := Written(b, t, req, w, now), Target(b, t, req, w);
      forall j | j in b.rows && Some(j) != k :: !ClashOrd(r, b.rows[j])
  {
    var r, k := Written(b, t, req, w, now), Target(b, t, req, w);
    NumIsUtc(b);
    WrittenFields(b, t, req, w, now);
    if k.Some? && Positive(b.rows[k.value].ordNum) && b.rows[k.value].ordNum == r.ordNum {
      forall j | j in b.rows && j != k.value ensures !ClashOrd(r, b.rows[j]) {
        assert !ClashOrd(b.rows[k.value], b.rows[j]);
      }
    } else {
      assert PlainRow(r.(payload := r.payload.(ordNum := None)));
      NextOrdIsClear(b, r);
    }
  }

  lemma WrittenLocalClear(b: Book, t: Tenant, req: Request, w: World, now: DateTime)
    requires NumInv(b) && UtcTime(req.issue) && Writes(b, t, req, w, now)
    requires TargetInMonth(b, t, req, w)
    ensures var r, k := Written(b, t, req, w, now), Target(b, t, req, w);
      forall j | j in b.rows && Some(j) != k :: !ClashLocal(r, b.rows[j])
  {
    var r, k := Written(b, t, req, w, now), Target(b, t, req, w);
    NumIsUtc(b);
    WrittenFields(b, t, req, w, now);
    if k.Some? && Positive(b.rows[k.value].localNum) {
      forall j | j in b.rows && j != k.value ensures !ClashLocal(r, b.rows[j]) {
        assert !ClashLocal(b.rows[k.value], b.rows[j]);
      }
    } else {
      NextLocalIsClear(b, r);
    }
  }

  lemma SubmitKeepsApart(b: Book, t: Tenant, req: Request, w: World, now: DateTime)
    requires NumInv(b) && UtcTime(req.issue)
    requires OwnOrSystemNumber(b, t, req) && TargetInMonth(b, t, req, w)
    ensures KeepsApart(b, FiscalizeChange(b, t, req, w, now))
  {
    if Writes(b, t, req, w, now) {
      WrittenFields(b, t, req, w, now);
      WrittenOrdClear(b, t, req, w, now);
      WrittenLocalClear(b, t, req, w, now);
    }
  }

  // ---------- every operation ----------

  /** System-chosen numbers, UTC times, copies of rows whose payload carries no number, and writing
      over a row only in the month it was issued. */
  predicate SystemNumbered(b: Book, op: Op) {
    match op
    case Save(tenant, req, isTemplate, token) => UtcTime(req.issue) && !Positive(req.ordNum)
    case Update(tenant, id, req, flag) => UtcTime(req.issue) && !Positive(req.ordNum)
    case Copy(tenant, id, now, token) => UtcTime(now) && (id in b.rows ==> !Positive(b.rows[id].payload.ordNum))
    case Submit(t, req, w, now) => UtcTime(req.issue) && !Positive(req.ordNum) && TargetInMonth(b, t, req, w)
    case SubmitSaved(t, id, w, now) =>
      UtcTime(now) && (id in b.rows ==> Waiting(b.rows[id]) || SameMonth(b.rows[id].issue, now))
    case _ => true
  }

  lemma SavedKeepsApart(b: Book, t: Tenant, id: nat, w: World, now: DateTime)
    requires NumInv(b) && SystemNumbered(b, SubmitSaved(t, id, w, now))
    ensures KeepsApart(b, SavedChange(b, t, id, w, now))
  {
    if id in b.rows && b.rows[id].tenant == t.id {
      var req := SavedRequest(b.rows[id], now);
      assert PlainRow(b.rows[id]) && RowInv(b.rows[id]);
      FindIs(b, id);
      assert Existing(b, t, req) == Some(id);
      SubmitKeepsApart(b, t, req, w, now);
    }
  }

  lemma ChangeKeepsApart(b: Book, op: Op)
    requires NumInv(b) && SystemNumbered(b, op)
    ensures KeepsApart(b, ChangeOf(b, op))
  {
    match op {
      case Submit(t, req, w, now) => SubmitKeepsApart(b, t, req, w, now);
      case SubmitSaved(t, id, w, now) => SavedKeepsApart(b, t, id, w, now);
      case _ =>
    }
  }

  // ---------- backfilled numbers ----------

  lemma FilledIsFresh(b: Book, only: Option<nat>)
    requires UtcInv(b)
    ensures AllUnnumbered(b.rows, Order(b, only), 0, b.nextId)
    ensures Filled(b, only).rows == Fresh(b.rows, Order(b, only), 0, b.nextId)
  {
    var ids := Order(b, only);
    OrderCorrect(b, only);
    forall i | 0 <= i < |ids| ensures Unnumbered(b.rows, ids[i], b.nextId) {
      assert ids[i] in ids && UtcTime(b.rows[ids[i]].issue);
    }
    CachedIsFresh(b.rows, ids, 0, map[], b.nextId);
  }

  /** A filled-in number is above everything its month had before. */
  lemma FilledAbove(b: Book, only: Option<nat>, id: nat)
    requires UtcInv(b) && id in b.rows && Filled(b, only).rows[id] != b.rows[id]
    ensures var after, ids := Filled(b, only).rows[id], Order(b, only);
      && id in ids && after.localNum.Some?
      && after.localNum.value > Max(b.rows, KeyOf(b.rows[id]), b.nextId)
  {
    var ids := Order(b, only);
    FilledFrame(b, only, id);
    OrderCorrect(b, only);
    FilledIsFresh(b, only);
    var i :| 0 <= i < |ids| && ids[i] == id;
    FreshBlock(b.rows, ids, 0, b.nextId, i);
  }

  lemma NumberWithinMax(b: Book, id: nat)
    requires UtcInv(b) && id in b.rows && b.rows[id].localNum.Some?
    ensures b.rows[id].localNum.value <= Max(b.rows, KeyOf(b.rows[id]), b.nextId)
  {
    var k := KeyOf(b.rows[id]);
    assert UtcTime(b.rows[id].issue);
    MaxIsMax(b.rows, QueryOf(k), b.nextId);
    MonthWindow(b.rows[id].issue, k.1, k.2);
    assert Counted(QueryOf(k), b.rows[id]) == b.rows[id].localNum.value;
  }

  lemma FilledKeepsApart(b: Book, only: Option<nat>, x: nat, y: nat)
    requires UtcInv(b) && x in b.rows && y in b.rows && x != y
    ensures var after := Filled(b, only).rows;
      !ClashOrd(after[x], after[y]) && !ClashLocal(after[x], after[y])
  {
    var after, ids := Filled(b, only).rows, Order(b, only);
    FilledFrame(b, only, x);
    FilledFrame(b, only, y);
    assert !ClashOrd(b.rows[x], b.rows[y]) && !ClashLocal(b.rows[x], b.rows[y]);
    assert UtcTime(b.rows[x].issue) && UtcTime(b.rows[y].issue);
    if ClashLocal(after[x], after[y]) {
      assert KeyOf(b.rows[x]) == KeyOf(b.rows[y]);
      if after[x] != b.rows[x] && after[y] != b.rows[y] {
        FilledAbove(b, only, x);
        FilledAbove(b, only, y);
        FilledIsFresh(b, only);
        var i :| 0 <= i < |ids| && ids[i] == x;
        var j :| 0 <= j < |ids| && ids[j] == y;
        if i < j { BlockIncreases(b.rows, ids, b.nextId, i, j); } else { BlockIncreases(b.rows, ids, b.nextId, j, i); }
      } else if after[x] != b.rows[x] {
        FilledAbove(b, only, x);
        NumberWithinMax(b, y);
      } else if after[y] != b.rows[y] {
        FilledAbove(b, only, y);
        NumberWithinMax(b, x);
      }
    }
  }

  lemma FilledKeepsNumInv(b: Book, only: Option<nat>)
    requires NumInv(b)
    ensures NumInv(Filled(b, only))
  {
    var after := Filled(b, only);
    NumIsUtc(b);
    FilledKeepsInvariant(b, only);
    forall id | id in after.rows ensures PlainRow(after.rows[id]) {
      FilledFrame(b, only, id);
      assert PlainRow(b.rows[id]);
    }
    forall i, j | i in after.rows && j in after.rows && i != j
      ensures !ClashOrd(after.rows[i], after.rows[j]) && !ClashLocal(after.rows[i], after.rows[j])
    {
      FilledKeepsApart(b, only, i, j);
    }
  }

  // ---------- over runs ----------

  predicate NumberedRun(b: Book, ops: seq<Op>)
    decreases |ops|
  {
    ops == [] || (OpOk(ops[0]) && SystemNumbered(b, ops[0]) && NumberedRun(Step(b, ops[0]), ops[1..]))
  }

  lemma StepKeepsNumInv(b: Book, op: Op)
    requires NumInv(b) && OpOk(op) && SystemNumbered(b, op)
    ensures NumInv(Step(b, op))
  {
    if op.FillNumbers? {
      FilledKeepsNumInv(b, op.only);
    } else if !op.DepositCash? {
      ChangeWellFormed(b, op);
      ChangeKeepsApart(b, op);
      ApplyKeepsApart(b, ChangeOf(b, op));
    }
  }

  /** In every such run, from an empty table or any table with unique numbers, numbers stay unique. */
  lemma {:induction false} NumbersUniqueForever(b: Book, ops: seq<Op>)
    requires NumInv(b) && NumberedRun(b, ops)
    ensures NumInv(Run(b, ops))
    decreases |ops|
  {
    if ops != [] {
      StepKeepsNumInv(b, ops[0]);
      NumbersUniqueForever(Step(b, ops[0]), ops[1..]);
    }
  }

  // ---------- exactly when numbers stay unique ----------

  /** Nobody else of the tenant has this ordinal in the year of the issue time. */
  predicate FreeOrd(b: Book, tenant: nat, issue: DateTime, self: Option<nat>, ord: nat) {
    forall j | j in b.rows && Some(j) != self ::
      !(b.rows[j].tenant == tenant && b.rows[j].ordNum == Some(ord)
        && b.rows[j].issue.utc.date.year == issue.utc.date.year)
  }

  /** No other invoice of the tenant, templates aside, has this local number in the month of the issue time. */
  predicate FreeLocal(b: Book, tenant: nat, issue: DateTime, self: Option<nat>, local: nat) {
    forall j | j in b.rows && Some(j) != self ::
      !(b.rows[j].tenant == tenant && !b.rows[j].isTemplate && b.rows[j].localNum == Some(local)
        && SameMonth(b.rows[j].issue, issue))
  }

  /** A row clashes with none of the others. */
  predicate Clear(b: Book, r: Invoice, self: Option<nat>) {
    forall j | j in b.rows && Some(j) != self :: !ClashOrd(r, b.rows[j]) && !ClashLocal(r, b.rows[j])
  }

  lemma ClearIsFree(b: Book, r: Invoice, self: Option<nat>)
    requires r.ordNum.Some? && r.localNum.Some?
    ensures Clear(b, r, self)
       <==> FreeOrd(b, r.tenant, r.issue, self, r.ordNum.value)
            && (r.isTemplate || FreeLocal(b, r.tenant, r.issue, self, r.localNum.value))
  {
    if Clear(b, r, self) {
      forall j | j in b.rows && Some(j) != self
        ensures !(b.rows[j].tenant == r.tenant && b.rows[j].ordNum == r.ordNum && SameYear(b.rows[j], r))
      {
        assert !ClashOrd(r, b.rows[j]);
      }
      forall j | j in b.rows && Some(j) != self && !r.isTemplate
        ensures !(b.rows[j].tenant == r.tenant && !b.rows[j].isTemplate && b.rows[j].localNum == r.localNum
                  && SameMonth(b.rows[j].issue, r.issue))
      {
        assert !ClashLocal(r, b.rows[j]);
      }
    }
  }

  predicate ChangeClear(b: Book, c: Change) {
    match c
    case Insert(row) => Clear(b, row, None)
    case Replace(id, row) => Clear(b, row, Some(id))
    case _ => true
  }

  /** The row that a change writes. */
  function WrittenAt(b: Book, c: Change): Option<nat> {
    match c
    case Insert(row) => Some(b.nextId)
    case Replace(id, row) => Some(id)
    case _ => None
  }

  lemma AppliedRow(b: Book, c: Change, i: nat)
    requires i in Apply(b, c).rows
    ensures if WrittenAt(b, c) == Some(i) then Apply(b, c).rows[i] == c.row
            else i in b.rows && Apply(b, c).rows[i] == b.rows[i]
  {
  }

  lemma ClearPair(b: Book, c: Change, i: nat, j: nat)
    requires BookInv(b) && UniqueNumbers(b) && ChangeClear(b, c)
    requires i in Apply(b, c).rows && j in Apply(b, c).rows && i != j
    ensures var after := Apply(b, c).rows; !ClashOrd(after[i], after[j]) && !ClashLocal(after[i], after[j])
  {
    AppliedRow(b, c, i);
    AppliedRow(b, c, j);
    ClashSymmetric(Apply(b, c).rows[i], Apply(b, c).rows[j]);
  }

  lemma ClashStays(b: Book, c: Change)
    requires BookInv(b) && !ChangeClear(b, c)
    ensures !UniqueNumbers(Apply(b, c))
  {
    var k := WrittenAt(b, c).value;
    var j :| j in b.rows && j != k && (ClashOrd(c.row, b.rows[j]) || ClashLocal(c.row, b.rows[j]));
    assert Apply(b, c).rows[k] == c.row && Apply(b, c).rows[j] == b.rows[j];
  }

  lemma ChangeUniqueExactly(b: Book, c: Change)
    requires BookInv(b) && UniqueNumbers(b)
    ensures UniqueNumbers(Apply(b, c)) <==> ChangeClear(b, c)
  {
    var after := Apply(b, c);
    if ChangeClear(b, c) {
      forall i, j | i in after.rows && j in after.rows && i != j
        ensures !ClashOrd(after.rows[i], after.rows[j]) && !ClashLocal(after.rows[i], after.rows[j])
      {
        ClearPair(b, c, i, j);
      }
    } else {
      ClashStays(b, c);
    }
  }

  /** The issue time and the local number a submission leaves on its row. */
  function KeptIssue(b: Book, req: Request, k: Option<nat>): DateTime
    requires k.Some? ==> k.value in b.rows
  {
    if k.Some? then b.rows[k.value].issue else req.issue
  }

  function KeptLocal(b: Book, t: Tenant, req: Request, k: Option<nat>): nat
    requires k.Some? ==> k.value in b.rows
  {
    if k.Some? && Positive(b.rows[k.value].localNum) then b.rows[k.value].localNum.value else ChosenLocal(b, t, req)
  }

  /** The numbers a submission is about to use are free around the issue time its row keeps. */
  predicate SubmitFree(b: Book, t: Tenant, req: Request, w: World) {
    var k := Target(b, t, req, w);
    FreeOrd(b, t.id, KeptIssue(b, req, k), k, ChosenOrd(b, t, req))
    && ((k.Some? && b.rows[k.value].isTemplate) || FreeLocal(b, t.id, KeptIssue(b, req, k), k, KeptLocal(b, t, req, k)))
  }

  /** A submission that writes keeps all numbers unique exactly when its numbers are free. */
  lemma SubmitUniqueExactly(b: Book, t: Tenant, req: Request, w: World, now: DateTime)
    requires BookInv(b) && UniqueNumbers(b) && Writes(b, t, req, w, now)
    ensures UniqueNumbers(Apply(b, FiscalizeChange(b, t, req, w, now))) <==> SubmitFree(b, t, req, w)
  {
    var c := WrittenChange(b, t, req, w, now);
    ChangeUniqueExactly(b, c);
    ClearIsFree(b, c.row, Target(b, t, req, w));
  }

  lemma WrittenChange(b: Book, t: Tenant, req: Request, w: World, now: DateTime) returns (c: Change)
    requires BookInv(b) && Writes(b, t, req, w, now)
    ensures c == FiscalizeChange(b, t, req, w, now) && (c.Insert? || c.Replace?)
    ensures var k := Target(b, t, req, w);
      && (c.Insert? <==> k.None?) && (c.Replace? ==> k == Some(c.id))
      && c.row.tenant == t.id && c.row.issue == KeptIssue(b, req, k)
      && c.row.ordNum == Some(ChosenOrd(b, t, req)) && c.row.localNum == Some(KeptLocal(b, t, req, k))
      && c.row.isTemplate == (k.Some? && b.rows[k.value].isTemplate)
  {
    c := FiscalizeChange(b, t, req, w, now);
    WrittenFields(b, t, req, w, now);
  }

  /** Everything in UTC; numbers may come from anywhere. */
  predicate OpUtc(op: Op) {
    match op
    case Save(tenant, req, isTemplate, token) => UtcTime(req.issue)
    case Update(tenant, id, req, flag) => UtcTime(req.issue)
    case Copy(tenant, id, now, token) => UtcTime(now)
    case Submit(t, req, w, now) => UtcTime(req.issue)
    case SubmitSaved(t, id, w, now) => UtcTime(now)
    case _ => true
  }

  /** The request that an operation sends to the partner, if it sends one. */
  predicate OpFree(b: Book, op: Op) {
    match op
    case Submit(t, req, w, now) => Writes(b, t, req, w, now) ==> SubmitFree(b, t, req, w)
    case SubmitSaved(t, id, w, now) =>
      id in b.rows && b.rows[id].tenant == t.id && !b.rows[id].status.Fiscalized?
      && Writes(b, t, SavedRequest(b.rows[id], now), w, now)
      ==> SubmitFree(b, t, SavedRequest(b.rows[id], now), w)
    case _ => true
  }

  lemma UnsentChangeClear(b: Book, op: Op)
    requires UniqueNumbers(b) && !op.Submit? && !op.SubmitSaved?
    ensures ChangeClear(b, ChangeOf(b, op))
  {
    if op.SaveSchedule? && ChangeOf(b, op).Replace? {
      MarkedClear(b, op.template);
    }
  }

  /** To mark a row as a template takes no number and may free one. */
  lemma MarkedClear(b: Book, id: nat)
    requires UniqueNumbers(b) && id in b.rows
    ensures Clear(b, b.rows[id].(isTemplate := true), Some(id))
  {
    forall j | j in b.rows && j != id
      ensures !ClashOrd(b.rows[id].(isTemplate := true), b.rows[j])
      ensures !ClashLocal(b.rows[id].(isTemplate := true), b.rows[j])
    {
      assert !ClashOrd(b.rows[id], b.rows[j]);
    }
  }

  lemma SentUniqueExactly(b: Book, op: Op)
    requires BookInv(b) && UniqueNumbers(b) && (op.Submit? || op.SubmitSaved?)
    ensures UniqueNumbers(Step(b, op)) <==> OpFree(b, op)
  {
    match op {
      case Submit(t, req, w, now) =>
        if Writes(b, t, req, w, now) { SubmitUniqueExactly(b, t, req, w, now); }
      case SubmitSaved(t, id, w, now) =>
        if id in b.rows && b.rows[id].tenant == t.id && !b.rows[id].status.Fiscalized? {
          var req := SavedRequest(b.rows[id], now);
          if Writes(b, t, req, w, now) { SubmitUniqueExactly(b, t, req, w, now); }
        }
    }
  }

  lemma FilledStaysUnique(b: Book, only: Option<nat>)
    requires UtcInv(b)
    ensures UniqueNumbers(Filled(b, only))
  {
    var after := Filled(b, only);
    forall i, j | i in after.rows && j in after.rows && i != j
      ensures !ClashOrd(after.rows[i], after.rows[j]) && !ClashLocal(after.rows[i], after.rows[j])
    {
      FilledKeepsApart(b, only, i, j);
    }
  }

  /** Only submissions can break uniqueness, and each does exactly when its numbers are not free.  (Filling in
      local numbers counts by UTC months, so the table's issue times are to be in UTC then.) */
  lemma StepUniqueExactly(b: Book, op: Op)
    requires BookInv(b) && UniqueNumbers(b) && (op.FillNumbers? ==> AllUtc(b))
    ensures UniqueNumbers(Step(b, op)) <==> OpFree(b, op)
  {
    if op.FillNumbers? {
      FilledStaysUnique(b, op.only);
    } else if op.Submit? || op.SubmitSaved? {
      SentUniqueExactly(b, op);
    } else if !op.DepositCash? {
      UnsentChangeClear(b, op);
      ChangeUniqueExactly(b, ChangeOf(b, op));
    }
  }

  predicate UtcChange(c: Change) { c.Insert? || c.Replace? ==> UtcTime(c.row.issue) }

  lemma ChangeUtc(b: Book, op: Op)
    requires BookInv(b) && OpUtc(op) && AllUtc(b)
    ensures UtcChange(ChangeOf(b, op))
  {
    match op {
      case Submit(t, req, w, now) =>
        if Writes(b, t, req, w, now) { var c := WrittenChange(b, t, req, w, now); }
      case SubmitSaved(t, id, w, now) =>
        if id in b.rows {
          var req := SavedRequest(b.rows[id], now);
          if Writes(b, t, req, w, now) { var c := WrittenChange(b, t, req, w, now); }
        }
      case _ =>
    }
  }

  lemma ApplyUtc(b: Book, c: Change)
    requires AllUtc(b) && UtcChange(c)
    ensures AllUtc(Apply(b, c))
  {
  }

  lemma FilledUtc(b: Book, only: Option<nat>)
    requires AllUtc(b)
    ensures AllUtc(Filled(b, only))
  {
    forall id | id in b.rows ensures UtcTime(Filled(b, only).rows[id].issue) { FilledFrame(b, only, id); }
  }

  lemma StepKeepsUtc(b: Book, op: Op)
    requires BookInv(b) && AllUtc(b) && OpUtc(op)
    ensures AllUtc(Step(b, op))
  {
    if op.FillNumbers? {
      FilledUtc(b, op.only);
    } else if !op.DepositCash? {
      ChangeUtc(b, op);
      ApplyUtc(b, ChangeOf(b, op));
    }
  }

  predicate UniqueThroughout(b: Book, ops: seq<Op>)
    decreases |ops|
  {
    UniqueNumbers(b) && (ops == [] || UniqueThroughout(Step(b, ops[0]), ops[1..]))
  }

  predicate FreeThroughout(b: Book, ops: seq<Op>)
    decreases |ops|
  {
    ops == [] || (OpFree(b, ops[0]) && FreeThroughout(Step(b, ops[0]), ops[1..]))
  }

  /** Missing local numbers are filled in only while all issue times are in UTC. */
  predicate FillsInUtc(b: Book, ops: seq<Op>)
    decreases |ops|
  {
    ops == [] || ((ops[0].FillNumbers? ==> AllUtc(b)) && FillsInUtc(Step(b, ops[0]), ops[1..]))
  }

  /** Over any run, in any zones, with any numbers from callers, payloads and copies: numbers are unique all the
      way exactly when every submission meets free numbers. */
  lemma {:induction false} UniqueThroughoutExactly(b: Book, ops: seq<Op>)
    requires BookInv(b) && UniqueNumbers(b) && OpsOk(ops) && FillsInUtc(b, ops)
    ensures UniqueThroughout(b, ops) <==> FreeThroughout(b, ops)
    decreases |ops|
  {
    if ops != [] {
      assert ops[0] in ops;
      StepUniqueExactly(b, ops[0]);
      if OpFree(b, ops[0]) {
        StepKeepsInvariant(b, ops[0]);
        UniqueThroughoutExactly(Step(b, ops[0]), ops[1..]);
      } else if |ops| > 0 {
        assert !UniqueThroughout(Step(b, ops[0]), ops[1..]);
      }
    }
  }

  ghost predicate UtcOps(ops: seq<Op>) { forall op | op in ops :: OpOk(op) && OpUtc(op) }

  /** A run in UTC may fill in numbers at any point. */
  lemma {:induction false} UtcRunFills(b: Book, ops: seq<Op>)
    requires BookInv(b) && AllUtc(b) && UtcOps(ops)
    ensures FillsInUtc(b, ops)
    decreases |ops|
  {
    if ops != [] {
      assert ops[0] in ops;
      StepKeepsUtc(b, ops[0]);
      StepKeepsInvariant(b, ops[0]);
      UtcRunFills(Step(b, ops[0]), ops[1..]);
    }
  }

  /** The conditions of NumbersUniqueForever make every number free. */
  lemma SystemNumberedIsFree(b: Book, op: Op)
    requires NumInv(b) && OpOk(op) && SystemNumbered(b, op)
    ensures OpFree(b, op)
  {
    NumIsUtc(b);
    StepKeepsNumInv(b, op);
    StepUniqueExactly(b, op);
  }

  /** So a run of system-chosen numbers is one of the runs in which numbers are unique all the way. */
  lemma {:induction false} NumberedRunIsFree(b: Book, ops: seq<Op>)
    requires NumInv(b) && NumberedRun(b, ops)
    ensures FreeThroughout(b, ops) && UniqueThroughout(b, ops)
    decreases |ops|
  {
    if ops != [] {
      SystemNumberedIsFree(b, ops[0]);
      StepKeepsNumInv(b, ops[0]);
      NumberedRunIsFree(Step(b, ops[0]), ops[1..]);
    }
  }

  // ---------- why the conditions are there ----------

  lemma SavedDraftTarget(b: Book, t: Tenant, i: nat, w: World, now: DateTime)
    requires BookInv(b) && i in b.rows && b.rows[i].tenant == t.id && b.rows[i].status.Draft?
    requires Refusal(SavedRequest(b.rows[i], now)).None?
    ensures var req := SavedRequest(b.rows[i], now);
      && Existing(b, t, req) == Some(i) && Target(b, t, req, w) == Some(i) && CallsPartner(b, t, req)
      && FiscalizeChange(b, t, req, w, now).Replace? && FiscalizeChange(b, t, req, w, now).id == i
      && !Positive(b.rows[i].ordNum)
      && req.issue == now && req.ordNum == b.rows[i].payload.ordNum
  {
    assert RowInv(b.rows[i]);
    FindIs(b, i);
  }

  lemma DraftChoosesNext(b: Book, t: Tenant, i: nat, w: World, now: DateTime)
    requires BookInv(b) && i in b.rows && b.rows[i].tenant == t.id && b.rows[i].status.Draft?
    requires PlainRow(b.rows[i]) && UtcTime(now) && Refusal(SavedRequest(b.rows[i], now)).None?
    ensures ChosenOrd(b, t, SavedRequest(b.rows[i], now)) == Next(b, OrdInYear(t.id, now.utc.date.year))
  {
    assert RowInv(b.rows[i]);
    SavedDraftTarget(b, t, i, w, now);
  }

  /** A draft without a number of its own is given the next ordinal of the year it is sent in. */
  lemma DraftGetsNext(b: Book, t: Tenant, i: nat, w: World, now: DateTime) returns (c: Change)
    requires BookInv(b) && i in b.rows && b.rows[i].tenant == t.id && b.rows[i].status.Draft?
    requires PlainRow(b.rows[i]) && UtcTime(now) && Refusal(SavedRequest(b.rows[i], now)).None?
    ensures GivesNext(b, c, t, i, now) && Step(b, SubmitSaved(t, i, w, now)) == Apply(b, c)
  {
    var ord: nat;
    c, ord := SavedDraftWrites(b, t, i, w, now);
    DraftChoosesNext(b, t, i, w, now);
  }

  lemma SavedDraftWrites(b: Book, t: Tenant, i: nat, w: World, now: DateTime) returns (c: Change, ord: nat)
    requires BookInv(b) && i in b.rows && b.rows[i].tenant == t.id && b.rows[i].status.Draft?
    requires Refusal(SavedRequest(b.rows[i], now)).None?
    ensures ord == ChosenOrd(b, t, SavedRequest(b.rows[i], now))
    ensures c.Replace? && c.id == i && c.row.tenant == t.id && c.row.issue == b.rows[i].issue
    ensures c.row.ordNum == Some(ord)
    ensures Step(b, SubmitSaved(t, i, w, now)) == Apply(b, c)
  {
    SavedDraftTarget(b, t, i, w, now);
    ord := ChosenOrd(b, t, SavedRequest(b.rows[i], now));
    c := WritesOver(b, t, SavedRequest(b.rows[i], now), w, now, i);
    DraftStep(b, t, i, w, now);
  }

  lemma WritesOver(b: Book, t: Tenant, req: Request, w: World, now: DateTime, i: nat) returns (c: Change)
    requires BookInv(b) && Target(b, t, req, w) == Some(i)
    requires FiscalizeChange(b, t, req, w, now).Replace? && FiscalizeChange(b, t, req, w, now).id == i
    ensures c == FiscalizeChange(b, t, req, w, now)
    ensures c.Replace? && c.id == i && c.row.tenant == t.id && c.row.issue == b.rows[i].issue
    ensures c.row.ordNum == Some(ChosenOrd(b, t, req))
  {
    c := FiscalizeChange(b, t, req, w, now);
    WrittenFields(b, t, req, w, now);
  }

  /** The numbers with which a draft is sent: the ordinal its payload carries, else the next of the year of
      sending; the next local number of the month of sending. */
  function DraftOrd(b: Book, t: Tenant, r: Invoice, now: DateTime): nat {
    if Positive(r.payload.ordNum) then r.payload.ordNum.value else Next(b, OrdInYear(t.id, now.utc.date.year))
  }

  function DraftLocal(b: Book, t: Tenant, now: DateTime): nat {
    Next(b, LocalInMonth(t.id, now.utc.date.year, now.utc.date.month, false))
  }

  lemma DraftNumbers(b: Book, t: Tenant, i: nat, w: World, now: DateTime)
    requires BookInv(b) && i in b.rows && b.rows[i].tenant == t.id && b.rows[i].status.Draft? && UtcTime(now)
    requires Refusal(SavedRequest(b.rows[i], now)).None?
    ensures var req := SavedRequest(b.rows[i], now);
      && Target(b, t, req, w) == Some(i) && Writes(b, t, req, w, now)
      && ChosenOrd(b, t, req) == DraftOrd(b, t, b.rows[i], now)
      && KeptLocal(b, t, req, Some(i)) == DraftLocal(b, t, now)
  {
    assert RowInv(b.rows[i]);
    SavedDraftTarget(b, t, i, w, now);
  }

  /** Sending a draft keeps numbers unique exactly when nobody has its ordinal in the year, nor (templates
      aside) its local number in the month, of the draft's own issue time. */
  lemma DraftUniqueExactly(b: Book, t: Tenant, i: nat, w: World, now: DateTime)
    requires BookInv(b) && UniqueNumbers(b) && UtcTime(now)
    requires i in b.rows && b.rows[i].tenant == t.id && b.rows[i].status.Draft?
    requires Refusal(SavedRequest(b.rows[i], now)).None?
    ensures UniqueNumbers(Step(b, SubmitSaved(t, i, w, now)))
       <==> FreeOrd(b, t.id, b.rows[i].issue, Some(i), DraftOrd(b, t, b.rows[i], now))
            && (b.rows[i].isTemplate || FreeLocal(b, t.id, b.rows[i].issue, Some(i), DraftLocal(b, t, now)))
  {
    DraftNumbers(b, t, i, w, now);
    SentUniqueExactly(b, SubmitSaved(t, i, w, now));
  }

  /** A draft without a carried number that is sent in its issue month always meets free numbers. */
  lemma DraftInMonthFree(b: Book, t: Tenant, i: nat, now: DateTime)
    requires UtcInv(b) && UtcTime(now) && i in b.rows && b.rows[i].tenant == t.id
    requires !Positive(b.rows[i].payload.ordNum) && SameMonth(b.rows[i].issue, now)
    ensures FreeOrd(b, t.id, b.rows[i].issue, Some(i), DraftOrd(b, t, b.rows[i], now))
    ensures FreeLocal(b, t.id, b.rows[i].issue, Some(i), DraftLocal(b, t, now))
  {
    var r := b.rows[i].(ordNum := Some(DraftOrd(b, t, b.rows[i], now)), localNum := Some(DraftLocal(b, t, now)),
                        isTemplate := false);
    NextOrdIsClear(b, r);
    NextLocalIsClear(b, r);
    ClearIsFree(b, r, Some(i));
  }

  /** A new invoice under a number given by the caller keeps numbers unique exactly when nobody has that
      number in the year of its issue time. */
  lemma GivenNumberExactly(b: Book, t: Tenant, req: Request, w: World, now: DateTime)
    requires UtcInv(b) && UtcTime(req.issue) && Positive(req.ordNum)
    requires Writes(b, t, req, w, now) && Target(b, t, req, w).None?
    ensures UniqueNumbers(Apply(b, FiscalizeChange(b, t, req, w, now)))
       <==> FreeOrd(b, t.id, req.issue, None, req.ordNum.value)
  {
    SubmitUniqueExactly(b, t, req, w, now);
    GivenNumberFree(b, t, req, w);
  }

  lemma GivenNumberFree(b: Book, t: Tenant, req: Request, w: World)
    requires UtcInv(b) && UtcTime(req.issue) && Positive(req.ordNum) && Target(b, t, req, w).None?
    ensures SubmitFree(b, t, req, w) <==> FreeOrd(b, t.id, req.issue, None, req.ordNum.value)
  {
    NewLocal(b, t, req, w);
    NextLocalIsFree(b, t.id, req.issue);
  }

  lemma NewLocal(b: Book, t: Tenant, req: Request, w: World)
    requires UtcTime(req.issue) && Target(b, t, req, w).None?
    ensures KeptLocal(b, t, req, None) == DraftLocal(b, t, req.issue)
  {
  }

  lemma NextLocalIsFree(b: Book, tenant: nat, issue: DateTime)
    requires UtcInv(b) && UtcTime(issue)
    ensures FreeLocal(b, tenant, issue, None,
                      Next(b, LocalInMonth(tenant, issue.utc.date.year, issue.utc.date.month, false)))
  {
    var q := LocalInMonth(tenant, issue.utc.date.year, issue.utc.date.month, false);
    MaxIsMax(b.rows, q, b.nextId);
    forall j | j in b.rows
      ensures !(b.rows[j].tenant == tenant && !b.rows[j].isTemplate && b.rows[j].localNum == Some(Next(b, q))
                && SameMonth(b.rows[j].issue, issue))
    {
      MonthWindow(b.rows[j].issue, issue.utc.date.year, issue.utc.date.month);
      assert Counted(q, b.rows[j]) < Next(b, q);
    }
  }

  lemma NextUnmoved(b: Book, c: Change, q: Query)
    requires c.Replace? && c.id in b.rows && Counted(q, b.rows[c.id]) == Counted(q, c.row)
    ensures Next(Apply(b, c), q) == Next(b, q)
  {
    MaxKept(b.rows, Apply(b, c).rows, q, b.nextId);
  }

  lemma OutOfYear(r: Invoice, tenant: nat, y: int)
    requires Valid(r.issue.utc.date) && r.issue.utc.date.year != y
    ensures Counted(OrdInYear(tenant, y), r) == 0
  {
    YearWindow(r.issue, y);
  }

  /** j is a draft, and i has the ordinal that j would be given when sent now. */
  predicate NextTaken(b: Book, t: Tenant, i: nat, j: nat, now: DateTime) {
    && BookInv(b) && UtcTime(now) && i in b.rows && j in b.rows && i != j
    && b.rows[i].tenant == t.id && b.rows[j].tenant == t.id && SameYear(b.rows[i], b.rows[j])
    && b.rows[j].status.Draft? && PlainRow(b.rows[j]) && Refusal(SavedRequest(b.rows[j], now)).None?
    && b.rows[i].ordNum == Some(Next(b, OrdInYear(t.id, now.utc.date.year)))
  }

  /** The change gives row i the next ordinal of the year and leaves its issue time. */
  predicate GivesNext(b: Book, c: Change, t: Tenant, i: nat, now: DateTime) {
    && i in b.rows && c.Replace? && c.id == i && c.row.tenant == t.id && c.row.issue == b.rows[i].issue
    && c.row.ordNum == Some(Next(b, OrdInYear(t.id, now.utc.date.year)))
  }

  lemma FirstDraftChange(b: Book, c: Change, t: Tenant, i: nat, j: nat, now: DateTime)
    requires GivesNext(b, c, t, i, now) && BookInv(Apply(b, c)) && UtcTime(now)
    requires j in b.rows && i != j && b.rows[j].tenant == t.id && b.rows[j].status.Draft?
    requires PlainRow(b.rows[j]) && Refusal(SavedRequest(b.rows[j], now)).None?
    requires b.rows[i].ordNum.None? && UtcTime(b.rows[i].issue) && SameYear(b.rows[i], b.rows[j])
    requires b.rows[i].issue.utc.date.year != now.utc.date.year
    ensures NextTaken(Apply(b, c), t, i, j, now)
  {
    OutOfYear(b.rows[i], t.id, now.utc.date.year);
    OutOfYear(c.row, t.id, now.utc.date.year);
    NextUnmoved(b, c, OrdInYear(t.id, now.utc.date.year));
  }

  lemma FirstDraft(b: Book, t: Tenant, i: nat, j: nat, w: World, now: DateTime)
    requires NumInv(b) && CodesTrimmed(t) && UtcTime(now)
    requires i in b.rows && j in b.rows && i != j && b.rows[i].tenant == t.id && b.rows[j].tenant == t.id
    requires b.rows[i].status.Draft? && b.rows[j].status.Draft? && SameYear(b.rows[i], b.rows[j])
    requires b.rows[i].issue.utc.date.year != now.utc.date.year
    requires Refusal(SavedRequest(b.rows[i], now)).None? && Refusal(SavedRequest(b.rows[j], now)).None?
    ensures NextTaken(Step(b, SubmitSaved(t, i, w, now)), t, i, j, now)
  {
    assert PlainRow(b.rows[i]) && PlainRow(b.rows[j]) && RowInv(b.rows[i]);
    StepKeepsInvariant(b, SubmitSaved(t, i, w, now));
    var c := DraftGetsNext(b, t, i, w, now);
    FirstDraftChange(b, c, t, i, j, now);
  }

  lemma SecondDraftChange(b: Book, c: Change, t: Tenant, i: nat, j: nat, now: DateTime)
    requires NextTaken(b, t, i, j, now) && GivesNext(b, c, t, j, now)
    ensures i in Apply(b, c).rows && j in Apply(b, c).rows && ClashOrd(Apply(b, c).rows[i], Apply(b, c).rows[j])
  {
  }

  lemma SecondDraft(b: Book, t: Tenant, i: nat, j: nat, w: World, now: DateTime)
    requires NextTaken(b, t, i, j, now)
    ensures var after := Step(b, SubmitSaved(t, j, w, now)).rows;
      i in after && j in after && ClashOrd(after[i], after[j])
  {
    var c := DraftGetsNext(b, t, j, w, now);
    SecondDraftChange(b, c, t, i, j, now);
  }

  /** Any two drafts issued in another year than the one they are sent in get the same ordinal. */
  lemma DraftsAcrossYears(b: Book, t: Tenant, i: nat, j: nat, w1: World, w2: World, now: DateTime)
    requires NumInv(b) && CodesTrimmed(t) && UtcTime(now)
    requires i in b.rows && j in b.rows && i != j && b.rows[i].tenant == t.id && b.rows[j].tenant == t.id
    requires b.rows[i].status.Draft? && b.rows[j].status.Draft? && SameYear(b.rows[i], b.rows[j])
    requires b.rows[i].issue.utc.date.year != now.utc.date.year
    requires Refusal(SavedRequest(b.rows[i], now)).None? && Refusal(SavedRequest(b.rows[j], now)).None?
    ensures var after := Step(Step(b, SubmitSaved(t, i, w1, now)), SubmitSaved(t, j, w2, now));
      i in after.rows && j in after.rows && ClashOrd(after.rows[i], after.rows[j]) && !UniqueNumbers(after)
  {
    FirstDraft(b, t, i, j, w1, now);
    SecondDraft(Step(b, SubmitSaved(t, i, w1, now)), t, i, j, w2, now);
  }

  // ---------- the same with months, for local numbers ----------

  lemma DraftWritesLocal(b: Book, t: Tenant, i: nat, w: World, now: DateTime) returns (c: Change)
    requires BookInv(b) && i in b.rows && b.rows[i].tenant == t.id && b.rows[i].status.Draft? && UtcTime(now)
    requires Refusal(SavedRequest(b.rows[i], now)).None?
    ensures GivesLocal(b, c, t, i, now) && Step(b, SubmitSaved(t, i, w, now)) == Apply(b, c)
  {
    DraftNumbers(b, t, i, w, now);
    c := WrittenChange(b, t, SavedRequest(b.rows[i], now), w, now);
    DraftStep(b, t, i, w, now);
  }

  lemma DraftStep(b: Book, t: Tenant, i: nat, w: World, now: DateTime)
    requires i in b.rows && b.rows[i].tenant == t.id && b.rows[i].status.Draft?
    ensures Step(b, SubmitSaved(t, i, w, now)) == Apply(b, FiscalizeChange(b, t, SavedRequest(b.rows[i], now), w, now))
  {
    SubmittedStep(b, SubmitSaved(t, i, w, now));
  }

  /** The change gives row i the next local number of the month of sending and leaves its issue time. */
  predicate GivesLocal(b: Book, c: Change, t: Tenant, i: nat, now: DateTime) {
    && i in b.rows && c.Replace? && c.id == i && c.row.tenant == t.id && c.row.issue == b.rows[i].issue
    && c.row.isTemplate == b.rows[i].isTemplate && c.row.localNum == Some(DraftLocal(b, t, now))
  }

  lemma OutOfMonth(b: Book, c: Change, t: Tenant, i: nat, now: DateTime)
    requires GivesLocal(b, c, t, i, now) && UtcTime(now) && UtcTime(b.rows[i].issue) && !SameMonth(b.rows[i].issue, now)
    ensures DraftLocal(Apply(b, c), t, now) == DraftLocal(b, t, now)
  {
    MonthWindow(b.rows[i].issue, now.utc.date.year, now.utc.date.month);
    NextUnmoved(b, c, LocalInMonth(t.id, now.utc.date.year, now.utc.date.month, false));
  }

  /** Two drafts, templates aside, of one month that are sent in another month get the same local number. */
  lemma DraftsAcrossMonths(b: Book, t: Tenant, i: nat, j: nat, w1: World, w2: World, now: DateTime)
    requires UtcInv(b) && CodesTrimmed(t) && UtcTime(now)
    requires i in b.rows && j in b.rows && i != j && b.rows[i].tenant == t.id && b.rows[j].tenant == t.id
    requires b.rows[i].status.Draft? && b.rows[j].status.Draft? && !b.rows[i].isTemplate && !b.rows[j].isTemplate
    requires SameMonth(b.rows[i].issue, b.rows[j].issue) && !SameMonth(b.rows[i].issue, now)
    requires Refusal(SavedRequest(b.rows[i], now)).None? && Refusal(SavedRequest(b.rows[j], now)).None?
    ensures var after := Step(Step(b, SubmitSaved(t, i, w1, now)), SubmitSaved(t, j, w2, now));
      i in after.rows && j in after.rows && ClashLocal(after.rows[i], after.rows[j]) && !UniqueNumbers(after)
  {
    var b1 := Step(b, SubmitSaved(t, i, w1, now));
    StepKeepsInvariant(b, SubmitSaved(t, i, w1, now));
    var c := DraftWritesLocal(b, t, i, w1, now);
    OutOfMonth(b, c, t, i, now);
    var d := DraftWritesLocal(b1, t, j, w2, now);
  }

  /** Two saved drafts of one request, under two external ids. */
  function TwoDrafts(tenant: nat, req: Request): Book {
    Step(Step(EMPTY, Save(tenant, req.(externalId := Some("a")), false, "0")),
         Save(tenant, req.(externalId := Some("b")), false, "0"))
  }

  lemma TwoDraftsAre(tenant: nat, req: Request)
    ensures var b := TwoDrafts(tenant, req);
      b.rows.Keys == {0, 1} && b.nextId == 2
      && b.rows[0] == DraftRow(tenant, "a", req.(externalId := Some("a")), false)
      && b.rows[1] == DraftRow(tenant, "b", req.(externalId := Some("b")), false)
  {
    TrimTrims("a");
    TrimTrims("b");
    assert "a"[0] != "b"[0];
    var b1 := Step(EMPTY, Save(tenant, req.(externalId := Some("a")), false, "0"));
    assert b1.rows == map[0 := DraftRow(tenant, "a", req.(externalId := Some("a")), false)];
    assert Find(b1, tenant, "b") == None;
  }

  lemma TwoDraftsPlain(tenant: nat, req: Request)
    requires UtcTime(req.issue) && !Positive(req.ordNum)
    ensures NumInv(TwoDrafts(tenant, req))
  {
    var first := Save(tenant, req.(externalId := Some("a")), false, "0");
    StepKeepsNumInv(EMPTY, first);
    StepKeepsNumInv(Step(EMPTY, first), Save(tenant, req.(externalId := Some("b")), false, "0"));
  }

  lemma DraftSendable(tenant: nat, externalId: string, req: Request, now: DateTime)
    requires Refusal(req).None?
    ensures Refusal(SavedRequest(DraftRow(tenant, externalId, req.(externalId := Some(externalId)), false), now)).None?
  {
  }

  /** So a four-step run from the empty table breaks uniqueness for every request that can be sent: save it
      twice in one year, send both drafts in another. */
  lemma FourStepsRepeatNumber(t: Tenant, req: Request, w1: World, w2: World, now: DateTime)
    requires CodesTrimmed(t) && Refusal(req).None? && !Positive(req.ordNum)
    requires UtcTime(req.issue) && UtcTime(now) && req.issue.utc.date.year != now.utc.date.year
    ensures var b := TwoDrafts(t.id, req);
      !UniqueNumbers(Step(Step(b, SubmitSaved(t, 0, w1, now)), SubmitSaved(t, 1, w2, now)))
  {
    TwoDraftsAre(t.id, req);
    TwoDraftsPlain(t.id, req);
    DraftSendable(t.id, "a", req, now);
    DraftSendable(t.id, "b", req, now);
    DraftsAcrossYears(TwoDrafts(t.id, req), t, 0, 1, w1, w2, now);
  }

  /** And within one year: save it twice in one month, send both drafts in another. */
  lemma FourStepsRepeatLocal(t: Tenant, req: Request, w1: World, w2: World, now: DateTime)
    requires CodesTrimmed(t) && Refusal(req).None? && !Positive(req.ordNum)
    requires UtcTime(req.issue) && UtcTime(now) && !SameMonth(req.issue, now)
    ensures var after := Step(Step(TwoDrafts(t.id, req), SubmitSaved(t, 0, w1, now)), SubmitSaved(t, 1, w2, now));
      0 in after.rows && 1 in after.rows && ClashLocal(after.rows[0], after.rows[1]) && !UniqueNumbers(after)
  {
    TwoDraftsAre(t.id, req);
    TwoDraftsPlain(t.id, req);
    NumIsUtc(TwoDrafts(t.id, req));
    DraftSendable(t.id, "a", req, now);
    DraftSendable(t.id, "b", req, now);
    DraftsAcrossMonths(TwoDrafts(t.id, req), t, 0, 1, w1, w2, now);
  }

  /** A draft whose payload carries a number is sent under that number. */
  lemma DraftKeepsPayloadNumber(b: Book, t: Tenant, i: nat, w: World, now: DateTime)
    requires BookInv(b) && i in b.rows && b.rows[i].tenant == t.id && b.rows[i].status.Draft?
    requires Positive(b.rows[i].payload.ordNum) && Refusal(SavedRequest(b.rows[i], now)).None?
    ensures var after := Step(b, SubmitSaved(t, i, w, now));
      i in after.rows && after.rows[i].ordNum == b.rows[i].payload.ordNum
  {
    SavedDraftTarget(b, t, i, w, now);
    WrittenFields(b, t, SavedRequest(b.rows[i], now), w, now);
    DraftStep(b, t, i, w, now);
  }

  lemma CopyIsDraft(b: Book, t: Tenant, id: nat, token: Hex, now: DateTime)
    requires BookInv(b) && id in b.rows && b.rows[id].tenant == t.id
    requires Find(b, t.id, CopyRow(b.rows[id], id, now, token).externalId).None?
    ensures var after := Step(b, Copy(t.id, id, now, token));
      && BookInv(after) && b.nextId in after.rows && after.nextId == b.nextId + 1
      && after.rows == b.rows[b.nextId := CopyRow(b.rows[id], id, now, token)]
  {
    StepKeepsInvariant(b, Copy(t.id, id, now, token));
  }

  /** A copy, sent later, keeps numbers unique exactly when nobody has the number its payload carries in the
      year of copying, nor the next local number of the month of sending in the month of copying. */
  lemma CopyUniqueExactly(b: Book, t: Tenant, id: nat, token: Hex, w: World, now: DateTime, later: DateTime)
    requires UtcInv(b) && UtcTime(now) && UtcTime(later) && id in b.rows && b.rows[id].tenant == t.id
    requires Positive(b.rows[id].payload.ordNum)
    requires Find(b, t.id, CopyRow(b.rows[id], id, now, token).externalId).None?
    requires Refusal(SavedRequest(CopyRow(b.rows[id], id, now, token), later)).None?
    ensures UniqueNumbers(Step(Step(b, Copy(t.id, id, now, token)), SubmitSaved(t, b.nextId, w, later)))
       <==> FreeOrd(b, t.id, now, None, b.rows[id].payload.ordNum.value)
            && FreeLocal(b, t.id, now, None, DraftLocal(b, t, later))
  {
    var copied := Step(b, Copy(t.id, id, now, token));
    CopyIsDraft(b, t, id, token, now);
    StepUniqueExactly(b, Copy(t.id, id, now, token));
    DraftUniqueExactly(copied, t, b.nextId, w, later);
    CopyLeavesNext(b, copied, t, id, later);
    CopyFree(b, copied, t, now, b.rows[id].payload.ordNum.value, DraftLocal(b, t, later));
  }

  lemma CopyLeavesNext(b: Book, copied: Book, t: Tenant, id: nat, later: DateTime)
    requires BookInv(b) && copied.nextId == b.nextId + 1 && b.nextId in copied.rows
    requires copied.rows == b.rows[b.nextId := copied.rows[b.nextId]] && copied.rows[b.nextId].localNum.None?
    ensures DraftLocal(copied, t, later) == DraftLocal(b, t, later)
  {
    var q := LocalInMonth(t.id, later.utc.date.year, later.utc.date.month, false);
    RowsBelow(b.rows, copied.rows, q, b.nextId);
  }

  lemma CopyFree(b: Book, copied: Book, t: Tenant, issue: DateTime, ord: nat, local: nat)
    requires BookInv(b) && b.nextId in copied.rows && copied.rows == b.rows[b.nextId := copied.rows[b.nextId]]
    ensures FreeOrd(copied, t.id, issue, Some(b.nextId), ord) <==> FreeOrd(b, t.id, issue, None, ord)
    ensures FreeLocal(copied, t.id, issue, Some(b.nextId), local) <==> FreeLocal(b, t.id, issue, None, local)
  {
    assert forall j :: j in b.rows <==> j in copied.rows && j != b.nextId;
    if FreeOrd(copied, t.id, issue, Some(b.nextId), ord) {
      forall j | j in b.rows
        ensures !(b.rows[j].tenant == t.id && b.rows[j].ordNum == Some(ord)
                  && b.rows[j].issue.utc.date.year == issue.utc.date.year)
      {
        assert copied.rows[j] == b.rows[j];
      }
    }
    if FreeLocal(copied, t.id, issue, Some(b.nextId), local) {
      forall j | j in b.rows
        ensures !(b.rows[j].tenant == t.id && !b.rows[j].isTemplate && b.rows[j].localNum == Some(local)
                  && SameMonth(b.rows[j].issue, issue))
      {
        assert copied.rows[j] == b.rows[j];
      }
    }
  }

  /** A row that carries its number in its payload, as every retried row does: a copy made and sent in the
      row's year repeats the number. */
  lemma CopyRepeatsNumber(b: Book, t: Tenant, id: nat, token: Hex, w: World, now: DateTime, later: DateTime)
    requires UtcInv(b) && UtcTime(now) && UtcTime(later) && id in b.rows && b.rows[id].tenant == t.id
    requires Positive(b.rows[id].payload.ordNum) && b.rows[id].ordNum == b.rows[id].payload.ordNum
    requires b.rows[id].issue.utc.date.year == now.utc.date.year
    requires Find(b, t.id, CopyRow(b.rows[id], id, now, token).externalId).None?
    requires Refusal(SavedRequest(CopyRow(b.rows[id], id, now, token), later)).None?
    ensures var after := Step(Step(b, Copy(t.id, id, now, token)), SubmitSaved(t, b.nextId, w, later));
      && b.nextId in after.rows && after.rows[b.nextId].ordNum == b.rows[id].ordNum
      && !UniqueNumbers(after)
  {
    CopyIsDraft(b, t, id, token, now);
    DraftKeepsPayloadNumber(Step(b, Copy(t.id, id, now, token)), t, b.nextId, w, later);
    CopyUniqueExactly(b, t, id, token, w, now, later);
  }
}
