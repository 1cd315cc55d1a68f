/** What a tenant has and is answered does not depend on what other tenants do, although all share the same tables. */
module Isolation {
  import opened Wrappers
  import opened Calendar
  import opened Requests
  import opened Partner
  import opened Invoices
  import opened Integrity
  import opened Backfill
  import opened Cash
  import opened Runs

  /** The invoices of one tenant. */
  function Own(b: Book, tenant: nat): map<nat, Invoice> {
    map id | id in b.rows && b.rows[id].tenant == tenant :: b.rows[id]
  }

  /** The operation is asked for by somebody else; filling in numbers without naming a tenant is asked for all. */
  predicate Foreign(op: Op, tenant: nat) {
    match op
    case Save(who, _, _, _) => who != tenant
    case Copy(who, _, _, _) => who != tenant
    case Update(who, _, _, _) => who != tenant
    case Delete(who, _) => who != tenant
    case Submit(t, _, _, _) => t.id != tenant
    case SubmitSaved(t, _, _, _) => t.id != tenant
    case FillNumbers(only) => only.Some? && only.value != tenant
    case DepositCash(t, _, _) => t.id != tenant
    case SaveSchedule(who, _, _) => who != tenant
    case ScheduleRan(_, _) => true
    case DropSchedule(_) => true
    case Pay(who, _) => who != tenant
  }

  // ---------- other tenants' operations ----------

  /** The change concerns no row of this tenant. */
  predicate Elsewhere(b: Book, c: Change, tenant: nat) {
    match c
    case Nothing => true
    case Insert(row) => row.tenant != tenant
    case Replace(id, row) => id in b.rows && b.rows[id].tenant != tenant && row.tenant != tenant
    case Remove(id) => id in b.rows && b.rows[id].tenant != tenant
  }

  lemma ElsewhereKeeps(b: Book, c: Change, tenant: nat)
    requires Elsewhere(b, c, tenant) && b.nextId !in b.rows
    ensures Own(Apply(b, c), tenant) == Own(b, tenant)
  {
  }

  lemma SubmittedElsewhere(b: Book, t: Tenant, req: Request, w: World, now: DateTime, tenant: nat)
    requires t.id != tenant
    ensures Elsewhere(b, FiscalizeChange(b, t, req, w, now), tenant)
  {
  }

  lemma ForeignElsewhere(b: Book, op: Op, tenant: nat)
    requires Foreign(op, tenant)
    ensures Elsewhere(b, ChangeOf(b, op), tenant)
  {
    match op {
      case Submit(t, req, w, now) => SubmittedElsewhere(b, t, req, w, now, tenant);
      case SubmitSaved(t, id, w, now) =>
        if id in b.rows { SubmittedElsewhere(b, t, SavedRequest(b.rows[id], now), w, now, tenant); }
      case _ =>
    }
  }

  lemma FilledElsewhere(b: Book, only: nat, tenant: nat)
    requires only != tenant
    ensures Own(Filled(b, Some(only)), tenant) == Own(b, tenant)
  {
    var after := Filled(b, Some(only));
    assert after.rows.Keys == b.rows.Keys;
    forall id | id in b.rows
      ensures after.rows[id].tenant == b.rows[id].tenant
      ensures b.rows[id].tenant == tenant ==> after.rows[id] == b.rows[id]
    {
      FilledFrame(b, Some(only), id);
    }
  }

  /** An operation of another tenant leaves every invoice of this one as it is, and adds and removes none. */
  lemma StepIsolated(b: Book, op: Op, tenant: nat)
    requires BookInv(b) && Foreign(op, tenant)
    ensures Own(Step(b, op), tenant) == Own(b, tenant)
  {
    if op.FillNumbers? {
      FilledElsewhere(b, op.only.value, tenant);
    } else if !op.DepositCash? {
      ForeignElsewhere(b, op, tenant);
      ElsewhereKeeps(b, ChangeOf(b, op), tenant);
    }
  }

  /** So does any run of such operations. */
  lemma {:induction false} RunIsolated(b: Book, ops: seq<Op>, tenant: nat)
    requires BookInv(b) && OpsOk(ops) && forall op | op in ops :: Foreign(op, tenant)
    ensures Own(Run(b, ops), tenant) == Own(b, tenant)
    decreases |ops|
  {
    if ops != [] {
      StepIsolated(b, ops[0], tenant);
      StepKeepsInvariant(b, ops[0]);
      RunIsolated(Step(b, ops[0]), ops[1..], tenant);
    }
  }

  // ---------- the answers of a tenant ----------

  /** The two tables hold the same invoices of the tenant, whatever they hold of others. */
  ghost predicate Alike(b: Book, c: Book, tenant: nat) {
    BookInv(b) && BookInv(c) && Own(b, tenant) == Own(c, tenant)
  }

  lemma OwnAlike(b: Book, c: Book, tenant: nat, id: nat)
    requires Alike(b, c, tenant) && id in b.rows && b.rows[id].tenant == tenant
    ensures id in c.rows && c.rows[id] == b.rows[id] && id < c.nextId
  {
    assert id in Own(b, tenant);
    assert id in Own(c, tenant);
  }

  lemma MaxAlike(b: Book, c: Book, q: Query)
    requires Alike(b, c, q.tenant)
    ensures MaxBelow(b.rows, q, b.nextId) <= MaxBelow(c.rows, q, c.nextId)
  {
    MaxIsMax(b.rows, q, b.nextId);
    MaxIsMax(c.rows, q, c.nextId);
    if MaxBelow(b.rows, q, b.nextId) > 0 {
      var id :| id in b.rows && id < b.nextId && Counted(q, b.rows[id]) == MaxBelow(b.rows, q, b.nextId);
      OwnAlike(b, c, q.tenant, id);
    }
  }

  lemma NextAlike(b: Book, c: Book, q: Query)
    requires Alike(b, c, q.tenant)
    ensures Next(b, q) == Next(c, q)
  {
    MaxAlike(b, c, q);
    MaxAlike(c, b, q);
  }

  lemma FindAlike(b: Book, c: Book, tenant: nat, externalId: string)
    requires Alike(b, c, tenant)
    ensures Find(b, tenant, externalId) == Find(c, tenant, externalId)
  {
    var f, g := Find(b, tenant, externalId), Find(c, tenant, externalId);
    if f.Some? {
      OwnAlike(b, c, tenant, f.value);
      FindIs(c, f.value);
    } else if g.Some? {
      OwnAlike(c, b, tenant, g.value);
      FindIs(b, g.value);
    }
  }

  lemma ExistingAlike(b: Book, c: Book, t: Tenant, req: Request)
    requires Alike(b, c, t.id)
    ensures var k := Existing(b, t, req);
      Existing(c, t, req) == k && (k.Some? ==> k.value in c.rows && c.rows[k.value] == b.rows[k.value])
  {
    if Given(req.externalId) { FindAlike(b, c, t.id, req.externalId.value); }
    if Existing(b, t, req).Some? { OwnAlike(b, c, t.id, Existing(b, t, req).value); }
  }

  lemma ChosenAlike(b: Book, c: Book, t: Tenant, req: Request)
    requires Alike(b, c, t.id)
    ensures ChosenOrd(b, t, req) == ChosenOrd(c, t, req) && ChosenLocal(b, t, req) == ChosenLocal(c, t, req)
  {
    var when := req.issue.wall.date;
    ExistingAlike(b, c, t, req);
    NextAlike(b, c, OrdInYear(t.id, when.year));
    NextAlike(b, c, LocalInMonth(t.id, when.year, when.month, false));
  }

  lemma ReuseAlike(b: Book, c: Book, t: Tenant, req: Request)
    requires Alike(b, c, t.id)
    ensures ReuseIic(b, t, req) == ReuseIic(c, t, req) && ReuseSig(b, t, req) == ReuseSig(c, t, req)
    ensures CallsPartner(b, t, req) <==> CallsPartner(c, t, req)
  {
    ExistingAlike(b, c, t, req);
  }

  lemma OutcomeAlike(b: Book, c: Book, t: Tenant, req: Request, w: World)
    requires Alike(b, c, t.id)
    ensures Outcome(b, t, req, w) == Outcome(c, t, req, w)
  {
    ChosenAlike(b, c, t, req);
    ReuseAlike(b, c, t, req);
  }

  lemma TargetAlike(b: Book, c: Book, t: Tenant, req: Request, w: World)
    requires Alike(b, c, t.id)
    ensures FinalId(b, t, req, w) == FinalId(c, t, req, w)
    ensures var k := Target(b, t, req, w);
      Target(c, t, req, w) == k && (k.Some? ==> k.value in c.rows && c.rows[k.value] == b.rows[k.value])
  {
    ChosenAlike(b, c, t, req);
    OutcomeAlike(b, c, t, req, w);
    ExistingAlike(b, c, t, req);
    FindAlike(b, c, t.id, FinalId(b, t, req, w));
    if Target(b, t, req, w).Some? { OwnAlike(b, c, t.id, Target(b, t, req, w).value); }
  }

  lemma RecordAlike(b: Book, c: Book, t: Tenant, req: Request, target: Option<nat>, externalId: string, invNum: string,
                    ord: nat, local: nat, result: PartnerResult, now: DateTime)
    requires target.Some? ==> target.value in b.rows && target.value in c.rows
    requires target.Some? ==> b.rows[target.value] == c.rows[target.value]
    ensures RecordChange(b, t, req, target, externalId, invNum, ord, local, result, now)
         == RecordChange(c, t, req, target, externalId, invNum, ord, local, result, now)
  {
  }

  /** A submission does the same in both tables: the same numbers, the same call of the partner with the same IKOF, and
      the same row written or stored anew. */
  lemma SubmissionAlike(b: Book, c: Book, t: Tenant, req: Request, w: World, now: DateTime)
    requires Alike(b, c, t.id)
    ensures FiscalizeChange(b, t, req, w, now) == FiscalizeChange(c, t, req, w, now)
  {
    ReuseAlike(b, c, t, req);
    if CallsPartner(b, t, req) {
      var result, ord := Outcome(b, t, req, w), ChosenOrd(b, t, req);
      ChosenAlike(b, c, t, req);
      OutcomeAlike(b, c, t, req, w);
      TargetAlike(b, c, t, req, w);
      RecordAlike(b, c, t, req, Target(b, t, req, w), FinalId(b, t, req, w), StoredInvNum(t, req, ord, result), ord,
                  ChosenLocal(b, t, req), result, now);
    }
  }

  /** Whatever others do before it, a tenant's submission gets the same numbers, the same answer and the same row. */
  lemma SubmissionUndisturbed(b: Book, ops: seq<Op>, t: Tenant, req: Request, w: World, now: DateTime)
    requires BookInv(b) && OpsOk(ops) && forall op | op in ops :: Foreign(op, t.id)
    ensures var c := Run(b, ops);
      && ChosenOrd(c, t, req) == ChosenOrd(b, t, req) && ChosenLocal(c, t, req) == ChosenLocal(b, t, req)
      && Outcome(c, t, req, w) == Outcome(b, t, req, w)
      && FiscalizeChange(c, t, req, w, now) == FiscalizeChange(b, t, req, w, now)
  {
    RunIsolated(b, ops, t.id);
    RunKeepsInvariant(b, ops);
    ChosenAlike(b, Run(b, ops), t, req);
    OutcomeAlike(b, Run(b, ops), t, req, w);
    SubmissionAlike(b, Run(b, ops), t, req, w, now);
  }

  // ---------- the cash drawer ----------

  lemma {:induction false} SalesAlike(b: Book, c: Book, tenant: nat, day: Date, n: nat)
    requires Own(b, tenant) == Own(c, tenant)
    ensures CashSalesBelow(b.rows, tenant, day, n) == CashSalesBelow(c.rows, tenant, day, n)
  {
    if n > 0 {
      SalesAlike(b, c, tenant, day, n - 1);
      assert n - 1 in Own(b, tenant) <==> n - 1 in Own(c, tenant);
    }
  }

  lemma {:induction false} NoSalesBeyond(b: Book, tenant: nat, day: Date, n: nat)
    requires BookInv(b) && n >= b.nextId
    ensures CashSalesBelow(b.rows, tenant, day, n) == CashSalesBelow(b.rows, tenant, day, b.nextId)
  {
    if n > b.nextId { NoSalesBeyond(b, tenant, day, n - 1); }
  }

  /** Cash sales are counted among the tenant's own invoices. */
  lemma CashAlike(b: Book, c: Book, tenant: nat, day: Date)
    requires Alike(b, c, tenant)
    ensures CashSalesBelow(b.rows, tenant, day, b.nextId) == CashSalesBelow(c.rows, tenant, day, c.nextId)
  {
    var n := if b.nextId > c.nextId then b.nextId else c.nextId;
    NoSalesBeyond(b, tenant, day, n);
    NoSalesBeyond(c, tenant, day, n);
    SalesAlike(b, c, tenant, day, n);
  }

  lemma DepositsOnly(b: Book, op: Op)
    requires !op.DepositCash?
    ensures Step(b, op).deposits == b.deposits
  {
  }

  lemma StepKeepsDrawer(b: Book, op: Op, tenant: nat, day: Date)
    requires BookInv(b) && OpOk(op) && Foreign(op, tenant)
    ensures Drawer(Step(b, op), tenant, day) == Drawer(b, tenant, day)
  {
    if op.DepositCash? {
      OtherTenantDeposit(b, op.t, op.deposit, op.w, tenant, day);
    } else {
      StepIsolated(b, op, tenant);
      StepKeepsInvariant(b, op);
      DepositsOnly(b, op);
      CashAlike(b, Step(b, op), tenant, day);
    }
  }

  /** Nor does any run of others move the tenant's cash drawer. */
  lemma {:induction false} DrawerUndisturbed(b: Book, ops: seq<Op>, tenant: nat, day: Date)
    requires BookInv(b) && OpsOk(ops) && forall op | op in ops :: Foreign(op, tenant)
    ensures Drawer(Run(b, ops), tenant, day) == Drawer(b, tenant, day)
    decreases |ops|
  {
    if ops != [] {
      StepKeepsDrawer(b, ops[0], tenant, day);
      StepKeepsInvariant(b, ops[0]);
      DrawerUndisturbed(Step(b, ops[0]), ops[1..], tenant, day);
    }
  }
}
