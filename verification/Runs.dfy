/** Whole runs of the invoice and cash operations over the tables of all tenants. */
module Runs {
  import opened Wrappers
  import opened Text
  import opened Calendar
  import opened Requests
  import opened Partner
  import opened Invoices
  import opened Integrity
  import opened Backfill
  import opened Cash

  datatype Op =
    | Save(tenant: nat, req: Request, isTemplate: bool, token: Hex)
    | Copy(tenant: nat, id: nat, now: DateTime, token: Hex)
    | Update(tenant: nat, id: nat, req: Request, flag: Option<bool>)
    | Delete(tenant: nat, id: nat)
    | Submit(t: Tenant, req: Request, w: World, now: DateTime)
    | SubmitSaved(t: Tenant, id: nat, w: World, now: DateTime)
    | FillNumbers(only: Option<nat>)
    | DepositCash(t: Tenant, deposit: DepositRequest, w: World)
    | SaveSchedule(tenant: nat, schedule: Option<nat>, template: nat)
    | ScheduleRan(at: nat, made: nat)
    | DropSchedule(at: nat)
    | Pay(tenant: nat, invoice: Option<nat>)

  /** The change of the invoice table that an operation makes; those that are no such change make none. */
  function ChangeOf(b: Book, op: Op): Change {
    match op
    case Save(tenant, req, isTemplate, token) => SaveChange(b, tenant, req, isTemplate, token)
    case Copy(tenant, id, now, token) => CopyChange(b, tenant, id, now, token)
    case Update(tenant, id, req, flag) => UpdateChange(b, tenant, id, req, flag)
    case Delete(tenant, id) => DeleteChange(b, tenant, id)
    case Submit(t, req, w, now) => FiscalizeChange(b, t, req, w, now)
    case SubmitSaved(t, id, w, now) => SavedChange(b, t, id, w, now)
    case SaveSchedule(tenant, schedule, template) => MarkChange(b, tenant, schedule, template)
    case _ => Nothing
  }

  /** The references an operation makes: a saved schedule to its template, one that has run to the invoice it
      made, a payment to an invoice of the tenant, if it names one. */
  function Linked(b: Book, op: Op): (after: Book)
    ensures after.rows == b.rows && after.nextId == b.nextId && after.deposits == b.deposits
  {
    var n := |b.schedules|;
    match op
    case SaveSchedule(tenant, schedule, template) =>
      if !Owns(b, tenant, template) || (schedule.Some? && schedule.value >= n) then b
      else if schedule.None? then b.(schedules := b.schedules + [ScheduleRef(template, None)])
      else b.(schedules := b.schedules[schedule.value := b.schedules[schedule.value].(template := template)])
    case ScheduleRan(k, made) =>
      if k < n && made in b.rows then b.(schedules := b.schedules[k := b.schedules[k].(last := Some(made))]) else b
    case DropSchedule(k) => if k < n then b.(schedules := b.schedules[..k] + b.schedules[k + 1..]) else b
    case Pay(tenant, invoice) =>
      b.(payments := b.payments + [if invoice.Some? && Owns(b, tenant, invoice.value) then invoice else None])
    case _ => b
  }

  function Step(b: Book, op: Op): Book {
    if op.FillNumbers? then Filled(b, op.only)
    else if op.DepositCash? then RegisterDeposit(b, op.t, op.deposit, op.w)
    else Linked(Apply(b, ChangeOf(b, op)), op)
  }

  lemma SubmittedStep(b: Book, op: Op)
    requires op.Submit? || op.SubmitSaved?
    ensures Step(b, op) == Apply(b, ChangeOf(b, op))
  {
  }

  function Run(b: Book, ops: seq<Op>): Book
    decreases |ops|
  {
    if ops == [] then b else Run(Step(b, ops[0]), ops[1..])
  }

  /** Tenants submit with trimmed unit and device codes. */
  predicate OpOk(op: Op) { op.Submit? || op.SubmitSaved? ==> CodesTrimmed(op.t) }

  ghost predicate OpsOk(ops: seq<Op>) { forall op | op in ops :: OpOk(op) }

  // ---------- the invariant over runs ----------

  lemma ChangeWellFormed(b: Book, op: Op)
    requires BookInv(b) && OpOk(op)
    ensures WellFormedChange(b, ChangeOf(b, op))
  {
    match op {
      case Save(tenant, req, isTemplate, token) => SaveWellFormed(b, tenant, req, isTemplate, token);
      case Copy(tenant, id, now, token) => CopyWellFormed(b, tenant, id, now, token);
      case Update(tenant, id, req, flag) => UpdateWellFormed(b, tenant, id, req, flag);
      case Delete(tenant, id) => DeleteWellFormed(b, tenant, id);
      case Submit(t, req, w, now) => FiscalizeWellFormed(b, t, req, w, now);
      case SubmitSaved(t, id, w, now) => SavedWellFormed(b, t, id, w, now);
      case _ =>
    }
  }

  lemma ChangeGuarded(b: Book, op: Op)
    ensures Guarded(b, ChangeOf(b, op))
  {
    match op {
      case Submit(t, req, w, now) => FiscalizeGuarded(b, t, req, w, now);
      case SubmitSaved(t, id, w, now) =>
        if id in b.rows { FiscalizeGuarded(b, t, SavedRequest(b.rows[id], now), w, now); }
      case _ =>
    }
  }

  lemma FilledKeepsInvariant(b: Book, only: Option<nat>)
    requires BookInv(b)
    ensures BookInv(Filled(b, only))
  {
    var after := Filled(b, only);
    forall id | id in b.rows ensures SameExternal(b.rows[id], after.rows[id]) && RowInv(after.rows[id]) {
      FilledFrame(b, only, id);
    }
    forall i, j | i in after.rows && j in after.rows && SameExternal(after.rows[i], after.rows[j]) ensures i == j {
      assert SameExternal(b.rows[i], b.rows[j]);
    }
  }

  lemma StepKeepsInvariant(b: Book, op: Op)
    requires BookInv(b) && OpOk(op)
    ensures BookInv(Step(b, op))
  {
    if op.FillNumbers? {
      FilledKeepsInvariant(b, op.only);
    } else if !op.DepositCash? {
      ChangeWellFormed(b, op);
      ApplyKeepsInvariant(b, ChangeOf(b, op));
    }
  }

  /** Every reachable table satisfies the invariant: "JIKR exactly when fiscalized", "pending means an
      IKOF and no JIKR", "a draft has no fiscal identifiers", consistent totals and real EFI types on
      everything that was sent, unique external ids. */
  lemma {:induction false} RunKeepsInvariant(b: Book, ops: seq<Op>)
    requires BookInv(b) && OpsOk(ops)
    ensures BookInv(Run(b, ops))
    decreases |ops|
  {
    if ops != [] {
      StepKeepsInvariant(b, ops[0]);
      RunKeepsInvariant(Step(b, ops[0]), ops[1..]);
    }
  }

  /** After every run each row that went to the partner shows the kind, payment method and totals of its payload, and
      that payload passes what the law asks of it. */
  lemma SentRowsChecked(b: Book, ops: seq<Op>, id: nat)
    requires BookInv(b) && OpsOk(ops) && id in Run(b, ops).rows && !Run(b, ops).rows[id].status.Draft?
    ensures var r := Run(b, ops).rows[id];
      && MayBeSent(r.payload)
      && (r.typeOfInv, r.pay, r.docType) == (r.payload.typeOfInv, r.payload.pay, r.payload.docType)
      && (r.net, r.vat, r.gross) == (r.payload.net, r.payload.vat, r.payload.gross)
  {
    RunKeepsInvariant(b, ops);
    assert RowInv(Run(b, ops).rows[id]);
    RefusalExactly(Run(b, ops).rows[id].payload);
  }

  // ---------- immutability ----------

  /** The same row, except that a missing local number may have been filled in. */
  predicate Frozen(r: Invoice, s: Invoice) {
    s == r.(localNum := s.localNum) && (r.localNum.Some? ==> s == r)
  }

  lemma StepFreezes(b: Book, op: Op, id: nat)
    requires id in b.rows && b.rows[id].status.Fiscalized? && id < b.nextId
    ensures id in Step(b, op).rows && id < Step(b, op).nextId && Frozen(b.rows[id], Step(b, op).rows[id])
  {
    if op.FillNumbers? {
      FilledFrame(b, op.only, id);
    } else if !op.DepositCash? {
      ChangeGuarded(b, op);
    }
  }

  /** In every run a fiscalized invoice stays in the table unchanged, for ever. */
  lemma {:induction false} FiscalizedForever(b: Book, ops: seq<Op>, id: nat)
    requires id in b.rows && b.rows[id].status.Fiscalized? && id < b.nextId
    ensures id in Run(b, ops).rows && id < Run(b, ops).nextId && Frozen(b.rows[id], Run(b, ops).rows[id])
    decreases |ops|
  {
    if ops != [] {
      StepFreezes(b, ops[0], id);
      FiscalizedForever(Step(b, ops[0]), ops[1..], id);
    }
  }

  lemma LinkedRefers(b: Book, op: Op)
    requires NoDanglingReferences(b)
    ensures NoDanglingReferences(Linked(b, op))
  {
    var after := Linked(b, op);
    forall s | s in after.schedules ensures s.template in b.rows && (s.last.Some? ==> s.last.value in b.rows) {
      if s !in b.schedules && |after.schedules| == |b.schedules| {
        var i :| 0 <= i < |after.schedules| && after.schedules[i] == s;
        assert b.schedules[i] in b.schedules;
      }
    }
  }

  lemma StepKeepsReferences(b: Book, op: Op)
    requires NoDanglingReferences(b)
    ensures NoDanglingReferences(Step(b, op))
  {
    if !op.FillNumbers? && !op.DepositCash? {
      ChangeGuarded(b, op);
      ReferencesKept(b, ChangeOf(b, op));
      LinkedRefers(Apply(b, ChangeOf(b, op)), op);
    }
  }

  /** Every reference made by a schedule or a payment is to an invoice that exists, after every run. */
  lemma {:induction false} ReferencesForever(b: Book, ops: seq<Op>)
    requires NoDanglingReferences(b)
    ensures NoDanglingReferences(Run(b, ops))
    decreases |ops|
  {
    if ops != [] {
      StepKeepsReferences(b, ops[0]);
      ReferencesForever(Step(b, ops[0]), ops[1..]);
    }
  }

  // ---------- at most one registration ----------

  /** The partner registered the submission. */
  predicate Registers(b: Book, t: Tenant, req: Request, w: World) {
    CallsPartner(b, t, req) && Outcome(b, t, req, w).ok
  }

  lemma RecordStores(b: Book, t: Tenant, req: Request, target: Option<nat>, externalId: string, invNum: string,
                     ord: nat, local: nat, result: PartnerResult, now: DateTime)
    requires result.ok
    requires target.Some? ==>
      target.value in b.rows && b.rows[target.value].tenant == t.id && b.rows[target.value].externalId == externalId
    ensures var after := Apply(b, RecordChange(b, t, req, target, externalId, invNum, ord, local, result, now));
      var id := if target.Some? then target.value else b.nextId;
      && id in after.rows && after.rows[id].tenant == t.id && after.rows[id].externalId == externalId
      && after.rows[id].status.Fiscalized?
  {
  }

  lemma TargetHasId(b: Book, t: Tenant, req: Request, w: World)
    requires BookInv(b) && Target(b, t, req, w).Some?
    ensures b.rows[Target(b, t, req, w).value].externalId == FinalId(b, t, req, w)
  {
    if Existing(b, t, req).Some? { FoundKeepsId(b, t, req, w); }
  }

  lemma RegistrationWritten(b: Book, t: Tenant, req: Request, w: World, now: DateTime) returns (id: nat)
    requires BookInv(b) && Registers(b, t, req, w)
    ensures var after := Step(b, Submit(t, req, w, now));
      && id in after.rows && after.rows[id].tenant == t.id && after.rows[id].externalId == FinalId(b, t, req, w)
      && after.rows[id].status.Fiscalized?
  {
    var target, result, ord := Target(b, t, req, w), Outcome(b, t, req, w), ChosenOrd(b, t, req);
    if target.Some? { TargetHasId(b, t, req, w); }
    id := if target.Some? then target.value else b.nextId;
    SubmittedStep(b, Submit(t, req, w, now));
    RecordStores(b, t, req, target, FinalId(b, t, req, w), StoredInvNum(t, req, ord, result),
                 ord, ChosenLocal(b, t, req), result, now);
  }

  /** After a successful registration the row with the final external id is fiscalized. */
  lemma RegistrationIsStored(b: Book, t: Tenant, req: Request, w: World, now: DateTime)
    requires BookInv(b) && CodesTrimmed(t) && Registers(b, t, req, w)
    ensures var b1, key := Step(b, Submit(t, req, w, now)), FinalId(b, t, req, w);
      && Find(b1, t.id, key).Some?
      && b1.rows[Find(b1, t.id, key).value].status.Fiscalized?
  {
    var id := RegistrationWritten(b, t, req, w, now);
    StepKeepsInvariant(b, Submit(t, req, w, now));
    FindIs(Step(b, Submit(t, req, w, now)), id);
  }

  /** The row that a submission is recorded on: the one it writes over, or the next new one. */
  function RecordedOn(b: Book, t: Tenant, req: Request, w: World): nat {
    var target := Target(b, t, req, w); if target.Some? then target.value else b.nextId
  }

  /** The row shows this registration: its request and totals, and the partner's JIKR and IKOF. */
  predicate Carries(r: Invoice, req: Request, result: PartnerResult, now: DateTime) {
    && r.status.Fiscalized? && r.fiscalizedAt == Some(now)
    && r.payload == req && (r.net, r.vat, r.gross) == (req.net, req.vat, req.gross)
    && r.jikr == result.jikr && r.ikof == result.ikof && r.qr == result.qr && r.partnerRef == result.partnerRef
    && r.error.None?
  }

  lemma RecordCarries(b: Book, t: Tenant, req: Request, target: Option<nat>, externalId: string, invNum: string,
                      ord: nat, local: nat, result: PartnerResult, now: DateTime)
    requires result.ok && b.nextId !in b.rows
    requires target.Some? ==> target.value in b.rows
    ensures var after := Apply(b, RecordChange(b, t, req, target, externalId, invNum, ord, local, result, now));
      var id := if target.Some? then target.value else b.nextId;
      if target.Some? && b.rows[target.value].status.Fiscalized? then after == b
      else after != b && id in after.rows && Carries(after.rows[id], req, result, now)
  {
  }

  /** A registration the partner accepted is on its row, with its JIKR, IKOF and totals, unless the lookup by the
      final id hits a row fiscalized before: then, and only then, nothing changes and the registration is lost. */
  lemma RegistrationStoredExactly(b: Book, t: Tenant, req: Request, w: World, now: DateTime)
    requires BookInv(b) && Registers(b, t, req, w)
    ensures var target, after := Target(b, t, req, w), Step(b, Submit(t, req, w, now));
      && (after == b <==> target.Some? && b.rows[target.value].status.Fiscalized?)
      && (after != b ==> RecordedOn(b, t, req, w) in after.rows
                         && Carries(after.rows[RecordedOn(b, t, req, w)], req, Outcome(b, t, req, w), now))
  {
    var result, ord := Outcome(b, t, req, w), ChosenOrd(b, t, req);
    SubmittedStep(b, Submit(t, req, w, now));
    RecordCarries(b, t, req, Target(b, t, req, w), FinalId(b, t, req, w), StoredInvNum(t, req, ord, result),
                  ord, ChosenLocal(b, t, req), result, now);
  }

  /** The status a submission leaves on its row. */
  function EndStatus(t: Tenant, w: World, req: Request, iic: Option<string>): Status {
    if Succeeds(t, w, req) then Fiscalized else if GoesOffline(t, w, req, iic) then Pending else Failed
  }

  lemma RecordStatus(b: Book, t: Tenant, req: Request, target: Option<nat>, externalId: string, invNum: string,
                     ord: nat, local: nat, result: PartnerResult, now: DateTime)
    requires target.Some? ==> target.value in b.rows && !b.rows[target.value].status.Fiscalized?
    requires Sound(result, ord)
    ensures var after := Apply(b, RecordChange(b, t, req, target, externalId, invNum, ord, local, result, now));
      var id := if target.Some? then target.value else b.nextId;
      && id in after.rows
      && after.rows[id].status == (if result.ok then Fiscalized else if result.offline then Pending else Failed)
      && after.rows[id].error == (if result.ok then None else result.error)
  {
  }

  /** A submission that reaches the partner, and hits no fiscalized row, leaves its row fiscalized exactly when the
      partner registered it, pending exactly when it went offline, and failed otherwise; unless it is fiscalized
      the row shows what the partner reported. */
  lemma SubmissionEnds(b: Book, t: Tenant, req: Request, w: World, now: DateTime)
    requires CallsPartner(b, t, req)
    requires Target(b, t, req, w).Some? ==> !b.rows[Target(b, t, req, w).value].status.Fiscalized?
    ensures var after, id := Step(b, Submit(t, req, w, now)), RecordedOn(b, t, req, w);
      && id in after.rows
      && after.rows[id].status
         == EndStatus(t, w, req, LocalIic(t, w, req, ChosenOrd(b, t, req), ReuseIic(b, t, req), ReuseSig(b, t, req)).0)
      && after.rows[id].error == (if Succeeds(t, w, req) then None else Outcome(b, t, req, w).error)
  {
    var result, ord := Outcome(b, t, req, w), ChosenOrd(b, t, req);
    OkExactly(t, w, req, ord, ReuseIic(b, t, req), ReuseSig(b, t, req));
    OfflineExactly(t, w, req, ord, ReuseIic(b, t, req), ReuseSig(b, t, req));
    AdapterContract(t, w, req, ord, ReuseIic(b, t, req), ReuseSig(b, t, req));
    SubmittedStep(b, Submit(t, req, w, now));
    RecordStatus(b, t, req, Target(b, t, req, w), FinalId(b, t, req, w), StoredInvNum(t, req, ord, result),
                 ord, ChosenLocal(b, t, req), result, now);
  }

  /** Without an external id: the registration is lost exactly when the invoice number it is filed under is the
      id of a fiscalized row. */
  lemma UnnamedStoredExactly(b: Book, t: Tenant, req: Request, w: World, now: DateTime)
    requires BookInv(b) && Registers(b, t, req, w) && CodesTrimmed(t) && req.externalId.None?
    requires Echoes(t, w, req, ChosenOrd(b, t, req), None, None)
    ensures var hit := Find(b, t.id, InvNumOf(t, ChosenOrd(b, t, req), req.issue));
      Target(b, t, req, w) == hit
      && (Step(b, Submit(t, req, w, now)) == b <==> hit.Some? && b.rows[hit.value].status.Fiscalized?)
  {
    UnnamedTarget(b, t, req, w);
    RegistrationStoredExactly(b, t, req, w, now);
  }

  lemma UnnamedTarget(b: Book, t: Tenant, req: Request, w: World)
    requires CodesTrimmed(t) && req.externalId.None? && Echoes(t, w, req, ChosenOrd(b, t, req), None, None)
    ensures Target(b, t, req, w) == Find(b, t.id, InvNumOf(t, ChosenOrd(b, t, req), req.issue))
  {
    AdapterNumber(t, w, req, ChosenOrd(b, t, req), None, None);
  }

  lemma NextAfterInsert(b: Book, row: Invoice, q: Query)
    requires BookInv(b) && Counted(q, row) == 0
    ensures Next(Apply(b, Insert(row)), q) == Next(b, q)
  {
    RowsBelow(b.rows, b.rows[b.nextId := row], q, b.nextId);
  }

  lemma {:induction false} RowsBelow(rows: map<nat, Invoice>, after: map<nat, Invoice>, q: Query, n: nat)
    requires forall id | id < n :: (id in rows <==> id in after) && (id in rows ==> rows[id] == after[id])
    ensures MaxBelow(rows, q, n) == MaxBelow(after, q, n)
  {
    if n > 0 { RowsBelow(rows, after, q, n - 1); }
  }

  /** What the first such submission leaves behind: a fiscalized row under its number, outside the year the
      next number is taken from. */
  lemma UnnamedInserted(b: Book, t: Tenant, req: Request, w: World, now: DateTime) returns (row: Invoice)
    requires BookInv(b) && Registers(b, t, req, w) && CodesTrimmed(t) && req.externalId.None?
    requires Echoes(t, w, req, ChosenOrd(b, t, req), None, None)
    requires Find(b, t.id, InvNumOf(t, ChosenOrd(b, t, req), req.issue)).None?
    ensures Step(b, Submit(t, req, w, now)) == Apply(b, Insert(row))
    ensures row.tenant == t.id && row.issue == req.issue && row.status.Fiscalized?
    ensures row.externalId == InvNumOf(t, ChosenOrd(b, t, req), req.issue)
  {
    UnnamedTarget(b, t, req, w);
    AdapterNumber(t, w, req, ChosenOrd(b, t, req), None, None);
    InvNumTrimmed(t, ChosenOrd(b, t, req), req.issue);
    SubmittedStep(b, Submit(t, req, w, now));
    var ord := ChosenOrd(b, t, req);
    row := RecordInserts(b, t, req, FinalId(b, t, req, w), StoredInvNum(t, req, ord, Outcome(b, t, req, w)),
                         ord, ChosenLocal(b, t, req), Outcome(b, t, req, w), now);
  }

  lemma RecordInserts(b: Book, t: Tenant, req: Request, externalId: string, invNum: string, ord: nat, local: nat,
                      result: PartnerResult, now: DateTime)
    returns (row: Invoice)
    requires result.ok
    ensures RecordChange(b, t, req, None, externalId, invNum, ord, local, result, now) == Insert(row)
    ensures row.tenant == t.id && row.issue == req.issue && row.status.Fiscalized? && row.externalId == externalId
  {
    row := RecordChange(b, t, req, None, externalId, invNum, ord, local, result, now).row;
  }

  lemma SameNumberAgain(b: Book, row: Invoice, t: Tenant, req: Request)
    requires BookInv(b) && Valid(req.issue.utc.date) && req.issue.utc.date.year != req.issue.wall.date.year
    requires req.externalId.None? && !Positive(req.ordNum)
    requires row.tenant == t.id && row.issue == req.issue
    ensures ChosenOrd(Apply(b, Insert(row)), t, req) == ChosenOrd(b, t, req)
  {
    YearWindow(req.issue, req.issue.wall.date.year);
    NextAfterInsert(b, row, OrdInYear(t.id, req.issue.wall.date.year));
  }

  /** Around New Year: a request without an id, issued in one year by its own clock and in another by UTC, gets
      the same number twice.  Both submissions are accepted by the partner; the second is lost. */
  lemma SecondUnnamedLost(b: Book, t: Tenant, req: Request, w1: World, w2: World, now1: DateTime, now2: DateTime)
    requires BookInv(b) && CodesTrimmed(t) && req.externalId.None? && !Positive(req.ordNum)
    requires Valid(req.issue.utc.date) && req.issue.utc.date.year != req.issue.wall.date.year
    requires Find(b, t.id, InvNumOf(t, ChosenOrd(b, t, req), req.issue)).None?
    requires Registers(b, t, req, w1) && Echoes(t, w1, req, ChosenOrd(b, t, req), None, None)
    requires Registers(Step(b, Submit(t, req, w1, now1)), t, req, w2)
    requires Echoes(t, w2, req, ChosenOrd(b, t, req), None, None)
    ensures var b1 := Step(b, Submit(t, req, w1, now1)); Step(b1, Submit(t, req, w2, now2)) == b1
  {
    var row := UnnamedInserted(b, t, req, w1, now1);
    var b1 := Apply(b, Insert(row));
    StepKeepsInvariant(b, Submit(t, req, w1, now1));
    SameNumberAgain(b, row, t, req);
    FindIs(b1, b.nextId);
    UnnamedStoredExactly(b1, t, req, w2, now2);
  }

  predicate Jikr(s: string) { Trimmed(s) && s != "" }

  lemma AnsweringRegisters(b: Book, t: Tenant, req: Request, w: World, jikr: string)
    requires Refusal(req).None? && GrossAllowed(req) && req.externalId.None?
    requires !t.channel.Mock? && CanSign(t, w) && Jikr(jikr)
    ensures var v := Answering(w, jikr);
      && Registers(b, t, req, v) && Outcome(b, t, req, v).jikr == Some(jikr)
      && Echoes(t, v, req, ChosenOrd(b, t, req), None, None)
  {
    AnsweringAccepts(t, w, req, ChosenOrd(b, t, req), None, None, jikr);
  }

  /** A request that can be sent, without id and number, of half an hour into 2026 by its own clock. */
  predicate NewYear(req: Request) {
    && Refusal(req).None? && GrossAllowed(req) && req.externalId.None? && !Positive(req.ordNum)
    && req.issue == DateTime(Stamp(Date(2025, 12, 31), 84600), Stamp(Date(2026, 1, 1), 1800))
  }

  lemma EmptyHasNothing(tenant: nat, externalId: string)
    ensures BookInv(EMPTY) && Find(EMPTY, tenant, externalId).None?
  {
  }

  lemma NewYearSecond(t: Tenant, req: Request, w1: World, w2: World, now1: DateTime, now2: DateTime)
    requires NewYear(req) && CodesTrimmed(t)
    requires Registers(EMPTY, t, req, w1) && Echoes(t, w1, req, ChosenOrd(EMPTY, t, req), None, None)
    requires Registers(Step(EMPTY, Submit(t, req, w1, now1)), t, req, w2)
    requires Echoes(t, w2, req, ChosenOrd(EMPTY, t, req), None, None)
    ensures var b1 := Step(EMPTY, Submit(t, req, w1, now1)); Step(b1, Submit(t, req, w2, now2)) == b1
  {
    EmptyHasNothing(t.id, InvNumOf(t, ChosenOrd(EMPTY, t, req), req.issue));
    SecondUnnamedLost(EMPTY, t, req, w1, w2, now1, now2);
  }

  /** For instance from the empty table on any remote channel, when the partner gives each submission a JIKR of
      its own: both are registered, and the second JIKR is on no row. */
  lemma NewYearLost(t: Tenant, req: Request, w: World, j1: string, j2: string, now1: DateTime, now2: DateTime)
    requires !t.channel.Mock? && CanSign(t, w) && CodesTrimmed(t) && NewYear(req) && Jikr(j1) && Jikr(j2)
    ensures var w1, w2 := Answering(w, j1), Answering(w, j2);
      var b1 := Step(EMPTY, Submit(t, req, w1, now1));
      && Registers(EMPTY, t, req, w1) && Registers(b1, t, req, w2)
      && Outcome(b1, t, req, w2).jikr == Some(j2)
      && Step(b1, Submit(t, req, w2, now2)) == b1
      && b1.rows.Keys == {0} && b1.rows[0].jikr == Some(j1)
  {
    var w1, w2 := Answering(w, j1), Answering(w, j2);
    AnsweringRegisters(EMPTY, t, req, w, j1);
    AnsweringRegisters(Step(EMPTY, Submit(t, req, w1, now1)), t, req, w, j2);
    AnsweringAccepts(t, w, req, ChosenOrd(EMPTY, t, req), None, None, j2);
    NewYearSecond(t, req, w1, w2, now1, now2);
    OnlyRow(t, req, w1, now1);
  }

  lemma OnlyRow(t: Tenant, req: Request, w: World, now: DateTime)
    requires Registers(EMPTY, t, req, w)
    ensures Target(EMPTY, t, req, w).None?
    ensures var b1 := Step(EMPTY, Submit(t, req, w, now));
      b1.rows.Keys == {0} && b1.rows[0].jikr == Outcome(EMPTY, t, req, w).jikr
  {
  }

  lemma MockRegisters(b: Book, t: Tenant, req: Request, w: World)
    requires t.channel.Mock? && NewYear(req)
    ensures Registers(b, t, req, w) && Echoes(t, w, req, ChosenOrd(b, t, req), None, None)
    ensures Outcome(b, t, req, w).jikr == Some(MockJikr(t, req, InvNumOf(t, ChosenOrd(b, t, req), req.issue)))
  {
  }

  /** The mock channel names its JIKR after the number, so there the second submission repeats the stored one. */
  lemma NewYearOnMock(t: Tenant, req: Request, w1: World, w2: World, now1: DateTime, now2: DateTime)
    requires t.channel.Mock? && CodesTrimmed(t) && NewYear(req)
    ensures var b1 := Step(EMPTY, Submit(t, req, w1, now1));
      && Registers(b1, t, req, w2) && Step(b1, Submit(t, req, w2, now2)) == b1
      && b1.rows.Keys == {0} && b1.rows[0].jikr == Outcome(b1, t, req, w2).jikr
  {
    var b1 := Step(EMPTY, Submit(t, req, w1, now1));
    MockRegisters(EMPTY, t, req, w1);
    MockRegisters(b1, t, req, w2);
    MockEchoes(t, w2, req, ChosenOrd(EMPTY, t, req));
    NewYearSecond(t, req, w1, w2, now1, now2);
    OnlyRow(t, req, w1, now1);
    NewYearNumber(t, req, w1, now1);
  }

  lemma MockEchoes(t: Tenant, w: World, req: Request, ord: nat)
    requires t.channel.Mock?
    ensures Echoes(t, w, req, ord, None, None)
  {
  }

  lemma NewYearNumber(t: Tenant, req: Request, w: World, now: DateTime)
    requires NewYear(req) && CodesTrimmed(t)
    requires Registers(EMPTY, t, req, w) && Echoes(t, w, req, ChosenOrd(EMPTY, t, req), None, None)
    ensures ChosenOrd(Step(EMPTY, Submit(t, req, w, now)), t, req) == ChosenOrd(EMPTY, t, req)
  {
    EmptyHasNothing(t.id, InvNumOf(t, ChosenOrd(EMPTY, t, req), req.issue));
    var row := UnnamedInserted(EMPTY, t, req, w, now);
    SameNumberAgain(EMPTY, row, t, req);
  }

  /** A submission whose trimmed external id belongs to a fiscalized row changes nothing and is
      answered with that row; it reaches the partner again exactly when the id was not given trimmed. */
  lemma ResubmissionAnswered(b: Book, t: Tenant, req: Request, w: World, now: DateTime, id: nat)
    requires BookInv(b) && Refusal(req).None?
    requires req.externalId.Some? && Trim(req.externalId.value) != ""
    requires id in b.rows && b.rows[id].tenant == t.id && b.rows[id].status.Fiscalized?
    requires b.rows[id].externalId == Trim(req.externalId.value)
    ensures FiscalizeChange(b, t, req, w, now) == Nothing
    ensures FiscalizeResponse(b, t, req, w, now) == Shown(id, b.rows[id])
    ensures CallsPartner(b, t, req) <==> !Trimmed(req.externalId.value)
  {
    var raw := req.externalId.value;
    TrimTrims(raw);
    FindIs(b, id);
    var ex := Existing(b, t, req);
    if ex.Some? {
      assert RowInv(b.rows[ex.value]);
      assert SameExternal(b.rows[ex.value], b.rows[id]);
    }
  }

  /** Over any run: a fiscalized row answers every later submission of its external id, given
      trimmed, without a call to the partner. */
  lemma FiscalizedAnswersForever(b: Book, id: nat, ops: seq<Op>, t: Tenant, req: Request, w: World, now: DateTime)
    requires BookInv(b) && OpsOk(ops) && id in b.rows && b.rows[id].status.Fiscalized?
    requires t.id == b.rows[id].tenant && Refusal(req).None?
    requires req.externalId == Some(b.rows[id].externalId)
    ensures var later := Run(b, ops);
      && !CallsPartner(later, t, req)
      && FiscalizeChange(later, t, req, w, now) == Nothing
      && id in later.rows && Frozen(b.rows[id], later.rows[id])
      && FiscalizeResponse(later, t, req, w, now) == Shown(id, later.rows[id])
  {
    assert RowInv(b.rows[id]);
    TrimTrims(b.rows[id].externalId);
    RunKeepsInvariant(b, ops);
    FiscalizedForever(b, ops, id);
    ResubmissionAnswered(Run(b, ops), t, req, w, now, id);
  }

  /** Over any run: once a submission has been registered, no later submission with the same external
      id, given trimmed, reaches the partner; it is answered with the registered row. */
  lemma AtMostOneRegistration(b: Book, t: Tenant, req: Request, w: World, now: DateTime,
                              ops: seq<Op>, t2: Tenant, req2: Request, w2: World, now2: DateTime)
    requires BookInv(b) && CodesTrimmed(t) && Registers(b, t, req, w) && OpsOk(ops)
    requires t2.id == t.id && Refusal(req2).None?
    requires req2.externalId == Some(FinalId(b, t, req, w))
    ensures var b1 := Step(b, Submit(t, req, w, now));
      var id := Find(b1, t.id, FinalId(b, t, req, w));
      id.Some? && id.value in b1.rows &&
      var later := Run(b1, ops);
      && !CallsPartner(later, t2, req2)
      && id.value in later.rows && Frozen(b1.rows[id.value], later.rows[id.value])
      && FiscalizeResponse(later, t2, req2, w2, now2) == Shown(id.value, later.rows[id.value])
  {
    var b1 := Step(b, Submit(t, req, w, now));
    StepKeepsInvariant(b, Submit(t, req, w, now));
    RegistrationIsStored(b, t, req, w, now);
    FiscalizedAnswersForever(b1, Find(b1, t.id, FinalId(b, t, req, w)).value, ops, t2, req2, w2, now2);
  }

  // ---------- the cash register over runs ----------

  /** Dates that exist. */
  predicate OpDated(op: Op) {
    match op
    case Save(tenant, req, isTemplate, token) => Valid(req.issue.utc.date)
    case Copy(tenant, id, now, token) => Valid(now.utc.date)
    case Update(tenant, id, req, flag) => Valid(req.issue.utc.date)
    case Submit(t, req, w, now) => Valid(req.issue.utc.date)
    case SubmitSaved(t, id, w, now) => Valid(now.utc.date)
    case DepositCash(t, deposit, w) => Valid(deposit.at.utc.date) && Valid(deposit.at.wall.date)
    case _ => true
  }

  predicate Dated(b: Book) { DatedDeposits(b) && DatedRows(b) }

  /** The invariant with existing dates, and operations that keep both. */
  predicate DatedInv(b: Book) { BookInv(b) && Dated(b) }

  predicate OpGood(op: Op) { OpOk(op) && OpDated(op) }

  ghost predicate OpsGood(ops: seq<Op>) { forall op | op in ops :: OpGood(op) }

  lemma StepKeepsDatedInv(b: Book, op: Op)
    requires DatedInv(b) && OpGood(op)
    ensures DatedInv(Step(b, op))
  {
    StepKeepsInvariant(b, op);
    StepKeepsDated(b, op);
  }

  /** The row a change writes has an existing issue date. */
  predicate DatedChange(c: Change) {
    (c.Insert? || c.Replace?) ==> Valid(c.row.issue.utc.date)
  }

  lemma SubmitDated(b: Book, t: Tenant, req: Request, w: World, now: DateTime)
    requires DatedRows(b) && Valid(req.issue.utc.date)
    ensures DatedChange(FiscalizeChange(b, t, req, w, now))
  {
  }

  lemma ChangeDated(b: Book, op: Op)
    requires DatedRows(b) && OpDated(op)
    ensures DatedChange(ChangeOf(b, op))
  {
    match op {
      case Submit(t, req, w, now) => SubmitDated(b, t, req, w, now);
      case SubmitSaved(t, id, w, now) =>
        if id in b.rows { SubmitDated(b, t, SavedRequest(b.rows[id], now), w, now); }
      case _ =>
    }
  }

  lemma ApplyDated(b: Book, c: Change)
    requires Dated(b) && DatedChange(c)
    ensures Dated(Apply(b, c))
  {
  }

  lemma FilledDated(b: Book, only: Option<nat>)
    requires Dated(b)
    ensures Dated(Filled(b, only))
  {
    forall id | id in b.rows ensures Valid(Filled(b, only).rows[id].issue.utc.date) { FilledFrame(b, only, id); }
  }

  lemma StepKeepsDated(b: Book, op: Op)
    requires Dated(b) && OpDated(op)
    ensures Dated(Step(b, op))
  {
    if op.FillNumbers? {
      FilledDated(b, op.only);
    } else if !op.DepositCash? {
      ChangeDated(b, op);
      ApplyDated(b, ChangeOf(b, op));
    }
  }

  lemma StepKeepsSold(b: Book, op: Op, tenant: nat, day: Date)
    requires BookInv(b) && SoldOn(b, tenant, day)
    ensures SoldOn(Step(b, op), tenant, day)
  {
    var id :| id in b.rows && b.rows[id].tenant == tenant && b.rows[id].status.Fiscalized?
              && b.rows[id].issue.utc.date == day;
    StepFreezes(b, op, id);
    var after := Step(b, op).rows[id];
    assert after.issue == b.rows[id].issue && after.tenant == tenant && after.status.Fiscalized?;
  }

  lemma OtherStepKeepsDeposits(b: Book, op: Op)
    requires !op.DepositCash?
    ensures Step(b, op).deposits == b.deposits
  {
  }

  lemma StepKeepsOpening(b: Book, op: Op, i: nat)
    requires DatedInv(b) && OpGood(op)
    requires i < |b.deposits| && b.deposits[i].operation.INITIAL? && b.deposits[i].status.Registered?
    requires SoldOn(b, b.deposits[i].tenant, b.deposits[i].at.utc.date)
    ensures i < |Step(b, op).deposits| && Step(b, op).deposits[i] == b.deposits[i]
  {
    if op.DepositCash? { OpeningFrozen(b, op.t, op.deposit, op.w, i); } else { OtherStepKeepsDeposits(b, op); }
  }

  /** Once a day has a registered INITIAL and a fiscalized invoice, that INITIAL stays registered with
      the same amount through every run. */
  lemma {:induction false} OpeningFrozenForever(b: Book, ops: seq<Op>, i: nat)
    requires DatedInv(b) && OpsGood(ops)
    requires i < |b.deposits| && b.deposits[i].operation.INITIAL? && b.deposits[i].status.Registered?
    requires SoldOn(b, b.deposits[i].tenant, b.deposits[i].at.utc.date)
    ensures i < |Run(b, ops).deposits| && Run(b, ops).deposits[i] == b.deposits[i]
    decreases |ops|
  {
    if ops != [] {
      StepKeepsOpening(b, ops[0], i);
      StepKeepsSold(b, ops[0], b.deposits[i].tenant, b.deposits[i].at.utc.date);
      StepKeepsDatedInv(b, ops[0]);
      OpeningFrozenForever(Step(b, ops[0]), ops[1..], i);
    }
  }

  /** Deposits dated in UTC, in January to November or with nothing later in the December window. */
  predicate DepositInOrder(b: Book, op: Op) {
    op.DepositCash? ==>
      && IsUtc(op.deposit.at)
      && (op.deposit.at.utc.date.month == 12 ==>
            forall d | d in b.deposits && OpenIn(d, op.t.id, op.deposit.at.utc.date) ::
              d.at.utc.date == op.deposit.at.utc.date)
  }

  predicate InOrder(b: Book, ops: seq<Op>)
    decreases |ops|
  {
    ops == [] || (DepositInOrder(b, ops[0]) && InOrder(Step(b, ops[0]), ops[1..]))
  }

  lemma StepKeepsOneOpening(b: Book, op: Op)
    requires DatedInv(b) && OpGood(op) && OneOpening(b.deposits) && DepositInOrder(b, op)
    ensures OneOpening(Step(b, op).deposits)
  {
    if op.DepositCash? {
      if op.deposit.operation.INITIAL? && DepositAccepted(op.t, op.w) && !DepositRefused(b, op.t, op.deposit) {
        OwnDayFound(b, op.t, op.deposit);
        OneOpeningKept(b, op.t, op.deposit, op.w);
      } else {
        OneOpeningOtherwise(b, op.t, op.deposit, op.w);
      }
    }
  }

  /** In such runs no day ever has two registered INITIALs. */
  lemma {:induction false} OneOpeningForever(b: Book, ops: seq<Op>)
    requires DatedInv(b) && OpsGood(ops)
    requires OneOpening(b.deposits) && InOrder(b, ops)
    ensures OneOpening(Run(b, ops).deposits)
    decreases |ops|
  {
    if ops != [] {
      StepKeepsOneOpening(b, ops[0]);
      StepKeepsDatedInv(b, ops[0]);
      OneOpeningForever(Step(b, ops[0]), ops[1..]);
    }
  }

  /** What one operation brings into a tenant's drawer of a day. */
  function Inflow(b: Book, op: Op, tenant: nat, day: Date): int {
    if op.DepositCash? then (if op.t.id == tenant then DepositIn(b, op.t, op.deposit, op.w, day) else 0)
    else CashIn(ChangeOf(b, op), tenant, day)
  }

  /** A balance kept operation by operation: what they all bring in. */
  function TotalInflow(b: Book, ops: seq<Op>, tenant: nat, day: Date): int
    decreases |ops|
  {
    if ops == [] then 0
    else Inflow(b, ops[0], tenant, day) + TotalInflow(Step(b, ops[0]), ops[1..], tenant, day)
  }

  lemma {:induction false} FilledSales(b: Book, only: Option<nat>, tenant: nat, day: Date, n: nat)
    ensures CashSalesBelow(Filled(b, only).rows, tenant, day, n) == CashSalesBelow(b.rows, tenant, day, n)
  {
    if n > 0 {
      FilledSales(b, only, tenant, day, n - 1);
      if n - 1 in b.rows { FilledFrame(b, only, n - 1); }
    }
  }

  lemma {:induction false} OtherTenantSums(ds: seq<Deposit>, k: nat, e: Deposit, tenant: nat, day: Date)
    requires k < |ds| && ds[k].tenant != tenant && e.tenant != tenant
    ensures OpeningAmount(ds[k := e], tenant, day) == OpeningAmount(ds, tenant, day)
    ensures Withdrawals(ds[k := e], tenant, day) == Withdrawals(ds, tenant, day)
    decreases |ds|
  {
    var n := |ds| - 1;
    if k == n {
      assert ds[k := e][..n] == ds[..n];
    } else {
      OtherTenantSums(ds[..n], k, e, tenant, day);
      assert ds[k := e][..n] == ds[..n][k := e];
    }
  }

  lemma OtherTenantDeposit(b: Book, t: Tenant, req: DepositRequest, w: World, tenant: nat, day: Date)
    requires t.id != tenant
    ensures Drawer(RegisterDeposit(b, t, req, w), tenant, day) == Drawer(b, tenant, day)
  {
    if !DepositRefused(b, t, req) {
      EntrySums(Replaced(b, t, req), Entry(t, req, w), tenant, day);
      var k := FirstOpen(b.deposits, t.id, req.at.wall.date);
      if k < |b.deposits| {
        OtherTenantSums(b.deposits, k, b.deposits[k].(status := Superseded), tenant, day);
      }
    }
  }

  /** A deposit operation is dated in UTC outside December. */
  predicate OutsideDecember(op: Op) {
    op.DepositCash? ==> IsUtc(op.deposit.at) && op.deposit.at.utc.date.month != 12
  }

  predicate DrawerInv(b: Book) { DatedInv(b) && OneOpening(b.deposits) }

  lemma StepMovesDrawer(b: Book, op: Op, tenant: nat, day: Date)
    requires DrawerInv(b) && OpGood(op) && OutsideDecember(op)
    requires Valid(day) && day.month != 12
    ensures Drawer(Step(b, op), tenant, day) == Drawer(b, tenant, day) + Inflow(b, op, tenant, day)
  {
    if op.DepositCash? {
      if op.t.id == tenant { DrawerAfterDeposit(b, op.t, op.deposit, op.w, day); }
      else { OtherTenantDeposit(b, op.t, op.deposit, op.w, tenant, day); }
    } else if op.FillNumbers? {
      FilledSales(b, op.only, tenant, day, b.nextId);
    } else {
      ChangeWellFormed(b, op);
      ChangeGuarded(b, op);
      DrawerAfterChange(b, ChangeOf(b, op), tenant, day);
    }
  }

  lemma StepKeepsDrawerInv(b: Book, op: Op)
    requires DrawerInv(b) && OpGood(op) && OutsideDecember(op)
    ensures DrawerInv(Step(b, op))
  {
    StepKeepsDatedInv(b, op);
    StepKeepsOneOpening(b, op);
  }

  /** Operations good for the drawer: dated, in UTC, deposits outside December. */
  ghost predicate DrawerOps(ops: seq<Op>) { forall op | op in ops :: OpGood(op) && OutsideDecember(op) }

  lemma DrawerOpsHead(ops: seq<Op>)
    requires ops != [] && DrawerOps(ops)
    ensures OpGood(ops[0]) && OutsideDecember(ops[0]) && DrawerOps(ops[1..])
  {
    assert ops[0] in ops;
  }

  /** Outside December the drawer computed from the tables moves by what was kept along the way: openings,
      plus cash sales as they are fiscalized, minus withdrawals. */
  lemma {:induction false} DrawerIsKeptBalance(b: Book, ops: seq<Op>, tenant: nat, day: Date)
    requires DrawerOps(ops) && DrawerInv(b) && Valid(day) && day.month != 12
    ensures Drawer(Run(b, ops), tenant, day) == Drawer(b, tenant, day) + TotalInflow(b, ops, tenant, day)
    decreases |ops|
  {
    if ops != [] {
      DrawerOpsHead(ops);
      StepMovesDrawer(b, ops[0], tenant, day);
      StepKeepsDrawerInv(b, ops[0]);
      DrawerIsKeptBalance(Step(b, ops[0]), ops[1..], tenant, day);
    }
  }
}
