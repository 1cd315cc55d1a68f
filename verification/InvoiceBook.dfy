/** The service calls of sepko/services.py as they run: an object whose tables each call updates in
    place, proved against the change functions. */
module InvoiceService {
  import opened Wrappers
  import opened Text
  import opened Calendar
  import opened Requests
  import opened Partner
  import opened Invoices
  import opened Integrity
  import opened Backfill
  import opened Cash
  import opened Runs
  import opened BulkRetry
  import opened Drafts

  datatype DaySummary = DaySummary(initial: nat, sales: int, withdrawals: nat, drawer: int, hasInitial: bool,
                                   invoices: nat)

  class InvoiceBook {
    var rows: map<nat, Invoice>
    var nextId: nat
    var schedules: seq<ScheduleRef>
    var payments: seq<Option<nat>>
    var deposits: seq<Deposit>

    ghost function Model(): Book
      reads this
    {
      Book(rows, nextId, schedules, payments, deposits)
    }

    constructor ()
      ensures Model() == EMPTY
    {
      rows, nextId, schedules, payments, deposits := map[], 0, [], [], [];
    }

    /** save_draft_invoice; None when the external id is taken. */
    method SaveDraft(tenant: nat, req: Request, isTemplate: bool, token: Hex) returns (id: Option<nat>)
      modifies this
      ensures Model() == Step(old(Model()), Save(tenant, req, isTemplate, token))
      ensures id == if SaveChange(old(Model()), tenant, req, isTemplate, token).Insert? then Some(old(nextId)) else None
    {
      var externalId := if req.externalId.Some? then Trim(req.externalId.value) else "";
      if externalId == "" { externalId := "draft-" + token; }
      if FindBelow(rows, tenant, externalId, nextId).Some? { return None; }
      rows := rows[nextId := DraftRow(tenant, externalId, req, isTemplate)];
      id := Some(nextId);
      nextId := nextId + 1;
    }

    /** update_draft_invoice; false when the row may not be changed. */
    method UpdateDraft(tenant: nat, id: nat, req: Request, isTemplate: Option<bool>) returns (ok: bool)
      modifies this
      ensures Model() == Step(old(Model()), Update(tenant, id, req, isTemplate))
      ensures ok <==> id in old(rows) && old(rows)[id].tenant == tenant && Editable(old(rows)[id])
    {
      if id !in rows || rows[id].tenant != tenant || !Editable(rows[id]) { return false; }
      var r := rows[id];
      if isTemplate.Some? { r := r.(isTemplate := isTemplate.value); }
      r := r.(status := Draft, typeOfInv := req.typeOfInv, pay := req.pay, docType := req.docType,
              currency := req.currency, issue := req.issue, buyer := req.buyer, notes := req.notes,
              net := req.net, vat := req.vat, gross := req.gross, payload := req, error := None,
              refIkof := req.iicRef, refInvoice := req.refInvoice);
      r := r.(ikof := None, jikr := None, qr := None, partnerRef := None, sig := None, invNum := None,
              ordNum := None, localNum := None, fiscalizedAt := None);
      r := r.(lines := req.lines);
      rows := rows[id := r];
      ok := true;
    }

    /** delete_draft_invoice; false when the row may not be deleted. */
    method DeleteDraft(tenant: nat, id: nat) returns (ok: bool)
      modifies this
      ensures Model() == Step(old(Model()), Delete(tenant, id))
      ensures ok <==> id in old(rows) && id !in rows
    {
      if id !in rows || rows[id].tenant != tenant { return false; }
      if HasIkof(rows[id]) || !Editable(rows[id]) { return false; }
      if exists s | s in schedules :: s.template == id { return false; }
      var refs, pays := schedules, payments;
      schedules := seq(|refs|, i requires 0 <= i < |refs| => refs[i].(last := Cleared(refs[i].last, id)));
      payments := seq(|pays|, i requires 0 <= i < |pays| => Cleared(pays[i], id));
      rows := rows - {id};
      ok := true;
    }

    /** The numbers of a submission, and the IKOF and signature reused for it. */
    method ChooseNumbers(t: Tenant, req: Request, existing: Option<nat>)
      returns (ord: nat, local: nat, reuse: Option<string>, reuseSig: Option<string>)
      requires existing == Existing(Model(), t, req)
      ensures ord == ChosenOrd(Model(), t, req) && local == ChosenLocal(Model(), t, req)
      ensures reuse == ReuseIic(Model(), t, req) && reuseSig == ReuseSig(Model(), t, req)
    {
      var when := req.issue.wall.date;
      if Positive(req.ordNum) {
        ord := req.ordNum.value;
      } else if existing.Some? && Positive(rows[existing.value].ordNum) {
        ord := rows[existing.value].ordNum.value;
      } else {
        ord := MaxBelow(rows, OrdInYear(t.id, when.year), nextId) + 1;
      }
      if existing.Some? && Positive(rows[existing.value].localNum) {
        local := rows[existing.value].localNum.value;
      } else {
        local := MaxBelow(rows, LocalInMonth(t.id, when.year, when.month, false), nextId) + 1;
      }
      reuse, reuseSig := None, None;
      if existing.Some? && Waiting(rows[existing.value]) {
        reuse, reuseSig := rows[existing.value].ikof, rows[existing.value].sig;
      }
    }

    /** fiscalize_invoice */
    method FiscalizeInvoice(t: Tenant, req: Request, w: World, now: DateTime) returns (response: Response)
      modifies this
      ensures Model() == Step(old(Model()), Submit(t, req, w, now))
      ensures response == FiscalizeResponse(old(Model()), t, req, w, now)
    {
      if Refusal(req).Some? { return Refused(Refusal(req).value); }
      var existing: Option<nat> := None;
      if Given(req.externalId) {
        existing := FindBelow(rows, t.id, req.externalId.value, nextId);
        if existing.Some? && rows[existing.value].status.Fiscalized? {
          return Shown(existing.value, rows[existing.value]);
        }
      }
      var ord, local, reuse, reuseSig := ChooseNumbers(t, req, existing);
      var result := Partner.Fiscalize(t, w, req, ord, reuse, reuseSig);
      var invNum := StoredInvNum(t, req, ord, result);
      var externalId := StoredId(req, invNum);
      if existing.None? {
        existing := FindBelow(rows, t.id, externalId, nextId);
      }
      assert CallsPartner(Model(), t, req) && existing == Target(Model(), t, req, w);
      response := Record(t, req, existing, externalId, invNum, ord, local, result, now);
    }

    /** The answer of the partner written to the table. */
    method Record(t: Tenant, req: Request, target: Option<nat>, externalId: string, invNum: string,
                  ord: nat, local: nat, result: PartnerResult, now: DateTime) returns (response: Response)
      requires target.Some? ==> target.value in rows
      modifies this
      ensures var b := old(Model());
        var c := RecordChange(b, t, req, target, externalId, invNum, ord, local, result, now);
        Model() == Apply(b, c) && response == RecordResponse(b, target, c)
    {
      if target.None? {
        var invoice := SubmittedRow(t.id, req, externalId, invNum, StoredOrd(ord, result), local);
        invoice := Settled(invoice, result, now);
        rows := rows[nextId := invoice];
        response := Shown(nextId, invoice);
        nextId := nextId + 1;
      } else if rows[target.value].status.Fiscalized? {
        response := Shown(target.value, rows[target.value]);
      } else {
        var invoice := Resubmitted(rows[target.value], req, externalId, invNum, StoredOrd(ord, result), local);
        invoice := Settled(invoice, result, now);
        rows := rows[target.value := invoice];
        response := Shown(target.value, invoice);
      }
    }

    /** fiscalize_saved_invoice; None when the tenant has no such row. */
    method FiscalizeSaved(t: Tenant, id: nat, w: World, now: DateTime) returns (response: Option<Response>)
      modifies this
      ensures Model() == Step(old(Model()), SubmitSaved(t, id, w, now))
      ensures response.Some? <==> id in old(rows) && old(rows)[id].tenant == t.id
      ensures response.Some? ==>
        response.value == if old(rows)[id].status.Fiscalized? then Shown(id, old(rows)[id])
                          else FiscalizeResponse(old(Model()), t, SavedRequest(old(rows)[id], now), w, now)
    {
      SubmittedStep(Model(), SubmitSaved(t, id, w, now));
      if id !in rows || rows[id].tenant != t.id { return None; }
      if rows[id].status.Fiscalized? { return Some(Shown(id, rows[id])); }
      var req := SavedRequest(rows[id], now);
      var r := FiscalizeInvoice(t, req, w, now);
      response := Some(r);
    }

    /** retry_offline_invoices: the selected rows are sent again one by one and counted by how they end. */
    method RetryOffline(tenant: Option<nat>, cutoff: Stamp, tenants: map<nat, Tenant>, calls: nat -> Call)
      returns (report: Report)
      requires BookInv(Model()) && TenantsOk(tenants)
      modifies this
      ensures BookInv(Model())
      ensures var b := old(Model()); Model() == Run(b, RetryOps(b, Selected(b, tenant, cutoff), tenants, calls, 0))
      ensures forall id | id in old(rows) :: EndsRight(old(Model()), Model(), id, tenant, cutoff, tenants, calls)
      ensures var ids := Selected(old(Model()), tenant, cutoff); Reports(report, ids, Model(), |ids|)
    {
      ghost var b := Model();
      var ids := SelectRetries(tenant, cutoff);
      RunBegins(b, ids, tenants, calls, tenant, cutoff);
      report := RetryAll(b, ids, tenants, calls);
      RunEnds(b, Model(), ids, tenants, calls, report);
      forall id | id in b.rows ensures EndsRight(b, Model(), id, tenant, cutoff, tenants, calls) {
        EveryRowEnds(b, tenant, cutoff, tenants, calls, id);
      }
    }

    /** Its loop. */
    method RetryAll(ghost b: Book, ids: seq<nat>, tenants: map<nat, Tenant>, calls: nat -> Call)
      returns (report: Report)
      requires TenantsOk(tenants) && UnderWay(b, Model(), ids, tenants, calls, 0, Report(0, 0, 0))
      modifies this
      ensures UnderWay(b, Model(), ids, tenants, calls, |ids|, report)
    {
      report := Report(0, 0, 0);
      for i := 0 to |ids|
        invariant UnderWay(b, Model(), ids, tenants, calls, i, report)
      {
        report := RetryTurn(b, ids, tenants, calls, i, report);
      }
    }

    /** One turn of its loop; rows of an unknown tenant are passed over. */
    method RetryTurn(ghost b: Book, ids: seq<nat>, tenants: map<nat, Tenant>, calls: nat -> Call, i: nat,
                     before: Report)
      returns (report: Report)
      requires TenantsOk(tenants) && i < |ids| && UnderWay(b, Model(), ids, tenants, calls, i, before)
      modifies this
      ensures UnderWay(b, Model(), ids, tenants, calls, i + 1, report)
    {
      var id := ids[i];
      ghost var was := Model();
      NextUntried(b, was, ids, i);
      if rows[id].tenant !in tenants {
        TurnCounts(b, was, was, ids, i, before);
        return before.(skipped := before.skipped + 1);
      }
      var response := RetryOne(id, tenants[rows[id].tenant], calls(id), b, RetryOps(b, ids, tenants, calls, i + 1));
      TurnCounts(b, was, Model(), ids, i, before);
      report := Tally(before, response.row);
    }

    /** How an answer is counted. */
    method Tally(before: Report, row: Invoice) returns (report: Report)
      requires RowInv(row)
      ensures report == before.Add(row.status)
    {
      if row.status.Fiscalized? {
        report := before.(done := before.done + 1);
      } else if row.status.Pending? && HasIkof(row) && !HasJikr(row) {
        report := before.(skipped := before.skipped + 1);
      } else {
        report := before.(failed := before.failed + 1);
      }
    }

    method SelectRetries(tenant: Option<nat>, cutoff: Stamp) returns (ids: seq<nat>)
      ensures ids == Selected(Model(), tenant, cutoff)
    {
      var all := RetriableBelow(rows, tenant, cutoff, nextId);
      ids := if |all| <= RETRY_LIMIT then all else all[..RETRY_LIMIT];
    }

    /** One retry: only the row itself can change, and the answer shows it as it then is. */
    method RetryOne(id: nat, t: Tenant, call: Call, ghost b: Book, ghost rest: seq<Op>) returns (response: Response)
      requires BookInv(Model()) && CodesTrimmed(t) && SameOwners(b, Model())
      requires id in rows && rows[id].tenant == t.id && rows[id].status.Pending?
      modifies this
      ensures Model() == Step(old(Model()), SubmitSaved(t, id, call.w, call.now)) && BookInv(Model())
      ensures SameOwners(b, Model())
      ensures Run(old(Model()), [SubmitSaved(t, id, call.w, call.now)] + rest) == Run(Model(), rest)
      ensures forall k | k in old(rows) && k != id :: k in rows && rows[k] == old(rows)[k]
      ensures id in rows && response == Shown(id, rows[id]) && RowInv(rows[id]) && !rows[id].status.Draft?
    {
      ghost var before := Model();
      var op := SubmitSaved(t, id, call.w, call.now);
      StepKeepsOwners(b, before, op);
      StepKeepsInvariant(before, op);
      RunHead(before, op, rest);
      OthersStay(before, t, id, call);
      AnswerIsRow(before, t, id, call);
      var r := FiscalizeSaved(t, id, call.w, call.now);
      response := r.value;
    }

    /** copy_invoices: rows that existed when the call began are copied in the order given; None, and nothing
        stored, when a generated id is taken. */
    method CopyInvoices(tenant: nat, ids: seq<nat>, now: DateTime, tokens: nat -> Hex) returns (first: Option<nat>)
      requires forall id | id in rows :: id < nextId
      modifies this`rows, this`nextId
      ensures first.Some? <==> AllCopied(old(Model()), CopyOps(old(Model()), tenant, ids, now, tokens, 0))
      ensures first.None? ==> Model() == old(Model())
      ensures first.Some? ==> first.value == old(nextId)
      ensures first.Some? ==> var b := old(Model()); Model() == Run(b, CopyOps(b, tenant, ids, now, tokens, 0))
      ensures first.Some? ==> CopiesMade(old(Model()), Model(), tenant, ids, now)
      ensures forall id | id in old(rows) :: id in rows && rows[id] == old(rows)[id]
    {
      ghost var b := Model();
      var sources, start := rows, nextId;
      var i := 0;
      while i < |ids|
        invariant i <= |ids| && start <= nextId
        invariant Run(b, CopyOps(b, tenant, ids, now, tokens, 0))
               == Run(Model(), CopyOps(b, tenant, ids, now, tokens, i))
        invariant AllCopied(b, CopyOps(b, tenant, ids, now, tokens, 0))
             <==> AllCopied(Model(), CopyOps(b, tenant, ids, now, tokens, i))
        invariant forall id | id in sources :: id in rows && rows[id] == sources[id]
      {
        if ids[i] in sources && sources[ids[i]].tenant == tenant {
          CopyHead(Model(), Copy(tenant, ids[i], now, tokens(i)), CopyOps(b, tenant, ids, now, tokens, i + 1));
          var ok := CopyOne(tenant, ids[i], now, tokens(i));
          if !ok {
            rows, nextId := sources, start;
            return None;
          }
        }
        i := i + 1;
      }
      ghost var copies, from := BulkCopies(b, Model(), tenant, ids, now, tokens);
      first := Some(start);
    }

    method CopyOne(tenant: nat, id: nat, now: DateTime, token: Hex) returns (ok: bool)
      requires id in rows && rows[id].tenant == tenant
      modifies this`rows, this`nextId
      ensures Model() == Step(old(Model()), Copy(tenant, id, now, token))
      ensures ok <==> ChangeOf(old(Model()), Copy(tenant, id, now, token)).Insert?
      ensures old(nextId) <= nextId
      ensures forall k | k in old(rows) && k < old(nextId) :: k in rows && rows[k] == old(rows)[k]
    {
      var copy := CopyRow(rows[id], id, now, token);
      ok := FindBelow(rows, tenant, copy.externalId, nextId).None?;
      if ok {
        rows := rows[nextId := copy];
        nextId := nextId + 1;
      }
    }

    /** backfill_local_ord_nums */
    method BackfillLocalNumbers(tenant: Option<nat>) returns (n: nat)
      modifies this
      ensures Model() == Step(old(Model()), FillNumbers(tenant))
      ensures n == |Order(old(Model()), tenant)|
    {
      OrderCorrect(Model(), tenant);
      var ids := Order(Book(rows, nextId, schedules, payments, deposits), tenant);
      assert forall i | 0 <= i < |ids| :: ids[i] in ids;
      var after;
      after, n := AssignNumbers(rows, ids, nextId);
      rows := after;
    }

    /** register_cash_deposit; None when an opening deposit may no longer be changed. */
    method RegisterCashDeposit(t: Tenant, req: DepositRequest, w: World) returns (entry: Option<Deposit>)
      modifies this`deposits
      ensures Model() == Step(old(Model()), DepositCash(t, req, w))
      ensures entry == if DepositRefused(old(Model()), t, req) then None else Some(Entry(t, req, w))
    {
      var day := req.at.wall.date;
      if req.operation.INITIAL? {
        var k := FirstOpen(deposits, t.id, day);
        var sold := exists id | id in rows :: SaleIn(rows[id], t.id, day);
        if k < |deposits| && sold { return None; }
        if k < |deposits| { deposits := deposits[k := deposits[k].(status := Superseded)]; }
      }
      var row := Entry(t, req, w);
      deposits := deposits + [row];
      entry := Some(row);
    }

    /** cash_day_summary */
    method CashDaySummary(tenant: nat, day: Date) returns (s: DaySummary)
      ensures s.initial == OpeningAmount(deposits, tenant, day) && s.withdrawals == Withdrawals(deposits, tenant, day)
      ensures s.sales == CashSalesBelow(rows, tenant, day, nextId)
      ensures s.drawer == Drawer(Model(), tenant, day)
      ensures s.hasInitial <==> exists d :: d in deposits && OpenIn(d, tenant, day)
      ensures s.invoices == |set id | id in rows && SaleIn(rows[id], tenant, day)|
    {
      var initial, withdrawals, hasInitial := DayDeposits(deposits, tenant, day);
      var sales := CashSalesBelow(rows, tenant, day, nextId);
      var sold := set id | id in rows && SaleIn(rows[id], tenant, day);
      s := DaySummary(initial, sales, withdrawals, initial + sales - withdrawals, hasInitial, |sold|);
    }
  }
}
