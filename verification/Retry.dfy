/** Invoices issued offline: every retry sends the request the IKOF was computed over
    (fiscalize_invoice, invoice_to_fiscalize_request, retry_offline_invoices). */
module Retry {
  import opened Wrappers
  import opened Calendar
  import opened Requests
  import opened Partner
  import opened Invoices
  import opened Integrity
  import opened Backfill
  import opened Runs
  import opened Ikof

  /** The request a retry makes of the first submission: only the external id and the number, both
      settled by then, are filled in. */
  function Completed(first: Request, externalId: string, ord: nat): Request {
    first.(externalId := Some(externalId), ordNum := Some(ord))
  }

  /** The row still waits for the JIKR of this first submission. */
  predicate WaitingFor(r: Invoice, first: Request, ord: nat, ikof: string) {
    && Waiting(r) && r.ikof == Some(ikof) && ord > 0 && r.ordNum == Some(ord)
    && r.issue == first.issue && r.lines == first.lines
    && (r.net, r.vat, r.gross) == (first.net, first.vat, first.gross)
    && r.refIkof == (if Given(first.iicRef) then first.iicRef else None)
    && r.refInvoice == first.refInvoice
    && r.payload == first.(externalId := r.payload.externalId, ordNum := r.payload.ordNum)
  }

  /** The JIKR has arrived for this first submission. */
  predicate SettledFor(r: Invoice, first: Request, ord: nat, ikof: string) {
    && r.status.Fiscalized? && HasJikr(r) && r.ikof == Some(ikof) && r.ordNum == Some(ord)
    && r.issue == first.issue && r.lines == first.lines
    && (r.net, r.vat, r.gross) == (first.net, first.vat, first.gross)
  }

  /** A submission stored as a new row without an answer waits for its JIKR. */
  lemma FirstOffline(b: Book, t: Tenant, req: Request, w: World, now: DateTime)
    requires FiscalizeChange(b, t, req, w, now).Insert?
    requires FiscalizeChange(b, t, req, w, now).row.status.Pending?
    ensures var r := FiscalizeChange(b, t, req, w, now).row;
      r.ikof.Some? && WaitingFor(r, req, ChosenOrd(b, t, req), r.ikof.value)
  {
    AdapterContract(t, w, req, ChosenOrd(b, t, req), ReuseIic(b, t, req), ReuseSig(b, t, req));
  }

  /** A certificate is there and no post is answered. */
  function Silent(h: Hex): World {
    World(Some((p: IicInput) => h), "signature", h, true, [NoAnswer, NoAnswer, NoAnswer], "u")
  }

  lemma SilentOffline(t: Tenant, req: Request, ord: nat, h: Hex, reuse: Option<string>, sig: Option<string>)
    requires GrossAllowed(req) && !t.channel.Mock?
    ensures var r := Partner.Fiscalize(t, Silent(h), req, ord, reuse, sig);
      !r.ok && r.offline && r.ikof == LocalIic(t, Silent(h), req, ord, reuse, sig).0
  {
    OfflineMeansNoAnswer(Silent(h).attempts);
  }

  /** In any table, a request that can be sent and finds no row is stored so when no post of its channel is
      answered; the mock channel posts nothing. */
  lemma SilenceIsOffline(b: Book, t: Tenant, req: Request, now: DateTime, h: Hex)
    requires Sendable(req) && !t.channel.Mock? && Target(b, t, req, Silent(h)).None?
    ensures var c := FiscalizeChange(b, t, req, Silent(h), now);
      c.Insert? && c.row.status.Pending? && c.row.ikof == Some(h)
  {
    SilentOffline(t, req, ChosenOrd(b, t, req), h, None, None);
  }

  /** The request rebuilt from such a row, at any later time, is the first one completed; so the IKOF
      would be computed over the same data. */
  lemma RetryRequest(r: Invoice, first: Request, ord: nat, ikof: string, now: DateTime, t: Tenant)
    requires WaitingFor(r, first, ord, ikof)
    ensures SavedRequest(r, now) == Completed(first, r.externalId, ord)
    ensures IicInputOf(t, SavedRequest(r, now), ord) == IicInputOf(t, first, ord)
  {
  }

  /** The retry passes the stored IKOF and number to the partner. */
  lemma RetryReuses(b: Book, t: Tenant, id: nat, now: DateTime, first: Request, ord: nat, ikof: string)
    requires BookInv(b) && id in b.rows && b.rows[id].tenant == t.id
    requires WaitingFor(b.rows[id], first, ord, ikof)
    ensures var q := SavedRequest(b.rows[id], now);
      && Existing(b, t, q) == Some(id)
      && ReuseIic(b, t, q) == Some(ikof)
      && ChosenOrd(b, t, q) == ord
  {
    assert RowInv(b.rows[id]);
    FindIs(b, id);
  }

  lemma HarmlessOutcome(b: Book, t: Tenant, req: Request, w: World, id: nat)
    requires BookInv(b) && id in b.rows && Waiting(b.rows[id])
    requires Existing(b, t, req) == Some(id) && HarmlessSubmit(b, t, req, w, id)
    ensures var result := Outcome(b, t, req, w); result.ok || result.offline ==> result.ikof == b.rows[id].ikof
  {
    if !Exposes(b, t, req, id) { ReuseIsUsed(b, t, req, w, id); }
    OutcomeKeepsIkof(b, t, req, w, id);
  }

  lemma RetryOutcome(b: Book, t: Tenant, id: nat, w: World, now: DateTime, first: Request, ord: nat, ikof: string)
    requires BookInv(b) && CodesTrimmed(t) && id in b.rows && b.rows[id].tenant == t.id
    requires WaitingFor(b.rows[id], first, ord, ikof) && Harmless(b, SubmitSaved(t, id, w, now), id)
    ensures var result := Outcome(b, t, SavedRequest(b.rows[id], now), w);
      Sound(result, ord) && (result.ok || result.offline ==> result.ikof == Some(ikof))
  {
    var r := b.rows[id];
    assert RowInv(r);
    var q := SavedRequest(r, now);
    RetryReuses(b, t, id, now, first, ord, ikof);
    AdapterContract(t, w, q, ord, Some(ikof), r.sig);
    HarmlessOutcome(b, t, q, w, id);
  }

  /** Where the stored IKOF is the hash of the first submission's data, a retry signed with the same hash is always
      harmless: should it have to compute the IKOF again, it computes the same. */
  lemma SignedRetryHarmless(b: Book, t: Tenant, id: nat, w: World, now: DateTime, first: Request, ord: nat,
                            hash: IicInput -> Hex)
    requires BookInv(b) && id in b.rows && b.rows[id].tenant == t.id
    requires WaitingFor(b.rows[id], first, ord, hash(IicInputOf(t, first, ord)))
    requires w.certificate == Some(hash) && EchoesHere(b, t, SavedRequest(b.rows[id], now), w)
    ensures Harmless(b, SubmitSaved(t, id, w, now), id)
  {
    var q := SavedRequest(b.rows[id], now);
    RetryReuses(b, t, id, now, first, ord, hash(IicInputOf(t, first, ord)));
    RetryRequest(b.rows[id], first, ord, hash(IicInputOf(t, first, ord)), now, t);
    if Exposes(b, t, q, id) { ExposedIsComputed(b, t, q, w, id, hash); }
  }

  /** What a retry writes, if it writes anything. */
  lemma RetryWrites(b: Book, t: Tenant, id: nat, w: World, now: DateTime, first: Request, ord: nat, ikof: string)
    returns (externalId: string, invNum: string, local: nat)
    requires BookInv(b) && id in b.rows && b.rows[id].tenant == t.id
    requires WaitingFor(b.rows[id], first, ord, ikof)
    ensures var q, c := SavedRequest(b.rows[id], now), SavedChange(b, t, id, w, now);
      var result := Outcome(b, t, q, w);
      c == Nothing
      || c == Replace(id, Settled(Resubmitted(b.rows[id], q, externalId, invNum, StoredOrd(ord, result), local),
                                  result, now))
  {
    var q := SavedRequest(b.rows[id], now);
    RetryReuses(b, t, id, now, first, ord, ikof);
    externalId, local := FinalId(b, t, q, w), ChosenLocal(b, t, q);
    invNum := StoredInvNum(t, q, ord, Outcome(b, t, q, w));
  }

  /** One retry either brings the JIKR for the same IKOF or leaves the row waiting for it. */
  lemma RetryStep(b: Book, t: Tenant, id: nat, w: World, now: DateTime, first: Request, ord: nat, ikof: string)
    requires BookInv(b) && CodesTrimmed(t) && id in b.rows && b.rows[id].tenant == t.id
    requires WaitingFor(b.rows[id], first, ord, ikof) && Harmless(b, SubmitSaved(t, id, w, now), id)
    ensures var after := Step(b, SubmitSaved(t, id, w, now));
      id in after.rows && (WaitingFor(after.rows[id], first, ord, ikof) || SettledFor(after.rows[id], first, ord, ikof))
  {
    var r := b.rows[id];
    assert RowInv(r);
    RetryRequest(r, first, ord, ikof, now, t);
    RetryOutcome(b, t, id, w, now, first, ord, ikof);
    var externalId, invNum, local := RetryWrites(b, t, id, w, now, first, ord, ikof);
    var q := SavedRequest(r, now);
    SubmittedStep(b, SubmitSaved(t, id, w, now));
    RetryRow(r, q, Outcome(b, t, q, w), externalId, invNum, local, now, first, ord, ikof);
  }

  lemma RetryRow(r: Invoice, q: Request, result: PartnerResult, externalId: string, invNum: string, local: nat,
                 now: DateTime, first: Request, ord: nat, ikof: string)
    requires WaitingFor(r, first, ord, ikof) && RowInv(r) && q == Completed(first, r.externalId, ord)
    requires Sound(result, ord) && (result.ok || result.offline ==> result.ikof == Some(ikof))
    ensures var s := Settled(Resubmitted(r, q, externalId, invNum, StoredOrd(ord, result), local), result, now);
      WaitingFor(s, first, ord, ikof) || SettledFor(s, first, ord, ikof)
  {
  }

  // ---------- submitting a waiting row again ----------

  /** The request says what the first one said, under the number the row has, if it gives one. */
  predicate Agrees(req: Request, first: Request, ord: nat) {
    && req == first.(externalId := req.externalId, ordNum := req.ordNum)
    && (Positive(req.ordNum) ==> req.ordNum == Some(ord))
  }

  /** A submission under a waiting row's id is sent with the stored IKOF, whatever it says; the IKOF was
      computed over the same data exactly when time, total and number agree. */
  lemma ResubmissionReuses(b: Book, t: Tenant, req: Request, id: nat, first: Request, ord: nat, ikof: string)
    requires id in b.rows && WaitingFor(b.rows[id], first, ord, ikof) && Existing(b, t, req) == Some(id)
    ensures ReuseIic(b, t, req) == Some(ikof)
    ensures IicInputOf(t, req, ChosenOrd(b, t, req)) == IicInputOf(t, first, ord)
       <==> req.issue == first.issue && req.gross == first.gross && (Positive(req.ordNum) ==> req.ordNum == Some(ord))
  {
  }

  lemma ResubmittedRow(r: Invoice, req: Request, result: PartnerResult, externalId: string, invNum: string,
                       num: nat, local: nat, now: DateTime, first: Request, ord: nat, ikof: string)
    requires WaitingFor(r, first, ord, ikof) && RowInv(r)
    requires num == (if Positive(req.ordNum) then req.ordNum.value else ord)
    requires Sound(result, num) && (result.ok || result.offline ==> result.ikof == Some(ikof))
    ensures var s := Settled(Resubmitted(r, req, externalId, invNum, StoredOrd(num, result), local), result, now);
      if result.ok then
        SettledFor(s, first, ord, ikof)
        <==> (req.net, req.vat, req.gross) == (first.net, first.vat, first.gross) && num == ord
      else WaitingFor(s, first, ord, ikof) <==> Agrees(req, first, ord)
  {
    var s := Settled(Resubmitted(r, req, externalId, invNum, StoredOrd(num, result), local), result, now);
    if !result.ok && WaitingFor(s, first, ord, ikof) {
      assert s.payload == req;
    }
  }

  lemma ResubmissionOutcome(b: Book, t: Tenant, req: Request, w: World, now: DateTime, id: nat,
                            first: Request, ord: nat, ikof: string)
    requires BookInv(b) && id in b.rows && WaitingFor(b.rows[id], first, ord, ikof)
    requires Existing(b, t, req) == Some(id) && Harmless(b, Submit(t, req, w, now), id)
    ensures var result := Outcome(b, t, req, w);
      Sound(result, ChosenOrd(b, t, req)) && (result.ok || result.offline ==> result.ikof == Some(ikof))
  {
    assert RowInv(b.rows[id]);
    AdapterContract(t, w, req, ChosenOrd(b, t, req), ReuseIic(b, t, req), ReuseSig(b, t, req));
    HarmlessOutcome(b, t, req, w, id);
  }

  /** What a submission under the id of an unfiscalized row writes. */
  lemma ResubmissionWrites(b: Book, t: Tenant, req: Request, w: World, now: DateTime, id: nat)
    returns (externalId: string, invNum: string, local: nat)
    requires BookInv(b) && CallsPartner(b, t, req) && Existing(b, t, req) == Some(id)
    ensures var result := Outcome(b, t, req, w);
      FiscalizeChange(b, t, req, w, now)
      == Replace(id, Settled(Resubmitted(b.rows[id], req, externalId, invNum,
                                         StoredOrd(ChosenOrd(b, t, req), result), local), result, now))
  {
    externalId, local := FinalId(b, t, req, w), ChosenLocal(b, t, req);
    invNum := StoredInvNum(t, req, ChosenOrd(b, t, req), Outcome(b, t, req, w));
  }

  /** A client submits a waiting row's id again.  Without a JIKR the row still waits for its first submission
      exactly when the two requests agree; with one, it is settled for the first submission exactly when
      totals and number agree. */
  lemma ResubmissionExactly(b: Book, t: Tenant, req: Request, w: World, now: DateTime, id: nat,
                            first: Request, ord: nat, ikof: string)
    requires BookInv(b) && id in b.rows && WaitingFor(b.rows[id], first, ord, ikof)
    requires CallsPartner(b, t, req) && Existing(b, t, req) == Some(id)
    requires Harmless(b, Submit(t, req, w, now), id)
    ensures var c := FiscalizeChange(b, t, req, w, now);
      && c.Replace? && c.id == id
      && (if Outcome(b, t, req, w).ok then
            SettledFor(c.row, first, ord, ikof)
            <==> (req.net, req.vat, req.gross) == (first.net, first.vat, first.gross) && ChosenOrd(b, t, req) == ord
          else WaitingFor(c.row, first, ord, ikof) <==> Agrees(req, first, ord))
  {
    ResubmissionOutcome(b, t, req, w, now, id, first, ord, ikof);
    var externalId, invNum, local := ResubmissionWrites(b, t, req, w, now, id);
    assert RowInv(b.rows[id]);
    ResubmittedRow(b.rows[id], req, Outcome(b, t, req, w), externalId, invNum, ChosenOrd(b, t, req), local, now,
                   first, ord, ikof);
  }

  lemma OverwrittenRow(r: Invoice, req: Request, result: PartnerResult, externalId: string, invNum: string,
                       num: nat, local: nat, now: DateTime, later: DateTime)
    requires Waiting(r) && result.offline && !result.ok && result.ikof == r.ikof
    ensures var s := Settled(Resubmitted(r, req, externalId, invNum, StoredOrd(num, result), local), result, now);
      && Waiting(s) && s.status.Pending? && s.ikof == r.ikof && s.issue == r.issue && s.lines == r.lines
      && s.payload == req && (s.net, s.vat, s.gross) == (req.net, req.vat, req.gross)
      && SavedRequest(s, later).lines == req.lines && SavedRequest(s, later).gross == req.gross
      && SavedRequest(s, later).issue == r.issue
  {
  }

  /** So one IKOF can come to cover two invoices: any request that can be sent, submitted under a waiting row's
      id and left unanswered, keeps the IKOF and replaces the amounts, and every later retry sends the second
      request at the first one's time. */
  lemma ResubmissionOverwrites(b: Book, t: Tenant, req: Request, now: DateTime, later: DateTime, id: nat, h: Hex)
    requires BookInv(b) && id in b.rows && Waiting(b.rows[id]) && Sendable(req) && !t.channel.Mock?
    requires Existing(b, t, req) == Some(id) && !b.rows[id].status.Fiscalized? && !LosesSignature(b, t, req, id)
    ensures var c := FiscalizeChange(b, t, req, Silent(h), now);
      && c.Replace? && c.id == id && Waiting(c.row) && c.row.status.Pending? && c.row.ikof == b.rows[id].ikof
      && c.row.payload == req && (c.row.net, c.row.vat, c.row.gross) == (req.net, req.vat, req.gross)
      && c.row.issue == b.rows[id].issue && c.row.lines == b.rows[id].lines
      && SavedRequest(c.row, later).gross == req.gross && SavedRequest(c.row, later).lines == req.lines
      && SavedRequest(c.row, later).issue == b.rows[id].issue
  {
    var r := b.rows[id];
    assert RowInv(r);
    SilentOffline(t, req, ChosenOrd(b, t, req), h, r.ikof, r.sig);
    var externalId, invNum, local := ResubmissionWrites(b, t, req, Silent(h), now, id);
    OverwrittenRow(r, req, Outcome(b, t, req, Silent(h)), externalId, invNum, ChosenOrd(b, t, req), local, now, later);
  }

  // ---------- over runs ----------

  /** A direct submission that writes over the row finds it by its id, agrees with the first one and, like a
      retry, meets an echoing partner. */
  predicate LeavesAlone(b: Book, op: Op, id: nat, first: Request, ord: nat)
    requires id in b.rows
  {
    match op
    case Submit(t, req, w, now) =>
      CallsPartner(b, t, req) && Target(b, t, req, w) == Some(id) ==>
        Existing(b, t, req) == Some(id) && Agrees(req, first, ord) && Harmless(b, op, id)
    case SubmitSaved(t, k, w, now) => Harmless(b, op, id)
    case _ => true
  }

  predicate LeftAlone(b: Book, ops: seq<Op>, id: nat, first: Request, ord: nat)
    decreases |ops|
  {
    ops == []
    || (id in b.rows && LeavesAlone(b, ops[0], id, first, ord) && LeftAlone(Step(b, ops[0]), ops[1..], id, first, ord))
  }

  lemma SavedFindsItself(b: Book, t: Tenant, k: nat, now: DateTime)
    requires BookInv(b) && k in b.rows && b.rows[k].tenant == t.id
    ensures Existing(b, t, SavedRequest(b.rows[k], now)) == Some(k)
  {
    assert RowInv(b.rows[k]);
    FindIs(b, k);
  }

  lemma SavedTargetsItself(b: Book, t: Tenant, k: nat, w: World, now: DateTime)
    requires BookInv(b) && k in b.rows && b.rows[k].tenant == t.id
    ensures Target(b, t, SavedRequest(b.rows[k], now), w) == Some(k)
  {
    assert RowInv(b.rows[k]);
    FindIs(b, k);
  }

  lemma SavedTouchesItself(b: Book, t: Tenant, k: nat, w: World, now: DateTime, id: nat)
    requires BookInv(b) && id != k
    ensures !Touches(SavedChange(b, t, k, w, now), id)
  {
    if k in b.rows && b.rows[k].tenant == t.id { SavedTargetsItself(b, t, k, w, now); }
  }

  /** The operation sends the row itself again, by its key or by its id. */
  predicate SendsAgain(b: Book, op: Op, id: nat)
    requires id in b.rows
  {
    match op
    case Submit(t, req, w, now) => CallsPartner(b, t, req) && Target(b, t, req, w) == Some(id)
    case SubmitSaved(t, k, w, now) => k == id && t.id == b.rows[id].tenant
    case _ => false
  }

  /** Submissions that send something else leave the row alone. */
  lemma OtherSubmission(b: Book, op: Op, id: nat)
    requires BookInv(b) && id in b.rows && Waiting(b.rows[id])
    requires (op.Submit? || op.SubmitSaved?) && !SendsAgain(b, op, id)
    ensures !Touches(ChangeOf(b, op), id)
  {
    match op {
      case Submit(t, req, w, now) =>
      case SubmitSaved(t, k, w, now) => if k != id { SavedTouchesItself(b, t, k, w, now, id); }
    }
  }

  lemma OtherStepKeepsWaiting(b: Book, op: Op, id: nat, first: Request, ord: nat, ikof: string)
    requires BookInv(b) && id in b.rows && WaitingFor(b.rows[id], first, ord, ikof)
    requires !SendsAgain(b, op, id)
    ensures id in Step(b, op).rows && WaitingFor(Step(b, op).rows[id], first, ord, ikof)
  {
    if op.FillNumbers? {
      FilledFrame(b, op.only, id);
    } else if op.Submit? || op.SubmitSaved? {
      OtherSubmission(b, op, id);
      Untouched(b, ChangeOf(b, op), id);
    } else {
      OtherStepKeepsRow(b, op, id);
    }
  }

  predicate WaitingOrSettled(b: Book, id: nat, first: Request, ord: nat, ikof: string) {
    id in b.rows && (WaitingFor(b.rows[id], first, ord, ikof) || SettledFor(b.rows[id], first, ord, ikof))
  }

  lemma AgreeingStep(b: Book, t: Tenant, req: Request, w: World, now: DateTime, id: nat,
                     first: Request, ord: nat, ikof: string)
    requires BookInv(b) && id in b.rows && WaitingFor(b.rows[id], first, ord, ikof)
    requires CallsPartner(b, t, req) && Existing(b, t, req) == Some(id) && Agrees(req, first, ord)
    requires Harmless(b, Submit(t, req, w, now), id)
    ensures WaitingOrSettled(Step(b, Submit(t, req, w, now)), id, first, ord, ikof)
  {
    ResubmissionExactly(b, t, req, w, now, id, first, ord, ikof);
    SubmittedStep(b, Submit(t, req, w, now));
  }

  lemma StepWaitsOrSettles(b: Book, op: Op, id: nat, first: Request, ord: nat, ikof: string)
    requires BookInv(b) && OpOk(op) && id in b.rows && LeavesAlone(b, op, id, first, ord)
    requires WaitingOrSettled(b, id, first, ord, ikof)
    ensures WaitingOrSettled(Step(b, op), id, first, ord, ikof)
  {
    var r := b.rows[id];
    if SettledFor(r, first, ord, ikof) {
      StepFreezes(b, op, id);
    } else if op.SubmitSaved? && SendsAgain(b, op, id) {
      RetryStep(b, op.t, id, op.w, op.now, first, ord, ikof);
    } else if op.Submit? && SendsAgain(b, op, id) {
      AgreeingStep(b, op.t, op.req, op.w, op.now, id, first, ord, ikof);
    } else {
      OtherStepKeepsWaiting(b, op, id, first, ord, ikof);
    }
  }

  /** After any run in which nobody submits other data under the row's id, with any number of failed retries
      and agreeing resubmissions, the row either still waits for the JIKR of its first submission, whose request
      every retry rebuilds, or has got it for the same IKOF. */
  lemma {:induction false} OfflineRun(b: Book, ops: seq<Op>, id: nat, first: Request, ord: nat, ikof: string)
    requires BookInv(b) && OpsOk(ops) && LeftAlone(b, ops, id, first, ord)
    requires WaitingOrSettled(b, id, first, ord, ikof)
    ensures WaitingOrSettled(Run(b, ops), id, first, ord, ikof)
    decreases |ops|
  {
    if ops != [] {
      assert ops[0] in ops;
      StepWaitsOrSettles(b, ops[0], id, first, ord, ikof);
      StepKeepsInvariant(b, ops[0]);
      OfflineRun(Step(b, ops[0]), ops[1..], id, first, ord, ikof);
    }
  }

  // ---------- a row that was a draft first ----------

  /** A draft is sent with the time of sending but keeps its own issue time.  When it goes offline, a
      retry therefore rebuilds the data its IKOF was computed over exactly when the two agree. */
  lemma DraftRetryAgrees(b: Book, t: Tenant, id: nat, w: World, now: DateTime, later: DateTime)
    requires BookInv(b) && id in b.rows && b.rows[id].tenant == t.id && b.rows[id].status.Draft?
    requires SavedChange(b, t, id, w, now).Replace? && SavedChange(b, t, id, w, now).row.status.Pending?
    ensures var sent, row := SavedRequest(b.rows[id], now), SavedChange(b, t, id, w, now).row;
      var again := SavedRequest(row, later);
      && Waiting(row) && again.issue == b.rows[id].issue && sent.issue == now
      && again.ordNum == Some(ChosenOrd(b, t, sent))
      && (IicInputOf(t, again, ChosenOrd(b, t, sent)) == IicInputOf(t, sent, ChosenOrd(b, t, sent))
          <==> b.rows[id].issue == now)
  {
    var r := b.rows[id];
    assert RowInv(r);
    var sent := SavedRequest(r, now);
    SavedTargetsItself(b, t, id, w, now);
    AdapterContract(t, w, sent, ChosenOrd(b, t, sent), ReuseIic(b, t, sent), ReuseSig(b, t, sent));
  }
}
