/** An IKOF is written once: when exactly a call keeps the IKOF a row already carries. */
module Ikof {
  import opened Wrappers
  import opened Text
  import opened Calendar
  import opened Requests
  import opened Partner
  import opened Invoices
  import opened Integrity
  import opened Backfill
  import opened Runs

  /** The external id a submission ends up with when the partner echoes our invoice number. */
  function ExpectedId(b: Book, t: Tenant, req: Request): string {
    StoredId(req, InvNumOf(t, ChosenOrd(b, t, req), req.issue))
  }

  /** The lookup before the call misses, and the one after it lands on this row: an invoice number
      generated or given that already is another row's external id, or an id given untrimmed. */
  predicate Collides(b: Book, t: Tenant, req: Request, id: nat) {
    Existing(b, t, req).None? && Find(b, t.id, ExpectedId(b, t, req)) == Some(id)
  }

  /** The tax authority's channel meets an IKOF that was stored without a signature. */
  predicate LosesSignature(b: Book, t: Tenant, req: Request, id: nat)
    requires id in b.rows
  {
    Existing(b, t, req) == Some(id) && t.channel.Poreska?
    && !(Given(b.rows[id].sig) && Trim(b.rows[id].sig.value) != "")
  }

  /** The partner answers with our invoice number and, when we sent one, our IKOF. */
  predicate EchoesHere(b: Book, t: Tenant, req: Request, w: World) {
    Echoes(t, w, req, ChosenOrd(b, t, req), ReuseIic(b, t, req), ReuseSig(b, t, req))
  }

  predicate KeepsIkof(b: Book, after: Book, id: nat)
    requires id in b.rows
  {
    id in after.rows && after.rows[id].ikof == b.rows[id].ikof
  }

  lemma EchoedId(b: Book, t: Tenant, req: Request, w: World)
    requires CodesTrimmed(t) && EchoesHere(b, t, req, w)
    ensures FinalId(b, t, req, w) == ExpectedId(b, t, req)
  {
    AdapterNumber(t, w, req, ChosenOrd(b, t, req), ReuseIic(b, t, req), ReuseSig(b, t, req));
  }

  lemma RecordKeepsIkof(b: Book, t: Tenant, req: Request, target: Option<nat>, externalId: string, invNum: string,
                        ord: nat, local: nat, result: PartnerResult, now: DateTime, id: nat)
    requires target.Some? ==> target.value in b.rows
    requires id in b.rows && id < b.nextId
    requires target == Some(id) && (result.ok || result.offline) ==> result.ikof == b.rows[id].ikof
    ensures KeepsIkof(b, Apply(b, RecordChange(b, t, req, target, externalId, invNum, ord, local, result, now)), id)
  {
  }

  /** The IKOF a submission is sent with: the one handed back, or one computed now. */
  function UsedIkof(b: Book, t: Tenant, req: Request, w: World): Option<string> {
    LocalIic(t, w, req, ChosenOrd(b, t, req), ReuseIic(b, t, req), ReuseSig(b, t, req)).0
  }

  /** The submission writes over the row and computes an IKOF of its own. */
  predicate Exposes(b: Book, t: Tenant, req: Request, id: nat)
    requires id in b.rows
  {
    Collides(b, t, req, id) || LosesSignature(b, t, req, id)
  }

  lemma OutcomeKeepsIkof(b: Book, t: Tenant, req: Request, w: World, id: nat)
    requires EchoesHere(b, t, req, w) && id in b.rows && UsedIkof(b, t, req, w) == b.rows[id].ikof
    ensures var result := Outcome(b, t, req, w); result.ok || result.offline ==> result.ikof == b.rows[id].ikof
  {
    IkofIsUsed(t, w, req, ChosenOrd(b, t, req), ReuseIic(b, t, req), ReuseSig(b, t, req));
  }

  lemma ReuseIsUsed(b: Book, t: Tenant, req: Request, w: World, id: nat)
    requires BookInv(b) && id in b.rows && Waiting(b.rows[id])
    requires Existing(b, t, req) == Some(id) && !LosesSignature(b, t, req, id)
    ensures UsedIkof(b, t, req, w) == b.rows[id].ikof
  {
    assert RowInv(b.rows[id]);
  }

  lemma SubmitKeepsIkof(b: Book, t: Tenant, req: Request, w: World, now: DateTime, id: nat)
    requires BookInv(b) && CodesTrimmed(t) && EchoesHere(b, t, req, w)
    requires id in b.rows && Waiting(b.rows[id])
    requires !Exposes(b, t, req, id) || UsedIkof(b, t, req, w) == b.rows[id].ikof
    ensures KeepsIkof(b, Apply(b, FiscalizeChange(b, t, req, w, now)), id)
  {
    EchoedId(b, t, req, w);
    if CallsPartner(b, t, req) {
      var result, ord := Outcome(b, t, req, w), ChosenOrd(b, t, req);
      if Target(b, t, req, w) == Some(id) {
        if !Exposes(b, t, req, id) { ReuseIsUsed(b, t, req, w, id); }
        OutcomeKeepsIkof(b, t, req, w, id);
      }
      RecordKeepsIkof(b, t, req, Target(b, t, req, w), FinalId(b, t, req, w), StoredInvNum(t, req, ord, result),
                      ord, ChosenLocal(b, t, req), result, now, id);
    }
  }

  // ---------- the other direction ----------

  lemma ExposedIsTarget(b: Book, t: Tenant, req: Request, w: World, id: nat)
    requires BookInv(b) && CodesTrimmed(t) && EchoesHere(b, t, req, w) && Refusal(req).None?
    requires id in b.rows && Waiting(b.rows[id]) && Exposes(b, t, req, id)
    ensures Target(b, t, req, w) == Some(id) && CallsPartner(b, t, req) && !b.rows[id].status.Fiscalized?
  {
    assert RowInv(b.rows[id]);
    EchoedId(b, t, req, w);
  }

  lemma RecordReplacesIkof(b: Book, t: Tenant, req: Request, id: nat, externalId: string, invNum: string,
                           ord: nat, local: nat, result: PartnerResult, now: DateTime)
    requires id in b.rows && !b.rows[id].status.Fiscalized? && result.ok && result.ikof != b.rows[id].ikof
    ensures !KeepsIkof(b, Apply(b, RecordChange(b, t, req, Some(id), externalId, invNum, ord, local, result, now)), id)
  {
  }

  /** A submission that computes another IKOF replaces the stored one when it is accepted. */
  lemma SubmitReplacesIkof(b: Book, t: Tenant, req: Request, v: World, now: DateTime, id: nat)
    requires BookInv(b) && CodesTrimmed(t) && Sendable(req) && CanSign(t, v)
    requires id in b.rows && Waiting(b.rows[id]) && Exposes(b, t, req, id)
    requires UsedIkof(b, t, req, v) != b.rows[id].ikof
    ensures var w := Answering(v, "J");
      && EchoesHere(b, t, req, w)
      && !KeepsIkof(b, Apply(b, FiscalizeChange(b, t, req, w, now)), id)
  {
    var w, ord := Answering(v, "J"), ChosenOrd(b, t, req);
    AnsweringAccepts(t, v, req, ord, ReuseIic(b, t, req), ReuseSig(b, t, req), "J");
    ExposedIsTarget(b, t, req, w, id);
    var result := Outcome(b, t, req, w);
    RecordReplacesIkof(b, t, req, id, FinalId(b, t, req, w), StoredInvNum(t, req, ord, result),
                       ord, ChosenLocal(b, t, req), result, now);
  }

  /** The submission is one the partner can accept. */
  predicate Sendable(req: Request) { Refusal(req).None? && GrossAllowed(req) }

  lemma UnsendableKeepsIkof(b: Book, t: Tenant, req: Request, w: World, now: DateTime, id: nat)
    requires BookInv(b) && id in b.rows && (!Sendable(req) || !CanSign(t, w))
    ensures KeepsIkof(b, Apply(b, FiscalizeChange(b, t, req, w, now)), id)
  {
    if CallsPartner(b, t, req) {
      var result, ord := Outcome(b, t, req, w), ChosenOrd(b, t, req);
      OkExactly(t, w, req, ord, ReuseIic(b, t, req), ReuseSig(b, t, req));
      OfflineExactly(t, w, req, ord, ReuseIic(b, t, req), ReuseSig(b, t, req));
      RecordKeepsIkof(b, t, req, Target(b, t, req, w), FinalId(b, t, req, w), StoredInvNum(t, req, ord, result),
                      ord, ChosenLocal(b, t, req), result, now, id);
    }
  }

  /** The same certificate, or lack of one, and the same digests. */
  ghost predicate SameSigner(w: World, v: World) { w.certificate == v.certificate && w.hash == v.hash }

  /** A submission keeps a waiting row's IKOF, whatever an echoing partner answers, exactly when it cannot be
      accepted, neither collides with the row nor loses its signature, or computes the same IKOF again. */
  lemma IkofKeptExactly(b: Book, t: Tenant, req: Request, v: World, now: DateTime, id: nat)
    requires BookInv(b) && CodesTrimmed(t) && id in b.rows && Waiting(b.rows[id])
    ensures (forall w | SameSigner(w, v) && EchoesHere(b, t, req, w) ::
               KeepsIkof(b, Apply(b, FiscalizeChange(b, t, req, w, now)), id))
       <==> !Sendable(req) || !CanSign(t, v) || !Exposes(b, t, req, id) || UsedIkof(b, t, req, v) == b.rows[id].ikof
  {
    if Sendable(req) && CanSign(t, v) && Exposes(b, t, req, id) && UsedIkof(b, t, req, v) != b.rows[id].ikof {
      SubmitReplacesIkof(b, t, req, v, now, id);
      assert SameSigner(Answering(v, "J"), v);
    } else {
      forall w | SameSigner(w, v) && EchoesHere(b, t, req, w)
        ensures KeepsIkof(b, Apply(b, FiscalizeChange(b, t, req, w, now)), id)
      {
        SameIkofUsed(b, t, req, w, v);
        if Sendable(req) && CanSign(t, w) { SubmitKeepsIkof(b, t, req, w, now, id); }
        else { UnsendableKeepsIkof(b, t, req, w, now, id); }
      }
    }
  }

  lemma SameIkofUsed(b: Book, t: Tenant, req: Request, w: World, v: World)
    requires SameSigner(w, v)
    ensures UsedIkof(b, t, req, w) == UsedIkof(b, t, req, v) && (CanSign(t, w) <==> CanSign(t, v))
  {
  }

  // ---------- one hash for all calls ----------

  /** With a certificate an exposing submission computes the hash of its own data. */
  lemma ExposedIsComputed(b: Book, t: Tenant, req: Request, w: World, id: nat, hash: IicInput -> Hex)
    requires id in b.rows && Exposes(b, t, req, id) && w.certificate == Some(hash)
    ensures UsedIkof(b, t, req, w) == Some(hash(IicInputOf(t, req, ChosenOrd(b, t, req))))
  {
  }

  /** Let the stored IKOF be the hash of some data.  An exposing submission keeps it, whatever the partner
      answers, exactly when its own data have the same hash: to submit the same data again is harmless. */
  lemma IkofKeptByData(b: Book, t: Tenant, req: Request, v: World, now: DateTime, id: nat,
                       hash: IicInput -> Hex, data: IicInput)
    requires BookInv(b) && CodesTrimmed(t) && id in b.rows && Waiting(b.rows[id])
    requires v.certificate == Some(hash) && b.rows[id].ikof == Some(hash(data))
    requires Sendable(req) && Exposes(b, t, req, id)
    ensures (forall w | SameSigner(w, v) && EchoesHere(b, t, req, w) ::
               KeepsIkof(b, Apply(b, FiscalizeChange(b, t, req, w, now)), id))
       <==> hash(IicInputOf(t, req, ChosenOrd(b, t, req))) == hash(data)
  {
    IkofKeptExactly(b, t, req, v, now, id);
    ExposedIsComputed(b, t, req, v, id, hash);
  }

  // ---------- over runs ----------

  /** The operation is no submission that could replace the IKOF of this row. */
  predicate Harmless(b: Book, op: Op, id: nat)
    requires id in b.rows
  {
    match op
    case Submit(t, req, w, now) => HarmlessSubmit(b, t, req, w, id)
    case SubmitSaved(t, k, w, now) => k in b.rows ==> HarmlessSubmit(b, t, SavedRequest(b.rows[k], now), w, id)
    case _ => true
  }

  predicate HarmlessSubmit(b: Book, t: Tenant, req: Request, w: World, id: nat)
    requires id in b.rows
  {
    EchoesHere(b, t, req, w) && (Exposes(b, t, req, id) ==> UsedIkof(b, t, req, w) == b.rows[id].ikof)
  }

  /** A saved row is always found by its own external id, so it collides with nothing. */
  lemma SavedNeverCollides(b: Book, t: Tenant, k: nat, now: DateTime, id: nat)
    requires BookInv(b) && k in b.rows && b.rows[k].tenant == t.id
    ensures !Collides(b, t, SavedRequest(b.rows[k], now), id)
  {
    assert RowInv(b.rows[k]);
    FindIs(b, k);
  }

  lemma SavedKeepsIkof(b: Book, t: Tenant, k: nat, w: World, now: DateTime, id: nat)
    requires BookInv(b) && CodesTrimmed(t) && id in b.rows && Waiting(b.rows[id])
    requires Harmless(b, SubmitSaved(t, k, w, now), id)
    ensures KeepsIkof(b, Apply(b, SavedChange(b, t, k, w, now)), id)
  {
    if k in b.rows { SubmitKeepsIkof(b, t, SavedRequest(b.rows[k], now), w, now, id); }
  }

  /** Apart from submissions only saving a schedule touches a waiting row, to mark it as a template. */
  lemma OthersUntouched(b: Book, op: Op, id: nat)
    requires id in b.rows && Waiting(b.rows[id]) && !op.Submit? && !op.SubmitSaved?
    ensures Touches(ChangeOf(b, op), id) ==> ChangeOf(b, op) == Replace(id, b.rows[id].(isTemplate := true))
  {
  }

  lemma OtherStepKeepsRow(b: Book, op: Op, id: nat)
    requires BookInv(b) && id in b.rows && Waiting(b.rows[id])
    requires !op.Submit? && !op.SubmitSaved? && !op.FillNumbers?
    ensures id in Step(b, op).rows
    ensures Step(b, op).rows[id] == b.rows[id] || Step(b, op).rows[id] == b.rows[id].(isTemplate := true)
  {
    if !op.DepositCash? {
      OthersUntouched(b, op, id);
      if !Touches(ChangeOf(b, op), id) { Untouched(b, ChangeOf(b, op), id); }
    }
  }

  lemma OtherKeepsIkof(b: Book, op: Op, id: nat)
    requires BookInv(b) && id in b.rows && Waiting(b.rows[id])
    requires !op.Submit? && !op.SubmitSaved? && !op.FillNumbers?
    ensures KeepsIkof(b, Step(b, op), id)
  {
    OtherStepKeepsRow(b, op, id);
  }

  lemma WaitingStepKeepsIkof(b: Book, op: Op, id: nat)
    requires BookInv(b) && OpOk(op) && id in b.rows && Waiting(b.rows[id]) && Harmless(b, op, id)
    ensures KeepsIkof(b, Step(b, op), id)
  {
    match op {
      case Submit(t, req, w, now) => SubmitKeepsIkof(b, t, req, w, now, id);
      case SubmitSaved(t, k, w, now) => SavedKeepsIkof(b, t, k, w, now, id);
      case FillNumbers(only) => FilledFrame(b, only, id);
      case _ => OtherKeepsIkof(b, op, id);
    }
  }

  lemma StepKeepsIkof(b: Book, op: Op, id: nat)
    requires BookInv(b) && OpOk(op) && id in b.rows && HasIkof(b.rows[id]) && Harmless(b, op, id)
    ensures KeepsIkof(b, Step(b, op), id)
  {
    assert RowInv(b.rows[id]);
    if Waiting(b.rows[id]) { WaitingStepKeepsIkof(b, op, id); } else { StepFreezes(b, op, id); }
  }

  predicate HarmlessRun(b: Book, ops: seq<Op>, id: nat)
    decreases |ops|
  {
    ops == [] || (id in b.rows && Harmless(b, ops[0], id) && HarmlessRun(Step(b, ops[0]), ops[1..], id))
  }

  /** In every such run an IKOF, once stored, is never changed or cleared, and its row never deleted. */
  lemma {:induction false} IkofForever(b: Book, ops: seq<Op>, id: nat)
    requires BookInv(b) && OpsOk(ops) && id in b.rows && HasIkof(b.rows[id]) && HarmlessRun(b, ops, id)
    ensures KeepsIkof(b, Run(b, ops), id)
    decreases |ops|
  {
    if ops != [] {
      assert ops[0] in ops;
      StepKeepsIkof(b, ops[0], id);
      StepKeepsInvariant(b, ops[0]);
      IkofForever(Step(b, ops[0]), ops[1..], id);
    }
  }

  /** The row carries the hash of this data. */
  predicate SignedOver(b: Book, id: nat, hash: IicInput -> Hex, data: IicInput) {
    id in b.rows && b.rows[id].ikof == Some(hash(data))
  }

  /** A new row stored by a signed submission, registered or offline, carries the hash of what was submitted. */
  lemma NewRowSigned(b: Book, t: Tenant, req: Request, w: World, now: DateTime, hash: IicInput -> Hex)
    requires w.certificate == Some(hash) && EchoesHere(b, t, req, w) && Existing(b, t, req).None?
    requires FiscalizeChange(b, t, req, w, now).Insert? && !FiscalizeChange(b, t, req, w, now).row.status.Failed?
    ensures SignedOver(Step(b, Submit(t, req, w, now)), b.nextId, hash, IicInputOf(t, req, ChosenOrd(b, t, req)))
  {
    NewRowIkof(b, t, req, w, now, hash);
    SubmittedStep(b, Submit(t, req, w, now));
  }

  lemma NewRowIkof(b: Book, t: Tenant, req: Request, w: World, now: DateTime, hash: IicInput -> Hex)
    requires w.certificate == Some(hash) && EchoesHere(b, t, req, w) && Existing(b, t, req).None?
    requires FiscalizeChange(b, t, req, w, now).Insert? && !FiscalizeChange(b, t, req, w, now).row.status.Failed?
    ensures FiscalizeChange(b, t, req, w, now).row.ikof == Some(hash(IicInputOf(t, req, ChosenOrd(b, t, req))))
  {
    IkofIsUsed(t, w, req, ChosenOrd(b, t, req), None, None);
  }

  /** It also carries the signature, so a retry on the tax authority's channel will find it. */
  lemma NewRowSignature(b: Book, t: Tenant, req: Request, w: World, now: DateTime)
    requires w.certificate.Some? && Given(Some(w.signature)) && Existing(b, t, req).None?
    requires FiscalizeChange(b, t, req, w, now).Insert? && !FiscalizeChange(b, t, req, w, now).row.status.Failed?
    ensures FiscalizeChange(b, t, req, w, now).row.sig == Some(w.signature)
  {
    SignatureReturned(t, w, req, ChosenOrd(b, t, req), None);
  }

  lemma SignatureReturned(t: Tenant, w: World, req: Request, ord: nat, sig: Option<string>)
    requires w.certificate.Some?
    ensures var r := Partner.Fiscalize(t, w, req, ord, None, sig); r.ok || r.offline ==> r.sig == Some(w.signature)
  {
    var (iic, s) := LocalIic(t, w, req, ord, None, sig);
    SignatureSent(t, w, req, ord, iic, s);
  }

  lemma SignatureSent(t: Tenant, w: World, req: Request, ord: nat, iic: Option<string>, sig: Option<string>)
    ensures var r := Sent(t, w, req, ord, iic, sig); r.ok || r.offline ==> r.sig == sig
  {
  }

  /** The same signature, up to white space around it. */
  predicate SameSignature(r: Option<string>, s: Option<string>) { r.Some? && s.Some? && Trim(r.value) == Trim(s.value) }

  lemma ReusedSignature(t: Tenant, w: World, req: Request, ord: nat, reuse: string, sig: string)
    requires Normal(reuse) != "" && Trim(sig) != ""
    ensures var r := Partner.Fiscalize(t, w, req, ord, Some(reuse), Some(sig));
      r.ok || r.offline ==> SameSignature(r.sig, Some(sig))
  {
    var (iic, s) := LocalIic(t, w, req, ord, Some(reuse), Some(sig));
    SignatureSent(t, w, req, ord, iic, s);
    TrimTrims(sig);
    TrimTrims(Trim(sig));
  }

  lemma OutcomeSignature(b: Book, t: Tenant, req: Request, w: World, id: nat)
    requires BookInv(b) && id in b.rows && Waiting(b.rows[id]) && !b.rows[id].status.Fiscalized?
    requires Existing(b, t, req) == Some(id) && b.rows[id].sig.Some? && Trim(b.rows[id].sig.value) != ""
    ensures var result := Outcome(b, t, req, w);
      result.ok || result.offline ==> SameSignature(result.sig, b.rows[id].sig)
  {
    assert RowInv(b.rows[id]);
    ReusedSignature(t, w, req, ChosenOrd(b, t, req), b.rows[id].ikof.value, b.rows[id].sig.value);
  }

  lemma RecordSignature(b: Book, t: Tenant, req: Request, id: nat, externalId: string, invNum: string, ord: nat,
                        local: nat, result: PartnerResult, now: DateTime)
    requires id in b.rows && !b.rows[id].status.Fiscalized? && b.rows[id].sig.Some?
    requires result.ok || result.offline ==> SameSignature(result.sig, b.rows[id].sig)
    ensures var after := Apply(b, RecordChange(b, t, req, Some(id), externalId, invNum, ord, local, result, now));
      id in after.rows && SameSignature(after.rows[id].sig, b.rows[id].sig)
  {
  }

  /** A submission that finds the waiting row by its id keeps its signature, whatever the partner answers, so the next
      retry will find it as well. */
  lemma SignatureKept(b: Book, t: Tenant, req: Request, w: World, now: DateTime, id: nat)
    requires BookInv(b) && id in b.rows && Waiting(b.rows[id]) && !b.rows[id].status.Fiscalized?
    requires Existing(b, t, req) == Some(id) && Refusal(req).None?
    requires b.rows[id].sig.Some? && Trim(b.rows[id].sig.value) != ""
    ensures var after := Step(b, Submit(t, req, w, now));
      id in after.rows && SameSignature(after.rows[id].sig, b.rows[id].sig)
  {
    var result, ord := Outcome(b, t, req, w), ChosenOrd(b, t, req);
    OutcomeSignature(b, t, req, w, id);
    assert CallsPartner(b, t, req) && Target(b, t, req, w) == Some(id);
    SubmittedStep(b, Submit(t, req, w, now));
    RecordSignature(b, t, req, id, FinalId(b, t, req, w), StoredInvNum(t, req, ord, result), ord,
                    ChosenLocal(b, t, req), result, now);
  }

  /** And so it does after every harmless run: its IKOF is the hash of the data first submitted. */
  lemma SignedForever(b: Book, ops: seq<Op>, id: nat, hash: IicInput -> Hex, data: IicInput)
    requires BookInv(b) && OpsOk(ops) && SignedOver(b, id, hash, data) && HarmlessRun(b, ops, id)
    ensures SignedOver(Run(b, ops), id, hash, data)
  {
    IkofForever(b, ops, id);
  }
}
