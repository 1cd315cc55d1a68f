/** The invariant every service call keeps, and the guards on what a call may touch. */
module Integrity {
  import opened Wrappers
  import opened Text
  import opened Calendar
  import opened Requests
  import opened Partner
  import opened Invoices

  /** A draft has no fiscal identifiers. */
  predicate NoIdentifiers(r: Invoice) {
    && r.ikof.None? && r.jikr.None? && r.qr.None? && r.partnerRef.None? && r.sig.None?
    && r.invNum.None? && r.ordNum.None? && r.localNum.None? && r.fiscalizedAt.None?
  }

  /** A row that went to the partner carries consistent totals, a real EFI type, a payment method of
      its kind and its own number. */
  predicate Submittable(r: Invoice) {
    && !r.docType.PROFORMA? && TotalsAgree(r.net, r.vat, r.gross) && PaymentFits(r.typeOfInv, r.pay)
    && Positive(r.ordNum) && Given(r.invNum) && (r.localNum.Some? ==> r.localNum.value > 0)
    && Refusal(r.payload).None?
    && (r.typeOfInv, r.pay, r.docType) == (r.payload.typeOfInv, r.payload.pay, r.payload.docType)
    && (r.net, r.vat, r.gross) == (r.payload.net, r.payload.vat, r.payload.gross)
    && (Credit(r.payload.docType) ==> r.refIkof == r.payload.iicRef)
  }

  predicate RowInv(r: Invoice) {
    && r.externalId != "" && Trimmed(r.externalId)
    && (r.jikr.Some? <==> r.status.Fiscalized?)
    && (r.jikr.Some? ==> r.jikr.value != "")
    && (r.status.Pending? ==> HasIkof(r))
    && (r.ikof.Some? && !r.status.Fiscalized? ==> r.ikof.value != "" && Normal(r.ikof.value) == r.ikof.value)
    && (r.status.Draft? ==> NoIdentifiers(r))
    && (!r.status.Draft? ==> Submittable(r))
  }

  predicate SameExternal(r: Invoice, s: Invoice) { r.tenant == s.tenant && r.externalId == s.externalId }

  predicate BookInv(b: Book) {
    && (forall id | id in b.rows :: id < b.nextId)
    && (forall i, j | i in b.rows && j in b.rows && SameExternal(b.rows[i], b.rows[j]) :: i == j)
    && (forall id | id in b.rows :: RowInv(b.rows[id]))
  }

  const EMPTY: Book := Book(map[], 0, [], [], [])

  /** A change that keeps the table's keys unique and its rows well formed. */
  predicate WellFormedChange(b: Book, c: Change) {
    match c
    case Nothing => true
    case Insert(row) => RowInv(row) && Find(b, row.tenant, row.externalId).None?
    case Replace(id, row) => id in b.rows && RowInv(row) && SameExternal(row, b.rows[id])
    case Remove(id) => id in b.rows
  }

  lemma ApplyKeepsInvariant(b: Book, c: Change)
    requires BookInv(b) && WellFormedChange(b, c)
    ensures BookInv(Apply(b, c))
  {
  }

  // ---------- the lookup ----------

  /** With unique external ids the lookup finds a row exactly when it is there. */
  lemma FindIs(b: Book, id: nat)
    requires BookInv(b) && id in b.rows
    ensures Find(b, b.rows[id].tenant, b.rows[id].externalId) == Some(id)
  {
    var f := Find(b, b.rows[id].tenant, b.rows[id].externalId);
    if f.Some? {
      assert SameExternal(b.rows[f.value], b.rows[id]);
    }
  }

  // ---------- each call ----------

  lemma TokenIds(token: Hex, id: nat)
    ensures Trimmed("draft-" + token)
    ensures Trimmed("copy-" + DigitsOf(id) + "-" + token)
  {
    HexNormal(token);
    var s, t := "draft-" + token, "copy-" + DigitsOf(id) + "-" + token;
    assert s[|s| - 1] == token[|token| - 1] && t[|t| - 1] == token[|token| - 1];
  }

  lemma SaveWellFormed(b: Book, tenant: nat, req: Request, isTemplate: bool, token: Hex)
    ensures WellFormedChange(b, SaveChange(b, tenant, req, isTemplate, token))
  {
    TokenIds(token, 0);
    if req.externalId.Some? { TrimTrims(req.externalId.value); }
  }

  lemma CopyWellFormed(b: Book, tenant: nat, id: nat, now: DateTime, token: Hex)
    ensures WellFormedChange(b, CopyChange(b, tenant, id, now, token))
  {
    TokenIds(token, id);
  }

  lemma UpdateWellFormed(b: Book, tenant: nat, id: nat, req: Request, isTemplate: Option<bool>)
    requires BookInv(b)
    ensures WellFormedChange(b, UpdateChange(b, tenant, id, req, isTemplate))
  {
  }

  lemma DeleteWellFormed(b: Book, tenant: nat, id: nat)
    ensures WellFormedChange(b, DeleteChange(b, tenant, id))
  {
  }

  lemma SettledInv(r: Invoice, result: PartnerResult, now: DateTime, ord: nat)
    requires Sound(result, ord)
    requires r.externalId != "" && Trimmed(r.externalId) && Submittable(r)
    requires r.jikr.None?
    requires r.ikof.Some? ==> r.ikof.value != "" && Normal(r.ikof.value) == r.ikof.value
    ensures RowInv(Settled(r, result, now))
  {
  }

  lemma StoredIdTrimmed(b: Book, t: Tenant, req: Request, w: World)
    requires CodesTrimmed(t)
    ensures Trimmed(FinalId(b, t, req, w)) && FinalId(b, t, req, w) != ""
  {
    var ord := ChosenOrd(b, t, req);
    AdapterNumber(t, w, req, ord, ReuseIic(b, t, req), ReuseSig(b, t, req));
    InvNumTrimmed(t, ord, req.issue);
    if req.externalId.Some? { TrimTrims(req.externalId.value); }
  }

  /** The final external id of a row found before the call is the id it already has. */
  lemma FoundKeepsId(b: Book, t: Tenant, req: Request, w: World)
    requires BookInv(b) && Existing(b, t, req).Some?
    ensures b.rows[Existing(b, t, req).value].externalId == FinalId(b, t, req, w)
  {
    TrimTrims(req.externalId.value);
  }

  lemma FiscalizeWellFormed(b: Book, t: Tenant, req: Request, w: World, now: DateTime)
    requires BookInv(b) && CodesTrimmed(t)
    ensures WellFormedChange(b, FiscalizeChange(b, t, req, w, now))
  {
    if CallsPartner(b, t, req) {
      var ord := ChosenOrd(b, t, req);
      AdapterContract(t, w, req, ord, ReuseIic(b, t, req), ReuseSig(b, t, req));
      InvNumTrimmed(t, ord, req.issue);
      StoredIdTrimmed(b, t, req, w);
      if Existing(b, t, req).Some? { FoundKeepsId(b, t, req, w); }
      FiscalizeRowInv(b, t, req, w, now);
    }
  }

  predicate ChangedRowInv(c: Change) {
    match c
    case Insert(row) => RowInv(row)
    case Replace(id, row) => RowInv(row)
    case _ => true
  }

  lemma SubmittedSubmittable(tenant: nat, req: Request, externalId: string, invNum: string, ord: nat, local: nat)
    requires Refusal(req).None? && ord > 0 && local > 0 && |invNum| > 0
    ensures var r := SubmittedRow(tenant, req, externalId, invNum, ord, local);
      Submittable(r) && r.externalId == externalId && r.jikr.None? && r.ikof.None?
  {
  }

  lemma ResubmittedSubmittable(before: Invoice, req: Request, externalId: string, invNum: string, ord: nat, local: nat)
    requires Refusal(req).None? && ord > 0 && local > 0 && |invNum| > 0
    ensures var r := Resubmitted(before, req, externalId, invNum, ord, local);
      Submittable(r) && r.externalId == externalId && r.jikr == before.jikr && r.ikof == before.ikof
  {
  }

  lemma RecordRowInv(b: Book, t: Tenant, req: Request, target: Option<nat>, externalId: string, invNum: string,
                     ord: nat, local: nat, result: PartnerResult, now: DateTime)
    requires BookInv(b) && Refusal(req).None? && Sound(result, ord) && ord > 0 && local > 0
    requires target.Some? ==> target.value in b.rows
    requires |invNum| > 0 && externalId != "" && Trimmed(externalId)
    ensures ChangedRowInv(RecordChange(b, t, req, target, externalId, invNum, ord, local, result, now))
  {
    var num := StoredOrd(ord, result);
    if target.None? {
      SubmittedSubmittable(t.id, req, externalId, invNum, num, local);
      SettledInv(SubmittedRow(t.id, req, externalId, invNum, num, local), result, now, ord);
    } else if !b.rows[target.value].status.Fiscalized? {
      assert RowInv(b.rows[target.value]);
      ResubmittedSubmittable(b.rows[target.value], req, externalId, invNum, num, local);
      SettledInv(Resubmitted(b.rows[target.value], req, externalId, invNum, num, local), result, now, ord);
    }
  }

  lemma FiscalizeRowInv(b: Book, t: Tenant, req: Request, w: World, now: DateTime)
    requires BookInv(b) && CallsPartner(b, t, req)
    requires Sound(Outcome(b, t, req, w), ChosenOrd(b, t, req))
    requires |InvNumOf(t, ChosenOrd(b, t, req), req.issue)| > 0
    requires FinalId(b, t, req, w) != "" && Trimmed(FinalId(b, t, req, w))
    ensures ChangedRowInv(FiscalizeChange(b, t, req, w, now))
  {
    var result, ord := Outcome(b, t, req, w), ChosenOrd(b, t, req);
    RecordRowInv(b, t, req, Target(b, t, req, w), FinalId(b, t, req, w), StoredInvNum(t, req, ord, result),
                 ord, ChosenLocal(b, t, req), result, now);
  }

  lemma SavedWellFormed(b: Book, t: Tenant, id: nat, w: World, now: DateTime)
    requires BookInv(b) && CodesTrimmed(t)
    ensures WellFormedChange(b, SavedChange(b, t, id, w, now))
  {
    if id in b.rows { FiscalizeWellFormed(b, t, SavedRequest(b.rows[id], now), w, now); }
  }

  // ---------- what a change may touch ----------

  /** No change replaces or removes a fiscalized row, removes a row with an IKOF, or moves a row to
      another tenant. */
  predicate Guarded(b: Book, c: Change) {
    match c
    case Nothing => true
    case Insert(row) => true
    case Replace(id, row) => id in b.rows && !b.rows[id].status.Fiscalized? && row.tenant == b.rows[id].tenant
    case Remove(id) => id in b.rows && !b.rows[id].status.Fiscalized? && !HasIkof(b.rows[id])
                       && !IsScheduleTemplate(b, id)
  }

  lemma FiscalizeGuarded(b: Book, t: Tenant, req: Request, w: World, now: DateTime)
    ensures Guarded(b, FiscalizeChange(b, t, req, w, now))
  {
  }

  predicate Touches(c: Change, id: nat) { (c.Replace? || c.Remove?) && c.id == id }

  lemma Untouched(b: Book, c: Change, id: nat)
    requires id in b.rows && id < b.nextId && !Touches(c, id)
    ensures id in Apply(b, c).rows && Apply(b, c).rows[id] == b.rows[id]
  {
  }

  // ---------- references ----------

  /** Schedules and payments refer only to rows that exist. */
  predicate NoDanglingReferences(b: Book) {
    && (forall s | s in b.schedules :: s.template in b.rows && (s.last.Some? ==> s.last.value in b.rows))
    && (forall p | p in b.payments :: p.Some? ==> p.value in b.rows)
  }

  lemma ReferencesKept(b: Book, c: Change)
    requires NoDanglingReferences(b) && Guarded(b, c)
    ensures NoDanglingReferences(Apply(b, c))
  {
    var after := Apply(b, c);
    if c.Remove? {
      forall s | s in after.schedules
        ensures s.template in after.rows && (s.last.Some? ==> s.last.value in after.rows)
      {
        var i :| 0 <= i < |after.schedules| && after.schedules[i] == s;
        assert b.schedules[i] in b.schedules;
      }
      forall p | p in after.payments ensures p.Some? ==> p.value in after.rows {
        var i :| 0 <= i < |after.payments| && after.payments[i] == p;
        assert b.payments[i] in b.payments;
      }
    }
  }
}
