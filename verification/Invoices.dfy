/** The invoice table and the change each service call makes to it (sepko/services.py,
    sepko/models.py).  A change is at most one row inserted, replaced or removed. */
module Invoices {
  import opened Wrappers
  import opened Text
  import opened Calendar
  import opened Requests
  import opened Partner

  datatype Status = Draft | Pending | Fiscalized | Failed

  datatype Invoice = Invoice(
    tenant: nat, externalId: string, status: Status, typeOfInv: TypeOfInv, pay: PayMethod,
    docType: DocumentType, currency: string, issue: DateTime, buyer: Option<Buyer>,
    notes: Option<string>, net: int, vat: int, gross: int, payload: Request, lines: seq<Line>,
    ikof: Option<string>, jikr: Option<string>, qr: Option<Qr>, partnerRef: Option<string>,
    sig: Option<string>, refIkof: Option<string>, refInvoice: Option<nat>,
    invNum: Option<string>, ordNum: Option<nat>, localNum: Option<nat>,
    error: Option<string>, fiscalizedAt: Option<DateTime>, isTemplate: bool)

  /** A monthly schedule's references into the invoice table. */
  datatype ScheduleRef = ScheduleRef(template: nat, last: Option<nat>)

  datatype CashOperation = INITIAL | WITHDRAW
  datatype DepositStatus = Registered | NotRegistered | Superseded
  datatype Deposit = Deposit(tenant: nat, operation: CashOperation, amount: nat, at: DateTime,
                             status: DepositStatus)

  /** The tables of all tenants.  Row keys below nextId have been given out. */
  datatype Book = Book(rows: map<nat, Invoice>, nextId: nat, schedules: seq<ScheduleRef>,
                       payments: seq<Option<nat>>, deposits: seq<Deposit>)

  // ---------- queries ----------

  /** The row of a tenant with this external id, the smallest key if there were several. */
  function FindBelow(rows: map<nat, Invoice>, tenant: nat, externalId: string, n: nat): (r: Option<nat>)
    ensures r.Some? ==> r.value < n && r.value in rows
                        && rows[r.value].tenant == tenant && rows[r.value].externalId == externalId
    ensures r.None? ==> forall id | id in rows && id < n ::
                          !(rows[id].tenant == tenant && rows[id].externalId == externalId)
  {
    if n == 0 then None
    else
      var below := FindBelow(rows, tenant, externalId, n - 1);
      if below.Some? then below
      else if n - 1 in rows && rows[n - 1].tenant == tenant && rows[n - 1].externalId == externalId
      then Some(n - 1)
      else None
  }

  function Find(b: Book, tenant: nat, externalId: string): Option<nat> {
    FindBelow(b.rows, tenant, externalId, b.nextId)
  }

  /** The two maxima queried for numbering: InvOrdNum over a year, the local number over a month
      (with or without templates). */
  datatype Query =
    | OrdInYear(tenant: nat, year: int)
    | LocalInMonth(tenant: nat, year: int, month: int, templates: bool)

  /** What a row contributes to a maximum; rows filtered out and missing numbers contribute 0. */
  function Counted(q: Query, r: Invoice): nat {
    match q
    case OrdInYear(t, y) =>
      if r.tenant == t && InYear(r.issue, y) && r.ordNum.Some? then r.ordNum.value else 0
    case LocalInMonth(t, y, m, templates) =>
      if r.tenant == t && (templates || !r.isTemplate) && InMonth(r.issue, y, m) && r.localNum.Some?
      then r.localNum.value else 0
  }

  function MaxBelow(rows: map<nat, Invoice>, q: Query, n: nat): nat {
    if n == 0 then 0
    else
      var below := MaxBelow(rows, q, n - 1);
      if n - 1 in rows && Counted(q, rows[n - 1]) > below then Counted(q, rows[n - 1]) else below
  }

  lemma {:induction false} MaxIsMax(rows: map<nat, Invoice>, q: Query, n: nat)
    ensures forall id | id in rows && id < n :: Counted(q, rows[id]) <= MaxBelow(rows, q, n)
    ensures MaxBelow(rows, q, n) > 0 ==>
      exists id :: id in rows && id < n && Counted(q, rows[id]) == MaxBelow(rows, q, n)
  {
    if n > 0 { MaxIsMax(rows, q, n - 1); }
  }

  /** next_ord_num, next_local_ord_num */
  function Next(b: Book, q: Query): nat { MaxBelow(b.rows, q, b.nextId) + 1 }

  // ---------- changes ----------

  datatype Change =
    | Nothing
    | Insert(row: Invoice)
    | Replace(id: nat, row: Invoice)
    | Remove(id: nat)

  /** References to a removed row are cleared, as delete_draft_invoice does before deleting. */
  function Cleared(ref: Option<nat>, id: nat): Option<nat> { if ref == Some(id) then None else ref }

  function Apply(b: Book, c: Change): Book {
    match c
    case Nothing => b
    case Insert(row) => b.(rows := b.rows[b.nextId := row], nextId := b.nextId + 1)
    case Replace(id, row) => b.(rows := b.rows[id := row])
    case Remove(id) =>
      b.(rows := b.rows - {id},
         schedules := seq(|b.schedules|, i requires 0 <= i < |b.schedules| =>
                          b.schedules[i].(last := Cleared(b.schedules[i].last, id))),
         payments := seq(|b.payments|, i requires 0 <= i < |b.payments| => Cleared(b.payments[i], id)))
  }

  // ---------- drafts ----------

  function DraftRow(tenant: nat, externalId: string, req: Request, isTemplate: bool): Invoice {
    Invoice(tenant, externalId, Draft, req.typeOfInv, req.pay, req.docType, req.currency, req.issue,
            req.buyer, req.notes, req.net, req.vat, req.gross, req, req.lines,
            None, None, None, None, None, req.iicRef, req.refInvoice, None, None, None, None, None, isTemplate)
  }

  /** save_draft_invoice; a duplicate external id violates the table's unique constraint. */
  function SaveChange(b: Book, tenant: nat, req: Request, isTemplate: bool, token: Hex): Change {
    var given := if req.externalId.Some? then Trim(req.externalId.value) else "";
    var externalId := if given != "" then given else "draft-" + token;
    if Find(b, tenant, externalId).Some? then Nothing
    else Insert(DraftRow(tenant, externalId, req, isTemplate))
  }

  /** One source of copy_invoices.  The payload is copied with everything in it; the reference to
      an original invoice is not. */
  function CopyRow(src: Invoice, id: nat, now: DateTime, token: Hex): Invoice {
    src.(externalId := "copy-" + DigitsOf(id) + "-" + token, status := Draft, issue := now,
         ikof := None, jikr := None, qr := None, partnerRef := None, sig := None,
         refIkof := None, refInvoice := None, invNum := None, ordNum := None, localNum := None,
         error := None, fiscalizedAt := None, isTemplate := false)
  }

  function CopyChange(b: Book, tenant: nat, id: nat, now: DateTime, token: Hex): Change {
    if id !in b.rows || b.rows[id].tenant != tenant then Nothing
    else
      var row := CopyRow(b.rows[id], id, now, token);
      if Find(b, tenant, row.externalId).Some? then Nothing else Insert(row)
  }

  predicate HasIkof(r: Invoice) { Given(r.ikof) }
  predicate HasJikr(r: Invoice) { Given(r.jikr) }

  /** The row waits for a JIKR to the IKOF it already carries. */
  predicate Waiting(r: Invoice) { HasIkof(r) && !HasJikr(r) }

  /** invoice_is_editable */
  predicate Editable(r: Invoice) { !Waiting(r) && !r.status.Fiscalized? }

  function EditedRow(r: Invoice, req: Request, isTemplate: Option<bool>): Invoice {
    DraftRow(r.tenant, r.externalId, req, if isTemplate.Some? then isTemplate.value else r.isTemplate)
  }

  /** update_draft_invoice; a refusal raises and changes nothing. */
  function UpdateChange(b: Book, tenant: nat, id: nat, req: Request, isTemplate: Option<bool>): Change {
    if id !in b.rows || b.rows[id].tenant != tenant || !Editable(b.rows[id]) then Nothing
    else Replace(id, EditedRow(b.rows[id], req, isTemplate))
  }

  predicate IsScheduleTemplate(b: Book, id: nat) { exists s :: s in b.schedules && s.template == id }

  predicate Owns(b: Book, tenant: nat, id: nat) { id in b.rows && b.rows[id].tenant == tenant }

  /** Saving a schedule marks its template, unless that is fiscalized. */
  function MarkChange(b: Book, tenant: nat, schedule: Option<nat>, template: nat): Change {
    if !Owns(b, tenant, template) || (schedule.Some? && schedule.value >= |b.schedules|)
       || b.rows[template].status.Fiscalized?
    then Nothing
    else Replace(template, b.rows[template].(isTemplate := true))
  }

  /** delete_draft_invoice */
  function DeleteChange(b: Book, tenant: nat, id: nat): Change {
    if id !in b.rows || b.rows[id].tenant != tenant then Nothing
    else if HasIkof(b.rows[id]) || !Editable(b.rows[id]) || IsScheduleTemplate(b, id) then Nothing
    else Remove(id)
  }

  // ---------- fiscalization ----------

  /** The row looked up before the partner is called: by the external id exactly as given. */
  function Existing(b: Book, t: Tenant, req: Request): (r: Option<nat>)
    ensures r.Some? ==> r.value in b.rows && r.value < b.nextId && b.rows[r.value].tenant == t.id
                        && Some(b.rows[r.value].externalId) == req.externalId
  {
    if Given(req.externalId) then Find(b, t.id, req.externalId.value) else None
  }

  function ChosenOrd(b: Book, t: Tenant, req: Request): (n: nat)
    ensures n > 0
  {
    var ex := Existing(b, t, req);
    if Positive(req.ordNum) then req.ordNum.value
    else if ex.Some? && Positive(b.rows[ex.value].ordNum) then b.rows[ex.value].ordNum.value
    else Next(b, OrdInYear(t.id, req.issue.wall.date.year))
  }

  function ChosenLocal(b: Book, t: Tenant, req: Request): (n: nat)
    ensures n > 0
  {
    var ex := Existing(b, t, req);
    if ex.Some? && Positive(b.rows[ex.value].localNum) then b.rows[ex.value].localNum.value
    else Next(b, LocalInMonth(t.id, req.issue.wall.date.year, req.issue.wall.date.month, false))
  }

  /** The IKOF and signature handed back to the partner. */
  function ReuseIic(b: Book, t: Tenant, req: Request): Option<string> {
    var ex := Existing(b, t, req);
    if ex.Some? && Waiting(b.rows[ex.value]) then b.rows[ex.value].ikof else None
  }

  function ReuseSig(b: Book, t: Tenant, req: Request): Option<string> {
    var ex := Existing(b, t, req);
    if ex.Some? && Waiting(b.rows[ex.value]) then b.rows[ex.value].sig else None
  }

  predicate AlreadyFiscalized(b: Book, t: Tenant, req: Request) {
    var ex := Existing(b, t, req); ex.Some? && b.rows[ex.value].status.Fiscalized?
  }

  /** The submission reaches the partner. */
  predicate CallsPartner(b: Book, t: Tenant, req: Request) {
    Refusal(req).None? && !AlreadyFiscalized(b, t, req)
  }

  function Outcome(b: Book, t: Tenant, req: Request, w: World): PartnerResult {
    Partner.Fiscalize(t, w, req, ChosenOrd(b, t, req), ReuseIic(b, t, req), ReuseSig(b, t, req))
  }

  function StoredInvNum(t: Tenant, req: Request, ord: nat, result: PartnerResult): string {
    if Given(result.invNum) then result.invNum.value else InvNumOf(t, ord, req.issue)
  }

  /** The external id stored: the given one trimmed, else the invoice number. */
  function StoredId(req: Request, invNum: string): string {
    if req.externalId.Some? && Trim(req.externalId.value) != "" then Trim(req.externalId.value) else invNum
  }

  function FinalId(b: Book, t: Tenant, req: Request, w: World): string {
    StoredId(req, StoredInvNum(t, req, ChosenOrd(b, t, req), Outcome(b, t, req, w)))
  }

  /** The row written to: the one found before the call, else one with the final external id. */
  function Target(b: Book, t: Tenant, req: Request, w: World): (r: Option<nat>)
    ensures r.Some? ==> r.value in b.rows && b.rows[r.value].tenant == t.id
  {
    var ex := Existing(b, t, req);
    if ex.Some? then ex else Find(b, t.id, FinalId(b, t, req, w))
  }

  function StoredOrd(ord: nat, result: PartnerResult): nat {
    if Positive(result.ordNum) then result.ordNum.value else ord
  }

  /** A submission written over an existing row: lines, buyer and issue time stay as they were. */
  function Resubmitted(r: Invoice, req: Request, externalId: string, invNum: string, ord: nat, local: nat): Invoice {
    r.(payload := req, typeOfInv := req.typeOfInv, pay := req.pay, docType := req.docType,
       invNum := Some(invNum), ordNum := Some(ord),
       localNum := if Positive(r.localNum) then r.localNum else Some(local),
       externalId := externalId, refIkof := Either(req.iicRef, r.refIkof),
       refInvoice := if Positive(req.refInvoice) then req.refInvoice else r.refInvoice,
       net := req.net, vat := req.vat, gross := req.gross)
  }

  function SubmittedRow(tenant: nat, req: Request, externalId: string, invNum: string, ord: nat, local: nat): Invoice {
    DraftRow(tenant, externalId, req, false)
      .(invNum := Some(invNum), ordNum := Some(ord), localNum := Some(local),
        refIkof := if Given(req.iicRef) then req.iicRef else None)
  }

  /** The partner's answer recorded on the row. */
  function Settled(r: Invoice, result: PartnerResult, now: DateTime): Invoice {
    if result.ok then
      r.(status := Fiscalized, ikof := result.ikof, jikr := result.jikr, qr := result.qr,
         partnerRef := result.partnerRef, sig := Either(result.sig, r.sig),
         fiscalizedAt := Some(now), error := None)
    else if result.offline && Given(result.ikof) then
      r.(status := Pending, ikof := result.ikof, sig := result.sig, qr := result.qr,
         partnerRef := result.partnerRef, jikr := None, fiscalizedAt := None, error := result.error)
    else r.(status := Failed, error := result.error)
  }

  /** The part of fiscalize_invoice after the partner has answered. */
  function RecordChange(b: Book, t: Tenant, req: Request, target: Option<nat>, externalId: string, invNum: string,
                        ord: nat, local: nat, result: PartnerResult, now: DateTime): Change
    requires target.Some? ==> target.value in b.rows
  {
    if target.None? then
      Insert(Settled(SubmittedRow(t.id, req, externalId, invNum, StoredOrd(ord, result), local), result, now))
    else if b.rows[target.value].status.Fiscalized? then Nothing
    else
      Replace(target.value,
              Settled(Resubmitted(b.rows[target.value], req, externalId, invNum, StoredOrd(ord, result), local),
                      result, now))
  }

  /** fiscalize_invoice */
  function FiscalizeChange(b: Book, t: Tenant, req: Request, w: World, now: DateTime): Change {
    if !CallsPartner(b, t, req) then Nothing
    else
      var result, ord := Outcome(b, t, req, w), ChosenOrd(b, t, req);
      RecordChange(b, t, req, Target(b, t, req, w), FinalId(b, t, req, w), StoredInvNum(t, req, ord, result),
                   ord, ChosenLocal(b, t, req), result, now)
  }

  datatype Response = Refused(error: string) | Shown(id: nat, row: Invoice)

  /** The row shown after recording. */
  function RecordResponse(b: Book, target: Option<nat>, c: Change): Response
    requires target.Some? ==> target.value in b.rows
  {
    match c
    case Insert(row) => Shown(b.nextId, row)
    case Replace(id, row) => Shown(id, row)
    case _ => if target.Some? then Shown(target.value, b.rows[target.value]) else Refused("")
  }

  /** What fiscalize_invoice answers: the refusal, or the row as it is after the call. */
  function FiscalizeResponse(b: Book, t: Tenant, req: Request, w: World, now: DateTime): Response {
    if Refusal(req).Some? then Refused(Refusal(req).value)
    else if AlreadyFiscalized(b, t, req) then Shown(Existing(b, t, req).value, b.rows[Existing(b, t, req).value])
    else RecordResponse(b, Target(b, t, req, w), FiscalizeChange(b, t, req, w, now))
  }

  /** invoice_to_fiscalize_request: a row that waits for its JIKR keeps time and number, any other
      is sent as of now. */
  function SavedRequest(r: Invoice, now: DateTime): Request {
    r.payload.(externalId := Some(r.externalId),
               iicRef := Either(r.refIkof, r.payload.iicRef),
               refInvoice := if Positive(r.refInvoice) then r.refInvoice else r.payload.refInvoice,
               issue := if Waiting(r) then r.issue else now,
               ordNum := if Waiting(r) && Positive(r.ordNum) then r.ordNum else r.payload.ordNum)
  }

  /** fiscalize_saved_invoice, for a row of the tenant */
  function SavedChange(b: Book, t: Tenant, id: nat, w: World, now: DateTime): Change {
    if id !in b.rows || b.rows[id].tenant != t.id || b.rows[id].status.Fiscalized? then Nothing
    else FiscalizeChange(b, t, SavedRequest(b.rows[id], now), w, now)
  }
}
