/** Drafts saved, edited, copied and deleted (sepko/services.py): exactly when each goes through, what it stores, and
    what is sent when the row is submitted afterwards. */
module Drafts {
  import opened Wrappers
  import opened Text
  import opened Calendar
  import opened Requests
  import opened Partner
  import opened Invoices
  import opened Integrity
  import opened Runs
  import opened Picking

  /** The draft shows everything the request says, and no fiscal identifier. */
  predicate Shows(r: Invoice, req: Request) {
    && r.status == Draft && NoIdentifiers(r)
    && r.lines == req.lines && (r.net, r.vat, r.gross) == (req.net, req.vat, req.gross)
    && r.buyer == req.buyer && r.currency == req.currency && r.notes == req.notes
    && (r.typeOfInv, r.pay, r.docType) == (req.typeOfInv, req.pay, req.docType)
  }

  /** Two requests for the same goods, money, buyer and payment. */
  predicate SameBusiness(q: Request, req: Request) {
    && q.lines == req.lines && (q.net, q.vat, q.gross) == (req.net, req.vat, req.gross)
    && q.buyer == req.buyer && q.currency == req.currency && q.notes == req.notes
    && (q.typeOfInv, q.pay, q.docType) == (req.typeOfInv, req.pay, req.docType)
  }

  /** Every other row is as it was. */
  predicate OthersSame(b: Book, after: Book, id: nat) {
    forall k | k in b.rows && k != id :: k in after.rows && after.rows[k] == b.rows[k]
  }

  predicate Taken(b: Book, tenant: nat, externalId: string) {
    exists id :: id in b.rows && b.rows[id].tenant == tenant && b.rows[id].externalId == externalId
  }

  lemma TakenIsFound(b: Book, tenant: nat, externalId: string)
    requires BookInv(b)
    ensures Taken(b, tenant, externalId) <==> Find(b, tenant, externalId).Some?
  {
  }

  /** The id a draft is stored under: the given one without the white space around it, or one made of a token. */
  function DraftId(req: Request, token: Hex): string {
    if req.externalId.Some? && Trim(req.externalId.value) != "" then Trim(req.externalId.value) else "draft-" + token
  }

  /** A draft is stored, as a new row that shows the request, exactly when its id is free. */
  lemma SaveExactly(b: Book, tenant: nat, req: Request, isTemplate: bool, token: Hex)
    requires BookInv(b)
    ensures var after := Step(b, Save(tenant, req, isTemplate, token));
      if Taken(b, tenant, DraftId(req, token)) then after == b
      else
        && after.rows.Keys == b.rows.Keys + {b.nextId} && OthersSame(b, after, b.nextId)
        && var r := after.rows[b.nextId];
           && r.tenant == tenant && r.externalId == DraftId(req, token) && r.isTemplate == isTemplate
           && r.issue == req.issue && Shows(r, req)
  {
    TakenIsFound(b, tenant, DraftId(req, token));
  }

  /** The tenant's row that is neither fiscalized nor under an IKOF. */
  predicate Open(b: Book, tenant: nat, id: nat) {
    id in b.rows && b.rows[id].tenant == tenant && !b.rows[id].status.Fiscalized? && b.rows[id].ikof.None?
  }

  lemma OpenIsEditable(b: Book, tenant: nat, id: nat)
    requires BookInv(b) && id in b.rows && b.rows[id].tenant == tenant
    ensures Open(b, tenant, id) <==> Editable(b.rows[id]) && !HasIkof(b.rows[id])
    ensures Open(b, tenant, id) <==> Editable(b.rows[id])
  {
    assert RowInv(b.rows[id]);
  }

  lemma EditChange(b: Book, tenant: nat, id: nat, req: Request, flag: Option<bool>)
    requires BookInv(b)
    ensures UpdateChange(b, tenant, id, req, flag)
         == if Open(b, tenant, id) then Replace(id, EditedRow(b.rows[id], req, flag)) else Nothing
  {
    if id in b.rows && b.rows[id].tenant == tenant { OpenIsEditable(b, tenant, id); }
  }

  /** An edit goes through exactly on an open row, and makes it a draft that shows the new request under the old id. */
  lemma EditExactly(b: Book, tenant: nat, id: nat, req: Request, flag: Option<bool>)
    requires BookInv(b)
    ensures var after := Step(b, Update(tenant, id, req, flag));
      if !Open(b, tenant, id) then after == b
      else
        && after.rows.Keys == b.rows.Keys && OthersSame(b, after, id)
        && var r := after.rows[id];
           && r.tenant == tenant && r.externalId == b.rows[id].externalId && r.issue == req.issue && Shows(r, req)
           && r.isTemplate == if flag.Some? then flag.value else b.rows[id].isTemplate
  {
    EditChange(b, tenant, id, req, flag);
  }

  lemma DeletionIs(b: Book, tenant: nat, id: nat)
    requires BookInv(b)
    ensures DeleteChange(b, tenant, id)
         == if Open(b, tenant, id) && !exists s :: s in b.schedules && s.template == id then Remove(id) else Nothing
  {
    if id in b.rows && b.rows[id].tenant == tenant { OpenIsEditable(b, tenant, id); }
  }

  /** A deletion goes through exactly on an open row that is no schedule's template; every other row stays. */
  lemma DeleteExactly(b: Book, tenant: nat, id: nat)
    requires BookInv(b)
    ensures var after := Step(b, Delete(tenant, id));
      if !Open(b, tenant, id) || exists s :: s in b.schedules && s.template == id then after == b
      else after.rows.Keys == b.rows.Keys - {id} && OthersSame(b, after, id)
  {
    DeletionIs(b, tenant, id);
  }

  /** The copy of a row shows what the row shows. */
  predicate Resembles(r: Invoice, src: Invoice) {
    && r.status == Draft && NoIdentifiers(r) && !r.isTemplate
    && r.lines == src.lines && (r.net, r.vat, r.gross) == (src.net, src.vat, src.gross)
    && r.buyer == src.buyer && r.currency == src.currency && r.notes == src.notes
    && (r.typeOfInv, r.pay, r.docType) == (src.typeOfInv, src.pay, src.docType)
  }

  /** A copy is stored, as a new row that resembles its source, exactly when the tenant has the source and the id made
      for the copy is free. */
  lemma CopyExactly(b: Book, tenant: nat, id: nat, now: DateTime, token: Hex)
    requires BookInv(b)
    ensures var after, key := Step(b, Copy(tenant, id, now, token)), "copy-" + DigitsOf(id) + "-" + token;
      if !Owns(b, tenant, id) || Taken(b, tenant, key) then after == b
      else
        && after.rows.Keys == b.rows.Keys + {b.nextId} && OthersSame(b, after, b.nextId)
        && var r := after.rows[b.nextId];
           && r.tenant == tenant && r.externalId == key && r.issue == now && r.payload == b.rows[id].payload
           && Resembles(r, b.rows[id])
  {
    TakenIsFound(b, tenant, "copy-" + DigitsOf(id) + "-" + token);
  }

  // ---------- what is sent afterwards ----------

  /** Sending a saved draft sends the request it was saved with, as of now. */
  lemma SavedSends(b: Book, tenant: nat, req: Request, isTemplate: bool, token: Hex, now: DateTime)
    requires BookInv(b) && !Taken(b, tenant, DraftId(req, token))
    ensures var after := Step(b, Save(tenant, req, isTemplate, token));
      && b.nextId in after.rows
      && var q := SavedRequest(after.rows[b.nextId], now);
         SameBusiness(q, req) && q.issue == now && q.externalId == Some(DraftId(req, token)) && q.ordNum == req.ordNum
  {
    SaveExactly(b, tenant, req, isTemplate, token);
    TakenIsFound(b, tenant, DraftId(req, token));
  }

  /** Sending a row after an edit sends the edited request, whatever the row said before. */
  lemma EditedSends(b: Book, tenant: nat, id: nat, req: Request, flag: Option<bool>, now: DateTime)
    requires BookInv(b) && Open(b, tenant, id)
    ensures var after := Step(b, Update(tenant, id, req, flag));
      && id in after.rows
      && var q := SavedRequest(after.rows[id], now);
         SameBusiness(q, req) && q.issue == now && q.externalId == Some(b.rows[id].externalId) && q.ordNum == req.ordNum
  {
    EditExactly(b, tenant, id, req, flag);
    OpenIsEditable(b, tenant, id);
  }

  /** Sending a copy sends what the source would send, under the copy's id and as of now. */
  lemma CopySends(b: Book, tenant: nat, id: nat, now: DateTime, token: Hex, later: DateTime)
    requires BookInv(b) && Owns(b, tenant, id) && !Taken(b, tenant, "copy-" + DigitsOf(id) + "-" + token)
    ensures var after := Step(b, Copy(tenant, id, now, token));
      && b.nextId in after.rows
      && var q := SavedRequest(after.rows[b.nextId], later);
         && SameBusiness(q, SavedRequest(b.rows[id], later)) && q.issue == later
         && q.externalId == Some("copy-" + DigitsOf(id) + "-" + token)
  {
    CopyExactly(b, tenant, id, now, token);
    TakenIsFound(b, tenant, "copy-" + DigitsOf(id) + "-" + token);
  }

  // ---------- what a submission leaves on its row ----------

  /** Kind, payment method and totals of the request, and its payload, are on the row. */
  predicate TakesOver(r: Invoice, req: Request) {
    && r.payload == req && (r.net, r.vat, r.gross) == (req.net, req.vat, req.gross)
    && (r.typeOfInv, r.pay, r.docType) == (req.typeOfInv, req.pay, req.docType)
  }

  /** What only a new row takes from the request; on a row written over it stays as it was. */
  predicate SameFace(r: Invoice, issue: DateTime, lines: seq<Line>, buyer: Option<Buyer>, currency: string,
                     notes: Option<string>, isTemplate: bool)
  {
    r.issue == issue && r.lines == lines && r.buyer == buyer && r.currency == currency && r.notes == notes
    && r.isTemplate == isTemplate
  }

  predicate FaceKept(r: Invoice, s: Invoice) {
    SameFace(r, s.issue, s.lines, s.buyer, s.currency, s.notes, s.isTemplate)
  }

  /** An invoice or IKOF referred to by the request is on the row; where the request names none, the row keeps what it
      had. */
  predicate RefersTo(r: Invoice, req: Request, was: Option<Invoice>) {
    && (Given(req.iicRef) ==> r.refIkof == req.iicRef)
    && (!Given(req.iicRef) ==> r.refIkof == if was.Some? then was.value.refIkof else None)
    && (was.None? || Positive(req.refInvoice) ==> r.refInvoice == req.refInvoice)
    && (was.Some? && !Positive(req.refInvoice) ==> r.refInvoice == was.value.refInvoice)
  }

  lemma RecordShows(b: Book, t: Tenant, req: Request, target: Option<nat>, externalId: string, invNum: string,
                    ord: nat, local: nat, result: PartnerResult, now: DateTime)
    requires target.Some? ==> target.value in b.rows && !b.rows[target.value].status.Fiscalized?
    ensures var after := Apply(b, RecordChange(b, t, req, target, externalId, invNum, ord, local, result, now));
      var id := if target.Some? then target.value else b.nextId;
      && id in after.rows && TakesOver(after.rows[id], req) && after.rows[id].externalId == externalId
      && RefersTo(after.rows[id], req, if target.None? then None else Some(b.rows[id]))
      && if target.None? then SameFace(after.rows[id], req.issue, req.lines, req.buyer, req.currency, req.notes, false)
         else FaceKept(after.rows[id], b.rows[id])
  {
  }

  /** A submission that reaches the partner and hits no fiscalized row leaves its kind, payment method and totals on the
      row, whatever the answer, with the references it gives; a new row also shows its time, lines, buyer, currency
      and notes, while a row written over keeps its own. */
  lemma SubmissionShows(b: Book, t: Tenant, req: Request, w: World, now: DateTime)
    requires CallsPartner(b, t, req)
    requires Target(b, t, req, w).Some? ==> !b.rows[Target(b, t, req, w).value].status.Fiscalized?
    ensures var after, id := Step(b, Submit(t, req, w, now)), RecordedOn(b, t, req, w);
      && id in after.rows && TakesOver(after.rows[id], req)
      && RefersTo(after.rows[id], req, if Target(b, t, req, w).None? then None else Some(b.rows[id]))
      && if Target(b, t, req, w).None?
         then SameFace(after.rows[id], req.issue, req.lines, req.buyer, req.currency, req.notes, false)
         else FaceKept(after.rows[id], b.rows[id])
  {
    var result, ord := Outcome(b, t, req, w), ChosenOrd(b, t, req);
    SubmittedStep(b, Submit(t, req, w, now));
    RecordShows(b, t, req, Target(b, t, req, w), FinalId(b, t, req, w), StoredInvNum(t, req, ord, result),
                ord, ChosenLocal(b, t, req), result, now);
  }

  // ---------- what a bulk copy amounts to ----------

  /** The copies of a bulk copy from the i-th on: of rows the tenant had when it began. */
  function CopyOps(b: Book, tenant: nat, ids: seq<nat>, now: DateTime, tokens: nat -> Hex, i: nat): seq<Op>
    requires i <= |ids|
    decreases |ids| - i
  {
    if i == |ids| then []
    else if ids[i] in b.rows && b.rows[ids[i]].tenant == tenant
    then [Copy(tenant, ids[i], now, tokens(i))] + CopyOps(b, tenant, ids, now, tokens, i + 1)
    else CopyOps(b, tenant, ids, now, tokens, i + 1)
  }

  /** Every copy of a bulk copy goes through: no generated id is taken. */
  predicate AllCopied(b: Book, ops: seq<Op>)
    decreases |ops|
  {
    ops == [] || (ChangeOf(b, ops[0]).Insert? && AllCopied(Step(b, ops[0]), ops[1..]))
  }

  lemma CopyHead(b: Book, op: Op, ops: seq<Op>)
    ensures Run(b, [op] + ops) == Run(Step(b, op), ops)
    ensures AllCopied(b, [op] + ops) <==> ChangeOf(b, op).Insert? && AllCopied(Step(b, op), ops)
  {
    assert ([op] + ops)[1..] == ops;
  }

  /** The book after some copies: everything of b as it was, and the copies after it. */
  ghost predicate CopiedSoFar(b: Book, book: Book, copies: seq<Invoice>) {
    && book.nextId == b.nextId + |copies|
    && (forall id | id in b.rows :: id in book.rows && book.rows[id] == b.rows[id])
    && (forall j | 0 <= j < |copies| :: IsRow(book, b.nextId + j, copies[j]))
  }

  predicate IsRow(b: Book, id: nat, r: Invoice) { id in b.rows && b.rows[id] == r }

  predicate CopyOf(r: Invoice, b: Book, tenant: nat, id: nat, now: DateTime) {
    Owns(b, tenant, id) && r.tenant == tenant && r.issue == now && Resembles(r, b.rows[id])
    && r.payload == b.rows[id].payload
  }

  lemma OneCopy(b: Book, book: Book, copies: seq<Invoice>, tenant: nat, id: nat, now: DateTime, token: Hex)
    requires (forall k | k in b.rows :: k < b.nextId) && CopiedSoFar(b, book, copies) && Owns(b, tenant, id)
    requires ChangeOf(book, Copy(tenant, id, now, token)).Insert?
    ensures var r := CopyRow(b.rows[id], id, now, token);
      CopiedSoFar(b, Step(book, Copy(tenant, id, now, token)), copies + [r]) && CopyOf(r, b, tenant, id, now)
  {
    var r, after := CopyRow(b.rows[id], id, now, token), Step(book, Copy(tenant, id, now, token));
    assert after.rows == book.rows[book.nextId := r] && after.nextId == book.nextId + 1;
    forall j | 0 <= j < |copies + [r]| ensures IsRow(after, b.nextId + j, (copies + [r])[j]) {
      if j < |copies| { assert IsRow(book, b.nextId + j, copies[j]); }
    }
  }

  /** A bulk copy that is to end in `goal` and has come to its i-th row. */
  ghost predicate Underway(b: Book, book: Book, goal: Book, tenant: nat, ids: seq<nat>, now: DateTime,
                           tokens: nat -> Hex, i: nat)
    requires i <= |ids|
  {
    var rest := CopyOps(b, tenant, ids, now, tokens, i);
    AllCopied(book, rest) && goal == Run(book, rest)
  }

  /** One turn of it. */
  lemma CopyTurn(b: Book, book: Book, goal: Book, copies: seq<Invoice>, tenant: nat, ids: seq<nat>, now: DateTime,
                 tokens: nat -> Hex, i: nat)
    returns (after: Book, more: seq<Invoice>)
    requires (forall k | k in b.rows :: k < b.nextId) && CopiedSoFar(b, book, copies) && i < |ids|
    requires Underway(b, book, goal, tenant, ids, now, tokens, i)
    ensures CopiedSoFar(b, after, copies + more) && Underway(b, after, goal, tenant, ids, now, tokens, i + 1)
    ensures if Owns(b, tenant, ids[i]) then |more| == 1 && CopyOf(more[0], b, tenant, ids[i], now) else more == []
  {
    if Owns(b, tenant, ids[i]) {
      var op := Copy(tenant, ids[i], now, tokens(i));
      CopyHead(book, op, CopyOps(b, tenant, ids, now, tokens, i + 1));
      OneCopy(b, book, copies, tenant, ids[i], now, tokens(i));
      after, more := Step(book, op), [CopyRow(b.rows[ids[i]], ids[i], now, tokens(i))];
    } else {
      after, more := book, [];
      assert copies + more == copies;
    }
  }

  /** The copies are those of the list's rows that the tenant had, in order. */
  ghost predicate CopiesOf(copies: seq<Invoice>, b: Book, tenant: nat, ids: seq<nat>, now: DateTime, from: seq<nat>) {
    Picked(copies, ids, from, (id: nat) => Owns(b, tenant, id), (r: Invoice, id: nat) => CopyOf(r, b, tenant, id, now))
  }

  lemma CopiesNext(copies: seq<Invoice>, b: Book, tenant: nat, ids: seq<nat>, now: DateTime, from: seq<nat>,
                   i: nat, more: seq<Invoice>)
    requires i < |ids| && CopiesOf(copies, b, tenant, ids[..i], now, from)
    requires if Owns(b, tenant, ids[i]) then |more| == 1 && CopyOf(more[0], b, tenant, ids[i], now) else more == []
    ensures CopiesOf(copies + more, b, tenant, ids[..i + 1], now, from + if Owns(b, tenant, ids[i]) then [i] else [])
  {
    PickedNext(copies, ids[..i], from, (id: nat) => Owns(b, tenant, id),
               (r: Invoice, id: nat) => CopyOf(r, b, tenant, id, now), ids[i], more);
    assert ids[..i] + [ids[i]] == ids[..i + 1];
  }

  /** The book after is the book before and these copies. */
  ghost predicate CopiesMade(b: Book, after: Book, tenant: nat, ids: seq<nat>, now: DateTime) {
    exists copies: seq<Invoice>, from: seq<nat> ::
      CopiedSoFar(b, after, copies) && CopiesOf(copies, b, tenant, ids, now, from)
  }

  lemma CopyEnds(b: Book, book: Book, goal: Book, tenant: nat, ids: seq<nat>, now: DateTime, tokens: nat -> Hex)
    requires Underway(b, book, goal, tenant, ids, now, tokens, |ids|)
    ensures goal == book
  {
  }

  /** A bulk copy that goes through makes one copy for each row of the list that the tenant had, in the order of the
      list, and leaves everything else as it was. */
  lemma BulkCopies(b: Book, goal: Book, tenant: nat, ids: seq<nat>, now: DateTime, tokens: nat -> Hex)
    returns (copies: seq<Invoice>, from: seq<nat>)
    requires (forall k | k in b.rows :: k < b.nextId) && Underway(b, b, goal, tenant, ids, now, tokens, 0)
    ensures CopiedSoFar(b, goal, copies) && CopiesOf(copies, b, tenant, ids, now, from)
  {
    copies, from := [], [];
    var book := b;
    for i := 0 to |ids|
      invariant CopiedSoFar(b, book, copies) && CopiesOf(copies, b, tenant, ids[..i], now, from)
      invariant Underway(b, book, goal, tenant, ids, now, tokens, i)
    {
      var after, more := CopyTurn(b, book, goal, copies, tenant, ids, now, tokens, i);
      CopiesNext(copies, b, tenant, ids, now, from, i, more);
      book, copies, from := after, copies + more, from + if Owns(b, tenant, ids[i]) then [i] else [];
    }
    assert ids[..|ids|] == ids;
    CopyEnds(b, book, goal, tenant, ids, now, tokens);
  }
}
