/** What is submitted for fiscalization (sepko/schemas.py, sepko/efi.py) and the checks made on it
    before anything is sent (sepko/services.py).  Money is counted in cents; quantities, unit
    prices, line amounts and rates in units of 10^-4. */
module Requests {
  import opened Wrappers
  import opened Text
  import opened Calendar
  import opened Rounding

  datatype DocumentType =
    | INVOICE | ADVANCE | CREDIT_NOTE | CORRECTIVE | ERROR_CORRECTIVE | SUMMARY | PERIODICAL
    | PROFORMA

  /** Types with a reference to an original invoice; amounts may be negative. */
  predicate Credit(d: DocumentType) { d.CREDIT_NOTE? || d.CORRECTIVE? || d.ERROR_CORRECTIVE? }

  datatype TypeOfInv = CASH | NONCASH

  datatype PayMethod =
    | BANKNOTE | CARD | BUSINESSCARD | SVOUCHER | COMPANY | ORDER | ADVANCE_PAID | ACCOUNT
    | FACTORING | OTHER | OTHER_CASH

  predicate CashMethod(p: PayMethod) { p.BANKNOTE? || p.CARD? || p.OTHER_CASH? }

  datatype Line = Line(code: string, name: string, quantity: int, unitNet: int, vatRate: int,
                       gross: int, taxCode: string, unit: string)

  datatype Buyer = Buyer(pib: Option<string>, name: Option<string>, address: Option<string>)

  datatype Request = Request(
    externalId: Option<string>, issue: DateTime, typeOfInv: TypeOfInv, pay: PayMethod,
    docType: DocumentType, ordNum: Option<nat>, currency: string, buyer: Option<Buyer>,
    lines: seq<Line>, net: int, vat: int, gross: int, notes: Option<string>,
    iicRef: Option<string>, refInvoice: Option<nat>)

  /** Python's truth value of an optional text or number. */
  predicate Given(s: Option<string>) { s.Some? && s.value != "" }
  predicate Positive(n: Option<nat>) { n.Some? && n.value > 0 }

  /** a or b */
  function Either(a: Option<string>, b: Option<string>): Option<string> { if Given(a) then a else b }

  function GrossSum(lines: seq<Line>): int {
    if lines == [] then 0 else lines[0].gross + GrossSum(lines[1..])
  }

  /** 0.05 in cents. */
  const TOLERANCE := 5

  predicate TotalsAgree(net: int, vat: int, gross: int) { Abs(net + vat - gross) <= TOLERANCE }

  predicate PaymentFits(t: TypeOfInv, p: PayMethod) { t.CASH? <==> CashMethod(p) }

  /** validate_totals: None when the request may be sent. */
  function TotalsError(req: Request): Option<string> {
    if Abs(GrossSum(req.lines) - 100 * req.gross) > 100 * TOLERANCE then Some("lines sum != totals.gross")
    else if !TotalsAgree(req.net, req.vat, req.gross) then Some("net+vat != gross")
    else if req.typeOfInv.NONCASH? && !(req.buyer.Some? && Given(req.buyer.value.pib))
    then Some("buyer.pib required for NONCASH invoices")
    else if req.typeOfInv.CASH? && !CashMethod(req.pay)
    then Some("CASH invoice requires BANKNOTE, CARD or OTHER-CASH payment")
    else if req.typeOfInv.NONCASH? && CashMethod(req.pay)
    then Some("NONCASH invoice cannot use BANKNOTE/CARD/OTHER-CASH")
    else None
  }

  /** The checks at the head of fiscalize_invoice. */
  function Refusal(req: Request): Option<string> {
    if req.docType.PROFORMA? then Some("a proforma is not fiscalized")
    else if TotalsError(req).Some? then TotalsError(req)
    else if Credit(req.docType) && !(req.iicRef.Some? && Trim(req.iicRef.value) != "")
    then Some("iic_ref required")
    else None
  }

  /** What the law asks of an invoice before it is sent, to the cent: lines that sum to the gross and totals that add
      up, each within 0.05; the buyer's PIB on a non-cash invoice; a payment method of its kind; and on a credit note
      the IKOF it refers to. */
  predicate MayBeSent(req: Request) {
    && req.docType != PROFORMA
    && -500 <= GrossSum(req.lines) - 100 * req.gross <= 500
    && -5 <= req.net + req.vat - req.gross <= 5
    && (req.typeOfInv == NONCASH ==> req.buyer.Some? && req.buyer.value.pib.Some? && req.buyer.value.pib.value != "")
    && (req.typeOfInv == CASH <==> req.pay in {BANKNOTE, CARD, OTHER_CASH})
    && (req.docType in {CREDIT_NOTE, CORRECTIVE, ERROR_CORRECTIVE} ==>
          req.iicRef.Some? && Trim(req.iicRef.value) != "")
  }

  /** Exactly these requests pass the checks made before anything is sent. */
  lemma RefusalExactly(req: Request)
    ensures Refusal(req).None? <==> MayBeSent(req)
  {
  }

  /** 10,000,000.00 in units of 10^-4. */
  const MAX_MONEY := 100_000_000_000

  /** FiscalizeRequest.amounts_sign_and_bounds and the length limits on lines. */
  predicate SchemaAccepts(req: Request) {
    && 1 <= |req.lines| <= 500
    && (forall l | l in req.lines ::
          && l.quantity != 0
          && 0 <= l.vatRate <= 1_000_000
          && (!Credit(req.docType) ==> l.quantity >= 0 && l.unitNet >= 0 && l.gross >= 0)
          && Abs(l.quantity) <= MAX_MONEY && Abs(l.unitNet) <= MAX_MONEY && Abs(l.gross) <= MAX_MONEY)
    && (!Credit(req.docType) ==> req.net >= 0 && req.vat >= 0 && req.gross >= 0)
    && 100 * Abs(req.net) <= MAX_MONEY && 100 * Abs(req.vat) <= MAX_MONEY && 100 * Abs(req.gross) <= MAX_MONEY
    && (Credit(req.docType) ==> req.gross != 0 && Given(req.iicRef))
  }
}
