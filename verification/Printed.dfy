/** The QR code printed on an invoice (build_qr_url in sepko/efi.py, as the adapters of sepko/partner.py fill it in):
    it shows the row it is printed from, scans back to it, and its own data hash to its IKOF. */
module Printed {
  import opened Wrappers
  import opened Calendar
  import opened Requests
  import opened Partner
  import opened Invoices
  import opened Integrity
  import opened Runs
  import opened Ikof
  import opened InvoiceNumbers
  import opened QrUrl
  import Money

  /** The row carries the result's IKOF and code, and the request's number and gross. */
  predicate CarriesCode(r: Invoice, req: Request, result: PartnerResult, ord: nat, invNum: string) {
    && r.ikof == result.ikof && r.qr == result.qr && r.ordNum == Some(ord) && r.gross == req.gross
    && r.invNum == Some(invNum)
  }

  lemma RecordCarriesCode(b: Book, t: Tenant, req: Request, target: Option<nat>, externalId: string, invNum: string,
                          ord: nat, local: nat, result: PartnerResult, now: DateTime)
    requires target.Some? ==> target.value in b.rows && !b.rows[target.value].status.Fiscalized?
    requires Sound(result, ord) && (result.ok || result.offline)
    ensures var after := Apply(b, RecordChange(b, t, req, target, externalId, invNum, ord, local, result, now));
      var id := if target.Some? then target.value else b.nextId;
      id in after.rows && CarriesCode(after.rows[id], req, result, StoredOrd(ord, result), invNum)
  {
  }

  /** The submission reaches the partner, is registered or goes offline, and hits no fiscalized row. */
  predicate Records(b: Book, t: Tenant, req: Request, w: World) {
    && CallsPartner(b, t, req) && (Outcome(b, t, req, w).ok || Outcome(b, t, req, w).offline)
    && (Target(b, t, req, w).Some? ==> !b.rows[Target(b, t, req, w).value].status.Fiscalized?)
  }

  /** The code on a row built here shows the row's own IKOF, number and gross, the tenant, and the time of sending; the
      row's InvNum is the one the code's fields make. */
  predicate ShowsRow(r: Invoice, t: Tenant, issue: DateTime) {
    r.qr.Some? && r.qr.value.Built? ==>
      var f := r.qr.value.fields;
      && r.ikof.Some? && r.ordNum.Some? && r.ordNum.value >= 1
      && PrintedFor(f, t, r.ikof.value, issue, r.ordNum.value, r.gross)
      && r.invNum == Some(InvNum(f.unitCode, f.ord, YearOf(f.issue), f.deviceCode))
  }

  lemma CodeCarried(b: Book, t: Tenant, req: Request, w: World, now: DateTime)
    requires Records(b, t, req, w)
    ensures var after, id, result, ord :=
        Step(b, Submit(t, req, w, now)), RecordedOn(b, t, req, w), Outcome(b, t, req, w), ChosenOrd(b, t, req);
      id in after.rows
      && CarriesCode(after.rows[id], req, result, StoredOrd(ord, result), StoredInvNum(t, req, ord, result))
  {
    var result, ord := Outcome(b, t, req, w), ChosenOrd(b, t, req);
    AdapterContract(t, w, req, ord, ReuseIic(b, t, req), ReuseSig(b, t, req));
    SubmittedStep(b, Submit(t, req, w, now));
    RecordCarriesCode(b, t, req, Target(b, t, req, w), FinalId(b, t, req, w), StoredInvNum(t, req, ord, result),
                      ord, ChosenLocal(b, t, req), result, now);
  }

  lemma CodeShowsRow(b: Book, t: Tenant, req: Request, w: World, now: DateTime)
    requires CodesTrimmed(t) && Records(b, t, req, w) && EchoesHere(b, t, req, w)
    ensures var after, id := Step(b, Submit(t, req, w, now)), RecordedOn(b, t, req, w);
      id in after.rows && ShowsRow(after.rows[id], t, req.issue)
  {
    var ord := ChosenOrd(b, t, req);
    ResultPrints(t, w, req, ord, ReuseIic(b, t, req), ReuseSig(b, t, req));
    OurNumber(b, t, req, w);
    CodeCarried(b, t, req, w, now);
    var r := Step(b, Submit(t, req, w, now)).rows[RecordedOn(b, t, req, w)];
    CarriedShows(r, t, req, Outcome(b, t, req, w), ord);
  }

  lemma OurNumber(b: Book, t: Tenant, req: Request, w: World)
    requires CodesTrimmed(t) && EchoesHere(b, t, req, w)
    ensures StoredInvNum(t, req, ChosenOrd(b, t, req), Outcome(b, t, req, w))
         == InvNumOf(t, ChosenOrd(b, t, req), req.issue)
    ensures StoredOrd(ChosenOrd(b, t, req), Outcome(b, t, req, w)) == ChosenOrd(b, t, req)
  {
    AdapterNumber(t, w, req, ChosenOrd(b, t, req), ReuseIic(b, t, req), ReuseSig(b, t, req));
    AdapterContract(t, w, req, ChosenOrd(b, t, req), ReuseIic(b, t, req), ReuseSig(b, t, req));
  }

  lemma CarriedShows(r: Invoice, t: Tenant, req: Request, result: PartnerResult, ord: nat)
    requires CarriesCode(r, req, result, ord, InvNumOf(t, ord, req.issue)) && PrintsResult(result, t, req, ord)
    requires ord > 0
    ensures ShowsRow(r, t, req.issue)
  {
  }

  // ---------- scanning it ----------

  /** The identifiers survive being read from a URL. */
  predicate CleanCodes(f: QrFields) {
    && Clean(f.iic) && Clean(f.tin) && Clean(OrDefault(f.unitCode, "bu00000000"))
    && Clean(OrDefault(f.deviceCode, "cr00000000")) && Clean(OrDefault(f.softCode, "sw00000000"))
  }

  /** Scanning the code built for the row gives back its number, gross and the time it was sent with, and with clean
      identifiers its IKOF, the seller's PIB, and its InvNum, cut to 64 characters. */
  predicate ScansBack(r: Invoice, t: Tenant, issue: DateTime) {
    r.qr.Some? && r.qr.value.Built? && Encodable(r.qr.value.fields) ==>
      r.qr.value.fields.issue == issue && (Zoned(issue) ==>
        var d := Parsed(BuildUrl(r.qr.value.fields));
        && (d.Ok? ==> r.ordNum.Some? && d.value.ord == Some(r.ordNum.value) && d.value.issue == Some(IssueOf(issue))
                      && d.value.gross == Some(Money.Decimal(r.gross, 2)))
        && (CleanCodes(r.qr.value.fields) ==>
              d.Ok? && d.value.ikof == r.ikof && d.value.supplierPib == Some(t.pib)
              && r.invNum.Some? && d.value.number == QrUrl.Cut(r.invNum.value, 64)))
  }

  lemma ShownScans(r: Invoice, t: Tenant, issue: DateTime)
    requires ShowsRow(r, t, issue)
    ensures ScansBack(r, t, issue)
  {
    if r.qr.Some? && r.qr.value.Built? && Encodable(r.qr.value.fields) && Zoned(issue) {
      ScanRecovers(r.qr.value.fields);
    }
  }

  /** The code of a row just submitted scans back to that row. */
  lemma SubmissionScans(b: Book, t: Tenant, req: Request, w: World, now: DateTime)
    requires CodesTrimmed(t) && Records(b, t, req, w) && EchoesHere(b, t, req, w)
    ensures var after, id := Step(b, Submit(t, req, w, now)), RecordedOn(b, t, req, w);
      id in after.rows && ScansBack(after.rows[id], t, req.issue)
  {
    CodeShowsRow(b, t, req, w, now);
    ShownScans(Step(b, Submit(t, req, w, now)).rows[RecordedOn(b, t, req, w)], t, req.issue);
  }

  // ---------- checking it ----------

  /** The data an IKOF is computed over, read off the code. */
  function DataOf(f: QrFields): IicInput {
    IicInput(f.tin, f.issue, f.ord, InvNum(f.unitCode, f.ord, YearOf(f.issue), f.deviceCode), f.unitCode, f.deviceCode,
             f.softCode, f.price)
  }

  /** With a certificate, and no IKOF handed back, the printed data hash to the printed IKOF. */
  lemma PrintedVerifies(b: Book, t: Tenant, req: Request, w: World, hash: IicInput -> Hex)
    requires w.certificate == Some(hash) && EchoesHere(b, t, req, w) && ReuseIic(b, t, req).None?
    requires Outcome(b, t, req, w).ok || Outcome(b, t, req, w).offline
    ensures var qr := Outcome(b, t, req, w).qr;
      qr.Some? && qr.value.Built? ==> qr.value.fields.iic == hash(DataOf(qr.value.fields))
  {
    var ord := ChosenOrd(b, t, req);
    IkofIsUsed(t, w, req, ord, None, ReuseSig(b, t, req));
    ResultPrints(t, w, req, ord, None, ReuseSig(b, t, req));
  }
}
