/** The fiscal partner behind its four adapters (sepko/partner.py, sepko/extfisk.py,
    sepko/pu/adapter.py).  The network, the certificate and random identifiers are the World of
    one call; everything the adapters themselves decide is computed here. */
module Partner {
  import opened Wrappers
  import opened Text
  import opened Calendar
  import opened Requests
  import InvoiceNumbers

  datatype Channel = Mock | Navira | Extfisk | Poreska

  datatype Tenant = Tenant(id: nat, pib: string, prod: bool, unitCode: string, deviceCode: string,
                           softCode: string, channel: Channel)

  /** Codes with no surrounding white space, as the administration form stores them. */
  predicate CodesTrimmed(t: Tenant) { Trimmed(t.unitCode) && Trimmed(t.deviceCode) }

  /** A hash printed as upper-case hexadecimal digits. */
  predicate HexText(s: string) {
    |s| > 0 && forall i :: 0 <= i < |s| ==> IsDigit(s[i]) || 'A' <= s[i] <= 'F'
  }
  type Hex = s: string | HexText(s) witness "0"

  lemma HexNormal(h: Hex)
    ensures Normal(h) == h && h != "" && Trimmed(h)
  {
    TrimTrims(h);
    assert Upper(h) == h;
  }

  /** What an IKOF is computed over. */
  datatype IicInput = IicInput(tin: string, issue: DateTime, ord: nat, invNum: string, unitCode: string,
                               deviceCode: string, softCode: string, gross: int)

  /** The arguments of build_qr_url; a partner may also send a URL of its own. */
  datatype QrFields = QrFields(prod: bool, iic: string, tin: string, issue: DateTime, ord: nat,
                               unitCode: string, deviceCode: string, softCode: string, price: int)
  datatype Qr = Url(url: string) | Built(fields: QrFields)

  datatype Body = Body(ikof: Option<string>, jikr: Option<string>, qrUrl: Option<string>,
                       ref: Option<string>, invNum: Option<string>, fault: Option<string>)

  datatype Attempt = NoAnswer | Answer(status: nat, body: Body)

  /** certificate: when a PKCS#12 file is present, the hash that makes an IKOF of the plain text; hash: the digest
      taken without one; signature: what the key signs; ready: URL and key are configured; attempts: the answers
      to up to three posts. */
  datatype World = World(certificate: Option<IicInput -> Hex>, signature: string, hash: Hex,
                         ready: bool, attempts: seq<Attempt>, uuid: string)

  datatype PartnerResult = PartnerResult(
    ok: bool, offline: bool, ikof: Option<string>, jikr: Option<string>, qr: Option<Qr>,
    partnerRef: Option<string>, invNum: Option<string>, ordNum: Option<nat>, sig: Option<string>,
    error: Option<string>)

  // ---------- posting with retries ----------

  const MAX_RETRIES := 3

  datatype Posted = Delivered(body: Body) | Undelivered(status: Option<nat>)

  predicate Final(a: Attempt) { a.Answer? && a.status < 500 }

  function FirstFinal(attempts: seq<Attempt>): (k: nat)
    ensures k <= |attempts|
    ensures k < |attempts| ==> Final(attempts[k])
    ensures forall i :: 0 <= i < k ==> !Final(attempts[i])
  {
    if attempts == [] || Final(attempts[0]) then 0 else 1 + FirstFinal(attempts[1..])
  }

  function LastStatus(attempts: seq<Attempt>): Option<nat> {
    if attempts == [] then None
    else if attempts[|attempts| - 1].Answer? then Some(attempts[|attempts| - 1].status)
    else LastStatus(attempts[..|attempts| - 1])
  }

  /** What three tries come to: the first answer below 500 decides; without one the last status
      seen, if any, is reported. */
  function Post(attempts: seq<Attempt>): Posted {
    var k := FirstFinal(attempts);
    if k == |attempts| then Undelivered(LastStatus(attempts))
    else if attempts[k].status >= 400 then Undelivered(Some(attempts[k].status))
    else Delivered(attempts[k].body)
  }

  /** The loop of _http_post_json and _post_xml over the answers the network would give. */
  method PostJson(answers: seq<Attempt>) returns (posted: Posted, tries: nat)
    requires |answers| == MAX_RETRIES
    ensures posted == Post(answers)
    ensures tries == if FirstFinal(answers) < MAX_RETRIES then FirstFinal(answers) + 1 else MAX_RETRIES
  {
    var lastStatus: Option<nat> := None;
    tries := 0;
    while tries < MAX_RETRIES
      invariant tries <= FirstFinal(answers)
      invariant lastStatus == LastStatus(answers[..tries])
    {
      var a := answers[tries];
      assert answers[..tries + 1][..tries] == answers[..tries];
      tries := tries + 1;
      match a {
        case NoAnswer =>
        case Answer(status, body) =>
          lastStatus := Some(status);
          if status >= 500 {
          } else if status >= 400 {
            return Undelivered(Some(status)), tries;
          } else {
            return Delivered(body), tries;
          }
      }
    }
    assert answers[..tries] == answers;
    posted := Undelivered(lastStatus);
  }

  /** Mreža / 5xx: the answer counts as "partner unavailable". */
  predicate Unavailable(p: Posted) { p.Undelivered? && (p.status.None? || p.status.value >= 500) }

  lemma {:induction false} LastStatusSeen(attempts: seq<Attempt>)
    requires forall i :: 0 <= i < |attempts| ==> !Final(attempts[i])
    ensures LastStatus(attempts).Some? ==> LastStatus(attempts).value >= 500
  {
    if attempts != [] && !attempts[|attempts| - 1].Answer? { LastStatusSeen(attempts[..|attempts| - 1]); }
  }

  /** A post counts as unavailable exactly when no try got an answer below 500, and as delivered exactly when
      the first such answer is below 400. */
  lemma OfflineMeansNoAnswer(attempts: seq<Attempt>)
    ensures Unavailable(Post(attempts)) <==> forall i :: 0 <= i < |attempts| ==> !Final(attempts[i])
    ensures Post(attempts).Delivered? <==>
      exists k :: 0 <= k < |attempts| && Final(attempts[k]) && attempts[k].status < 400
                  && forall i :: 0 <= i < k ==> !Final(attempts[i])
  {
    var k := FirstFinal(attempts);
    if k == |attempts| { LastStatusSeen(attempts); }
  }

  // ---------- the adapters ----------

  /** _pick: the trimmed text, if there is one. */
  function Pick(v: Option<string>): (r: Option<string>)
    ensures r.Some? ==> r.value != ""
  {
    if v.Some? && Trim(v.value) != "" then Some(Trim(v.value)) else None
  }

  /** (reuse_iic or "").strip().upper() or None */
  function Reused(iic: Option<string>): (r: Option<string>)
    ensures r.Some? ==> r.value != ""
  {
    if iic.Some? && Normal(iic.value) != "" then Some(Normal(iic.value)) else None
  }

  function InvNumOf(t: Tenant, ord: nat, issue: DateTime): string {
    InvoiceNumbers.InvNum(t.unitCode, ord, YearOf(issue), t.deviceCode)
  }

  function IicInputOf(t: Tenant, req: Request, ord: nat): IicInput {
    IicInput(t.pib, req.issue, ord, InvNumOf(t, ord, req.issue), t.unitCode, t.deviceCode, t.softCode, req.gross)
  }

  function QrOf(t: Tenant, req: Request, ord: nat, iic: string): Qr {
    Built(QrFields(t.prod, iic, t.pib, req.issue, ord, t.unitCode, t.deviceCode, t.softCode, req.gross))
  }

  predicate GrossAllowed(req: Request) {
    if Credit(req.docType) then req.gross != 0 else req.gross > 0
  }

  function Plain(msg: string): PartnerResult {
    PartnerResult(false, false, None, None, None, None, None, None, None, Some(msg))
  }

  function Rejected(iic: Option<string>, sig: Option<string>, invNum: string, ord: nat, msg: string): PartnerResult {
    PartnerResult(false, false, iic, None, None, None, Some(invNum), Some(ord), sig, Some(msg))
  }

  function Offline(t: Tenant, req: Request, ord: nat, iic: Option<string>, sig: Option<string>): PartnerResult {
    if !Given(iic) then Rejected(None, None, InvNumOf(t, ord, req.issue), ord, "partner unavailable")
    else PartnerResult(false, true, iic, None, Some(QrOf(t, req, ord, iic.value)), None,
                       Some(InvNumOf(t, ord, req.issue)), Some(ord), sig, Some("offline"))
  }

  function Accepted(t: Tenant, req: Request, ord: nat, ikof: Option<string>, jikr: string, qr: Option<string>,
                    ref: Option<string>, invNum: string, sig: Option<string>): PartnerResult {
    PartnerResult(true, false, ikof, Some(jikr),
                  if qr.Some? then Some(Url(qr.value))
                  else if Given(ikof) then Some(QrOf(t, req, ord, ikof.value)) else None,
                  ref, Some(invNum), Some(ord), sig, None)
  }

  /** The IKOF an adapter works with: a reused one, a signed one, or (mock, EXTFISK) a digest. */
  function LocalIic(t: Tenant, w: World, req: Request, ord: nat, reuse: Option<string>, sig: Option<string>)
    : (Option<string>, Option<string>)
  {
    var kept := Reused(reuse);
    if kept.Some? && (t.channel.Poreska? ==> Given(sig) && Trim(sig.value) != "")
    then (kept, if t.channel.Poreska? then Some(Trim(sig.value)) else sig)
    else if w.certificate.Some?
    then (Some(w.certificate.value(IicInputOf(t, req, ord))), Some(w.signature))
    else if t.channel.Navira? then (None, sig)
    else if t.channel.Extfisk? then (Some(w.hash), None)
    else (Some(w.hash), sig)
  }

  /** What a delivered answer means on each of the three remote channels. */
  function Delivery(t: Tenant, req: Request, ord: nat, iic: Option<string>, sig: Option<string>, uuid: string,
                    body: Body)
    : PartnerResult
  {
    var invNum, jikr := InvNumOf(t, ord, req.issue), Pick(body.jikr);
    var ref := if Pick(body.ref).Some? || t.channel.Poreska? then Pick(body.ref) else Some(uuid);
    if !t.channel.Navira? && Given(body.fault) then Rejected(iic, sig, invNum, ord, body.fault.value)
    else if t.channel.Extfisk?
    then Accepted(t, req, ord, iic, if jikr.Some? then jikr.value else "TEST", Pick(body.qrUrl), ref, invNum, sig)
    else if jikr.None? then Offline(t, req, ord, iic, sig)
    else if t.channel.Poreska? then Accepted(t, req, ord, iic, jikr.value, None, ref, invNum, sig)
    else
      var ikof := if Pick(body.ikof).Some? then Pick(body.ikof) else iic;
      var num := if Pick(body.invNum).Some? then Pick(body.invNum).value else invNum;
      Accepted(t, req, ord, ikof, jikr.value, Pick(body.qrUrl), ref, num, sig)
  }

  /** The JIKR of the mock channel, a UUID named after tenant, id and invoice number; written as that name. */
  function MockJikr(t: Tenant, req: Request, invNum: string): (jikr: string)
    ensures jikr != ""
  {
    DigitsOf(t.id) + ":" + (if Given(req.externalId) then req.externalId.value else invNum) + ":" + invNum
  }

  /** On the mock channel one number of a tenant gets the same JIKR twice exactly under the same external id, the number
      itself standing in for a missing one. */
  lemma MockJikrExactly(t: Tenant, a: Request, b: Request, invNum: string)
    ensures MockJikr(t, a, invNum) == MockJikr(t, b, invNum)
       <==> Named(a, invNum) == Named(b, invNum)
  {
    SameMiddle(DigitsOf(t.id) + ":", Named(a, invNum), Named(b, invNum), ":", invNum);
  }

  lemma SameMiddle(head: string, x: string, y: string, sep: string, tail: string)
    ensures head + x + sep + tail == head + y + sep + tail <==> x == y
  {
    if head + x + sep + tail == head + y + sep + tail {
      assert |x| == |y|;
      assert (head + x + sep + tail)[|head|..|head| + |x|] == x;
      assert (head + y + sep + tail)[|head|..|head| + |y|] == y;
    }
  }

  function Named(req: Request, invNum: string): string {
    if req.externalId.Some? && req.externalId.value != "" then req.externalId.value else invNum
  }

  function Sent(t: Tenant, w: World, req: Request, ord: nat, iic: Option<string>, sig: Option<string>)
    : PartnerResult
  {
    var invNum := InvNumOf(t, ord, req.issue);
    if t.channel.Mock? then Accepted(t, req, ord, iic, MockJikr(t, req, invNum), None, Some(w.uuid), invNum, sig)
    else if !w.ready
    then PartnerResult(false, false, None, None, None, None, Some(invNum), Some(ord), None, Some("not configured"))
    else
      match Post(w.attempts)
      case Undelivered(status) =>
        if Unavailable(Post(w.attempts)) then Offline(t, req, ord, iic, sig)
        else Rejected(iic, sig, invNum, ord, "rejected")
      case Delivered(body) => Delivery(t, req, ord, iic, sig, w.uuid, body)
  }

  function Fiscalize(t: Tenant, w: World, req: Request, ord: nat, reuse: Option<string>, reuseSig: Option<string>)
    : PartnerResult
  {
    if !GrossAllowed(req) then Plain("totals.gross must be non-zero")
    else if t.channel.Poreska? && w.certificate.None? then Plain("certificate required")
    else
      var (iic, sig) := LocalIic(t, w, req, ord, reuse, reuseSig);
      Sent(t, w, req, ord, iic, sig)
  }

  /** Navira may answer with an IKOF and InvNum of its own; it echoes when they are ours. */
  predicate Echoes(t: Tenant, w: World, req: Request, ord: nat, reuse: Option<string>, sig: Option<string>) {
    t.channel.Navira? && Post(w.attempts).Delivered? ==>
      var body := Post(w.attempts).body;
      && (Pick(body.ikof).Some? ==> Pick(body.ikof) == LocalIic(t, w, req, ord, reuse, sig).0)
      && (Pick(body.invNum).Some? ==> Pick(body.invNum).value == InvNumOf(t, ord, req.issue))
  }

  /** Success comes with a JIKR and failure without one; an offline result carries an IKOF in
      normal form. */
  predicate Sound(r: PartnerResult, ord: nat) {
    && !(r.ok && r.offline)
    && (r.ok ==> Given(r.jikr)) && (!r.ok ==> r.jikr.None?)
    && (r.offline ==> Given(r.ikof) && Normal(r.ikof.value) == r.ikof.value)
    && (r.ordNum.Some? ==> r.ordNum.value == ord)
  }

  lemma DeliverySound(t: Tenant, req: Request, ord: nat, iic: Option<string>, sig: Option<string>, uuid: string,
                      body: Body)
    requires iic.Some? ==> Normal(iic.value) == iic.value
    ensures Sound(Delivery(t, req, ord, iic, sig, uuid, body), ord)
  {
  }

  lemma SentSound(t: Tenant, w: World, req: Request, ord: nat, iic: Option<string>, sig: Option<string>)
    requires iic.Some? ==> Normal(iic.value) == iic.value
    ensures Sound(Sent(t, w, req, ord, iic, sig), ord)
  {
    if Post(w.attempts).Delivered? { DeliverySound(t, req, ord, iic, sig, w.uuid, Post(w.attempts).body); }
  }

  /** What every adapter guarantees, whatever the world does. */
  lemma AdapterContract(t: Tenant, w: World, req: Request, ord: nat, reuse: Option<string>, sig: Option<string>)
    ensures Sound(Fiscalize(t, w, req, ord, reuse, sig), ord)
  {
    LocalIicNormal(t, w, req, ord, reuse, sig);
    var (iic, s) := LocalIic(t, w, req, ord, reuse, sig);
    SentSound(t, w, req, ord, iic, s);
  }

  /** The invoice number of a result is ours, or one the partner sent, trimmed. */
  predicate NumberFrom(r: PartnerResult, t: Tenant, ord: nat, issue: DateTime, body: Option<Body>) {
    r.invNum.Some? ==>
      r.invNum.value == InvNumOf(t, ord, issue)
      || (t.channel.Navira? && body.Some? && Pick(body.value.invNum) == r.invNum)
  }

  lemma SentNumber(t: Tenant, w: World, req: Request, ord: nat, iic: Option<string>, sig: Option<string>)
    ensures NumberFrom(Sent(t, w, req, ord, iic, sig), t, ord, req.issue,
                       if Post(w.attempts).Delivered? then Some(Post(w.attempts).body) else None)
  {
  }

  // ---------- when an adapter reports success ----------

  predicate HasText(v: Option<string>) { v.Some? && Trim(v.value) != "" }

  /** The k-th try got the first answer below 500, and it is a good one. */
  predicate AnsweredAt(attempts: seq<Attempt>, k: nat) {
    && k < |attempts| && attempts[k].Answer? && attempts[k].status < 400
    && forall i :: 0 <= i < k ==> attempts[i].NoAnswer? || attempts[i].status >= 500
  }

  /** What each partner has to say for the invoice to be registered: Navira a JIKR, EXTFISK no fault, the tax
      authority a JIKR and no fault. */
  predicate Agrees(channel: Channel, body: Body) {
    && (channel.Navira? || channel.Poreska? ==> HasText(body.jikr))
    && (channel.Extfisk? || channel.Poreska? ==> !Given(body.fault))
  }

  /** Everything that makes a submission succeed. */
  predicate Succeeds(t: Tenant, w: World, req: Request) {
    && (if Credit(req.docType) then req.gross != 0 else req.gross > 0)
    && (t.channel.Poreska? ==> w.certificate.Some?)
    && (t.channel.Mock? || (w.ready && exists k :: 0 <= k < |w.attempts| && AnsweredAt(w.attempts, k)
                                                && Agrees(t.channel, w.attempts[k].body)))
  }

  lemma DeliveredIs(attempts: seq<Attempt>, k: nat)
    requires AnsweredAt(attempts, k)
    ensures Post(attempts) == Delivered(attempts[k].body)
  {
    assert Final(attempts[k]) && FirstFinal(attempts) == k;
  }

  lemma DeliveredAt(attempts: seq<Attempt>) returns (k: nat)
    requires Post(attempts).Delivered?
    ensures AnsweredAt(attempts, k) && Post(attempts) == Delivered(attempts[k].body)
  {
    k := FirstFinal(attempts);
    assert forall i :: 0 <= i < k ==> !Final(attempts[i]);
  }

  lemma SentOk(t: Tenant, w: World, req: Request, ord: nat, iic: Option<string>, sig: Option<string>)
    ensures Sent(t, w, req, ord, iic, sig).ok
       <==> t.channel.Mock? || (w.ready && Post(w.attempts).Delivered? && Agrees(t.channel, Post(w.attempts).body))
  {
  }

  /** An adapter reports success exactly when the amount is one to fiscalize, the channel that needs a certificate
      has one, and the partner agreed; the mock channel always agrees. */
  lemma OkExactly(t: Tenant, w: World, req: Request, ord: nat, reuse: Option<string>, sig: Option<string>)
    ensures Fiscalize(t, w, req, ord, reuse, sig).ok <==> Succeeds(t, w, req)
  {
    var (iic, s) := LocalIic(t, w, req, ord, reuse, sig);
    SentOk(t, w, req, ord, iic, s);
    if Post(w.attempts).Delivered? { var k := DeliveredAt(w.attempts); }
    forall k | 0 <= k < |w.attempts| && AnsweredAt(w.attempts, k)
      ensures Post(w.attempts) == Delivered(w.attempts[k].body)
    {
      DeliveredIs(w.attempts, k);
    }
  }

  /** The JIKR a good answer brings; EXTFISK may leave it out. */
  function JikrFrom(body: Body): string { if HasText(body.jikr) then Trim(body.jikr.value) else "TEST" }

  /** A success carries the partner's JIKR and reference, our order number and, unless Navira names others, our IKOF
      and InvNum. */
  predicate CarriesAnswer(r: PartnerResult, t: Tenant, ord: nat, issue: DateTime, iic: Option<string>, uuid: string,
                          body: Body)
  {
    var navira := t.channel.Navira?;
    && r.jikr == Some(JikrFrom(body)) && r.ordNum == Some(ord)
    && r.partnerRef == (if HasText(body.ref) then Some(Trim(body.ref.value))
                        else if t.channel.Poreska? then None else Some(uuid))
    && r.ikof == (if navira && HasText(body.ikof) then Some(Trim(body.ikof.value)) else iic)
    && r.invNum == Some(if navira && HasText(body.invNum) then Trim(body.invNum.value) else InvNumOf(t, ord, issue))
  }

  lemma SuccessCarries(t: Tenant, w: World, req: Request, ord: nat, reuse: Option<string>, sig: Option<string>,
                       k: nat)
    requires Succeeds(t, w, req) && !t.channel.Mock? && AnsweredAt(w.attempts, k)
    ensures CarriesAnswer(Fiscalize(t, w, req, ord, reuse, sig), t, ord, req.issue,
                          LocalIic(t, w, req, ord, reuse, sig).0, w.uuid, w.attempts[k].body)
  {
    DeliveredIs(w.attempts, k);
    OkExactly(t, w, req, ord, reuse, sig);
    var (iic, s) := LocalIic(t, w, req, ord, reuse, sig);
    SentCarries(t, w, req, ord, iic, s);
  }

  lemma SentCarries(t: Tenant, w: World, req: Request, ord: nat, iic: Option<string>, sig: Option<string>)
    requires !t.channel.Mock? && Post(w.attempts).Delivered? && Sent(t, w, req, ord, iic, sig).ok
    ensures CarriesAnswer(Sent(t, w, req, ord, iic, sig), t, ord, req.issue, iic, w.uuid, Post(w.attempts).body)
  {
  }

  // ---------- when an invoice goes offline ----------

  predicate NobodyAnswered(attempts: seq<Attempt>) {
    forall i :: 0 <= i < |attempts| ==> attempts[i].NoAnswer? || attempts[i].status >= 500
  }

  /** The partner agreed without a JIKR; EXTFISK answers in full or not at all. */
  predicate LacksJikr(channel: Channel, body: Body) {
    !channel.Extfisk? && !HasText(body.jikr) && (channel.Poreska? ==> !Given(body.fault))
  }

  /** Everything that makes a submission under this IKOF go offline. */
  predicate GoesOffline(t: Tenant, w: World, req: Request, iic: Option<string>) {
    && (if Credit(req.docType) then req.gross != 0 else req.gross > 0)
    && !t.channel.Mock? && w.ready && (t.channel.Poreska? ==> w.certificate.Some?) && Given(iic)
    && (NobodyAnswered(w.attempts)
        || exists k :: 0 <= k < |w.attempts| && AnsweredAt(w.attempts, k) && LacksJikr(t.channel, w.attempts[k].body))
  }

  /** An invoice goes offline exactly when it was posted under an IKOF and either no try got an answer below
      500 or the delivered answer lacks a JIKR. */
  lemma OfflineExactly(t: Tenant, w: World, req: Request, ord: nat, reuse: Option<string>, sig: Option<string>)
    ensures Fiscalize(t, w, req, ord, reuse, sig).offline
       <==> GoesOffline(t, w, req, LocalIic(t, w, req, ord, reuse, sig).0)
  {
    var (iic, s) := LocalIic(t, w, req, ord, reuse, sig);
    SentOffline(t, w, req, ord, iic, s);
    OfflineMeansNoAnswer(w.attempts);
    if Post(w.attempts).Delivered? { var k := DeliveredAt(w.attempts); }
    forall k | 0 <= k < |w.attempts| && AnsweredAt(w.attempts, k)
      ensures Post(w.attempts) == Delivered(w.attempts[k].body)
    {
      DeliveredIs(w.attempts, k);
    }
  }

  lemma SentOffline(t: Tenant, w: World, req: Request, ord: nat, iic: Option<string>, sig: Option<string>)
    ensures Sent(t, w, req, ord, iic, sig).offline
       <==> !t.channel.Mock? && w.ready && Given(iic)
            && (Unavailable(Post(w.attempts))
                || (Post(w.attempts).Delivered? && LacksJikr(t.channel, Post(w.attempts).body)))
  {
  }

  lemma SentOfflineNumber(t: Tenant, w: World, req: Request, ord: nat, iic: Option<string>, sig: Option<string>)
    requires Sent(t, w, req, ord, iic, sig).offline
    ensures var r := Sent(t, w, req, ord, iic, sig);
      r.invNum == Some(InvNumOf(t, ord, req.issue)) && r.ordNum == Some(ord)
  {
  }

  /** An invoice that goes offline keeps our own number and ordinal. */
  lemma OfflineNumber(t: Tenant, w: World, req: Request, ord: nat, reuse: Option<string>, sig: Option<string>)
    requires Fiscalize(t, w, req, ord, reuse, sig).offline
    ensures var r := Fiscalize(t, w, req, ord, reuse, sig);
      r.invNum == Some(InvNumOf(t, ord, req.issue)) && r.ordNum == Some(ord)
  {
    var (iic, s) := LocalIic(t, w, req, ord, reuse, sig);
    SentOfflineNumber(t, w, req, ord, iic, s);
  }

  lemma AdapterNumber(t: Tenant, w: World, req: Request, ord: nat, reuse: Option<string>, sig: Option<string>)
    requires CodesTrimmed(t)
    ensures var r := Fiscalize(t, w, req, ord, reuse, sig);
      && (r.invNum.Some? ==> Trimmed(r.invNum.value) && r.invNum.value != "")
      && (Echoes(t, w, req, ord, reuse, sig) && r.invNum.Some? ==> r.invNum.value == InvNumOf(t, ord, req.issue))
  {
    InvNumTrimmed(t, ord, req.issue);
    var (iic, s) := LocalIic(t, w, req, ord, reuse, sig);
    SentNumber(t, w, req, ord, iic, s);
    if Post(w.attempts).Delivered? { PickTrimmed(Post(w.attempts).body.invNum); }
  }

  lemma PickTrimmed(v: Option<string>)
    ensures Pick(v).Some? ==> Trimmed(Pick(v).value) && Pick(v).value != ""
  {
    if v.Some? { TrimTrims(v.value); }
  }

  lemma InvNumTrimmed(t: Tenant, ord: nat, issue: DateTime)
    requires CodesTrimmed(t)
    ensures Trimmed(InvNumOf(t, ord, issue)) && |InvNumOf(t, ord, issue)| > 0
  {
    var s := InvNumOf(t, ord, issue);
    var u := InvoiceNumbers.OrDefault(t.unitCode, "bu00000000");
    var d := InvoiceNumbers.OrDefault(t.deviceCode, "cr00000000");
    assert s[0] == u[0] && s[|s| - 1] == d[|d| - 1];
  }

  lemma LocalIicNormal(t: Tenant, w: World, req: Request, ord: nat, reuse: Option<string>, sig: Option<string>)
    ensures var iic := LocalIic(t, w, req, ord, reuse, sig).0;
      iic.Some? ==> iic.value != "" && Normal(iic.value) == iic.value
  {
    if reuse.Some? { NormalIdempotent(reuse.value); }
    HexNormal(w.hash);
    if w.certificate.Some? { HexNormal(w.certificate.value(IicInputOf(t, req, ord))); }
  }

  /** With an echoing partner an accepted or offline result carries the IKOF the adapter worked with. */
  lemma IkofIsUsed(t: Tenant, w: World, req: Request, ord: nat, reuse: Option<string>, sig: Option<string>)
    requires Echoes(t, w, req, ord, reuse, sig)
    ensures var r := Fiscalize(t, w, req, ord, reuse, sig);
      r.ok || r.offline ==> r.ikof == LocalIic(t, w, req, ord, reuse, sig).0
  {
    var (iic, s) := LocalIic(t, w, req, ord, reuse, sig);
    SentIkof(t, w, req, ord, iic, s);
  }

  lemma SentIkof(t: Tenant, w: World, req: Request, ord: nat, iic: Option<string>, sig: Option<string>)
    requires t.channel.Navira? && Post(w.attempts).Delivered? && Pick(Post(w.attempts).body.ikof).Some? ==>
      Pick(Post(w.attempts).body.ikof) == iic
    ensures var r := Sent(t, w, req, ord, iic, sig); r.ok || r.offline ==> r.ikof == iic
  {
  }

  /** An IKOF handed back to the adapter comes back unchanged, except that the tax authority's
      channel computes a new one when no signature was stored with it. */
  lemma ReuseKept(t: Tenant, w: World, req: Request, ord: nat, reuse: string, sig: Option<string>)
    requires reuse != "" && Normal(reuse) == reuse
    requires Echoes(t, w, req, ord, Some(reuse), sig)
    requires t.channel.Poreska? ==> Given(sig) && Trim(sig.value) != ""
    ensures var r := Fiscalize(t, w, req, ord, Some(reuse), sig);
      r.ok || r.offline ==> r.ikof == Some(reuse)
  {
    IkofIsUsed(t, w, req, ord, Some(reuse), sig);
  }

  /** Without a certificate nothing is signed: the mock and EXTFISK channels take the digest for an IKOF, Navira takes
      the partner's or none and never goes offline, and the tax authority's channel does nothing. */
  lemma UnsignedIkof(t: Tenant, w: World, req: Request, ord: nat)
    requires w.certificate.None?
    ensures var r := Fiscalize(t, w, req, ord, None, None);
      && (t.channel.Mock? || t.channel.Extfisk? ==> (r.ok || r.offline ==> r.ikof == Some(w.hash)))
      && (t.channel.Navira? ==> !r.offline)
      && (t.channel.Poreska? ==> !r.ok && !r.offline && r.ikof.None?)
  {
    var (iic, s) := LocalIic(t, w, req, ord, None, None);
    if !t.channel.Navira? { SentIkof(t, w, req, ord, iic, s); }
    SentOffline(t, w, req, ord, iic, s);
  }

  // ---------- the printed code ----------

  /** The fields printed for an invoice of the tenant. */
  predicate PrintedFor(f: QrFields, t: Tenant, iic: string, issue: DateTime, ord: nat, gross: int) {
    && f.prod == t.prod && f.iic == iic && f.tin == t.pib && f.issue == issue && f.ord == ord && f.price == gross
    && f.unitCode == t.unitCode && f.deviceCode == t.deviceCode && f.softCode == t.softCode
  }

  /** The adapter prints what it sent, under the IKOF it returns; whatever is registered or goes offline under an IKOF
      has a code, the partner's URL or one built here. */
  predicate PrintsResult(r: PartnerResult, t: Tenant, req: Request, ord: nat) {
    && (r.qr.Some? && r.qr.value.Built? ==>
          r.ikof.Some? && PrintedFor(r.qr.value.fields, t, r.ikof.value, req.issue, ord, req.gross))
    && ((r.ok && Given(r.ikof)) || r.offline ==> r.qr.Some?)
  }

  lemma AcceptedPrints(t: Tenant, req: Request, ord: nat, ikof: Option<string>, jikr: string, qr: Option<string>,
                       ref: Option<string>, invNum: string, sig: Option<string>)
    ensures PrintsResult(Accepted(t, req, ord, ikof, jikr, qr, ref, invNum, sig), t, req, ord)
  {
  }

  lemma DeliveryPrints(t: Tenant, req: Request, ord: nat, iic: Option<string>, sig: Option<string>, uuid: string,
                       body: Body)
    ensures PrintsResult(Delivery(t, req, ord, iic, sig, uuid, body), t, req, ord)
  {
    var r := Delivery(t, req, ord, iic, sig, uuid, body);
    if r.ok {
      var url := if t.channel.Poreska? then None else Pick(body.qrUrl);
      AcceptedPrints(t, req, ord, r.ikof, r.jikr.value, url, r.partnerRef, r.invNum.value, r.sig);
    }
  }

  lemma SentPrints(t: Tenant, w: World, req: Request, ord: nat, iic: Option<string>, sig: Option<string>)
    ensures PrintsResult(Sent(t, w, req, ord, iic, sig), t, req, ord)
  {
    if Post(w.attempts).Delivered? { DeliveryPrints(t, req, ord, iic, sig, w.uuid, Post(w.attempts).body); }
  }

  lemma ResultPrints(t: Tenant, w: World, req: Request, ord: nat, reuse: Option<string>, sig: Option<string>)
    ensures PrintsResult(Fiscalize(t, w, req, ord, reuse, sig), t, req, ord)
  {
    var (iic, s) := LocalIic(t, w, req, ord, reuse, sig);
    SentPrints(t, w, req, ord, iic, s);
  }

  // ---------- a world that accepts ----------

  /** The same signer, configured, with the first post accepted with this JIKR and nothing else. */
  function Answering(w: World, jikr: string): World {
    w.(ready := true, attempts := [Answer(200, Body(None, Some(jikr), None, None, None, None))])
  }

  /** The tax authority's channel needs a certificate. */
  predicate CanSign(t: Tenant, w: World) { t.channel.Poreska? ==> w.certificate.Some? }

  lemma AnsweringPost(w: World, jikr: string)
    requires Trimmed(jikr) && jikr != ""
    ensures Post(Answering(w, jikr).attempts) == Delivered(Body(None, Some(jikr), None, None, None, None))
    ensures Pick(Some(jikr)) == Some(jikr)
  {
    assert FirstFinal(Answering(w, jikr).attempts) == 0;
    TrimTrims(jikr);
  }

  /** Such a partner echoes, and the invoice is registered under the IKOF the adapter worked with. */
  lemma AnsweringAccepts(t: Tenant, w: World, req: Request, ord: nat, reuse: Option<string>, sig: Option<string>,
                         jikr: string)
    requires GrossAllowed(req) && CanSign(t, w) && Trimmed(jikr) && jikr != ""
    ensures Echoes(t, Answering(w, jikr), req, ord, reuse, sig)
    ensures var r := Fiscalize(t, Answering(w, jikr), req, ord, reuse, sig);
      r.ok && r.ikof == LocalIic(t, w, req, ord, reuse, sig).0 && (!t.channel.Mock? ==> r.jikr == Some(jikr))
  {
    AnsweringPost(w, jikr);
    var (iic, s) := LocalIic(t, w, req, ord, reuse, sig);
    AnsweringSent(t, w, req, ord, iic, s, jikr);
    assert LocalIic(t, Answering(w, jikr), req, ord, reuse, sig) == (iic, s);
  }

  lemma AnsweringSent(t: Tenant, w: World, req: Request, ord: nat, iic: Option<string>, sig: Option<string>,
                      jikr: string)
    requires Trimmed(jikr) && jikr != ""
    ensures var r := Sent(t, Answering(w, jikr), req, ord, iic, sig);
      r.ok && r.ikof == iic && (!t.channel.Mock? ==> r.jikr == Some(jikr))
  {
    AnsweringPost(w, jikr);
  }
}
