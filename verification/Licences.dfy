/** Tenant licences: extensions of the deadline (sepko/licenses.py, apply_license_extension) and the daily
    job that sends renewal proformas (sepko/license_invoice.py). */
module Licences {
  import opened Wrappers
  import opened Calendar

  const WARN_DAYS := 30

  datatype Kind = Trial | Monthly | Yearly
  datatype Standing = OnTrial | Active | Suspended

  // ---------- extending ----------

  /** license_extend_until: from the later of today and the current deadline. */
  function ExtendFrom(until: Option<Date>, today: Date): Date {
    if until.Some? && Before(today, until.value) then until.value else today
  }

  function ExtendUntil(until: Option<Date>, months: int, today: Date): Result<Date> {
    AddMonths(ExtendFrom(until, today), months)
  }

  predicate ValidUntil(until: Option<Date>) { until.Some? ==> Valid(until.value) }

  /** One extension reaches strictly past today and past the old deadline, and lies exactly the months
      bought after the later of them. */
  lemma ExtensionAdvances(until: Option<Date>, months: int, today: Date)
    requires ValidUntil(until) && Valid(today) && months >= 1
    requires ExtendUntil(until, months, today).Ok?
    ensures var r := ExtendUntil(until, months, today).value;
      && Valid(r) && Before(today, r)
      && (until.Some? ==> Before(until.value, r))
      && MonthIndex(r) == MonthIndex(ExtendFrom(until, today)) + months
  {
    AddMonthsLands(ExtendFrom(until, today), months);
    MonthIndexOrders(ExtendFrom(until, today), ExtendUntil(until, months, today).value);
  }

  class Tenant {
    var until: Option<Date>
    var from: Option<Date>
    var kind: Kind
    var standing: Standing

    /** apply_license_extension */
    method Extend(months: int, today: Date) returns (r: Result<Date>)
      modifies this
      ensures r == ExtendUntil(old(until), months, today)
      ensures r.Err? ==> until == old(until) && from == old(from) && kind == old(kind) && standing == old(standing)
      ensures r.Ok? ==>
        && until == Some(r.value)
        && from == (if old(from).None? then Some(today) else old(from))
        && kind == (if months >= 12 then Yearly else Monthly)
        && standing == (if old(standing).OnTrial? then Active else old(standing))
    {
      var start := if until.Some? && Before(today, until.value) then until.value else today;
      r := AddMonths(start, months);
      if r.Err? { return; }
      until := Some(r.value);
      if from.None? { from := Some(today); }
      kind := if months >= 12 then Yearly else Monthly;
      if standing.OnTrial? { standing := Active; }
    }
  }

  datatype Purchase = Purchase(months: int, today: Date)

  predicate Sound(ps: seq<Purchase>) {
    forall i | 0 <= i < |ps| :: ps[i].months >= 1 && Valid(ps[i].today)
  }

  /** The deadline after a run of purchases; one that raises changes nothing. */
  function UntilAfter(until: Option<Date>, ps: seq<Purchase>): Option<Date> {
    if ps == [] then until
    else
      var p := ps[|ps| - 1];
      var before := UntilAfter(until, ps[..|ps| - 1]);
      var r := ExtendUntil(before, p.months, p.today);
      if r.Ok? then Some(r.value) else before
  }

  predicate Succeeds(until: Option<Date>, ps: seq<Purchase>, i: nat)
    requires i < |ps|
  {
    ExtendUntil(UntilAfter(until, ps[..i]), ps[i].months, ps[i].today).Ok?
  }

  /** The months of the purchases that went through. */
  function Bought(until: Option<Date>, ps: seq<Purchase>): int {
    if ps == [] then 0
    else Bought(until, ps[..|ps| - 1]) + if Succeeds(until, ps, |ps| - 1) then ps[|ps| - 1].months else 0
  }

  lemma {:induction false} UntilStaysValid(until: Option<Date>, ps: seq<Purchase>)
    requires ValidUntil(until) && Sound(ps)
    ensures ValidUntil(UntilAfter(until, ps))
  {
    if ps != [] {
      UntilStaysValid(until, ps[..|ps| - 1]);
      LastPurchase(until, ps);
    }
  }

  /** What the last purchase of a run does. */
  lemma LastPurchase(until: Option<Date>, ps: seq<Purchase>)
    requires ps != [] && ValidUntil(UntilAfter(until, ps[..|ps| - 1])) && Sound(ps)
    ensures var before, r := UntilAfter(until, ps[..|ps| - 1]), UntilAfter(until, ps);
      && ValidUntil(r)
      && (if Succeeds(until, ps, |ps| - 1) then
            && r.Some? && Before(ps[|ps| - 1].today, r.value)
            && (before.Some? ==> Before(before.value, r.value))
            && MonthIndex(r.value) == MonthIndex(ExtendFrom(before, ps[|ps| - 1].today)) + ps[|ps| - 1].months
          else r == before)
  {
    if Succeeds(until, ps, |ps| - 1) {
      ExtensionAdvances(UntilAfter(until, ps[..|ps| - 1]), ps[|ps| - 1].months, ps[|ps| - 1].today);
    }
  }

  lemma BeforeTrans(a: Date, b: Date, c: Date)
    requires NotAfter(a, b) && NotAfter(b, c)
    ensures NotAfter(a, c) && (Before(a, b) || Before(b, c) ==> Before(a, c))
  {
  }

  /** In any run, a purchase that went through leaves the deadline, for ever after, strictly past its own
      day and strictly past the deadline it found. */
  lemma {:induction false} DeadlineMovesOn(until: Option<Date>, ps: seq<Purchase>, i: nat)
    requires ValidUntil(until) && Sound(ps) && i < |ps| && Succeeds(until, ps, i)
    ensures var found, r := UntilAfter(until, ps[..i]), UntilAfter(until, ps);
      r.Some? && Before(ps[i].today, r.value) && (found.Some? ==> Before(found.value, r.value))
  {
    var n := |ps| - 1;
    UntilStaysValid(until, ps[..n]);
    LastPurchase(until, ps);
    if i < n {
      assert ps[..n][..i] == ps[..i];
      DeadlineMovesOn(until, ps[..n], i);
      var mid, r := UntilAfter(until, ps[..n]).value, UntilAfter(until, ps).value;
      BeforeTrans(ps[i].today, mid, r);
      if UntilAfter(until, ps[..i]).Some? { BeforeTrans(UntilAfter(until, ps[..i]).value, mid, r); }
    }
  }

  /** Every purchase is made no later than the deadline it finds. */
  predicate NoLapse(until: Option<Date>, ps: seq<Purchase>) {
    forall i | 0 <= i < |ps| ::
      UntilAfter(until, ps[..i]).Some? && NotAfter(ps[i].today, UntilAfter(until, ps[..i]).value)
  }

  /** No month bought is lost: the deadline is at least that many calendar months on, and exactly that many
      when the licence never lapses between purchases. */
  lemma {:induction false} MonthsBoughtAreKept(until: Date, ps: seq<Purchase>)
    requires Valid(until) && Sound(ps)
    ensures UntilAfter(Some(until), ps).Some?
    ensures var r := UntilAfter(Some(until), ps).value;
      && MonthIndex(r) >= MonthIndex(until) + Bought(Some(until), ps)
      && (NoLapse(Some(until), ps) ==> MonthIndex(r) == MonthIndex(until) + Bought(Some(until), ps))
  {
    if ps != [] {
      var n := |ps| - 1;
      MonthsBoughtAreKept(until, ps[..n]);
      UntilStaysValid(Some(until), ps[..n]);
      LastPurchase(Some(until), ps);
      var mid := UntilAfter(Some(until), ps[..n]).value;
      assert MonthIndex(ExtendFrom(Some(mid), ps[n].today)) >= MonthIndex(mid);
      if NoLapse(Some(until), ps) {
        assert NoLapse(Some(until), ps[..n]) by {
          forall i | 0 <= i < n
            ensures UntilAfter(Some(until), ps[..n][..i]).Some?
                 && NotAfter(ps[..n][i].today, UntilAfter(Some(until), ps[..n][..i]).value)
          {
            assert ps[..n][..i] == ps[..i];
          }
        }
        assert NotAfter(ps[n].today, mid);
      }
    }
  }

  // ---------- many short extensions against one long one ----------

  function Total(ms: seq<nat>): nat { if ms == [] then 0 else Total(ms[..|ms| - 1]) + ms[|ms| - 1] }

  function Chain(start: Date, ms: seq<nat>): Result<Date> {
    if ms == [] then Ok(start)
    else
      var mid := Chain(start, ms[..|ms| - 1]);
      if mid.Ok? then AddMonths(mid.value, ms[|ms| - 1]) else mid
  }

  /** Buying the same months in any number of pieces ends in the same month, never later than buying them
      at once, at most three days earlier, and on the same day when the start is no later than the 28th. */
  lemma {:induction false} PiecesNeverLater(start: Date, ms: seq<nat>)
    requires Valid(start) && AddMonths(start, Total(ms)).Ok?
    ensures Chain(start, ms).Ok?
    ensures var pieces, once := Chain(start, ms).value, AddMonths(start, Total(ms)).value;
      && Valid(pieces)
      && pieces.year == once.year && pieces.month == once.month
      && pieces.day <= once.day <= pieces.day + 3
      && (start.day <= 28 ==> pieces == once)
      && (if start.day <= 28 then pieces.day == start.day else pieces.day >= 28)
  {
    if ms == [] {
      AddNoMonths(start);
    } else {
      var most, m := ms[..|ms| - 1], ms[|ms| - 1];
      AddMonthsFails(start, Total(ms));
      AddMonthsFails(start, Total(most));
      PiecesNeverLater(start, most);
      AddMonthsLands(start, Total(most));
      AddMonthsLands(start, Total(ms));
      var mid := Chain(start, most).value;
      AddMonthsFails(mid, m);
      AddMonthsLands(mid, m);
      MonthIndexOrders(AddMonths(mid, m).value, AddMonths(start, Total(ms)).value);
    }
  }

  // ---------- renewal proformas ----------

  /** A tenant as the job reads it: `contact` says that some active user has an e-mail address. */
  datatype Licensee = Licensee(until: Option<Date>, kind: Kind, standing: Standing, contact: bool)

  datatype Document = Document(tenant: nat, covers: Option<Date>, proforma: bool, sent: bool)

  /** What happens to a proforma on its way: its number is taken, it is mailed, the mail is refused, or
      something else raises. */
  datatype Delivery = NumberTaken | Delivered | NotDelivered | Raises

  /** The licence is a paid one, not suspended, and ends in fewer than 30 days or is over. */
  predicate Expiring(t: Licensee, today: Date)
    requires t.until.Some? ==> Valid(t.until.value)
    requires Valid(today)
  {
    t.until.Some? && !t.standing.Suspended? && !t.kind.Trial? && DaysLeft(t.until.value, today) < WARN_DAYS
  }

  /** A licence is expiring exactly when it is a paid one that is not suspended and ends within 29 days or is over. */
  lemma ExpiringExactly(t: Licensee, today: Date)
    requires (t.until.Some? ==> Valid(t.until.value)) && Valid(today)
    ensures Expiring(t, today)
       <==> t.until.Some? && Ordinal(t.until.value) <= Ordinal(today) + 29
            && (t.kind == Monthly || t.kind == Yearly) && (t.standing == OnTrial || t.standing == Active)
  {
  }

  /** proforma_already_sent */
  predicate AlreadySent(docs: seq<Document>, tenant: nat, covers: Option<Date>) {
    covers.Some? && Document(tenant, covers, true, true) in docs
  }

  predicate AllValid(tenants: seq<Licensee>) { forall t | t in tenants :: ValidUntil(t.until) }

  /** The documents the job stores for one tenant: a proforma that could not be numbered, or whose sending
      raised, is rolled back. */
  function Filed(t: Licensee, k: nat, docs: seq<Document>, today: Date, d: Delivery): seq<Document>
    requires ValidUntil(t.until) && Valid(today)
  {
    if Expiring(t, today) && !AlreadySent(docs, k, t.until) && t.contact && (d.Delivered? || d.NotDelivered?)
    then [Document(k, t.until, true, d.Delivered?)]
    else []
  }

  /** The documents once the job has reached the first n tenants. */
  function DocsAfter(tenants: seq<Licensee>, docs: seq<Document>, today: Date, ds: seq<Delivery>, n: nat): seq<Document>
    requires n <= |tenants| == |ds| && AllValid(tenants) && Valid(today)
  {
    if n == 0 then docs
    else
      var before := DocsAfter(tenants, docs, today, ds, n - 1);
      assert tenants[n - 1] in tenants;
      before + Filed(tenants[n - 1], n - 1, before, today, ds[n - 1])
  }

  function Mailed(docs: seq<Document>): nat {
    if docs == [] then 0 else Mailed(docs[..|docs| - 1]) + if docs[|docs| - 1].sent then 1 else 0
  }

  lemma MailedOneMore(docs: seq<Document>, d: Document)
    ensures Mailed(docs + [d]) == Mailed(docs) + if d.sent then 1 else 0
  {
    assert (docs + [d])[..|docs|] == docs;
  }

  function ExpiringCount(tenants: seq<Licensee>, today: Date, n: nat): nat
    requires n <= |tenants| && AllValid(tenants) && Valid(today)
  {
    if n == 0 then 0
    else
      assert tenants[n - 1] in tenants;
      ExpiringCount(tenants, today, n - 1) + if Expiring(tenants[n - 1], today) then 1 else 0
  }

  class ProformaJob {
    var tenants: seq<Licensee>
    var docs: seq<Document>

    /** run_due_license_proformas: `sent` counts exactly the proformas that went out, and every expiring
        licence is counted once. */
    method RunDue(today: Date, ds: seq<Delivery>) returns (sent: nat, skipped: nat, failed: nat)
      requires |ds| == |tenants| && AllValid(tenants) && Valid(today)
      modifies this`docs
      ensures docs == DocsAfter(tenants, old(docs), today, ds, |tenants|)
      ensures Mailed(docs) == Mailed(old(docs)) + sent
      ensures sent + skipped + failed == ExpiringCount(tenants, today, |tenants|)
    {
      sent, skipped, failed := 0, 0, 0;
      var i := 0;
      while i < |tenants|
        invariant i <= |tenants|
        invariant docs == DocsAfter(tenants, old(docs), today, ds, i)
        invariant Mailed(docs) == Mailed(old(docs)) + sent
        invariant sent + skipped + failed == ExpiringCount(tenants, today, i)
      {
        var t := tenants[i];
        assert t in tenants;
        if t.until.Some? && !t.standing.Suspended? && !t.kind.Trial? && DaysLeft(t.until.value, today) < WARN_DAYS {
          if AlreadySent(docs, i, t.until) || !t.contact {
            skipped := skipped + 1;
          } else if ds[i].Delivered? {
            MailedOneMore(docs, Document(i, t.until, true, true));
            docs := docs + [Document(i, t.until, true, true)];
            sent := sent + 1;
          } else if ds[i].NotDelivered? {
            MailedOneMore(docs, Document(i, t.until, true, false));
            docs := docs + [Document(i, t.until, true, false)];
            failed := failed + 1;
          } else {
            failed := failed + 1;
          }
        }
        i := i + 1;
      }
    }
  }

  /** No deadline of a tenant has two proformas that went out. */
  ghost predicate OneProformaEach(docs: seq<Document>) {
    forall i, j | 0 <= i < j < |docs| && docs[i].proforma && docs[i].sent && docs[i].covers.Some? :: docs[i] != docs[j]
  }

  lemma {:induction false} PassKeepsOne(tenants: seq<Licensee>, docs: seq<Document>, today: Date, ds: seq<Delivery>,
                                        n: nat)
    requires n <= |tenants| == |ds| && AllValid(tenants) && Valid(today)
    requires OneProformaEach(docs)
    ensures OneProformaEach(DocsAfter(tenants, docs, today, ds, n))
    ensures docs <= DocsAfter(tenants, docs, today, ds, n)
  {
    if n > 0 { PassKeepsOne(tenants, docs, today, ds, n - 1); }
  }

  /** Only tenants up to the n-th have got anything in the pass. */
  lemma {:induction false} PassInOrder(tenants: seq<Licensee>, docs: seq<Document>, today: Date, ds: seq<Delivery>,
                                       n: nat, d: Document)
    requires n <= |tenants| == |ds| && AllValid(tenants) && Valid(today)
    requires d.tenant >= n
    ensures d in DocsAfter(tenants, docs, today, ds, n) <==> d in docs
  {
    if n > 0 { PassInOrder(tenants, docs, today, ds, n - 1, d); }
  }

  /** What one pass sends: a tenant's proforma for its deadline is out after the pass exactly when it was
      before, or the licence is expiring, someone can be written to, and the delivery succeeds. */
  lemma {:induction false} PassSends(tenants: seq<Licensee>, docs: seq<Document>, today: Date, ds: seq<Delivery>,
                                     n: nat, k: nat)
    requires n <= |tenants| == |ds| && AllValid(tenants) && Valid(today)
    requires k < n && tenants[k].until.Some?
    ensures assert tenants[k] in tenants;
      AlreadySent(DocsAfter(tenants, docs, today, ds, n), k, tenants[k].until)
      <==> AlreadySent(docs, k, tenants[k].until)
           || (Expiring(tenants[k], today) && tenants[k].contact && ds[k].Delivered?)
  {
    assert tenants[k] in tenants;
    var d := Document(k, tenants[k].until, true, true);
    var before := DocsAfter(tenants, docs, today, ds, n - 1);
    assert tenants[n - 1] in tenants;
    if k < n - 1 {
      PassSends(tenants, docs, today, ds, n - 1, k);
      assert d !in Filed(tenants[n - 1], n - 1, before, today, ds[n - 1]);
    } else {
      PassInOrder(tenants, docs, today, ds, k, d);
    }
  }

  /** A day of the platform: the job runs, tenants change in any way (extensions, new users, suspension),
      or a document other than a proforma is filed. */
  datatype Step = Daily(today: Date, ds: seq<Delivery>) | Change(tenants: seq<Licensee>) | File(doc: Document)

  datatype Platform = Platform(tenants: seq<Licensee>, docs: seq<Document>)

  predicate Possible(p: Platform, s: Step) {
    match s
    case Daily(today, ds) => |ds| == |p.tenants| && AllValid(p.tenants) && Valid(today)
    case Change(_) => true
    case File(doc) => !doc.proforma
  }

  function Next(p: Platform, s: Step): Platform
    requires Possible(p, s)
  {
    match s
    case Daily(today, ds) => p.(docs := DocsAfter(p.tenants, p.docs, today, ds, |p.tenants|))
    case Change(tenants) => p.(tenants := tenants)
    case File(doc) => p.(docs := p.docs + [doc])
  }

  predicate PossibleRun(p: Platform, steps: seq<Step>)
    decreases |steps|
  {
    steps == [] || (Possible(p, steps[0]) && PossibleRun(Next(p, steps[0]), steps[1..]))
  }

  function PlatformAfter(p: Platform, steps: seq<Step>): Platform
    requires PossibleRun(p, steps)
    decreases |steps|
  {
    if steps == [] then p else PlatformAfter(Next(p, steps[0]), steps[1..])
  }

  /** Over any run, however often the job runs and however deliveries turn out, each deadline of each
      tenant gets at most one proforma that goes out, and none is ever withdrawn. */
  lemma {:induction false} OneProformaForever(p: Platform, steps: seq<Step>)
    requires PossibleRun(p, steps) && OneProformaEach(p.docs)
    ensures OneProformaEach(PlatformAfter(p, steps).docs)
    ensures p.docs <= PlatformAfter(p, steps).docs
    decreases |steps|
  {
    if steps != [] {
      var s := steps[0];
      if s.Daily? { PassKeepsOne(p.tenants, p.docs, s.today, s.ds, |p.tenants|); }
      OneProformaForever(Next(p, s), steps[1..]);
    }
  }
}
