/** The old supplier list folded into the customers (merge_suppliers_into_customers in sepko/ulazne.py).
    Described as a one-off, it is called at every start of the program (sepko/db.py). */
module Suppliers {
  import opened Wrappers

  /** The copied fields; an empty text stands for a missing one. */
  datatype Details = Details(pdv: string, street: string, city: string, country: string,
                             email: string, phone: string, contact: string, notes: string)

  datatype Supplier = Supplier(tenant: nat, pib: string, name: string, details: Details, active: bool)
  datatype Customer = Customer(tenant: nat, pib: string, name: string, details: Details, active: bool)

  /** An incoming invoice: the supplier it was entered with and the customer it is tied to, by index. */
  datatype Incoming = Incoming(tenant: nat, supplier: Option<nat>, supplierPib: string, customer: Option<nat>)

  function Pick(own: string, other: string): string { if own == "" then other else own }

  /** _copy_if_empty */
  function Completed(own: Details, other: Details): Details {
    Details(Pick(own.pdv, other.pdv), Pick(own.street, other.street), Pick(own.city, other.city),
            Pick(own.country, other.country), Pick(own.email, other.email), Pick(own.phone, other.phone),
            Pick(own.contact, other.contact), Pick(own.notes, other.notes))
  }

  function Cut(s: string, n: nat): string { if |s| <= n then s else s[..n] }

  function NewCustomer(s: Supplier): Customer {
    Customer(s.tenant, Cut(s.pib, 32), Cut(s.name, 255),
             s.details.(country := Pick(s.details.country, "Crna Gora")), s.active)
  }

  function Absorbed(c: Customer, s: Supplier): Customer {
    c.(details := Completed(c.details, s.details), active := c.active || s.active)
  }

  /** The first customer of the tenant with this PIB, or the length of the list. */
  function FindFrom(cs: seq<Customer>, tenant: nat, pib: string, i: nat): (k: nat)
    requires i <= |cs|
    ensures i <= k <= |cs|
    ensures k < |cs| ==> cs[k].tenant == tenant && cs[k].pib == pib
    decreases |cs| - i
  {
    if i == |cs| || (cs[i].tenant == tenant && cs[i].pib == pib) then i else FindFrom(cs, tenant, pib, i + 1)
  }

  function Find(cs: seq<Customer>, tenant: nat, pib: string): (k: nat)
    ensures k <= |cs|
  {
    FindFrom(cs, tenant, pib, 0)
  }

  predicate HasKey(cs: seq<Customer>, tenant: nat, pib: string) { Find(cs, tenant, pib) < |cs| }

  /** A customer found absorbs the supplier; otherwise the supplier becomes a new customer, with its PIB cut. */
  function WithSupplier(cs: seq<Customer>, s: Supplier): seq<Customer> {
    var k := Find(cs, s.tenant, s.pib);
    if k < |cs| then cs[k := Absorbed(cs[k], s)] else cs + [NewCustomer(s)]
  }

  predicate OfSupplier(inv: Incoming, tenant: nat, supplier: nat) {
    inv.tenant == tenant && inv.supplier == Some(supplier) && inv.customer.None?
  }

  function Tied(invs: seq<Incoming>, tenant: nat, supplier: nat, customer: nat): (r: seq<Incoming>)
    ensures |r| == |invs|
  {
    seq(|invs|, i requires 0 <= i < |invs| =>
      if OfSupplier(invs[i], tenant, supplier) then invs[i].(customer := Some(customer)) else invs[i])
  }

  datatype Firms = Firms(customers: seq<Customer>, invoices: seq<Incoming>)

  function AfterSupplier(f: Firms, s: Supplier, i: nat): Firms {
    Firms(WithSupplier(f.customers, s), Tied(f.invoices, s.tenant, i, Find(f.customers, s.tenant, s.pib)))
  }

  /** The first n suppliers folded in. */
  function AfterSuppliers(f: Firms, ss: seq<Supplier>, n: nat): Firms
    requires n <= |ss|
  {
    if n == 0 then f else AfterSupplier(AfterSuppliers(f, ss, n - 1), ss[n - 1], n - 1)
  }

  /** An invoice that is tied to nobody but names a PIB. */
  predicate Orphan(inv: Incoming) { inv.customer.None? && inv.supplierPib != "" }

  function Adopted(inv: Incoming, cs: seq<Customer>): Incoming {
    var k := Find(cs, inv.tenant, inv.supplierPib);
    if Orphan(inv) && k < |cs| then inv.(customer := Some(k)) else inv
  }

  function AllAdopted(f: Firms): Firms {
    f.(invoices := seq(|f.invoices|, i requires 0 <= i < |f.invoices| => Adopted(f.invoices[i], f.customers)))
  }

  /** What the merge writes, with its two passes over the orphans, if no insert is refused. */
  function Merged(f: Firms, ss: seq<Supplier>): Firms { AllAdopted(AllAdopted(AfterSuppliers(f, ss, |ss|))) }

  /** The unique constraint on tenant and PIB refuses no insert: the supplier is found, or nobody has its
      PIB as it is cut. */
  predicate Fits(cs: seq<Customer>, s: Supplier) {
    HasKey(cs, s.tenant, s.pib) || !HasKey(cs, s.tenant, Cut(s.pib, 32))
  }

  predicate AllFit(f: Firms, ss: seq<Supplier>, n: nat)
    requires n <= |ss|
  {
    n == 0 || (AllFit(f, ss, n - 1) && Fits(AfterSuppliers(f, ss, n - 1).customers, ss[n - 1]))
  }

  /** merge_suppliers_into_customers at start-up: a refused insert raises, everything is rolled back and the
      program does not start. */
  function Merge(f: Firms, ss: seq<Supplier>): Option<Firms> {
    if AllFit(f, ss, |ss|) then Some(Merged(f, ss)) else None
  }

  lemma {:induction false} FitStops(f: Firms, ss: seq<Supplier>, i: nat, n: nat)
    requires i < n <= |ss| && AllFit(f, ss, n)
    ensures Fits(AfterSuppliers(f, ss, i).customers, ss[i])
  {
    if i < n - 1 { FitStops(f, ss, i, n - 1); }
  }

  class FirmBook {
    var customers: seq<Customer>
    var invoices: seq<Incoming>

    ghost function Model(): Firms
      reads this
    {
      Firms(customers, invoices)
    }

    method MergeSuppliers(ss: seq<Supplier>) returns (started: bool)
      modifies this
      ensures started <==> Merge(old(Model()), ss).Some?
      ensures Model() == if started then Merge(old(Model()), ss).value else old(Model())
    {
      var customersBefore, invoicesBefore := customers, invoices;
      var n := 0;
      while n < |ss|
        invariant n <= |ss|
        invariant Model() == AfterSuppliers(old(Model()), ss, n) && AllFit(old(Model()), ss, n)
      {
        var s := ss[n];
        var k := Find(customers, s.tenant, s.pib);
        if k == |customers| && Find(customers, s.tenant, Cut(s.pib, 32)) < |customers| {
          if AllFit(old(Model()), ss, |ss|) { FitStops(old(Model()), ss, n, |ss|); }
          customers, invoices := customersBefore, invoicesBefore;
          return false;
        }
        Fold(s, n, k);
        n := n + 1;
      }
      Adopt();
      Adopt();
      started := true;
    }

    /** One supplier. */
    method Fold(s: Supplier, n: nat, k: nat)
      requires k == Find(customers, s.tenant, s.pib)
      modifies this
      ensures Model() == AfterSupplier(old(Model()), s, n)
    {
      invoices := Tied(invoices, s.tenant, n, k);
      if k < |customers| {
        customers := customers[k := customers[k].(details := Completed(customers[k].details, s.details))];
        if !customers[k].active && s.active { customers := customers[k := customers[k].(active := true)]; }
      } else {
        customers := customers + [NewCustomer(s)];
      }
    }

    /** One pass over the orphans. */
    method Adopt()
      modifies this`invoices
      ensures Model() == AllAdopted(old(Model()))
    {
      var i := 0;
      while i < |invoices|
        invariant i <= |invoices| == |old(invoices)|
        invariant forall j | 0 <= j < i :: invoices[j] == Adopted(old(invoices)[j], customers)
        invariant forall j | i <= j < |invoices| :: invoices[j] == old(invoices)[j]
      {
        var k := Find(customers, invoices[i].tenant, invoices[i].supplierPib);
        if Orphan(invoices[i]) && k < |customers| {
          invoices := invoices[i := invoices[i].(customer := Some(k))];
        }
        i := i + 1;
      }
    }
  }

  // ---------- customers ----------

  /** The same customer with, at most, empty fields filled in and made active. */
  predicate Enriched(c: Customer, d: Customer) {
    d == c.(details := Completed(c.details, d.details), active := d.active) && (c.active ==> d.active)
  }

  predicate AllEnriched(cs: seq<Customer>, ds: seq<Customer>) {
    |cs| <= |ds| && forall i | 0 <= i < |cs| :: Enriched(cs[i], ds[i])
  }

  lemma EnrichedSteps(c: Customer, d: Customer, e: Customer)
    requires Enriched(c, d) && Enriched(d, e)
    ensures Enriched(c, e)
  {
  }

  lemma PickTwice(a: string, b: string)
    ensures Pick(a, Pick(a, b)) == Pick(a, b) && Pick(a, a) == a
  {
  }

  lemma CompletedTwice(own: Details, other: Details)
    ensures Completed(own, Completed(own, other)) == Completed(own, other) && Completed(own, own) == own
  {
    PickTwice(own.pdv, other.pdv);
    PickTwice(own.street, other.street);
    PickTwice(own.city, other.city);
    PickTwice(own.country, other.country);
    PickTwice(own.email, other.email);
    PickTwice(own.phone, other.phone);
    PickTwice(own.contact, other.contact);
    PickTwice(own.notes, other.notes);
  }

  lemma AbsorbedEnriches(c: Customer, s: Supplier)
    ensures Enriched(c, c) && Enriched(c, Absorbed(c, s))
  {
    CompletedTwice(c.details, s.details);
  }

  lemma WithSupplierEnriches(cs: seq<Customer>, s: Supplier)
    ensures AllEnriched(cs, WithSupplier(cs, s))
  {
    forall i | 0 <= i < |cs| ensures Enriched(cs[i], WithSupplier(cs, s)[i]) { AbsorbedEnriches(cs[i], s); }
  }

  /** Merging only fills empty fields and activates; no customer is lost, moved or renamed. */
  lemma {:induction false} CustomersOnlyGain(f: Firms, ss: seq<Supplier>, n: nat)
    requires n <= |ss|
    ensures AllEnriched(f.customers, AfterSuppliers(f, ss, n).customers)
  {
    if n > 0 {
      CustomersOnlyGain(f, ss, n - 1);
      var before := AfterSuppliers(f, ss, n - 1).customers;
      WithSupplierEnriches(before, ss[n - 1]);
      var after := AfterSuppliers(f, ss, n).customers;
      forall i | 0 <= i < |f.customers| ensures Enriched(f.customers[i], after[i]) {
        EnrichedSteps(f.customers[i], before[i], after[i]);
      }
    }
  }

  /** What is filled in stays: each detail of the customer that is not empty keeps its text, as does the key. */
  predicate KeepsDetails(c: Customer, d: Customer) {
    && c.tenant == d.tenant && c.pib == d.pib && c.name == d.name
    && (c.details.pdv != "" ==> d.details.pdv == c.details.pdv)
    && (c.details.street != "" ==> d.details.street == c.details.street)
    && (c.details.city != "" ==> d.details.city == c.details.city)
    && (c.details.country != "" ==> d.details.country == c.details.country)
    && (c.details.email != "" ==> d.details.email == c.details.email)
    && (c.details.phone != "" ==> d.details.phone == c.details.phone)
    && (c.details.contact != "" ==> d.details.contact == c.details.contact)
    && (c.details.notes != "" ==> d.details.notes == c.details.notes)
  }

  /** After the merge every customer is still there, with everything that was filled in. */
  lemma DetailsKept(f: Firms, ss: seq<Supplier>, k: nat)
    requires k < |f.customers|
    ensures k < |Merged(f, ss).customers| && KeepsDetails(f.customers[k], Merged(f, ss).customers[k])
  {
    CustomersOnlyGain(f, ss, |ss|);
    assert Enriched(f.customers[k], AfterSuppliers(f, ss, |ss|).customers[k]);
  }

  /** Each detail that the supplier has is filled in. */
  predicate HasDetailsOf(c: Customer, s: Supplier) {
    && c.tenant == s.tenant
    && (s.details.pdv != "" ==> c.details.pdv != "") && (s.details.street != "" ==> c.details.street != "")
    && (s.details.city != "" ==> c.details.city != "") && (s.details.country != "" ==> c.details.country != "")
    && (s.details.email != "" ==> c.details.email != "") && (s.details.phone != "" ==> c.details.phone != "")
    && (s.details.contact != "" ==> c.details.contact != "") && (s.details.notes != "" ==> c.details.notes != "")
    && (s.active ==> c.active)
  }

  /** Enriched lists give the same answers where the first list has one. */
  lemma {:induction false} FindKept(cs: seq<Customer>, ds: seq<Customer>, tenant: nat, pib: string, i: nat)
    requires AllEnriched(cs, ds) && i <= |cs|
    ensures FindFrom(cs, tenant, pib, i) < |cs| ==> FindFrom(ds, tenant, pib, i) == FindFrom(cs, tenant, pib, i)
    decreases |cs| - i
  {
    if i < |cs| {
      assert Enriched(cs[i], ds[i]);
      FindKept(cs, ds, tenant, pib, i + 1);
    }
  }

  lemma {:induction false} SameKeys(cs: seq<Customer>, ds: seq<Customer>, tenant: nat, pib: string, i: nat)
    requires |cs| == |ds| && i <= |cs| && AllEnriched(cs, ds)
    ensures FindFrom(ds, tenant, pib, i) == FindFrom(cs, tenant, pib, i)
    decreases |cs| - i
  {
    if i < |cs| {
      assert Enriched(cs[i], ds[i]);
      SameKeys(cs, ds, tenant, pib, i + 1);
    }
  }

  lemma {:induction false} FindAtMost(cs: seq<Customer>, tenant: nat, pib: string, i: nat, k: nat)
    requires i <= k < |cs| && cs[k].tenant == tenant && cs[k].pib == pib
    ensures FindFrom(cs, tenant, pib, i) <= k
    decreases |cs| - i
  {
    if i < k { FindAtMost(cs, tenant, pib, i + 1, k); }
  }

  /** Enriched lists find an original customer exactly where the original list does. */
  lemma FindOriginal(cs: seq<Customer>, ds: seq<Customer>, tenant: nat, pib: string, k: nat)
    requires AllEnriched(cs, ds) && k < |cs|
    ensures Find(cs, tenant, pib) == k <==> Find(ds, tenant, pib) == k
  {
    FindKept(cs, ds, tenant, pib, 0);
    if Find(ds, tenant, pib) == k {
      assert Enriched(cs[k], ds[k]);
      FindAtMost(cs, tenant, pib, 0, k);
    }
  }

  // ---------- when the merge goes through ----------

  /** Its PIB fits the column, or a customer already has it in full. */
  predicate Reachable(cs: seq<Customer>, s: Supplier) {
    |s.pib| <= 32 || Find(cs, s.tenant, s.pib) < |cs|
  }

  /** A supplier not found at first adds this key. */
  predicate Adds(f: Firms, s: Supplier, tenant: nat, pib: string) {
    s.tenant == tenant && Cut(s.pib, 32) == pib && !HasKey(f.customers, s.tenant, s.pib)
  }

  lemma KeysOfAppended(cs: seq<Customer>, c: Customer, tenant: nat, pib: string)
    ensures HasKey(cs + [c], tenant, pib) <==> HasKey(cs, tenant, pib) || (c.tenant == tenant && c.pib == pib)
  {
    KeyIs(cs, tenant, pib);
    KeyIs(cs + [c], tenant, pib);
    if HasKey(cs, tenant, pib) { assert (cs + [c])[Find(cs, tenant, pib)] == cs[Find(cs, tenant, pib)]; }
    assert (cs + [c])[|cs|] == c;
  }

  lemma KeyIs(cs: seq<Customer>, tenant: nat, pib: string)
    ensures HasKey(cs, tenant, pib) <==> exists k :: 0 <= k < |cs| && cs[k].tenant == tenant && cs[k].pib == pib
  {
    if k :| 0 <= k < |cs| && cs[k].tenant == tenant && cs[k].pib == pib { FindAtMost(cs, tenant, pib, 0, k); }
  }

  lemma KeysStep(cs: seq<Customer>, s: Supplier, tenant: nat, pib: string)
    ensures HasKey(WithSupplier(cs, s), tenant, pib)
       <==> HasKey(cs, tenant, pib)
            || (!HasKey(cs, s.tenant, s.pib) && s.tenant == tenant && Cut(s.pib, 32) == pib)
  {
    if HasKey(cs, s.tenant, s.pib) {
      WithSupplierEnriches(cs, s);
      SameKeys(cs, WithSupplier(cs, s), tenant, pib, 0);
    } else {
      KeysOfAppended(cs, NewCustomer(s), tenant, pib);
    }
  }

  predicate Added(f: Firms, ss: seq<Supplier>, n: nat, tenant: nat, pib: string)
    requires n <= |ss|
  {
    exists j :: 0 <= j < n && Adds(f, ss[j], tenant, pib)
  }

  lemma AddedStep(f: Firms, ss: seq<Supplier>, n: nat, tenant: nat, pib: string)
    requires 0 < n <= |ss|
    ensures Added(f, ss, n, tenant, pib) <==> Added(f, ss, n - 1, tenant, pib) || Adds(f, ss[n - 1], tenant, pib)
  {
  }

  /** A supplier whose key was added is one whose cut key was. */
  lemma AddedCut(f: Firms, ss: seq<Supplier>, n: nat, s: Supplier)
    requires n <= |ss| && Added(f, ss, n, s.tenant, s.pib)
    ensures Added(f, ss, n, s.tenant, Cut(s.pib, 32))
  {
    assert Cut(s.pib, 32) == s.pib;
  }

  /** The keys after n suppliers: the original ones and those the suppliers not found at first add. */
  lemma {:induction false} KeysAfter(f: Firms, ss: seq<Supplier>, n: nat, tenant: nat, pib: string)
    requires n <= |ss|
    ensures HasKey(AfterSuppliers(f, ss, n).customers, tenant, pib)
       <==> HasKey(f.customers, tenant, pib) || Added(f, ss, n, tenant, pib)
  {
    if n > 0 {
      var s := ss[n - 1];
      KeysAfter(f, ss, n - 1, tenant, pib);
      KeysAfter(f, ss, n - 1, s.tenant, s.pib);
      KeysStep(AfterSuppliers(f, ss, n - 1).customers, s, tenant, pib);
      AddedStep(f, ss, n, tenant, pib);
      if Added(f, ss, n - 1, s.tenant, s.pib) { AddedCut(f, ss, n - 1, s); }
    }
  }

  /** The supplier's cut PIB is taken: by a customer there from the start, or by one that an earlier supplier
      not found at first has become. */
  predicate Taken(f: Firms, ss: seq<Supplier>, i: nat)
    requires i < |ss|
  {
    HasKey(f.customers, ss[i].tenant, Cut(ss[i].pib, 32)) || Added(f, ss, i, ss[i].tenant, Cut(ss[i].pib, 32))
  }

  /** The supplier is found, or its cut PIB is free. */
  predicate Welcome(f: Firms, ss: seq<Supplier>, i: nat)
    requires i < |ss|
  {
    Reachable(f.customers, ss[i]) || !Taken(f, ss, i)
  }

  predicate AllWelcome(f: Firms, ss: seq<Supplier>, n: nat)
    requires n <= |ss|
  {
    forall i | 0 <= i < n :: Welcome(f, ss, i)
  }

  lemma WelcomeStep(f: Firms, ss: seq<Supplier>, n: nat)
    requires 0 < n <= |ss|
    ensures AllWelcome(f, ss, n) <==> AllWelcome(f, ss, n - 1) && Welcome(f, ss, n - 1)
  {
  }

  lemma FitsExactly(f: Firms, ss: seq<Supplier>, i: nat)
    requires i < |ss|
    ensures Fits(AfterSuppliers(f, ss, i).customers, ss[i]) <==> Welcome(f, ss, i)
  {
    KeysAfter(f, ss, i, ss[i].tenant, ss[i].pib);
    KeysAfter(f, ss, i, ss[i].tenant, Cut(ss[i].pib, 32));
  }

  /** A merge goes through exactly when no supplier out of reach finds its cut PIB taken. */
  lemma {:induction false} MergeFitsExactly(f: Firms, ss: seq<Supplier>, n: nat)
    requires n <= |ss|
    ensures AllFit(f, ss, n) <==> AllWelcome(f, ss, n)
  {
    if n > 0 {
      WelcomeStep(f, ss, n);
      MergeFitsExactly(f, ss, n - 1);
      FitsExactly(f, ss, n - 1);
      assert AllFit(f, ss, n) <==> AllFit(f, ss, n - 1) && Fits(AfterSuppliers(f, ss, n - 1).customers, ss[n - 1]);
    }
  }

  /** uq_tenant_customer_pib */
  predicate UniqueKeys(cs: seq<Customer>) {
    forall i, j | 0 <= i < j < |cs| :: cs[i].tenant != cs[j].tenant || cs[i].pib != cs[j].pib
  }

  lemma UniqueStep(cs: seq<Customer>, s: Supplier)
    ensures UniqueKeys(WithSupplier(cs, s)) <==> UniqueKeys(cs) && Fits(cs, s)
  {
    var ds := WithSupplier(cs, s);
    WithSupplierEnriches(cs, s);
    if HasKey(cs, s.tenant, s.pib) {
      forall i | 0 <= i < |cs| ensures cs[i].tenant == ds[i].tenant && cs[i].pib == ds[i].pib {
        assert Enriched(cs[i], ds[i]);
      }
    } else {
      KeyIs(cs, s.tenant, Cut(s.pib, 32));
      assert forall i | 0 <= i < |cs| :: ds[i] == cs[i];
      assert ds[|cs|] == NewCustomer(s);
    }
  }

  /** What is refused is what the constraint forbids: after n suppliers every tenant has each PIB once exactly
      when all of them fit. */
  lemma {:induction false} UniqueExactly(f: Firms, ss: seq<Supplier>, n: nat)
    requires n <= |ss| && UniqueKeys(f.customers)
    ensures UniqueKeys(AfterSuppliers(f, ss, n).customers) <==> AllFit(f, ss, n)
  {
    if n > 0 {
      UniqueExactly(f, ss, n - 1);
      UniqueStep(AfterSuppliers(f, ss, n - 1).customers, ss[n - 1]);
    }
  }

  /** A text cut to at most n characters. */
  predicate IsCut(cut: string, whole: string, n: nat) { cut <= whole && |cut| == if |whole| < n then |whole| else n }

  /** Supplier j makes the customer that supplier i became active: it is that supplier or has its PIB. */
  predicate Backs(ss: seq<Supplier>, c: Customer, i: nat, j: nat) {
    i <= j < |ss| && ss[j].active && ss[j].tenant == c.tenant && (j == i || ss[j].pib == c.pib)
  }

  /** The customer is this supplier's: its PIB and name, cut to the columns, and its details; it is active if an
      active supplier came to it. */
  ghost predicate MadeFrom(ss: seq<Supplier>, c: Customer, i: nat, n: nat) {
    && i < n <= |ss| && c.tenant == ss[i].tenant
    && IsCut(c.pib, ss[i].pib, 32) && IsCut(c.name, ss[i].name, 255)
    && KeepsDetails(Customer(c.tenant, c.pib, c.name, ss[i].details, ss[i].active), c)
    && (ss[i].details.country == "" ==> c.details.country == "Crna Gora")
    && (c.active <==> exists j | 0 <= j < n :: Backs(ss, c, i, j))
  }

  lemma MadeNew(ss: seq<Supplier>, i: nat)
    requires i < |ss|
    ensures MadeFrom(ss, NewCustomer(ss[i]), i, i + 1)
  {
    assert Backs(ss, NewCustomer(ss[i]), i, i) <==> ss[i].active;
  }

  /** The next supplier leaves it so. */
  lemma MadeStays(ss: seq<Supplier>, cs: seq<Customer>, k: nat, i: nat, n: nat)
    requires k < |cs| && UniqueKeys(cs) && n < |ss| && MadeFrom(ss, cs[k], i, n)
    ensures MadeFrom(ss, WithSupplier(cs, ss[n])[k], i, n + 1)
  {
    var c, d, s := cs[k], WithSupplier(cs, ss[n])[k], ss[n];
    if s.tenant == c.tenant && s.pib == c.pib { FindAtMost(cs, s.tenant, s.pib, 0, k); }
    assert d.active <==> c.active || Backs(ss, d, i, n);
    forall j | 0 <= j < n ensures Backs(ss, c, i, j) <==> Backs(ss, d, i, j) { }
    if c.active {
      var j :| 0 <= j < n && Backs(ss, c, i, j);
      assert Backs(ss, d, i, j);
    }
  }

  /** Every customer that the merge adds is one supplier that no customer of the tenant answered to. */
  lemma {:induction false} AddedAreSuppliers(f: Firms, ss: seq<Supplier>, n: nat, k: nat) returns (i: nat)
    requires UniqueKeys(f.customers) && n <= |ss| && AllFit(f, ss, n)
    requires |f.customers| <= k < |AfterSuppliers(f, ss, n).customers|
    ensures MadeFrom(ss, AfterSuppliers(f, ss, n).customers[k], i, n)
    ensures !HasKey(AfterSuppliers(f, ss, i).customers, ss[i].tenant, ss[i].pib)
  {
    var before := AfterSuppliers(f, ss, n - 1).customers;
    assert AfterSuppliers(f, ss, n).customers == WithSupplier(before, ss[n - 1]);
    if k >= |before| {
      i := n - 1;
      NewestIs(before, ss, i, k);
    } else {
      i := AddedAreSuppliers(f, ss, n - 1, k);
      UniqueExactly(f, ss, n - 1);
      MadeStays(ss, before, k, i, n - 1);
    }
  }

  lemma NewestIs(cs: seq<Customer>, ss: seq<Supplier>, i: nat, k: nat)
    requires i < |ss| && |cs| <= k < |WithSupplier(cs, ss[i])|
    ensures MadeFrom(ss, WithSupplier(cs, ss[i])[k], i, i + 1) && !HasKey(cs, ss[i].tenant, ss[i].pib)
  {
    MadeNew(ss, i);
  }

  // ---------- merging twice ----------

  /** The supplier has nothing left to give. */
  predicate Spent(cs: seq<Customer>, s: Supplier) {
    var k := Find(cs, s.tenant, s.pib);
    k < |cs| && Absorbed(cs[k], s) == cs[k]
  }

  lemma SpentStays(cs: seq<Customer>, ds: seq<Customer>, s: Supplier)
    requires Spent(cs, s) && AllEnriched(cs, ds)
    ensures Spent(ds, s)
  {
    FindKept(cs, ds, s.tenant, s.pib, 0);
    var k := Find(cs, s.tenant, s.pib);
    assert Enriched(cs[k], ds[k]);
  }

  lemma {:induction false} FindAppended(cs: seq<Customer>, c: Customer, i: nat)
    requires i <= |cs| && FindFrom(cs, c.tenant, c.pib, i) == |cs|
    ensures FindFrom(cs + [c], c.tenant, c.pib, i) == |cs|
    decreases |cs| - i
  {
    if i < |cs| { FindAppended(cs, c, i + 1); }
  }

  lemma SpentAfter(cs: seq<Customer>, s: Supplier)
    requires Reachable(cs, s)
    ensures Spent(WithSupplier(cs, s), s)
  {
    var k := Find(cs, s.tenant, s.pib);
    if k < |cs| {
      WithSupplierEnriches(cs, s);
      FindKept(cs, WithSupplier(cs, s), s.tenant, s.pib, 0);
    } else {
      FindAppended(cs, NewCustomer(s), 0);
    }
  }

  lemma ReachableStays(cs: seq<Customer>, ds: seq<Customer>, s: Supplier)
    requires Reachable(cs, s) && AllEnriched(cs, ds)
    ensures Reachable(ds, s)
  {
    FindKept(cs, ds, s.tenant, s.pib, 0);
  }

  lemma {:induction false} AllSpent(f: Firms, ss: seq<Supplier>, n: nat, i: nat)
    requires i < n <= |ss| && Reachable(f.customers, ss[i])
    ensures Spent(AfterSuppliers(f, ss, n).customers, ss[i])
  {
    var before := AfterSuppliers(f, ss, n - 1).customers;
    if i == n - 1 {
      CustomersOnlyGain(f, ss, n - 1);
      ReachableStays(f.customers, before, ss[i]);
      SpentAfter(before, ss[i]);
    } else {
      AllSpent(f, ss, n - 1, i);
      WithSupplierEnriches(before, ss[n - 1]);
      SpentStays(before, WithSupplier(before, ss[n - 1]), ss[i]);
    }
  }

  // ---------- invoices ----------

  /** Tied invoices stay as they are; an untied one may only become tied. */
  predicate OnlyTied(a: Incoming, b: Incoming) {
    b == a.(customer := b.customer) && (a.customer.Some? ==> b == a)
  }

  predicate AllOnlyTied(a: seq<Incoming>, b: seq<Incoming>) {
    |a| == |b| && forall i | 0 <= i < |a| :: OnlyTied(a[i], b[i])
  }

  lemma {:induction false} InvoicesOnlyTied(f: Firms, ss: seq<Supplier>, n: nat)
    requires n <= |ss|
    ensures AllOnlyTied(f.invoices, AfterSuppliers(f, ss, n).invoices)
  {
    if n > 0 { InvoicesOnlyTied(f, ss, n - 1); }
  }

  /** No invoice of this supplier is left untied. */
  predicate NoneLeft(invs: seq<Incoming>, tenant: nat, supplier: nat) {
    forall i | 0 <= i < |invs| :: !OfSupplier(invs[i], tenant, supplier)
  }

  lemma {:induction false} SupplierDone(f: Firms, ss: seq<Supplier>, n: nat, i: nat)
    requires i < n <= |ss|
    ensures NoneLeft(AfterSuppliers(f, ss, n).invoices, ss[i].tenant, i)
  {
    if i < n - 1 { SupplierDone(f, ss, n - 1, i); }
  }

  lemma TiedIdle(invs: seq<Incoming>, tenant: nat, supplier: nat, customer: nat)
    requires NoneLeft(invs, tenant, supplier)
    ensures Tied(invs, tenant, supplier, customer) == invs
  {
  }

  lemma AdoptedTwice(f: Firms)
    ensures AllAdopted(AllAdopted(f)) == AllAdopted(f)
  {
    var g := AllAdopted(f);
    forall i | 0 <= i < |f.invoices| ensures Adopted(g.invoices[i], f.customers) == g.invoices[i] {
    }
    assert AllAdopted(g).invoices == g.invoices;
  }

  /** The second pass over the orphans never finds anything to do. */
  lemma SecondPassIdle(f: Firms, ss: seq<Supplier>)
    ensures Merged(f, ss) == AllAdopted(AfterSuppliers(f, ss, |ss|))
  {
    AdoptedTwice(AfterSuppliers(f, ss, |ss|));
  }

  /** The supplier has nothing to give and no untied invoice. */
  predicate Done(f: Firms, ss: seq<Supplier>, i: nat)
    requires i < |ss|
  {
    Spent(f.customers, ss[i]) && NoneLeft(f.invoices, ss[i].tenant, i)
  }

  lemma DoneStep(f: Firms, ss: seq<Supplier>, i: nat)
    requires i < |ss| && Done(f, ss, i)
    ensures AfterSupplier(f, ss[i], i) == f && Fits(f.customers, ss[i])
  {
    var s := ss[i];
    var k := Find(f.customers, s.tenant, s.pib);
    assert f.customers[k := Absorbed(f.customers[k], s)] == f.customers;
    TiedIdle(f.invoices, s.tenant, i, k);
  }

  /** Such suppliers leave everything alone. */
  lemma {:induction false} DoneChangeNothing(f: Firms, ss: seq<Supplier>, n: nat)
    requires n <= |ss| && forall i | 0 <= i < |ss| :: Done(f, ss, i)
    ensures AfterSuppliers(f, ss, n) == f && AllFit(f, ss, n)
  {
    if n > 0 {
      DoneChangeNothing(f, ss, n - 1);
      DoneStep(f, ss, n - 1);
    }
  }

  predicate AllReachable(f: Firms, ss: seq<Supplier>) {
    forall i | 0 <= i < |ss| :: Reachable(f.customers, ss[i])
  }

  lemma MergedIsDone(f: Firms, ss: seq<Supplier>, i: nat)
    requires AllReachable(f, ss) && i < |ss|
    ensures Done(Merged(f, ss), ss, i)
  {
    SecondPassIdle(f, ss);
    AllSpent(f, ss, |ss|, i);
    SupplierDone(f, ss, |ss|, i);
  }

  /** The second merge finds nothing to do, if every supplier can be reached. */
  lemma MergeTwice(f: Firms, ss: seq<Supplier>)
    requires AllReachable(f, ss)
    ensures AllFit(Merged(f, ss), ss, |ss|) && Merged(Merged(f, ss), ss) == Merged(f, ss)
  {
    var g := Merged(f, ss);
    forall i | 0 <= i < |ss| ensures Done(g, ss, i) {
      MergedIsDone(f, ss, i);
    }
    DoneChangeNothing(g, ss, |ss|);
    SecondPassIdle(g, ss);
    SecondPassIdle(f, ss);
    AdoptedTwice(AfterSuppliers(f, ss, |ss|));
  }

  /** After the merge every supplier that can be reached is a customer with all the details it had. */
  lemma SuppliersAreCustomers(f: Firms, ss: seq<Supplier>, i: nat)
    requires i < |ss| && Reachable(f.customers, ss[i])
    ensures var cs, k := Merged(f, ss).customers, Find(Merged(f, ss).customers, ss[i].tenant, ss[i].pib);
      k < |cs| && HasDetailsOf(cs[k], ss[i])
  {
    AllSpent(f, ss, |ss|, i);
  }

  // ---------- the other direction ----------

  lemma StaysLost(f: Firms, ss: seq<Supplier>, n: nat, s: Supplier)
    requires n <= |ss| && !Reachable(f.customers, s)
    ensures !Reachable(AfterSuppliers(f, ss, n).customers, s)
  {
    KeysAfter(f, ss, n, s.tenant, s.pib);
  }

  /** A supplier folded in leaves a customer under its cut PIB, unless it was found in full. */
  lemma LostLeavesCut(f: Firms, ss: seq<Supplier>, i: nat, n: nat)
    requires i < n <= |ss| && !Reachable(f.customers, ss[i])
    ensures HasKey(AfterSuppliers(f, ss, n).customers, ss[i].tenant, Cut(ss[i].pib, 32))
  {
    KeysAfter(f, ss, n, ss[i].tenant, Cut(ss[i].pib, 32));
    assert Adds(f, ss[i], ss[i].tenant, Cut(ss[i].pib, 32));
  }

  /** A supplier that can never be found again: a second merge refuses it. */
  lemma LostIsRefused(f: Firms, ss: seq<Supplier>, i: nat)
    requires i < |ss| && !Reachable(f.customers, ss[i])
    ensures !AllFit(Merged(f, ss), ss, |ss|)
  {
    var g, s := Merged(f, ss), ss[i];
    StaysLost(f, ss, |ss|, s);
    LostLeavesCut(f, ss, i, |ss|);
    StaysLost(g, ss, i, s);
    CustomersOnlyGain(g, ss, i);
    FindKept(g.customers, AfterSuppliers(g, ss, i).customers, s.tenant, Cut(s.pib, 32), 0);
    if AllFit(g, ss, |ss|) { FitStops(g, ss, i, |ss|); }
  }

  /** The merge runs at every start.  After one that went through, the next goes through exactly when every
      supplier can be reached, and then it changes nothing. */
  lemma MergeTwiceExactly(f: Firms, ss: seq<Supplier>)
    requires Merge(f, ss).Some?
    ensures Merge(Merge(f, ss).value, ss) == if AllReachable(f, ss) then Merge(f, ss) else None
  {
    if AllReachable(f, ss) {
      MergeTwice(f, ss);
    } else {
      var i :| 0 <= i < |ss| && !Reachable(f.customers, ss[i]);
      LostIsRefused(f, ss, i);
    }
  }

  // ---------- what is tied ----------

  /** The invoice was entered with none of these suppliers of its tenant. */
  predicate Unlisted(inv: Incoming, ss: seq<Supplier>) {
    inv.supplier.Some? && inv.supplier.value < |ss| ==> ss[inv.supplier.value].tenant != inv.tenant
  }

  lemma {:induction false} UnlistedStays(f: Firms, ss: seq<Supplier>, n: nat, i: nat)
    requires n <= |ss| && i < |f.invoices| && Unlisted(f.invoices[i], ss)
    ensures |AfterSuppliers(f, ss, n).invoices| == |f.invoices|
    ensures AfterSuppliers(f, ss, n).invoices[i] == f.invoices[i]
  {
    if n > 0 { UnlistedStays(f, ss, n - 1, i); }
  }

  /** After the merge a tied invoice is as before, an invoice of a listed supplier of its tenant is tied,
      one left untied names no PIB of a customer, and one of no listed supplier that names no PIB is left alone. */
  lemma InvoicesAfterMerge(f: Firms, ss: seq<Supplier>, i: nat)
    requires i < |f.invoices|
    ensures |Merged(f, ss).invoices| == |f.invoices|
    ensures var before, g := f.invoices[i], Merged(f, ss);
      var after := g.invoices[i];
      && OnlyTied(before, after)
      && (before.supplier.Some? && before.supplier.value < |ss| && ss[before.supplier.value].tenant == before.tenant ==>
            after.customer.Some?)
      && (after.customer.None? ==>
            after.supplierPib == "" || Find(g.customers, after.tenant, after.supplierPib) == |g.customers|)
      && (Unlisted(before, ss) && before.supplierPib == "" ==> after == before)
  {
    SecondPassIdle(f, ss);
    if Unlisted(f.invoices[i], ss) { UnlistedStays(f, ss, |ss|, i); }
    InvoicesOnlyTied(f, ss, |ss|);
    var mid := AfterSuppliers(f, ss, |ss|);
    assert OnlyTied(f.invoices[i], mid.invoices[i]);
    var s := f.invoices[i].supplier;
    if s.Some? && s.value < |ss| {
      SupplierDone(f, ss, |ss|, s.value);
      assert !OfSupplier(mid.invoices[i], ss[s.value].tenant, s.value);
    }
  }

  predicate TiedRight(inv: Incoming, cs: seq<Customer>, ss: seq<Supplier>) {
    inv.customer.Some? ==>
      && inv.customer.value < |cs| && cs[inv.customer.value].tenant == inv.tenant
      && (cs[inv.customer.value].pib == inv.supplierPib
          || (inv.supplier.Some? && inv.supplier.value < |ss|
              && (cs[inv.customer.value].pib == ss[inv.supplier.value].pib
                  || cs[inv.customer.value].pib == Cut(ss[inv.supplier.value].pib, 32))))
  }

  lemma TiedRightStays(inv: Incoming, cs: seq<Customer>, ds: seq<Customer>, ss: seq<Supplier>)
    requires TiedRight(inv, cs, ss) && AllEnriched(cs, ds)
    ensures TiedRight(inv, ds, ss)
  {
    if inv.customer.Some? { assert Enriched(cs[inv.customer.value], ds[inv.customer.value]); }
  }

  lemma {:induction false} TiedToOwn(f: Firms, ss: seq<Supplier>, n: nat, i: nat)
    requires n <= |ss| && i < |f.invoices| && f.invoices[i].customer.None?
    ensures |AfterSuppliers(f, ss, n).invoices| == |f.invoices|
    ensures TiedRight(AfterSuppliers(f, ss, n).invoices[i], AfterSuppliers(f, ss, n).customers, ss)
  {
    InvoicesOnlyTied(f, ss, n);
    if n > 0 {
      TiedToOwn(f, ss, n - 1, i);
      var before := AfterSuppliers(f, ss, n - 1);
      WithSupplierEnriches(before.customers, ss[n - 1]);
      TiedRightStays(before.invoices[i], before.customers, WithSupplier(before.customers, ss[n - 1]), ss);
    }
  }

  /** An invoice the merge ties goes to a customer of its own tenant, under its supplier's PIB or its own. */
  lemma MergeTiesToOwn(f: Firms, ss: seq<Supplier>, i: nat)
    requires i < |f.invoices| && f.invoices[i].customer.None?
    ensures |Merged(f, ss).invoices| == |f.invoices|
    ensures TiedRight(Merged(f, ss).invoices[i], Merged(f, ss).customers, ss)
  {
    SecondPassIdle(f, ss);
    TiedToOwn(f, ss, |ss|, i);
  }

  /** One of the first n suppliers is active and is this customer. */
  predicate Activates(cs: seq<Customer>, ss: seq<Supplier>, n: nat, k: nat)
    requires n <= |ss|
  {
    exists i :: 0 <= i < n && ss[i].active && Find(cs, ss[i].tenant, ss[i].pib) == k
  }

  lemma ActiveStep(cs: seq<Customer>, ds: seq<Customer>, s: Supplier, k: nat)
    requires AllEnriched(cs, ds) && k < |cs|
    ensures WithSupplier(ds, s)[k].active <==> ds[k].active || (s.active && Find(cs, s.tenant, s.pib) == k)
  {
    FindOriginal(cs, ds, s.tenant, s.pib, k);
  }

  lemma {:induction false} ActiveAfter(f: Firms, ss: seq<Supplier>, n: nat, k: nat)
    requires n <= |ss| && k < |f.customers| <= |AfterSuppliers(f, ss, n).customers|
    ensures AfterSuppliers(f, ss, n).customers[k].active <==> f.customers[k].active || Activates(f.customers, ss, n, k)
  {
    if n > 0 {
      CustomersOnlyGain(f, ss, n - 1);
      ActiveAfter(f, ss, n - 1, k);
      ActiveStep(f.customers, AfterSuppliers(f, ss, n - 1).customers, ss[n - 1], k);
      ActivatesStep(f.customers, ss, n, k);
    }
  }

  lemma ActivatesStep(cs: seq<Customer>, ss: seq<Supplier>, n: nat, k: nat)
    requires 0 < n <= |ss|
    ensures Activates(cs, ss, n, k)
       <==> Activates(cs, ss, n - 1, k) || (ss[n - 1].active && Find(cs, ss[n - 1].tenant, ss[n - 1].pib) == k)
  {
  }

  /** A customer is active after the merge exactly when it was before or some active supplier is that
      customer: switching it off by hand lasts until the next start, while its supplier is active. */
  lemma ActiveAfterMerge(f: Firms, ss: seq<Supplier>, k: nat)
    requires k < |f.customers|
    ensures k < |Merged(f, ss).customers|
    ensures Merged(f, ss).customers[k].active <==> f.customers[k].active || Activates(f.customers, ss, |ss|, k)
  {
    SecondPassIdle(f, ss);
    CustomersOnlyGain(f, ss, |ss|);
    ActiveAfter(f, ss, |ss|, k);
  }
}
