/** Bank payments matched to customers (sepko/bank_match.py): the ranking of candidates and the
    automatic matching of new transactions.  Scores are in tenths, amounts in cents. */
module BankMatch {
  import opened Wrappers
  import opened Sorting
  import Ledger

  const CONFIDENT := 880
  const CERTAIN := 1000
  const LEAD := 80

  datatype Candidate = Candidate(customer: nat, score: nat)

  // ---------- ranking ----------

  /** The best score of a customer's candidates. */
  function BestScore(cands: seq<Candidate>, customer: nat): Option<nat> {
    if cands == [] then None
    else
      var n := |cands| - 1;
      var b := BestScore(cands[..n], customer);
      if cands[n].customer == customer && (b.None? || cands[n].score > b.value) then Some(cands[n].score) else b
  }

  /** The customer's best score is at least `least` and ahead of every other customer's by LEAD. */
  ghost predicate Leads(cands: seq<Candidate>, customer: nat, least: nat) {
    && BestScore(cands, customer).Some? && BestScore(cands, customer).value >= least
    && forall other | other != customer && BestScore(cands, other).Some? ::
         BestScore(cands, customer).value >= BestScore(cands, other).value + LEAD
  }

  /** The best score is reached by one of the customer's candidates and exceeded by none. */
  lemma {:induction false} BestScoreIs(cands: seq<Candidate>, customer: nat)
    ensures BestScore(cands, customer).None? <==> forall c | c in cands :: c.customer != customer
    ensures BestScore(cands, customer).Some? ==>
      && Candidate(customer, BestScore(cands, customer).value) in cands
      && forall c | c in cands && c.customer == customer :: c.score <= BestScore(cands, customer).value
  {
    if cands != [] {
      var n := |cands| - 1;
      BestScoreIs(cands[..n], customer);
      assert cands == cands[..n] + [cands[n]];
      if cands[n].customer == customer { assert cands[n] == Candidate(customer, cands[n].score); }
    }
  }

  /** One of the customer's candidates scores this much, at least `least`, no other of the same customer more, and every
      candidate of another customer at least 8 less. */
  predicate StandsOut(cands: seq<Candidate>, customer: nat, score: nat, least: nat) {
    && Candidate(customer, score) in cands && score >= least
    && forall c | c in cands :: if c.customer == customer then c.score <= score else c.score + 80 <= score
  }

  lemma LeadsExactly(cands: seq<Candidate>, customer: nat, score: nat, least: nat)
    ensures Leads(cands, customer, least) && BestScore(cands, customer) == Some(score)
       <==> StandsOut(cands, customer, score, least)
  {
    BestScoreIs(cands, customer);
    if StandsOut(cands, customer, score, least) {
      forall other | other != customer && BestScore(cands, other).Some?
        ensures score >= BestScore(cands, other).value + LEAD
      {
        BestScoreIs(cands, other);
      }
    } else if Leads(cands, customer, least) && BestScore(cands, customer) == Some(score) {
      forall c | c in cands ensures if c.customer == customer then c.score <= score else c.score + 80 <= score {
        BestScoreIs(cands, c.customer);
      }
    }
  }

  datatype Proposal = NeedsReview(shown: Option<nat>) | Suggested(customer: nat, score: nat, auto: bool)

  /** One entry per customer, each with the customer's best score. */
  ghost predicate BestOnly(entries: seq<Candidate>, cands: seq<Candidate>) {
    && (forall i, j | 0 <= i < j < |entries| :: entries[i].customer != entries[j].customer)
    && (forall e | e in entries :: BestScore(cands, e.customer) == Some(e.score))
    && (forall c | BestScore(cands, c).Some? :: exists i :: 0 <= i < |entries| && entries[i].customer == c)
  }

  function IndexOfCustomer(entries: seq<Candidate>, customer: nat): (k: nat)
    ensures k <= |entries|
    ensures k < |entries| ==> entries[k].customer == customer
    ensures forall i :: 0 <= i < k ==> entries[i].customer != customer
  {
    if entries == [] || entries[0].customer == customer then 0 else 1 + IndexOfCustomer(entries[1..], customer)
  }

  lemma BestScoreSnoc(cands: seq<Candidate>, c: Candidate, customer: nat)
    ensures BestScore(cands + [c], customer)
         == var b := BestScore(cands, customer);
            if c.customer == customer && (b.None? || c.score > b.value) then Some(c.score) else b
  {
    assert (cands + [c])[..|cands|] == cands;
  }

  /** One turn of the loop that keeps each customer's best candidate, in order of first appearance. */
  function KeptWith(entries: seq<Candidate>, c: Candidate): seq<Candidate> {
    var k := IndexOfCustomer(entries, c.customer);
    if k == |entries| then entries + [c]
    else if c.score > entries[k].score then entries[k := c]
    else entries
  }

  lemma KeptDistinct(entries: seq<Candidate>, c: Candidate, i: nat, j: nat)
    requires forall i, j | 0 <= i < j < |entries| :: entries[i].customer != entries[j].customer
    requires i < j < |KeptWith(entries, c)|
    ensures KeptWith(entries, c)[i].customer != KeptWith(entries, c)[j].customer
  {
  }

  lemma KeptCovers(entries: seq<Candidate>, c: Candidate, customer: nat) returns (i: nat)
    requires customer == c.customer || exists j :: 0 <= j < |entries| && entries[j].customer == customer
    ensures i < |KeptWith(entries, c)| && KeptWith(entries, c)[i].customer == customer
  {
    if customer == c.customer {
      i := IndexOfCustomer(entries, customer);
    } else {
      i :| 0 <= i < |entries| && entries[i].customer == customer;
    }
  }

  lemma KeptIsBest(entries: seq<Candidate>, cands: seq<Candidate>, c: Candidate, i: nat)
    requires BestOnly(entries, cands) && i < |KeptWith(entries, c)|
    ensures var e := KeptWith(entries, c)[i]; BestScore(cands + [c], e.customer) == Some(e.score)
  {
    var k := IndexOfCustomer(entries, c.customer);
    BestScoreSnoc(cands, c, KeptWith(entries, c)[i].customer);
    if i < |entries| {
      assert entries[i] in entries;
    } else if BestScore(cands, c.customer).Some? {
      assert false;
    }
  }

  lemma BestOnlyStep(entries: seq<Candidate>, cands: seq<Candidate>, c: Candidate)
    requires BestOnly(entries, cands)
    ensures BestOnly(KeptWith(entries, c), cands + [c])
  {
    var after := KeptWith(entries, c);
    forall i, j | 0 <= i < j < |after| ensures after[i].customer != after[j].customer {
      KeptDistinct(entries, c, i, j);
    }
    forall i | 0 <= i < |after| ensures BestScore(cands + [c], after[i].customer) == Some(after[i].score) {
      KeptIsBest(entries, cands, c, i);
    }
    forall d | BestScore(cands + [c], d).Some? ensures exists i :: 0 <= i < |after| && after[i].customer == d {
      BestScoreSnoc(cands, c, d);
      var i := KeptCovers(entries, c, d);
      assert after[i].customer == d;
    }
  }

  /** The loop that keeps each customer's best candidate. */
  method KeepBest(cands: seq<Candidate>) returns (entries: seq<Candidate>)
    ensures BestOnly(entries, cands)
  {
    entries := [];
    var i := 0;
    while i < |cands|
      invariant i <= |cands|
      invariant BestOnly(entries, cands[..i])
    {
      BestOnlyStep(entries, cands[..i], cands[i]);
      assert cands[..i + 1] == cands[..i] + [cands[i]];
      entries := KeptWith(entries, cands[i]);
      i := i + 1;
    }
    assert cands[..i] == cands;
  }

  predicate HigherFirst(a: Candidate, b: Candidate) { a.score >= b.score }

  lemma RankedBest(entries: seq<Candidate>, cands: seq<Candidate>)
    requires BestOnly(entries, cands)
    ensures var ranked := Sorted(entries, HigherFirst);
      BestOnly(ranked, cands) && forall i, j | 0 <= i < j < |ranked| :: ranked[i].score >= ranked[j].score
  {
    var ranked := Sorted(entries, HigherFirst);
    SortedSorts(entries, HigherFirst);
    SortedPermutes(entries, HigherFirst);
    assert Distinct(entries);
    PermutationDistinct(entries, ranked);
    forall i, j | 0 <= i < j < |ranked| ensures ranked[i].customer != ranked[j].customer {
      assert ranked[i] in entries && ranked[j] in entries && ranked[i] != ranked[j];
    }
    forall c | BestScore(cands, c).Some? ensures exists i :: 0 <= i < |ranked| && ranked[i].customer == c {
      var i :| 0 <= i < |entries| && entries[i].customer == c;
      assert entries[i] in ranked;
    }
  }

  /** propose_customer_match, given the customer remembered for the payer, if any, and the candidates the
      description yields.  Without a remembered customer a proposal is made exactly for the customer that
      leads with at least 88, and it is applied without asking exactly from 100 on. */
  method Propose(remembered: Option<nat>, amount: int, cands: seq<Candidate>) returns (p: Proposal)
    ensures remembered.Some? ==> p == Suggested(remembered.value, CERTAIN, true)
    ensures remembered.None? && p.Suggested? ==>
              amount > 0 && Leads(cands, p.customer, CONFIDENT) && BestScore(cands, p.customer) == Some(p.score)
    ensures remembered.None? && p.Suggested? ==> (p.auto <==> p.score >= CERTAIN)
    ensures remembered.None? && amount > 0 && p.NeedsReview? ==> forall c :: !Leads(cands, c, CONFIDENT)
    ensures remembered.None? && p.Suggested? ==>
              StandsOut(cands, p.customer, p.score, 880) && (p.auto <==> p.score >= 1000)
    ensures remembered.None? && amount > 0 && p.NeedsReview? ==> forall c, score :: !StandsOut(cands, c, score, 880)
  {
    if remembered.Some? { return Suggested(remembered.value, CERTAIN, true); }
    if amount <= 0 { return NeedsReview(None); }
    p := Ranked(cands);
    if p.Suggested? {
      LeadsExactly(cands, p.customer, p.score, CONFIDENT);
    } else {
      forall c, score ensures !StandsOut(cands, c, score, 880) { LeadsExactly(cands, c, score, CONFIDENT); }
    }
  }

  /** The proposal from the candidates alone. */
  method Ranked(cands: seq<Candidate>) returns (p: Proposal)
    ensures p.Suggested? ==> Leads(cands, p.customer, CONFIDENT) && BestScore(cands, p.customer) == Some(p.score)
    ensures p.Suggested? ==> (p.auto <==> p.score >= CERTAIN)
    ensures p.NeedsReview? ==> forall c :: !Leads(cands, c, CONFIDENT)
  {
    var entries := KeepBest(cands);
    RankedBest(entries, cands);
    var ranked := Sorted(entries, HigherFirst);
    if ranked == [] { return NeedsReview(None); }
    var top := ranked[0];
    assert top in ranked;
    var second := if |ranked| > 1 then ranked[1].score else 0;
    if |ranked| > 1 { assert ranked[1] in ranked; }
    if top.score >= CONFIDENT && top.score - second >= LEAD {
      p := Suggested(top.customer, top.score, top.score >= CERTAIN);
      forall c | c != top.customer && BestScore(cands, c).Some? ensures top.score >= BestScore(cands, c).value + LEAD {
        var i :| 0 <= i < |ranked| && ranked[i].customer == c;
        assert ranked[i] in ranked;
        if i > 1 { assert ranked[1].score >= ranked[i].score; }
      }
    } else {
      p := NeedsReview(Some(top.customer));
      forall c ensures !Leads(cands, c, CONFIDENT) {
        if Leads(cands, c, CONFIDENT) { LeaderIsTop(ranked, cands, c); }
      }
    }
  }

  lemma LeaderIsTop(ranked: seq<Candidate>, cands: seq<Candidate>, c: nat)
    requires BestOnly(ranked, cands) && ranked != []
    requires forall i, j | 0 <= i < j < |ranked| :: ranked[i].score >= ranked[j].score
    requires Leads(cands, c, CONFIDENT)
    ensures ranked[0].customer == c && ranked[0].score >= CONFIDENT
    ensures |ranked| > 1 ==> ranked[0].score >= ranked[1].score + LEAD
  {
    assert ranked[0] in ranked;
    var i :| 0 <= i < |ranked| && ranked[i].customer == c;
    assert ranked[i] in ranked;
    if i > 0 { assert false; }
    if |ranked| > 1 { assert ranked[1] in ranked && ranked[1].customer != ranked[0].customer; }
  }

  /** At most one customer can lead. */
  lemma OneLeader(cands: seq<Candidate>, a: nat, b: nat)
    requires Leads(cands, a, CONFIDENT) && Leads(cands, b, CONFIDENT)
    ensures a == b
  {
  }

  // ---------- the payee of a payment ----------

  /** What the search knows about a transaction: the customer remembered for its payer, if any, and the
      candidates its description yields. */
  datatype Hint = Hint(remembered: Option<nat>, cands: seq<Candidate>)

  /** The customer a payment is applied to without asking. */
  ghost predicate IsPayee(h: Hint, customer: nat) {
    if h.remembered.Some? then h.remembered == Some(customer) else Leads(h.cands, customer, CERTAIN)
  }

  ghost function PayeeOf(h: Hint): (p: Option<nat>)
    ensures p.Some? ==> IsPayee(h, p.value)
    ensures p.None? ==> forall c :: !IsPayee(h, c)
  {
    if exists c :: IsPayee(h, c) then var c :| IsPayee(h, c); Some(c) else None
  }

  lemma PayeeIs(h: Hint, customer: nat)
    requires IsPayee(h, customer)
    ensures PayeeOf(h) == Some(customer)
  {
    if h.remembered.None? {
      LeadsLess(h.cands, customer);
      LeadsLess(h.cands, PayeeOf(h).value);
      OneLeader(h.cands, customer, PayeeOf(h).value);
    }
  }

  lemma LeadsLess(cands: seq<Candidate>, customer: nat)
    requires Leads(cands, customer, CERTAIN)
    ensures Leads(cands, customer, CONFIDENT)
  {
  }

  /** Asking for a proposal finds the payee of a positive payment, or that there is none. */
  method FindPayee(h: Hint, amount: int) returns (payee: Option<nat>)
    requires amount > 0
    ensures payee == PayeeOf(h)
  {
    var p := Propose(h.remembered, amount, h.cands);
    payee := if p.Suggested? && p.auto then Some(p.customer) else None;
    if payee.Some? {
      assert IsPayee(h, payee.value);
      PayeeIs(h, payee.value);
    } else if PayeeOf(h).Some? {
      NoPayee(h, p);
    }
  }

  lemma NoPayee(h: Hint, p: Proposal)
    requires h.remembered.None? && PayeeOf(h).Some?
    requires p.Suggested? ==> Leads(h.cands, p.customer, CONFIDENT) && BestScore(h.cands, p.customer) == Some(p.score)
    requires p.NeedsReview? ==> forall c :: !Leads(h.cands, c, CONFIDENT)
    ensures p.Suggested? && p.score >= CERTAIN
  {
    var c := PayeeOf(h).value;
    LeadsLess(h.cands, c);
    if p.Suggested? { OneLeader(h.cands, c, p.customer); }
  }

  // ---------- automatic matching ----------

  datatype TxStatus = Unmatched | Matched | CardTx | Ignored
  datatype Tx = Tx(amount: int, date: string, status: TxStatus, customer: Option<nat>)
  datatype Payment = Payment(customer: nat, tx: nat, amount: int, date: string)

  /** A fiscalized invoice to a customer. */
  datatype Bill = Bill(customer: nat, id: nat, amount: int, date: string)

  /** The payee of each transaction, if it is a customer of the tenant; matching changes nothing it depends on. */
  type Payees = nat -> Option<nat>

  ghost function Known(hints: nat -> Hint, customers: seq<nat>): Payees {
    (id: nat) => var p := PayeeOf(hints(id)); if p.Some? && p.value in customers then p else None
  }

  ghost predicate Matchable(txs: map<nat, Tx>, id: nat, payees: Payees) {
    id in txs && txs[id].status.Unmatched? && txs[id].amount > 0 && payees(id).Some?
  }

  ghost function Paid(txs: map<nat, Tx>, id: nat, payees: Payees): Payment
    requires Matchable(txs, id, payees)
  {
    Payment(payees(id).value, id, txs[id].amount, txs[id].date)
  }

  /** apply_customer_payment on the transaction's row */
  function MatchedTx(t: Tx, customer: nat): Tx { t.(status := Matched, customer := Some(customer)) }

  /** The transactions after matching: the matchable ones of the list, and no others, are matched. */
  ghost predicate MatchedExactly(before: map<nat, Tx>, after: map<nat, Tx>, list: seq<nat>, payees: Payees) {
    after.Keys == before.Keys
    && forall id | id in before ::
         after[id] == if id in list && Matchable(before, id, payees)
                      then MatchedTx(before[id], payees(id).value) else before[id]
  }

  /** The payments made: one for each matchable transaction of the list, and none twice. */
  ghost predicate PaidExactly(before: map<nat, Tx>, made: seq<Payment>, list: seq<nat>, payees: Payees) {
    && Distinct(made)
    && forall p :: p in made <==> p.tx in list && Matchable(before, p.tx, payees) && p == Paid(before, p.tx, payees)
  }

  // ---------- what customers owe ----------

  /** The invoices of a customer as ledger events. */
  function BillEvents(bills: seq<Bill>, customer: nat): seq<Ledger.Event> {
    if bills == [] then []
    else
      var n := |bills| - 1;
      BillEvents(bills[..n], customer)
      + if bills[n].customer == customer
        then [Ledger.Event(bills[n].date, Ledger.InvoiceRow, bills[n].id, bills[n].amount, 0)]
        else []
  }

  /** A customer's payments as ledger events, in the order they were booked. */
  function PaymentEvents(payments: seq<Payment>, customer: nat): seq<Ledger.Event> {
    if payments == [] then []
    else
      var n := |payments| - 1;
      PaymentEvents(payments[..n], customer)
      + if payments[n].customer == customer
        then [Ledger.Event(payments[n].date, Ledger.PaymentRow, n, 0, payments[n].amount)]
        else []
  }

  /** What the customer's ledger shows as owed. */
  function Owed(bills: seq<Bill>, payments: seq<Payment>, customer: nat): int {
    Ledger.CustomerSummary(Ledger.LedgerOf(BillEvents(bills, customer) + PaymentEvents(payments, customer))).owed
  }

  function TotalOwed(bills: seq<Bill>, payments: seq<Payment>, customers: seq<nat>): int {
    if customers == [] then 0
    else TotalOwed(bills, payments, customers[..|customers| - 1]) + Owed(bills, payments, customers[|customers| - 1])
  }

  function Sum(ps: seq<Payment>): int { if ps == [] then 0 else Sum(ps[..|ps| - 1]) + ps[|ps| - 1].amount }

  /** A payment lowers what its own customer owes by its amount, and nobody else's debt. */
  lemma PaymentLowers(bills: seq<Bill>, payments: seq<Payment>, p: Payment, customer: nat)
    ensures Owed(bills, payments + [p], customer)
         == Owed(bills, payments, customer) - if p.customer == customer then p.amount else 0
  {
    var b, e := BillEvents(bills, customer), PaymentEvents(payments, customer);
    assert (payments + [p])[..|payments|] == payments;
    if p.customer == customer {
      var ev := Ledger.Event(p.date, Ledger.PaymentRow, |payments|, 0, p.amount);
      assert b + (e + [ev]) == (b + e) + [ev];
      Ledger.OwedAfter(b + e, ev);
    } else {
      assert PaymentEvents(payments + [p], customer) == e + [] == e;
    }
  }

  /** An invoice raises what its own customer owes by its amount, and nobody else's debt. */
  lemma BillRaises(bills: seq<Bill>, payments: seq<Payment>, bill: Bill, customer: nat)
    ensures Owed(bills + [bill], payments, customer)
         == Owed(bills, payments, customer) + if bill.customer == customer then bill.amount else 0
  {
    var b, e := BillEvents(bills, customer), PaymentEvents(payments, customer);
    assert (bills + [bill])[..|bills|] == bills;
    Ledger.OwedIsNet(b + e);
    Ledger.NetConcat(b, e, false);
    if bill.customer == customer {
      var ev := Ledger.Event(bill.date, Ledger.InvoiceRow, bill.id, bill.amount, 0);
      Ledger.OwedIsNet((b + [ev]) + e);
      Ledger.NetConcat(b + [ev], e, false);
      Ledger.NetConcat(b, [ev], false);
    } else {
      assert BillEvents(bills + [bill], customer) == b + [] == b;
    }
  }

  lemma {:induction false} TotalLowers(bills: seq<Bill>, payments: seq<Payment>, p: Payment, customers: seq<nat>)
    requires Distinct(customers)
    ensures TotalOwed(bills, payments + [p], customers)
         == TotalOwed(bills, payments, customers) - if p.customer in customers then p.amount else 0
  {
    if customers != [] {
      var n := |customers| - 1;
      TotalLowers(bills, payments, p, customers[..n]);
      PaymentLowers(bills, payments, p, customers[n]);
      assert customers == customers[..n] + [customers[n]];
    }
  }

  /** Payments to customers of the list lower what they owe together by exactly their sum. */
  lemma {:induction false} TotalFalls(bills: seq<Bill>, payments: seq<Payment>, made: seq<Payment>, customers: seq<nat>)
    requires Distinct(customers) && forall p | p in made :: p.customer in customers
    ensures TotalOwed(bills, payments + made, customers) == TotalOwed(bills, payments, customers) - Sum(made)
  {
    if made == [] {
      assert payments + made == payments;
    } else {
      var n := |made| - 1;
      TotalFalls(bills, payments, made[..n], customers);
      TotalLowers(bills, payments + made[..n], made[n], customers);
      assert (payments + made[..n]) + [made[n]] == payments + made;
    }
  }

  class Matcher {
    var txs: map<nat, Tx>
    var payments: seq<Payment>
    const bills: seq<Bill>
    const customers: seq<nat>

    constructor (txs: map<nat, Tx>, bills: seq<Bill>, customers: seq<nat>)
      ensures this.txs == txs && payments == [] && this.bills == bills && this.customers == customers
    {
      this.txs, payments, this.bills, this.customers := txs, [], bills, customers;
    }

    /** What the tenant's customers together owe, by their ledgers. */
    ghost function Receivables(): int
      reads this
    {
      TotalOwed(bills, payments, customers)
    }

    /** auto_match_new_transactions: each payment goes to the customer remembered for its payer or, without
        one, to the customer that leads with at least 100. */
    method AutoMatch(list: seq<nat>, hints: nat -> Hint) returns (done: nat)
      requires Distinct(customers)
      modifies this`txs, this`payments
      ensures MatchedExactly(old(txs), txs, list, Known(hints, customers))
      ensures old(payments) <= payments
      ensures PaidExactly(old(txs), payments[|old(payments)|..], list, Known(hints, customers))
      ensures forall p | p in payments[|old(payments)|..] :: p.customer in customers && IsPayee(hints(p.tx), p.customer)
      ensures forall p | p in payments[|old(payments)|..] :: BooksInFull(p, list, old(txs), txs)
      ensures done == |payments| - |old(payments)|
      ensures Receivables() == old(Receivables()) - Sum(payments[|old(payments)|..])
    {
      ghost var payees := Known(hints, customers);
      var made: seq<Payment> := [];
      var i := 0;
      while i < |list|
        invariant i <= |list|
        invariant payments == old(payments)
        invariant MatchedExactly(old(txs), txs, list[..i], payees)
        invariant PaidExactly(old(txs), made, list[..i], payees)
      {
        var id := list[i];
        assert list[..i + 1] == list[..i] + [id];
        MatchStep(old(txs), txs, made, list[..i], id, payees);
        if id in txs && txs[id].status.Unmatched? && txs[id].amount > 0 {
          var payee := FindPayee(hints(id), txs[id].amount);
          if payee.Some? && payee.value in customers {
            made := made + [Payment(payee.value, id, txs[id].amount, txs[id].date)];
            txs := txs[id := MatchedTx(txs[id], payee.value)];
          }
        }
        i := i + 1;
      }
      assert list[..i] == list;
      payments := payments + made;
      assert payments[|old(payments)|..] == made;
      MadeToPayees(old(txs), made, list, hints, customers);
      MadeInFull(old(txs), txs, made, list, Known(hints, customers));
      TotalFalls(bills, old(payments), made, customers);
      done := |made|;
    }
  }

  /** The payment books the whole of an unmatched, positive transaction of the list, now matched to its customer. */
  predicate BooksInFull(p: Payment, list: seq<nat>, before: map<nat, Tx>, after: map<nat, Tx>) {
    && p.tx in list && p.tx in before && p.tx in after
    && before[p.tx].status == Unmatched && before[p.tx].amount > 0
    && p.amount == before[p.tx].amount && p.date == before[p.tx].date
    && after[p.tx] == Tx(before[p.tx].amount, before[p.tx].date, Matched, Some(p.customer))
  }

  lemma MadeInFull(before: map<nat, Tx>, after: map<nat, Tx>, made: seq<Payment>, list: seq<nat>, payees: Payees)
    requires MatchedExactly(before, after, list, payees) && PaidExactly(before, made, list, payees)
    ensures forall p | p in made :: BooksInFull(p, list, before, after)
  {
  }

  lemma MadeToPayees(before: map<nat, Tx>, made: seq<Payment>, list: seq<nat>, hints: nat -> Hint, customers: seq<nat>)
    requires PaidExactly(before, made, list, Known(hints, customers))
    ensures forall p | p in made :: p.customer in customers && IsPayee(hints(p.tx), p.customer)
  {
  }

  lemma MatchStep(before: map<nat, Tx>, now: map<nat, Tx>, made: seq<Payment>, list: seq<nat>, id: nat, payees: Payees)
    requires MatchedExactly(before, now, list, payees) && PaidExactly(before, made, list, payees)
    ensures if Matchable(now, id, payees) then
        && MatchedExactly(before, now[id := MatchedTx(now[id], payees(id).value)], list + [id], payees)
        && PaidExactly(before, made + [Paid(now, id, payees)], list + [id], payees)
      else
        && MatchedExactly(before, now, list + [id], payees)
        && PaidExactly(before, made, list + [id], payees)
  {
    if Matchable(now, id, payees) {
      assert id !in list && now[id] == before[id];
      assert Paid(now, id, payees) !in made;
    } else if Matchable(before, id, payees) {
      assert id in list;
    }
  }

  /** Each transaction gets at most one payment. */
  lemma OnePaymentEach(before: map<nat, Tx>, made: seq<Payment>, list: seq<nat>, payees: Payees, i: nat, j: nat)
    requires PaidExactly(before, made, list, payees) && i < j < |made|
    ensures made[i].tx != made[j].tx
  {
    assert made[i] in made && made[j] in made;
  }

  lemma SameMembersSameMultiset<T>(a: seq<T>, b: seq<T>)
    requires Distinct(a) && Distinct(b) && forall x :: x in a <==> x in b
    ensures multiset(a) == multiset(b)
  {
    DistinctCounts(a);
    DistinctCounts(b);
    forall x ensures multiset(a)[x] == multiset(b)[x] {
      assert x in a <==> x in multiset(a);
      assert x in b <==> x in multiset(b);
    }
  }

  /** The outcome does not depend on the order, or repetitions, of the list. */
  lemma ListOrderIrrelevant(before: map<nat, Tx>, list1: seq<nat>, list2: seq<nat>, payees: Payees,
                            after1: map<nat, Tx>, after2: map<nat, Tx>, made1: seq<Payment>, made2: seq<Payment>)
    requires forall id :: id in list1 <==> id in list2
    requires MatchedExactly(before, after1, list1, payees) && PaidExactly(before, made1, list1, payees)
    requires MatchedExactly(before, after2, list2, payees) && PaidExactly(before, made2, list2, payees)
    ensures after1 == after2 && multiset(made1) == multiset(made2)
  {
    SameMembersSameMultiset(made1, made2);
  }

  /** Matching the same list again with the same proposals does nothing. */
  lemma RerunAddsNothing(before: map<nat, Tx>, after: map<nat, Tx>, list: seq<nat>, payees: Payees,
                         again: map<nat, Tx>, made: seq<Payment>)
    requires MatchedExactly(before, after, list, payees)
    requires MatchedExactly(after, again, list, payees) && PaidExactly(after, made, list, payees)
    ensures again == after && made == []
  {
    if |made| > 0 {
      var p := made[0];
      if p in made { assert false; }
    }
  }
}
