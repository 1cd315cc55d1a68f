/** Monthly numbers handed out after the fact (backfill_local_ord_nums): the dictionary of
    counters against a fresh maximum for every row. */
module Backfill {
  import opened Wrappers
  import opened Calendar
  import opened Invoices
  import opened Sorting

  type Key = (nat, int, int)

  function KeyOf(r: Invoice): Key { (r.tenant, r.issue.wall.date.year, r.issue.wall.date.month) }

  function QueryOf(k: Key): Query { LocalInMonth(k.0, k.1, k.2, true) }

  // ---------- the rows to number ----------

  predicate Eligible(r: Invoice, tenant: Option<nat>) {
    !r.isTemplate && r.localNum.None? && r.ordNum.Some? && (tenant.Some? ==> r.tenant == tenant.value)
  }

  function EligibleBelow(rows: map<nat, Invoice>, tenant: Option<nat>, n: nat): (ids: seq<nat>)
    ensures forall id :: id in ids <==> id < n && id in rows && Eligible(rows[id], tenant)
    ensures Distinct(ids)
  {
    if n == 0 then []
    else EligibleBelow(rows, tenant, n - 1)
         + (if n - 1 in rows && Eligible(rows[n - 1], tenant) then [n - 1] else [])
  }

  function OrdOrZero(r: Invoice): nat { if r.ordNum.Some? then r.ordNum.value else 0 }

  /** ORDER BY tenant_id, issue_datetime, inv_ord_num, id */
  predicate RowLeq(rows: map<nat, Invoice>, i: nat, j: nat) {
    if i !in rows || j !in rows then i !in rows
    else
      var a, b := rows[i], rows[j];
      if a.tenant != b.tenant then a.tenant < b.tenant
      else if a.issue.utc != b.issue.utc then StampBefore(a.issue.utc, b.issue.utc)
      else if OrdOrZero(a) != OrdOrZero(b) then OrdOrZero(a) < OrdOrZero(b)
      else i <= j
  }

  function Order(b: Book, tenant: Option<nat>): seq<nat> {
    Sorted(EligibleBelow(b.rows, tenant, b.nextId), (i, j) => RowLeq(b.rows, i, j))
  }

  lemma RowLeqTotal(rows: map<nat, Invoice>)
    ensures TotalOn((i, j) => RowLeq(rows, i, j))
  {
  }

  /** The rows are exactly the eligible ones, once each, in the order of the query. */
  lemma OrderCorrect(b: Book, tenant: Option<nat>)
    ensures var ids := Order(b, tenant);
      && Distinct(ids)
      && (forall id :: id in ids <==> id < b.nextId && id in b.rows && Eligible(b.rows[id], tenant))
      && (forall i, j | 0 <= i < j < |ids| :: RowLeq(b.rows, ids[i], ids[j]))
  {
    var leq := (i, j) => RowLeq(b.rows, i, j);
    var raw := EligibleBelow(b.rows, tenant, b.nextId);
    RowLeqTotal(b.rows);
    SortedSorts(raw, leq);
    SortedPermutes(raw, leq);
    PermutationDistinct(raw, Sorted(raw, leq));
  }

  // ---------- two ways of numbering ----------

  function WithLocal(r: Invoice, n: nat): Invoice { r.(localNum := Some(n)) }

  function Max(rows: map<nat, Invoice>, k: Key, nextId: nat): nat { MaxBelow(rows, QueryOf(k), nextId) }

  /** A row number from a fresh maximum of its month. */
  function NumberFresh(rows: map<nat, Invoice>, id: nat, nextId: nat): (r: map<nat, Invoice>)
    ensures r.Keys == rows.Keys
  {
    if id in rows then rows[id := WithLocal(rows[id], Max(rows, KeyOf(rows[id]), nextId) + 1)] else rows
  }

  /** From ids[n] on, every row gets one more than the maximum of its month at that moment. */
  function Fresh(rows: map<nat, Invoice>, ids: seq<nat>, n: nat, nextId: nat): (r: map<nat, Invoice>)
    requires n <= |ids|
    ensures r.Keys == rows.Keys
    decreases |ids| - n
  {
    if n == |ids| then rows else Fresh(NumberFresh(rows, ids[n], nextId), ids, n + 1, nextId)
  }

  function NextCounter(rows: map<nat, Invoice>, counters: map<Key, nat>, k: Key, nextId: nat): nat {
    (if k in counters then counters[k] else Max(rows, k, nextId)) + 1
  }

  /** The maximum is looked up once for each month and counted on from there. */
  function Cached(rows: map<nat, Invoice>, ids: seq<nat>, n: nat, counters: map<Key, nat>, nextId: nat)
    : (r: map<nat, Invoice>)
    requires n <= |ids|
    ensures r.Keys == rows.Keys
    decreases |ids| - n
  {
    if n == |ids| then rows
    else if ids[n] !in rows then Cached(rows, ids, n + 1, counters, nextId)
    else
      var k := KeyOf(rows[ids[n]]);
      var c := NextCounter(rows, counters, k, nextId);
      Cached(rows[ids[n] := WithLocal(rows[ids[n]], c)], ids, n + 1, counters[k := c], nextId)
  }

  lemma CachedStep(rows: map<nat, Invoice>, ids: seq<nat>, n: nat, counters: map<Key, nat>, nextId: nat)
    requires n < |ids| && ids[n] in rows
    ensures var k := KeyOf(rows[ids[n]]);
      var c := NextCounter(rows, counters, k, nextId);
      Cached(rows, ids, n, counters, nextId)
        == Cached(rows[ids[n] := WithLocal(rows[ids[n]], c)], ids, n + 1, counters[k := c], nextId)
  {
  }

  /** Only missing local numbers change, to positive ones, and only on the rows of the list. */
  lemma {:induction false} CachedFrame(rows: map<nat, Invoice>, ids: seq<nat>, n: nat, counters: map<Key, nat>,
                                       nextId: nat, id: nat)
    requires n <= |ids| && id in rows
    ensures var after := Cached(rows, ids, n, counters, nextId);
      && after[id] == rows[id].(localNum := after[id].localNum)
      && (id !in ids[n..] ==> after[id] == rows[id])
      && (after[id] == rows[id] || (after[id].localNum.Some? && after[id].localNum.value > 0))
    decreases |ids| - n
  {
    if n < |ids| {
      assert ids[n..] == [ids[n]] + ids[n + 1..];
      if ids[n] !in rows {
        CachedFrame(rows, ids, n + 1, counters, nextId, id);
      } else {
        var k := KeyOf(rows[ids[n]]);
        var c := NextCounter(rows, counters, k, nextId);
        CachedStep(rows, ids, n, counters, nextId);
        CachedFrame(rows[ids[n] := WithLocal(rows[ids[n]], c)], ids, n + 1, counters[k := c], nextId, id);
      }
    }
  }

  /** backfill_local_ord_nums */
  function Filled(b: Book, tenant: Option<nat>): Book {
    b.(rows := Cached(b.rows, Order(b, tenant), 0, map[], b.nextId))
  }

  /** Existing numbers and everything but the local number stay as they are. */
  lemma FilledFrame(b: Book, tenant: Option<nat>, id: nat)
    requires id in b.rows
    ensures id in Filled(b, tenant).rows
    ensures var (before, after) := (b.rows[id], Filled(b, tenant).rows[id]);
      && after == before.(localNum := after.localNum)
      && (!Eligible(before, tenant) ==> after == before)
      && (after == before || (after.localNum.Some? && after.localNum.value > 0))
  {
    var ids := Order(b, tenant);
    OrderCorrect(b, tenant);
    CachedFrame(b.rows, ids, 0, map[], b.nextId, id);
    assert ids[0..] == ids;
  }

  lemma {:induction false} CachedGives(rows: map<nat, Invoice>, ids: seq<nat>, n: nat, counters: map<Key, nat>,
                                       nextId: nat, id: nat)
    requires n <= |ids| && Distinct(ids) && id in rows && id in ids[n..]
    ensures Cached(rows, ids, n, counters, nextId)[id].localNum.Some?
    decreases |ids| - n
  {
    assert ids[n..] == [ids[n]] + ids[n + 1..];
    if ids[n] !in rows {
      CachedGives(rows, ids, n + 1, counters, nextId, id);
    } else {
      var k := KeyOf(rows[ids[n]]);
      var c := NextCounter(rows, counters, k, nextId);
      var after := rows[ids[n] := WithLocal(rows[ids[n]], c)];
      CachedStep(rows, ids, n, counters, nextId);
      if ids[n] == id {
        CachedFrame(after, ids, n + 1, counters[k := c], nextId, id);
      } else {
        CachedGives(after, ids, n + 1, counters[k := c], nextId, id);
      }
    }
  }

  /** After filling in, exactly the invoices, templates aside, of the tenant asked for that had an order number and no
      local number have got one; every other row is as it was. */
  lemma FilledExactly(b: Book, tenant: Option<nat>, id: nat)
    requires id in b.rows && id < b.nextId
    ensures id in Filled(b, tenant).rows
    ensures var (before, after) := (b.rows[id], Filled(b, tenant).rows[id]);
      if before.localNum == None && before.ordNum != None && !before.isTemplate
         && (tenant == None || tenant == Some(before.tenant))
      then after.localNum.Some? && after.localNum.value > 0 && after == before.(localNum := after.localNum)
      else after == before
  {
    var ids := Order(b, tenant);
    FilledFrame(b, tenant, id);
    OrderCorrect(b, tenant);
    assert ids[0..] == ids;
    if id in ids { CachedGives(b.rows, ids, 0, map[], b.nextId, id); }
  }

  /** The loop of backfill_local_ord_nums over the rows of the query. */
  method AssignNumbers(rows: map<nat, Invoice>, ids: seq<nat>, nextId: nat)
    returns (after: map<nat, Invoice>, n: nat)
    requires forall i | 0 <= i < |ids| :: ids[i] in rows
    ensures after == Cached(rows, ids, 0, map[], nextId)
    ensures n == |ids|
  {
    var counters: map<Key, nat> := map[];
    after, n := rows, 0;
    while n < |ids|
      invariant n <= |ids|
      invariant after.Keys == rows.Keys
      invariant Cached(rows, ids, 0, map[], nextId) == Cached(after, ids, n, counters, nextId)
    {
      CachedStep(after, ids, n, counters, nextId);
      var key := KeyOf(after[ids[n]]);
      ghost var before := counters;
      if key !in counters {
        counters := counters[key := Max(after, key, nextId)];
      }
      counters := counters[key := counters[key] + 1];
      assert counters == before[key := NextCounter(after, before, key, nextId)];
      after := after[ids[n] := WithLocal(after[ids[n]], counters[key])];
      n := n + 1;
    }
  }

  // ---------- the dictionary gives what fresh scans give ----------

  /** A row yet to be numbered whose month, as read, is its UTC month. */
  predicate Unnumbered(rows: map<nat, Invoice>, id: nat, nextId: nat) {
    id in rows && id < nextId && rows[id].localNum.None? && IsUtc(rows[id].issue) && Valid(rows[id].issue.utc.date)
  }

  predicate AllUnnumbered(rows: map<nat, Invoice>, ids: seq<nat>, n: nat, nextId: nat) {
    Distinct(ids) && forall i | n <= i < |ids| :: Unnumbered(rows, ids[i], nextId)
  }

  lemma MaxRaised(rows: map<nat, Invoice>, after: map<nat, Invoice>, q: Query, id: nat, nextId: nat)
    requires id in rows && id < nextId && after.Keys == rows.Keys
    requires forall j | j in rows && j != id :: after[j] == rows[j]
    requires Counted(q, rows[id]) == 0 && Counted(q, after[id]) == MaxBelow(rows, q, nextId) + 1
    ensures MaxBelow(after, q, nextId) == MaxBelow(rows, q, nextId) + 1
  {
    MaxIsMax(rows, q, nextId);
    MaxIsMax(after, q, nextId);
  }

  lemma MaxKept(rows: map<nat, Invoice>, after: map<nat, Invoice>, q: Query, nextId: nat)
    requires after.Keys == rows.Keys
    requires forall j | j in rows :: Counted(q, after[j]) == Counted(q, rows[j])
    ensures MaxBelow(after, q, nextId) == MaxBelow(rows, q, nextId)
  {
    MaxIsMax(rows, q, nextId);
    MaxIsMax(after, q, nextId);
  }

  /** Numbering one row raises the maximum of its own month by one and of no other. */
  lemma MaxAfter(rows: map<nat, Invoice>, id: nat, nextId: nat, k: Key)
    requires Unnumbered(rows, id, nextId) && 1 <= k.2 <= 12
    ensures Max(NumberFresh(rows, id, nextId), k, nextId)
         == Max(rows, k, nextId) + if k == KeyOf(rows[id]) then 1 else 0
  {
    var after := NumberFresh(rows, id, nextId);
    MonthWindow(rows[id].issue, k.1, k.2);
    if k == KeyOf(rows[id]) {
      MaxRaised(rows, after, QueryOf(k), id, nextId);
    } else {
      assert Counted(QueryOf(k), after[id]) == 0;
      MaxKept(rows, after, QueryOf(k), nextId);
    }
  }

  lemma UnnumberedTail(rows: map<nat, Invoice>, ids: seq<nat>, n: nat, nextId: nat)
    requires n < |ids| && AllUnnumbered(rows, ids, n, nextId)
    ensures AllUnnumbered(NumberFresh(rows, ids[n], nextId), ids, n + 1, nextId)
  {
  }

  predicate CountersExact(rows: map<nat, Invoice>, counters: map<Key, nat>, nextId: nat) {
    forall k | k in counters :: 1 <= k.2 <= 12 && counters[k] == Max(rows, k, nextId)
  }

  lemma CountersKept(rows: map<nat, Invoice>, id: nat, counters: map<Key, nat>, nextId: nat)
    requires Unnumbered(rows, id, nextId) && CountersExact(rows, counters, nextId)
    ensures var k := KeyOf(rows[id]);
      CountersExact(NumberFresh(rows, id, nextId), counters[k := Max(rows, k, nextId) + 1], nextId)
  {
    var own := KeyOf(rows[id]);
    forall k | k in counters || k == own
      ensures 1 <= k.2 <= 12
      ensures counters[own := Max(rows, own, nextId) + 1][k] == Max(NumberFresh(rows, id, nextId), k, nextId)
    {
      MaxAfter(rows, id, nextId, k);
    }
  }

  /** With datetimes in UTC the counters give every row the number a fresh maximum would give. */
  lemma {:induction false} CachedIsFresh(rows: map<nat, Invoice>, ids: seq<nat>, n: nat, counters: map<Key, nat>,
                                         nextId: nat)
    requires n <= |ids| && AllUnnumbered(rows, ids, n, nextId) && CountersExact(rows, counters, nextId)
    ensures Cached(rows, ids, n, counters, nextId) == Fresh(rows, ids, n, nextId)
    decreases |ids| - n
  {
    if n < |ids| {
      var k := KeyOf(rows[ids[n]]);
      CountersKept(rows, ids[n], counters, nextId);
      UnnumberedTail(rows, ids, n, nextId);
      CachedIsFresh(NumberFresh(rows, ids[n], nextId), ids, n + 1, counters[k := Max(rows, k, nextId) + 1], nextId);
    }
  }

  // ---------- what the numbers are ----------

  /** Only missing local numbers change, and only on the rows of the list. */
  lemma {:induction false} FreshFrame(rows: map<nat, Invoice>, ids: seq<nat>, n: nat, nextId: nat, id: nat)
    requires n <= |ids| && id in rows
    ensures var after := Fresh(rows, ids, n, nextId);
      && after[id] == rows[id].(localNum := after[id].localNum)
      && (id !in ids[n..] ==> after[id] == rows[id])
    decreases |ids| - n
  {
    if n < |ids| {
      assert ids[n..] == [ids[n]] + ids[n + 1..];
      FreshFrame(NumberFresh(rows, ids[n], nextId), ids, n + 1, nextId, id);
    }
  }

  /** How many of ids[n..i] belong to month k. */
  function CountKey(rows: map<nat, Invoice>, ids: seq<nat>, n: nat, i: nat, k: Key): nat
    requires n <= i <= |ids|
    decreases i - n
  {
    if n == i then 0
    else (if ids[n] in rows && KeyOf(rows[ids[n]]) == k then 1 else 0) + CountKey(rows, ids, n + 1, i, k)
  }

  lemma {:induction false} CountKeyStable(rows: map<nat, Invoice>, after: map<nat, Invoice>, ids: seq<nat>, n: nat,
                                          i: nat, k: Key)
    requires n <= i <= |ids| && after.Keys == rows.Keys
    requires forall id | id in rows :: KeyOf(rows[id]) == KeyOf(after[id])
    ensures CountKey(rows, ids, n, i, k) == CountKey(after, ids, n, i, k)
    decreases i - n
  {
    if n < i { CountKeyStable(rows, after, ids, n + 1, i, k); }
  }

  lemma FreshFirst(rows: map<nat, Invoice>, ids: seq<nat>, n: nat, nextId: nat)
    requires n < |ids| && AllUnnumbered(rows, ids, n, nextId)
    ensures Fresh(rows, ids, n, nextId)[ids[n]].localNum == Some(Max(rows, KeyOf(rows[ids[n]]), nextId) + 1)
  {
    FreshFrame(NumberFresh(rows, ids[n], nextId), ids, n + 1, nextId, ids[n]);
  }

  lemma LaterRowStays(rows: map<nat, Invoice>, ids: seq<nat>, n: nat, nextId: nat, i: nat)
    requires n < i < |ids| && AllUnnumbered(rows, ids, n, nextId)
    ensures NumberFresh(rows, ids[n], nextId)[ids[i]] == rows[ids[i]]
  {
    assert Unnumbered(rows, ids[i], nextId) && Unnumbered(rows, ids[n], nextId);
  }

  lemma BlockStep(rows: map<nat, Invoice>, ids: seq<nat>, n: nat, nextId: nat, i: nat, k: Key)
    requires n < i < |ids| && AllUnnumbered(rows, ids, n, nextId) && 1 <= k.2 <= 12
    ensures var after := NumberFresh(rows, ids[n], nextId);
      Max(after, k, nextId) + CountKey(after, ids, n + 1, i, k) == Max(rows, k, nextId) + CountKey(rows, ids, n, i, k)
  {
    assert Unnumbered(rows, ids[n], nextId);
    MaxAfter(rows, ids[n], nextId, k);
    CountKeyStable(rows, NumberFresh(rows, ids[n], nextId), ids, n + 1, i, k);
  }

  /** The i-th row gets the old maximum of its month plus its rank among the listed rows of that
      month: a consecutive block above the old maximum. */
  lemma {:induction false} FreshBlock(rows: map<nat, Invoice>, ids: seq<nat>, n: nat, nextId: nat, i: nat)
    requires n <= i < |ids| && AllUnnumbered(rows, ids, n, nextId)
    ensures var k := KeyOf(rows[ids[i]]);
      Fresh(rows, ids, n, nextId)[ids[i]].localNum
        == Some(Max(rows, k, nextId) + 1 + CountKey(rows, ids, n, i, k))
    decreases i - n
  {
    if i == n {
      FreshFirst(rows, ids, n, nextId);
    } else {
      var after := NumberFresh(rows, ids[n], nextId);
      UnnumberedTail(rows, ids, n, nextId);
      FreshBlock(after, ids, n + 1, nextId, i);
      LaterRowStays(rows, ids, n, nextId, i);
      BlockStep(rows, ids, n, nextId, i, KeyOf(rows[ids[i]]));
    }
  }

  /** A month's block has no repetition: a later row of the same month gets a larger number. */
  lemma BlockIncreases(rows: map<nat, Invoice>, ids: seq<nat>, nextId: nat, i: nat, j: nat)
    requires i < j < |ids| && AllUnnumbered(rows, ids, 0, nextId)
    requires KeyOf(rows[ids[i]]) == KeyOf(rows[ids[j]])
    ensures var after := Fresh(rows, ids, 0, nextId);
      after[ids[i]].localNum.Some? && after[ids[j]].localNum.Some?
      && after[ids[i]].localNum.value < after[ids[j]].localNum.value
  {
    var k := KeyOf(rows[ids[i]]);
    FreshBlock(rows, ids, 0, nextId, i);
    FreshBlock(rows, ids, 0, nextId, j);
    CountKeySplit(rows, ids, 0, i, j, k);
  }

  lemma {:induction false} CountKeySplit(rows: map<nat, Invoice>, ids: seq<nat>, n: nat, i: nat, j: nat, k: Key)
    requires n <= i < j <= |ids| && ids[i] in rows && KeyOf(rows[ids[i]]) == k
    ensures CountKey(rows, ids, n, j, k) > CountKey(rows, ids, n, i, k)
    decreases i - n
  {
    if n < i { CountKeySplit(rows, ids, n + 1, i, j, k); }
  }
}
