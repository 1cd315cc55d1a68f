/** The bulk retry of offline invoices (retry_offline_invoices in sepko/services.py): which rows it sends, how
    each of them ends, and what it reports. */
module BulkRetry {
  import opened Wrappers
  import opened Text
  import opened Calendar
  import opened Requests
  import opened Partner
  import opened Invoices
  import opened Integrity
  import opened Backfill
  import opened Runs
  import opened Ikof
  import Retry

  // ---------- which rows are selected ----------

  /** Rows that retry_offline_invoices selects: pending, with IKOF and without JIKR, no template, not
      issued before the cutoff; the first 200 by key. */
  predicate Retriable(r: Invoice, tenant: Option<nat>, cutoff: Stamp) {
    r.status.Pending? && r.ikof.Some? && r.jikr.None? && !r.isTemplate && !StampBefore(r.issue.utc, cutoff)
    && (tenant.Some? ==> r.tenant == tenant.value)
  }

  function RetriableBelow(rows: map<nat, Invoice>, tenant: Option<nat>, cutoff: Stamp, n: nat): (ids: seq<nat>)
    ensures forall id | id in ids :: id < n && id in rows && Retriable(rows[id], tenant, cutoff)
  {
    if n == 0 then []
    else RetriableBelow(rows, tenant, cutoff, n - 1)
         + (if n - 1 in rows && Retriable(rows[n - 1], tenant, cutoff) then [n - 1] else [])
  }

  const RETRY_LIMIT := 200

  function Selected(b: Book, tenant: Option<nat>, cutoff: Stamp): (ids: seq<nat>)
    ensures forall id | id in ids :: id in b.rows
  {
    var all := RetriableBelow(b.rows, tenant, cutoff, b.nextId);
    if |all| <= RETRY_LIMIT then all else all[..RETRY_LIMIT]
  }

  /** One call of the partner in a bulk run: the world it meets and the clock it reads. */
  datatype Call = Call(w: World, now: DateTime)

  /** The retries of a bulk run from the i-th row on; rows of an unknown tenant are passed over. */
  function RetryOps(b: Book, ids: seq<nat>, tenants: map<nat, Tenant>, calls: nat -> Call, i: nat): seq<Op>
    requires i <= |ids|
    decreases |ids| - i
  {
    if i == |ids| then []
    else if ids[i] in b.rows && b.rows[ids[i]].tenant in tenants
    then [SubmitSaved(tenants[b.rows[ids[i]].tenant], ids[i], calls(ids[i]).w, calls(ids[i]).now)]
         + RetryOps(b, ids, tenants, calls, i + 1)
    else RetryOps(b, ids, tenants, calls, i + 1)
  }

  /** How many of the first n rows have this status. */
  function StatusAmong(ids: seq<nat>, b: Book, n: nat, status: Status): nat
    requires n <= |ids|
  {
    if n == 0 then 0
    else StatusAmong(ids, b, n - 1, status)
         + if ids[n - 1] in b.rows && b.rows[ids[n - 1]].status == status then 1 else 0
  }

  /** What a bulk retry reports. */
  datatype Report = Report(done: nat, failed: nat, skipped: nat) {
    function Add(status: Status): Report {
      match status
      case Fiscalized => this.(done := done + 1)
      case Pending => this.(skipped := skipped + 1)
      case _ => this.(failed := failed + 1)
    }
  }

  /** The report counts the first n rows by how they ended. */
  predicate Reports(report: Report, ids: seq<nat>, b: Book, n: nat)
    requires n <= |ids|
  {
    && report.done == StatusAmong(ids, b, n, Fiscalized)
    && report.failed == StatusAmong(ids, b, n, Failed)
    && report.skipped == StatusAmong(ids, b, n, Pending)
    && report.done + report.failed + report.skipped == n
  }

  /** Each tenant under its own key, with trimmed codes. */
  predicate TenantsOk(tenants: map<nat, Tenant>) {
    forall k | k in tenants :: tenants[k].id == k && CodesTrimmed(tenants[k])
  }

  predicate Ascending(ids: seq<nat>) { forall i, j | 0 <= i < j < |ids| :: ids[i] < ids[j] }

  lemma {:induction false} RetriableAscend(rows: map<nat, Invoice>, tenant: Option<nat>, cutoff: Stamp, n: nat)
    ensures Ascending(RetriableBelow(rows, tenant, cutoff, n))
  {
    if n > 0 {
      RetriableAscend(rows, tenant, cutoff, n - 1);
      var below := RetriableBelow(rows, tenant, cutoff, n - 1);
      forall i | 0 <= i < |below| ensures below[i] < n - 1 { assert below[i] in below; }
    }
  }

  /** The selected rows are pending, and each occurs once. */
  lemma SelectedAscend(b: Book, tenant: Option<nat>, cutoff: Stamp)
    ensures Ascending(Selected(b, tenant, cutoff))
    ensures forall id | id in Selected(b, tenant, cutoff) :: id in b.rows && b.rows[id].status.Pending?
  {
    RetriableAscend(b.rows, tenant, cutoff, b.nextId);
  }

  lemma {:induction false} StatusKept(ids: seq<nat>, b: Book, after: Book, n: nat, status: Status)
    requires n <= |ids|
    requires forall i | 0 <= i < n :: (ids[i] in b.rows <==> ids[i] in after.rows)
                                      && (ids[i] in b.rows ==> b.rows[ids[i]] == after.rows[ids[i]])
    ensures StatusAmong(ids, after, n, status) == StatusAmong(ids, b, n, status)
  {
    if n > 0 { StatusKept(ids, b, after, n - 1, status); }
  }

  /** The rows from the i-th on are still as they were when the run began: pending. */
  ghost predicate Untried(b: Book, now: Book, ids: seq<nat>, i: nat) {
    && Ascending(ids) && i <= |ids|
    && (forall j | 0 <= j < |ids| :: ids[j] in b.rows && b.rows[ids[j]].status.Pending? && ids[j] in now.rows)
    && (forall j | i <= j < |ids| :: now.rows[ids[j]] == b.rows[ids[j]])
  }

  lemma AllUntried(b: Book, tenant: Option<nat>, cutoff: Stamp)
    ensures Untried(b, b, Selected(b, tenant, cutoff), 0)
  {
    var ids := Selected(b, tenant, cutoff);
    SelectedAscend(b, tenant, cutoff);
    forall j | 0 <= j < |ids| ensures ids[j] in b.rows && b.rows[ids[j]].status.Pending? { assert ids[j] in ids; }
  }

  lemma NextUntried(b: Book, now: Book, ids: seq<nat>, i: nat)
    requires Untried(b, now, ids, i) && i < |ids|
    ensures ids[i] in b.rows && ids[i] in now.rows && now.rows[ids[i]].status.Pending?
  {
  }

  lemma TurnCounts(b: Book, before: Book, after: Book, ids: seq<nat>, i: nat, report: Report)
    requires Untried(b, before, ids, i) && i < |ids| && Reports(report, ids, before, i)
    requires ids[i] in after.rows && !after.rows[ids[i]].status.Draft?
    requires forall k | k in before.rows && k != ids[i] :: k in after.rows && after.rows[k] == before.rows[k]
    ensures Untried(b, after, ids, i + 1)
    ensures Reports(report.Add(after.rows[ids[i]].status), ids, after, i + 1)
  {
    StatusKept(ids, before, after, i, Fiscalized);
    StatusKept(ids, before, after, i, Failed);
    StatusKept(ids, before, after, i, Pending);
  }

  /** A bulk retry of b after i rows. */
  ghost predicate UnderWay(b: Book, now: Book, ids: seq<nat>, tenants: map<nat, Tenant>, calls: nat -> Call,
                           i: nat, report: Report)
  {
    && i <= |ids| && BookInv(now) && SameOwners(b, now) && Untried(b, now, ids, i)
    && Run(b, RetryOps(b, ids, tenants, calls, 0)) == Run(now, RetryOps(b, ids, tenants, calls, i))
    && Reports(report, ids, now, i)
  }

  lemma RunBegins(b: Book, ids: seq<nat>, tenants: map<nat, Tenant>, calls: nat -> Call,
                  tenant: Option<nat>, cutoff: Stamp)
    requires BookInv(b) && ids == Selected(b, tenant, cutoff)
    ensures UnderWay(b, b, ids, tenants, calls, 0, Report(0, 0, 0))
  {
    AllUntried(b, tenant, cutoff);
  }

  lemma RunEnds(b: Book, now: Book, ids: seq<nat>, tenants: map<nat, Tenant>, calls: nat -> Call, report: Report)
    requires UnderWay(b, now, ids, tenants, calls, |ids|, report)
    ensures BookInv(now) && now == Run(b, RetryOps(b, ids, tenants, calls, 0)) && Reports(report, ids, now, |ids|)
  {
  }

  // ---------- one retry ----------

  /** The rows of b are still there and belong to the same tenants. */
  ghost predicate SameOwners(b: Book, later: Book) {
    && b.nextId <= later.nextId
    && forall id | id in b.rows :: id < b.nextId && id in later.rows && later.rows[id].tenant == b.rows[id].tenant
  }

  lemma StepKeepsOwners(b: Book, later: Book, op: Op)
    requires op.SubmitSaved? && SameOwners(b, later)
    ensures SameOwners(b, Step(later, op))
  {
    ChangeGuarded(later, op);
  }

  lemma RunHead(b: Book, op: Op, ops: seq<Op>)
    ensures Run(b, [op] + ops) == Run(Step(b, op), ops)
  {
    assert ([op] + ops)[1..] == ops;
  }

  lemma OthersStay(b: Book, t: Tenant, id: nat, call: Call)
    requires BookInv(b) && id in b.rows && b.rows[id].tenant == t.id
    ensures var after := Step(b, SubmitSaved(t, id, call.w, call.now));
      forall k | k in b.rows && k != id :: k in after.rows && after.rows[k] == b.rows[k]
  {
    var c := SavedChange(b, t, id, call.w, call.now);
    forall k | k in b.rows && k != id ensures k in Apply(b, c).rows && Apply(b, c).rows[k] == b.rows[k] {
      Retry.SavedTouchesItself(b, t, id, call.w, call.now, k);
      Untouched(b, c, k);
    }
  }

  /** A row that went to the partner once passes the checks again. */
  lemma SavedAllowed(r: Invoice, now: DateTime)
    requires RowInv(r) && !r.status.Draft?
    ensures Refusal(SavedRequest(r, now)).None?
  {
  }

  lemma AnswerIsRow(b: Book, t: Tenant, id: nat, call: Call)
    requires BookInv(b) && id in b.rows && b.rows[id].tenant == t.id && b.rows[id].status.Pending?
    ensures var after := Step(b, SubmitSaved(t, id, call.w, call.now));
      && id in after.rows && !after.rows[id].status.Draft?
      && FiscalizeResponse(b, t, SavedRequest(b.rows[id], call.now), call.w, call.now) == Shown(id, after.rows[id])
  {
    Retry.SavedTargetsItself(b, t, id, call.w, call.now);
    Retry.SavedFindsItself(b, t, id, call.now);
    SavedAllowed(b.rows[id], call.now);
    SubmittedStep(b, SubmitSaved(t, id, call.w, call.now));
  }

    // ---------- how every row ends ----------

  /** An offline invoice still to be retried: pending with an IKOF and no JIKR, no template, issued at the cutoff or
      later, of the tenant asked for if there is one. */
  predicate Due(r: Invoice, tenant: Option<nat>, cutoff: Stamp) {
    && r.status == Pending && r.ikof.Some? && r.jikr.None? && !r.isTemplate
    && (r.issue.utc == cutoff || StampBefore(cutoff, r.issue.utc))
    && (tenant == None || tenant == Some(r.tenant))
  }

  function DueBelow(rows: map<nat, Invoice>, tenant: Option<nat>, cutoff: Stamp, n: nat): set<nat> {
    set id | id in rows && id < n && Due(rows[id], tenant, cutoff)
  }

  /** The row is due, its tenant is known, and fewer than 200 rows before it are due. */
  predicate IsSent(b: Book, id: nat, tenant: Option<nat>, cutoff: Stamp, tenants: map<nat, Tenant>)
    requires id in b.rows
  {
    && Due(b.rows[id], tenant, cutoff) && b.rows[id].tenant in tenants
    && |DueBelow(b.rows, tenant, cutoff, id)| < 200
  }

  lemma DueStep(rows: map<nat, Invoice>, tenant: Option<nat>, cutoff: Stamp, n: nat)
    ensures DueBelow(rows, tenant, cutoff, n + 1)
         == DueBelow(rows, tenant, cutoff, n) + if n in rows && Due(rows[n], tenant, cutoff) then {n} else {}
  {
  }

  lemma DueSize(rows: map<nat, Invoice>, tenant: Option<nat>, cutoff: Stamp, n: nat)
    ensures |DueBelow(rows, tenant, cutoff, n + 1)|
         == |DueBelow(rows, tenant, cutoff, n)| + if n in rows && Due(rows[n], tenant, cutoff) then 1 else 0
  {
    DueStep(rows, tenant, cutoff, n);
  }

  lemma NoneDueBelow(rows: map<nat, Invoice>, tenant: Option<nat>, cutoff: Stamp)
    ensures DueBelow(rows, tenant, cutoff, 0) == {}
  {
  }

  lemma {:induction false} DueCounts(rows: map<nat, Invoice>, tenant: Option<nat>, cutoff: Stamp, n: nat)
    ensures |RetriableBelow(rows, tenant, cutoff, n)| == |DueBelow(rows, tenant, cutoff, n)|
  {
    if n == 0 {
      NoneDueBelow(rows, tenant, cutoff);
    } else {
      DueCounts(rows, tenant, cutoff, n - 1);
      DueSize(rows, tenant, cutoff, n - 1);
      DueIsRetriable(rows, tenant, cutoff, n);
    }
  }

  lemma DueIsRetriable(rows: map<nat, Invoice>, tenant: Option<nat>, cutoff: Stamp, n: nat)
    requires n > 0
    ensures RetriableBelow(rows, tenant, cutoff, n)
         == RetriableBelow(rows, tenant, cutoff, n - 1)
            + if n - 1 in rows && Due(rows[n - 1], tenant, cutoff) then [n - 1] else []
  {
  }

  /** A due row stands at the place given by the due rows before it. */
  lemma {:induction false} DuePlace(rows: map<nat, Invoice>, tenant: Option<nat>, cutoff: Stamp, n: nat, id: nat)
    requires id in rows && id < n
    ensures var ids, k := RetriableBelow(rows, tenant, cutoff, n), |DueBelow(rows, tenant, cutoff, id)|;
      if Due(rows[id], tenant, cutoff) then k < |ids| && ids[k] == id else id !in ids
  {
    var before := RetriableBelow(rows, tenant, cutoff, n - 1);
    if id == n - 1 {
      DueCounts(rows, tenant, cutoff, n - 1);
    } else {
      DuePlace(rows, tenant, cutoff, n - 1, id);
    }
  }

  lemma SelectedExactly(b: Book, id: nat, tenant: Option<nat>, cutoff: Stamp)
    requires BookInv(b) && id in b.rows
    ensures id in Selected(b, tenant, cutoff)
       <==> Due(b.rows[id], tenant, cutoff) && |DueBelow(b.rows, tenant, cutoff, id)| < 200
  {
    var all, k := RetriableBelow(b.rows, tenant, cutoff, b.nextId), |DueBelow(b.rows, tenant, cutoff, id)|;
    DuePlace(b.rows, tenant, cutoff, b.nextId, id);
    RetriableAscend(b.rows, tenant, cutoff, b.nextId);
    if k < |all| && all[k] == id {
      assert forall i | 0 <= i < |all| && all[i] == id :: i == k;
      if |all| > 200 && k < 200 { assert all[..200][k] == id; }
    }
  }

  /** How a sent row ends: by what the partner answers to the request rebuilt from it. */
  function RetryStatus(r: Invoice, t: Tenant, call: Call): Status {
    EndStatus(t, call.w, SavedRequest(r, call.now), r.ikof)
  }

  lemma KeptIkofGiven(r: Invoice, t: Tenant, w: World, req: Request, ord: nat)
    requires RowInv(r) && Waiting(r)
    ensures EndStatus(t, w, req, LocalIic(t, w, req, ord, r.ikof, r.sig).0) == EndStatus(t, w, req, r.ikof)
  {
    LocalIicNormal(t, w, req, ord, r.ikof, r.sig);
  }

  lemma RetryEnds(b: Book, t: Tenant, id: nat, call: Call)
    requires BookInv(b) && id in b.rows && b.rows[id].tenant == t.id && b.rows[id].status.Pending?
    ensures var after := Step(b, SubmitSaved(t, id, call.w, call.now));
      id in after.rows && after.rows[id].status == RetryStatus(b.rows[id], t, call)
  {
    var r := b.rows[id];
    assert RowInv(r);
    var q := SavedRequest(r, call.now);
    Retry.SavedFindsItself(b, t, id, call.now);
    SavedAllowed(r, call.now);
    SubmissionEnds(b, t, q, call.w, call.now);
    KeptIkofGiven(r, t, call.w, q, ChosenOrd(b, t, q));
    SavedIsSubmitted(b, t, id, call);
  }

  lemma SavedIsSubmitted(b: Book, t: Tenant, id: nat, call: Call)
    requires id in b.rows && b.rows[id].tenant == t.id && !b.rows[id].status.Fiscalized?
    ensures Step(b, SubmitSaved(t, id, call.w, call.now))
         == Step(b, Submit(t, SavedRequest(b.rows[id], call.now), call.w, call.now))
  {
    SubmittedStep(b, SubmitSaved(t, id, call.w, call.now));
    SubmittedStep(b, Submit(t, SavedRequest(b.rows[id], call.now), call.w, call.now));
  }

  /** A bulk retry of b that has come to its i-th row. */
  ghost predicate Ready(b: Book, now: Book, ids: seq<nat>, tenants: map<nat, Tenant>, i: nat) {
    BookInv(now) && SameOwners(b, now) && Untried(b, now, ids, i) && TenantsOk(tenants)
  }

  function OpAt(b: Book, ids: seq<nat>, tenants: map<nat, Tenant>, calls: nat -> Call, i: nat): Op
    requires i < |ids| && ids[i] in b.rows && b.rows[ids[i]].tenant in tenants
  {
    SubmitSaved(tenants[b.rows[ids[i]].tenant], ids[i], calls(ids[i]).w, calls(ids[i]).now)
  }

  /** One turn: only its own row changes, and it ends as the partner's answer says. */
  lemma TurnEnds(b: Book, now: Book, ids: seq<nat>, tenants: map<nat, Tenant>, calls: nat -> Call, i: nat)
    requires Ready(b, now, ids, tenants, i) && i < |ids|
    requires ids[i] in b.rows && b.rows[ids[i]].tenant in tenants
    ensures var op := OpAt(b, ids, tenants, calls, i);
      var after := Step(now, op);
      && Ready(b, after, ids, tenants, i + 1)
      && Run(now, RetryOps(b, ids, tenants, calls, i)) == Run(after, RetryOps(b, ids, tenants, calls, i + 1))
      && (forall k | k in now.rows && k != ids[i] :: k in after.rows && after.rows[k] == now.rows[k])
      && after.rows[ids[i]].status == RetryStatus(b.rows[ids[i]], op.t, calls(ids[i]))
  {
    var op := OpAt(b, ids, tenants, calls, i);
    NextUntried(b, now, ids, i);
    StepKeepsInvariant(now, op);
    StepKeepsOwners(b, now, op);
    OthersStay(now, op.t, ids[i], calls(ids[i]));
    RetryEnds(now, op.t, ids[i], calls(ids[i]));
    RunHead(now, op, RetryOps(b, ids, tenants, calls, i + 1));
  }

  /** What one turn does: only its own row changes, and ends as the partner's answer says if it was sent. */
  ghost predicate TurnDone(b: Book, now: Book, after: Book, id: nat, tenants: map<nat, Tenant>, calls: nat -> Call) {
    && (forall k | k in now.rows && k != id :: k in after.rows && after.rows[k] == now.rows[k])
    && id in b.rows && id in now.rows && id in after.rows
    && if b.rows[id].tenant in tenants
       then after.rows[id].status == RetryStatus(b.rows[id], tenants[b.rows[id].tenant], calls(id))
       else after.rows[id] == now.rows[id]
  }

  lemma Turn(b: Book, now: Book, ids: seq<nat>, tenants: map<nat, Tenant>, calls: nat -> Call, i: nat)
    returns (after: Book)
    requires Ready(b, now, ids, tenants, i) && i < |ids|
    ensures Ready(b, after, ids, tenants, i + 1)
    ensures Run(now, RetryOps(b, ids, tenants, calls, i)) == Run(after, RetryOps(b, ids, tenants, calls, i + 1))
    ensures TurnDone(b, now, after, ids[i], tenants, calls)
  {
    NextUntried(b, now, ids, i);
    if b.rows[ids[i]].tenant in tenants {
      TurnEnds(b, now, ids, tenants, calls, i);
      after := Step(now, OpAt(b, ids, tenants, calls, i));
    } else {
      after := now;
    }
  }

  /** The books between the turns of a bulk retry. */
  ghost predicate Trace(b: Book, books: seq<Book>, ids: seq<nat>, tenants: map<nat, Tenant>, calls: nat -> Call) {
    |books| == |ids| + 1 && books[0] == b
    && forall i | 0 <= i < |ids| :: TurnDone(b, books[i], books[i + 1], ids[i], tenants, calls)
  }

  /** The first i turns of it. */
  ghost predicate TraceTo(b: Book, books: seq<Book>, ids: seq<nat>, tenants: map<nat, Tenant>, calls: nat -> Call,
                          i: nat)
  {
    i <= |ids| && |books| == i + 1 && Trace(b, books, ids[..i], tenants, calls)
  }

  lemma TraceGrows(b: Book, books: seq<Book>, after: Book, ids: seq<nat>, tenants: map<nat, Tenant>,
                   calls: nat -> Call, i: nat)
    requires TraceTo(b, books, ids, tenants, calls, i) && i < |ids|
    requires TurnDone(b, books[i], after, ids[i], tenants, calls)
    ensures TraceTo(b, books + [after], ids, tenants, calls, i + 1)
  {
  }

  lemma RunIsTraced(b: Book, ids: seq<nat>, tenants: map<nat, Tenant>, calls: nat -> Call) returns (books: seq<Book>)
    requires Ready(b, b, ids, tenants, 0)
    ensures Trace(b, books, ids, tenants, calls)
    ensures books[|ids|] == Run(b, RetryOps(b, ids, tenants, calls, 0))
  {
    books := [b];
    var now := b;
    ghost var goal := Run(b, RetryOps(b, ids, tenants, calls, 0));
    for i := 0 to |ids|
      invariant TraceTo(b, books, ids, tenants, calls, i) && now == books[i]
      invariant Ready(b, now, ids, tenants, i)
      invariant goal == Run(now, RetryOps(b, ids, tenants, calls, i))
    {
      var after := Turn(b, now, ids, tenants, calls, i);
      TraceGrows(b, books, after, ids, tenants, calls, i);
      books, now := books + [after], after;
    }
    assert ids[..|ids|] == ids;
  }

  lemma {:induction false} TraceLeaves(b: Book, books: seq<Book>, ids: seq<nat>, tenants: map<nat, Tenant>,
                                       calls: nat -> Call, i: nat, n: nat, k: nat)
    requires Trace(b, books, ids, tenants, calls) && i <= n <= |ids| && k in books[i].rows
    requires forall j | i <= j < n && ids[j] == k :: k in b.rows && b.rows[k].tenant !in tenants
    ensures k in books[n].rows && books[n].rows[k] == books[i].rows[k]
  {
    if i < n {
      TraceLeaves(b, books, ids, tenants, calls, i, n - 1, k);
      assert TurnDone(b, books[n - 1], books[n], ids[n - 1], tenants, calls);
    }
  }

  /** How the bulk retry leaves a row: one that is sent ends as its partner call says, any other is unchanged. */
  predicate EndsRight(b: Book, after: Book, id: nat, tenant: Option<nat>, cutoff: Stamp, tenants: map<nat, Tenant>,
                      calls: nat -> Call)
    requires id in b.rows
  {
    && id in after.rows
    && if IsSent(b, id, tenant, cutoff, tenants)
       then after.rows[id].status == RetryStatus(b.rows[id], tenants[b.rows[id].tenant], calls(id))
       else after.rows[id] == b.rows[id]
  }

  /** Every row of the table after a bulk retry, told from the table before it: the due rows of known tenants, the
      200 with the smallest keys if there are more, are sent, and nothing else changes. */
  lemma EveryRowEnds(b: Book, tenant: Option<nat>, cutoff: Stamp, tenants: map<nat, Tenant>, calls: nat -> Call,
                     id: nat)
    requires BookInv(b) && TenantsOk(tenants) && id in b.rows
    ensures EndsRight(b, Run(b, RetryOps(b, Selected(b, tenant, cutoff), tenants, calls, 0)), id, tenant, cutoff,
                      tenants, calls)
  {
    var ids := Selected(b, tenant, cutoff);
    AllUntried(b, tenant, cutoff);
    SelectedAscend(b, tenant, cutoff);
    SelectedExactly(b, id, tenant, cutoff);
    var books := RunIsTraced(b, ids, tenants, calls);
    if IsSent(b, id, tenant, cutoff, tenants) {
      var j :| 0 <= j < |ids| && ids[j] == id;
      TraceLeaves(b, books, ids, tenants, calls, 0, j, id);
      assert TurnDone(b, books[j], books[j + 1], ids[j], tenants, calls);
      TraceLeaves(b, books, ids, tenants, calls, j + 1, |ids|, id);
    } else {
      forall j | 0 <= j < |ids| && ids[j] == id ensures b.rows[id].tenant !in tenants { assert ids[j] in ids; }
      TraceLeaves(b, books, ids, tenants, calls, 0, |ids|, id);
    }
  }

  /** How often a run sends a row. */
  function Sends(ops: seq<Op>, id: nat): nat {
    if ops == [] then 0 else (if ops[0].SubmitSaved? && ops[0].id == id then 1 else 0) + Sends(ops[1..], id)
  }

  lemma {:induction false} SendsOf(b: Book, ids: seq<nat>, tenants: map<nat, Tenant>, calls: nat -> Call, i: nat,
                                   id: nat)
    requires i <= |ids| && Ascending(ids)
    ensures Sends(RetryOps(b, ids, tenants, calls, i), id)
         == if id in ids[i..] && id in b.rows && b.rows[id].tenant in tenants then 1 else 0
    decreases |ids| - i
  {
    if i < |ids| {
      SendsOf(b, ids, tenants, calls, i + 1, id);
      assert ids[i..] == [ids[i]] + ids[i + 1..];
      if ids[i] == id {
        assert id !in ids[i + 1..];
      }
      if ids[i] in b.rows && b.rows[ids[i]].tenant in tenants {
        var op := OpAt(b, ids, tenants, calls, i);
        assert ([op] + RetryOps(b, ids, tenants, calls, i + 1))[1..] == RetryOps(b, ids, tenants, calls, i + 1);
      }
    }
  }

  /** The bulk retry sends each such row once, and no other. */
  lemma SentOnce(b: Book, tenant: Option<nat>, cutoff: Stamp, tenants: map<nat, Tenant>, calls: nat -> Call, id: nat)
    requires BookInv(b) && id in b.rows
    ensures Sends(RetryOps(b, Selected(b, tenant, cutoff), tenants, calls, 0), id)
         == if IsSent(b, id, tenant, cutoff, tenants) then 1 else 0
  {
    var ids := Selected(b, tenant, cutoff);
    SelectedAscend(b, tenant, cutoff);
    SelectedExactly(b, id, tenant, cutoff);
    SendsOf(b, ids, tenants, calls, 0, id);
    assert ids[0..] == ids;
  }

  // ---------- an offline invoice made a template ----------

  lemma RecordKeepsFlag(b: Book, t: Tenant, req: Request, target: Option<nat>, externalId: string, invNum: string,
                        ord: nat, local: nat, result: PartnerResult, now: DateTime, id: nat)
    requires target.Some? ==> target.value in b.rows
    requires id in b.rows && id < b.nextId && b.rows[id].isTemplate
    ensures var after := Apply(b, RecordChange(b, t, req, target, externalId, invNum, ord, local, result, now));
      id in after.rows && after.rows[id].isTemplate
  {
  }

  lemma SubmissionKeepsFlag(b: Book, t: Tenant, req: Request, w: World, now: DateTime, id: nat)
    requires id in b.rows && id < b.nextId && b.rows[id].isTemplate
    ensures var after := Apply(b, FiscalizeChange(b, t, req, w, now)); id in after.rows && after.rows[id].isTemplate
  {
    if CallsPartner(b, t, req) {
      var result, ord := Outcome(b, t, req, w), ChosenOrd(b, t, req);
      RecordKeepsFlag(b, t, req, Target(b, t, req, w), FinalId(b, t, req, w), StoredInvNum(t, req, ord, result),
                      ord, ChosenLocal(b, t, req), result, now, id);
    }
  }

  lemma StepKeepsFlag(b: Book, op: Op, id: nat)
    requires BookInv(b) && id in b.rows && HasIkof(b.rows[id]) && b.rows[id].isTemplate
    ensures id in Step(b, op).rows && Step(b, op).rows[id].isTemplate
  {
    assert RowInv(b.rows[id]);
    match op {
      case Submit(t, req, w, now) =>
        SubmittedStep(b, op);
        SubmissionKeepsFlag(b, t, req, w, now, id);
      case SubmitSaved(t, k, w, now) =>
        SubmittedStep(b, op);
        if k in b.rows { SubmissionKeepsFlag(b, t, SavedRequest(b.rows[k], now), w, now, id); }
      case FillNumbers(only) => FilledFrame(b, only, id);
      case _ => if b.rows[id].status.Fiscalized? { StepFreezes(b, op, id); } else { OtherStepKeepsRow(b, op, id); }
    }
  }

  lemma {:induction false} FlagForever(b: Book, ops: seq<Op>, id: nat)
    requires BookInv(b) && OpsOk(ops) && id in b.rows && HasIkof(b.rows[id]) && b.rows[id].isTemplate
    requires HarmlessRun(b, ops, id)
    ensures id in Run(b, ops).rows && Run(b, ops).rows[id].isTemplate
    decreases |ops|
  {
    if ops != [] {
      assert ops[0] in ops;
      StepKeepsFlag(b, ops[0], id);
      StepKeepsIkof(b, ops[0], id);
      StepKeepsInvariant(b, ops[0]);
      FlagForever(Step(b, ops[0]), ops[1..], id);
    }
  }

  /** Saving a schedule marks its template even when that is an offline invoice; from then on no bulk retry
      selects it, after any run that keeps its IKOF. */
  lemma ScheduledNeverRetried(b: Book, tenant: nat, schedule: Option<nat>, id: nat, ops: seq<Op>,
                              only: Option<nat>, cutoff: Stamp)
    requires BookInv(b) && OpsOk(ops) && Owns(b, tenant, id) && Waiting(b.rows[id])
    requires schedule.Some? ==> schedule.value < |b.schedules|
    requires HarmlessRun(Step(b, SaveSchedule(tenant, schedule, id)), ops, id)
    ensures id !in Selected(Run(Step(b, SaveSchedule(tenant, schedule, id)), ops), only, cutoff)
  {
    assert RowInv(b.rows[id]);
    var op := SaveSchedule(tenant, schedule, id);
    StepKeepsInvariant(b, op);
    FlagForever(Step(b, op), ops, id);
    SelectedRetriable(Run(Step(b, op), ops), only, cutoff);
  }

  lemma SelectedRetriable(b: Book, tenant: Option<nat>, cutoff: Stamp)
    ensures forall id | id in Selected(b, tenant, cutoff) :: id in b.rows && Retriable(b.rows[id], tenant, cutoff)
  {
  }
}
