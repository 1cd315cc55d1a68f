# A verified model of Sepko's fiscal core

Sepko issues fiscal invoices for Montenegrin firms: it numbers them, sends them to a fiscal partner, keeps the
identifiers that come back (the IKOF a seller computes, the JIKR the tax authority returns), retries what went out
offline, and runs a cash register, customer ledgers, invoice schedules and tenant licences beside it.  This project
models that core in Dafny 4.11 and proves properties of it.  `dafny verify dfyconfig.toml` checks everything.

The tables of one database are a `Book` (invoices, deposits, schedules' and payments' references).  Every operation of
`sepko/services.py` is a function from book to book and, in `InvoiceBook.dfy`, a class method over mutable fields proved
equal to it.  A run is any sequence of operations (`Runs.Op`): save, copy, edit, delete, submit, submit a saved row,
fill in local numbers, register a deposit, save, run or drop a schedule, record a payment.  The fiscal partner is a
`World` handed to each call: whether a certificate exists, what hash it computes, and what each of three posts answers.
Main theorems quantify over all books, runs and worlds.

| file | what it covers |
|---|---|
| `Requests`, `Invoices`, `Integrity`, `InvoiceBook` | requests and their checks, the operations on invoices, the invariant, the class |
| `Drafts`, `BulkRetry`, `Printed` | what drafts show and send, the bulk retry, the printed code |
| `Partner`, `Ikof`, `Retry` | the four adapters, when an IKOF is kept, offline invoices |
| `Runs`, `Isolation`, `Numbering`, `Consecutive`, `Backfill`, `Cash` | safety over whole runs, tenants kept apart, unique and consecutive numbers, the counter cache, the cash drawer |
| `Ledger`, `BankMatch` | ledger and year cards, matching bank payments |
| `Register`, `SameTaxes`, `Rounding`, `Money` | retail arithmetic, tax buckets, the two rounding modes, printed amounts |
| `InvoiceNumbers`, `Urls`, `QrUrl` | invoice numbers, percent-encoding, the verification URL |
| `Calendar`, `Schedules`, `Licences` | dates and windows, the daily jobs, extensions |
| `Suppliers` | the old supplier list merged into the customers |
| `RateLimit` | the request limit |
| `Text`, `Sorting`, `Picking`, `Wrappers` | strings, lists, optional values |

Units: money in cents; quantities, unit prices, line amounts and VAT rates in units of 10^-4; match scores in tenths;
rate-limit times in milliseconds.  `Decimal` values are exact; `quantize` without a mode is half-even, with
`ROUND_HALF_UP` half away from zero.  A datetime is its UTC instant plus the calendar fields of its own zone, because
the code compares instants but reads `.year` and `.month` from the given zone.

## What the code does less than it seems to

For each of these there are lemmas with the failing family or run and with the exact condition under which the expected
property holds.

- An IKOF already stored can be replaced by a later submission: when the partner can accept the request and the lookup
  by external id misses but the one by final id hits the row, or when the direct tax-authority channel finds an IKOF
  stored without a signature, and in either case the IKOF computed anew is another one (`Ikof.IkofKeptExactly`,
  `Ikof.SubmitReplacesIkof`).  To submit the same data again under the same hash is harmless (`Ikof.IkofKeptByData`).
- An offline invoice that is made the template of a schedule is never again retried by the bulk retry
  (`BulkRetry.ScheduledNeverRetried`).
- While an invoice waits for its JIKR, a client can submit other data under the same external id.  Editing such a row is
  refused, submitting is not: the IKOF is kept, the amounts are replaced, and later retries send the second request
  (`Retry.ResubmissionOverwrites`).  The row still stands for its first submission exactly when the requests agree
  (`Retry.ResubmissionExactly`, `Retry.ResubmissionReuses`).
- A registration the partner accepted is dropped exactly when the lookup by the final id hits a row fiscalized before
  (`Runs.RegistrationStoredExactly`).  Without an external id that is an invoice number given twice
  (`Runs.UnnamedStoredExactly`), as around New Year to a request whose own clock and UTC are in different years
  (`Runs.SecondUnnamedLost`, `Runs.NewYearLost`; the mock channel names its JIKR after the number, so there the stored
  row has it: `Runs.NewYearOnMock`).  An external id with white space around it is looked up untrimmed and
  stored trimmed, so a registered invoice reaches the partner again (`Runs.ResubmissionAnswered`).
- A draft is sent with the time of sending but keeps its old issue time.  Across a year boundary two drafts get the same
  order number (`Numbering.DraftsAcrossYears`, `Numbering.FourStepsRepeatNumber`), across a month boundary the same local
  number (`Numbering.DraftsAcrossMonths`, `Numbering.FourStepsRepeatLocal`).  Numbers stay unique throughout a run exactly
  when every submission meets free numbers (`Numbering.UniqueThroughoutExactly`, `Numbering.DraftUniqueExactly`,
  `Numbering.GivenNumberExactly`).  System-chosen numbers leave no gaps until a numbered row is edited or deleted that is
  not the last of its year (`Consecutive.YearsNumberedForever`, `Consecutive.LosingExactly`).  A retry of such a draft
  rebuilds other data than the IKOF was computed over, unless the two times agree (`Retry.DraftRetryAgrees`).
- A copy keeps the payload of its source, order number included, so a copy of a retried row repeats its number
  (`Numbering.CopyRepeatsNumber`, exactly when: `Numbering.CopyUniqueExactly`).
- In December the day window runs to 1 January, so the summary of a day shows the rest of the month
  (`Cash.DecemberDrawer`) and back-dated deposits leave two opening deposits on one day
  (`Cash.DecemberTwoOpenings`); a deposit keeps at most one opening a day exactly when it finds its own day's
  (`Cash.OneOpeningKept`).
- `format_qty`, and `format_amount` without decimals, print 1234 as `1.234`, which `parse_amount` reads as 1.234
  (`Money.WholeRoundTrip`, `Money.QtyRoundTrip` give the exact ranges).
- The older local number 1-1-N/YYYY is documented to name no month but is read as one of January
  (`InvoiceNumbers.OlderFormExactly`).
- A net recomputed from the 4-decimal unit price can miss the line net by a cent (`Register.NetMissesBeyondHundred`); for
  each net and quantity `Register.NetRecoveredExactly` says when, and a quantity gives back every net exactly up to 100
  (`Register.QuantityRecoversExactly`).  VAT stays non-negative for every quantity (`Register.VatNotNegative`).
- Payments without a date are missing from a customer's first year card: two consecutive cards join exactly when these
  payments cancel out, an earlier dated year exists, or the first of the two years is empty
  (`Ledger.CustomerYearsJoinExactly`).
- A schedule whose mail raises is not recorded as run and makes a second invoice the same day
  (`Schedules.SecondRunSameDay`).
- A scanned identifier holding a percent sign before two hexadecimal digits is unquoted twice and lost
  (`QrUrl.ScanRecovers`); a production URL whose query contains "efitest" is stored under the test portal.
- The merge of suppliers into customers is described as a one-off but is called at every start.  After one that went
  through, the next changes nothing if every supplier can be found again; a supplier with more than 32 characters that no
  customer has in full is inserted a second time, which the unique constraint refuses, and the program does not start
  (`Suppliers.MergeTwiceExactly`; only a database that does not enforce the column width can hold such a PIB).  The first
  merge is refused exactly when such a supplier finds its cut PIB taken (`Suppliers.MergeFitsExactly`).  A customer
  switched off by hand comes back exactly while an active supplier is that customer (`Suppliers.ActiveAfterMerge`).

## Model

| member | source | states |
|---|---|---|
| Runs.RunKeepsInvariant | sepko/services.py:175-353 | In every run of all operations: JIKR present exactly on fiscalized rows, pending rows carry an IKOF and no JIKR, drafts carry no fiscal identifier, every sent row has net+vat within 0.05 of gross, a real EFI type and a fitting payment method, and external ids are unique per tenant. |
| Runs.StepKeepsInvariant | sepko/services.py:356-575 | Each single operation, whatever the partner does, keeps that invariant. |
| Runs.FiscalizedForever | sepko/services.py:428-432 | A fiscalized row is never deleted or changed in any run; only a missing local number may be filled in. |
| Runs.SentRowsChecked | sepko/services.py:44-58 | After every run each row that went to the partner shows the kind, payment method and totals of its payload, whose lines sum to the gross and whose totals add up, each within 0.05, with a buyer's PIB if it is non-cash, a payment method of its kind, and on credit notes the IKOF referred to. |
| Requests.RefusalExactly | sepko/services.py:44-58 | Exactly the requests with these properties pass the checks made before anything is sent. |
| Runs.ReferencesForever | sepko/services.py:441-465 | Whatever schedules are saved, run and dropped, payments recorded and invoices deleted in a run: no schedule and no payment ever refers to an invoice that is not there. |
| Runs.RegistrationStoredExactly | sepko/services.py:240-336 | An accepted registration leaves the table unchanged exactly when the row at its final id was fiscalized before; otherwise that row, or the new one, carries its JIKR, IKOF, request and totals. |
| Runs.SubmissionEnds | sepko/services.py:308-336 | A submission that reaches the partner and hits no fiscalized row leaves its row fiscalized exactly when the partner registered it, pending exactly when it went offline, and failed otherwise, told from the partner's answers; the row shows the reported error unless it is fiscalized. |
| Runs.UnnamedStoredExactly | sepko/services.py:240-256 | Without an external id an accepted registration is lost exactly when its invoice number is the id of a fiscalized row. |
| Runs.SecondUnnamedLost | sepko/services.py:215-256 | The same request without an id, issued in different years by its own clock and by UTC, gets its number twice; both submissions are accepted and the second changes nothing. |
| Runs.NewYearLost | sepko/services.py:215-256 | A run from the empty table on any remote channel, with the partner giving each submission a JIKR of its own: both are registered and the second JIKR is on no row. |
| Runs.NewYearOnMock | sepko/partner.py:199-222 | On the mock channel the second submission of that run brings the JIKR the row already carries. |
| Runs.RegistrationIsStored | sepko/services.py:240-336 | After the partner accepted a submission, looking its final external id up finds some fiscalized row; whether it is this registration says RegistrationStoredExactly. |
| Runs.ResubmissionAnswered | sepko/services.py:201-210 | Submitting the id of a fiscalized row changes nothing and shows that row; the partner is called again exactly when the id was not given trimmed. |
| Runs.FiscalizedAnswersForever | sepko/services.py:201-210 | After any further run a fiscalized row still answers its external id without a partner call. |
| Runs.AtMostOneRegistration | sepko/services.py:201-336 | Over any run, once a submission was registered no later submission that gives its final id, trimmed, reaches the partner; the fiscalized row of that id is shown.  Submissions that give no id are outside it (SecondUnnamedLost). |
| Integrity.FiscalizeGuarded | sepko/services.py:256-336 | A submission never replaces or removes a fiscalized row and never moves a row to another tenant. |
| Integrity.FiscalizeWellFormed | sepko/services.py:238-336 | Whatever the adapter returns, the row written is well formed and its external id is not another row's. |
| Integrity.FindIs | sepko/services.py:202-206 | With unique ids the lookup by external id finds exactly the row that has it. |
| Integrity.ReferencesKept | sepko/services.py:441-465 | A deletion that passes the guards unlinks nothing that still points to the row. |
| InvoiceService.InvoiceBook.FiscalizeInvoice | sepko/services.py:175-353 | The imperative submission moves the tables to the specified next book and answers with the stored row or the refusal. |
| InvoiceService.InvoiceBook.Record | sepko/services.py:256-336 | The write-back after the partner's answer: insert, overwrite, or leave a fiscalized row alone. |
| InvoiceService.InvoiceBook.SaveDraft | sepko/services.py:356-425 | Stores a draft unless its external id is taken. |
| InvoiceService.InvoiceBook.UpdateDraft | sepko/services.py:504-575 | Succeeds exactly on the tenant's editable rows and changes only that row. |
| InvoiceService.InvoiceBook.DeleteDraft | sepko/services.py:435-474 | Reports success exactly when the row existed and is gone. |
| InvoiceService.InvoiceBook.FiscalizeSaved | sepko/services.py:578-650 | A saved row is sent as the rebuilt request; a fiscalized one is only shown. |
| InvoiceService.InvoiceBook.RetryOffline | sepko/services.py:653-695 | Of every row of the table: the pending ones with an IKOF and no JIKR, no templates, of the tenant asked for, issued at the cutoff or later, whose tenant is known, the 200 with the smallest keys if there are more, end as their partner call says; every other row is unchanged.  Done, failed and skipped count the selected rows that end fiscalized, failed and pending. |
| BulkRetry.EveryRowEnds | sepko/services.py:653-695 | The same of the run of single retries: which rows are sent, told from the table before, how each ends, and that nothing else changes. |
| BulkRetry.SentOnce | sepko/services.py:653-695 | The bulk retry sends each such row once and no other. |
| BulkRetry.ScheduledNeverRetried | sepko/web.py:2204-2205 | Saving a schedule whose template is an offline invoice marks it, and no bulk retry selects it again, after any run that keeps its IKOF. |
| InvoiceService.InvoiceBook.CopyInvoices | sepko/services.py:736-803 | When it goes through, one copy resembling its source for each row of the list that the tenant had, in the list's order, and every existing row as it was; when a generated id is taken, exactly then, nothing is stored. |
| Drafts.SaveExactly | sepko/services.py:356-425 | A draft is stored exactly when its id is free, as one new row that shows the request's lines, totals, buyer, currency, notes and payment, and no fiscal identifier. |
| Drafts.EditExactly | sepko/services.py:504-575 | An edit goes through exactly on the tenant's row that is neither fiscalized nor under an IKOF, makes it a draft that shows the new request under the old id, and leaves every other row. |
| Drafts.DeleteExactly | sepko/services.py:435-474 | A deletion goes through exactly on such a row that is no schedule's template, and leaves every other row. |
| Drafts.CopyExactly | sepko/services.py:736-803 | A copy is stored exactly when the tenant has the source and the id made for it is free, as a draft that shows what the source shows and carries its payload. |
| Drafts.SavedSends | sepko/services.py:578-638 | Sending a saved draft sends the goods, money, buyer and payment it was saved with. |
| Drafts.EditedSends | sepko/services.py:578-638 | Sending a row after an edit sends the edited request, whatever the row said before. |
| Drafts.CopySends | sepko/services.py:736-803 | Sending a copy sends what its source would send, under the copy's id and as of now. |
| Drafts.SubmissionShows | sepko/services.py:257-306 | A submission leaves its kind, payment method, totals and payload on the row; a reference given replaces the row's and one not given leaves it; a new row also takes time, lines, buyer, currency and notes, a row written over keeps its own. |
| InvoiceService.InvoiceBook.BackfillLocalNumbers | sepko/services.py:104-138 | Fills the missing local numbers of the eligible rows and counts them. |
| InvoiceService.InvoiceBook.RegisterCashDeposit | sepko/services.py:887-969 | Appends the deposit, supersedes a replaced opening, or refuses and leaves the table. |
| InvoiceService.InvoiceBook.CashDaySummary | sepko/services.py:829-884 | Opening, cash sales, withdrawals, the drawer, whether there is an opening, and the number of the day's fiscalized invoices. |
| Partner.PostJson | sepko/partner.py:141-180 | The retry loop stops at the first answer below 500 and otherwise makes all three tries. |
| Partner.OfflineMeansNoAnswer | sepko/partner.py:141-180 | A post counts as unavailable exactly when no try got an answer below 500, and as delivered exactly when the first such answer is below 400. |
| Partner.OfflineExactly | sepko/partner.py:330-428 | An invoice goes offline exactly when its amount may be fiscalized, it was posted under an IKOF, and either no try got an answer below 500 or the first one that did is good but lacks a JIKR. |
| Partner.OkExactly | sepko/extfisk.py:440-482 | An adapter reports success exactly when the amount may be fiscalized, the channel that needs a certificate has one, and the partner agreed: Navira with a JIKR, EXTFISK without a fault, the tax authority with a JIKR and without a fault; the mock channel always. |
| Partner.SuccessCarries | sepko/partner.py:395-428 | A success carries the partner's JIKR (TEST if EXTFISK names none) and reference, our order number and, unless Navira names others, our IKOF and InvNum. |
| Partner.ResultPrints | sepko/partner.py:223-233 | The QR code an adapter builds shows the tenant, the IKOF it returns, and the time, number and gross of the request; whatever is registered or goes offline under an IKOF has a code. |
| Partner.AdapterContract | sepko/partner.py:279-428 | In every world each adapter returns success with a JIKR or failure without one, never both success and offline, offline only with a non-empty normalized IKOF, and the order number it was given. |
| Partner.AdapterNumber | sepko/partner.py:279-428 | The returned InvNum is trimmed and non-empty, and ours when the partner echoes. |
| Partner.OfflineNumber | sepko/partner.py:324-352 | An invoice that goes offline keeps our own InvNum and ordinal. |
| Partner.MockJikrExactly | sepko/partner.py:222-222 | On the mock channel one number of a tenant gets the same JIKR twice if and only if the external ids are the same, the number standing in for a missing one. |
| Partner.ReuseKept | sepko/extfisk.py:254-284 | An IKOF handed back to an adapter comes back unchanged if the partner echoes and, on the tax authority's channel, a signature is stored with it. |
| Partner.UnsignedIkof | sepko/partner.py:203-221 | Without a certificate the mock and EXTFISK channels take the digest for an IKOF, Navira never goes offline, and the tax authority's channel registers nothing. |
| Ikof.IkofKeptExactly | sepko/services.py:222-254 | For every waiting row, every submission and every certificate or lack of one: all echoing answers keep the row's IKOF if and only if the submission cannot be accepted, or neither collides with the row nor loses its signature, or computes the same IKOF again. |
| Ikof.IkofKeptByData | sepko/signing.py:119-126 | With one hash for all calls, a submission that collides or loses the signature keeps an IKOF that is the hash of some data if and only if its own data have the same hash. |
| Ikof.NewRowSigned | sepko/signing.py:119-126 | A new row stored by a signed submission, registered or offline, carries the hash of the submitted data. |
| Ikof.NewRowSignature | sepko/signing.py:122-126 | Such a row also carries the signature. |
| Ikof.SignatureKept | sepko/services.py:217-229 | A submission that finds the waiting row by its id leaves its signature on it, whatever the partner answers, so the next retry can reuse the IKOF too. |
| Ikof.SignedForever | sepko/services.py:222-336 | It carries it after every run without a submission that replaces it. |
| Ikof.IkofForever | sepko/services.py:222-336 | In every run in which no submission of another IKOF collides with the row or loses its signature, a stored IKOF is never changed or cleared and its row never deleted. |
| Ikof.SavedNeverCollides | sepko/services.py:578-595 | Sending a saved row is always found by its own external id, so it hits no other row. |
| Ikof.SubmitReplacesIkof | sepko/services.py:222-254 | The failing direction: with a collision or a lost signature a submission that computes another IKOF replaces the stored one when an echoing partner accepts it. |
| Retry.FirstOffline | sepko/services.py:308-336 | A submission stored without an answer waits with the request's time, number, totals and lines. |
| Retry.SilenceIsOffline | sepko/services.py:308-333 | In any table, every request that can be sent and finds no row is stored as pending with its computed IKOF when no post of its channel is answered; the mock channel posts nothing. |
| Retry.RetryRequest | sepko/services.py:578-638 | At any later time the request rebuilt from such a row is the first one, with id and number filled in, so the IKOF is computed over the same data. |
| Retry.SignedRetryHarmless | sepko/services.py:578-638 | A retry signed with the hash of the first submission never replaces the IKOF, with or without a stored signature. |
| Retry.RetryStep | sepko/services.py:641-650 | One retry brings the JIKR for the same IKOF or leaves the row waiting for it. |
| Retry.OfflineRun | sepko/services.py:653-695 | After any run with any number of failed retries and agreeing resubmissions, in which nobody submits other data under the row's id and the partner echoes, the row still waits for its first submission or is fiscalized under the same IKOF, number, time, totals and lines. |
| Retry.ResubmissionExactly | sepko/services.py:202-336 | Submitting a waiting row's id again: without a JIKR the row still waits for its first submission exactly when the requests agree; with one, it is settled for it exactly when totals and number agree. |
| Retry.ResubmissionReuses | sepko/services.py:222-236 | Such a submission is sent with the stored IKOF, whose data are the same exactly when time, total and number agree. |
| Retry.ResubmissionOverwrites | sepko/services.py:294-333 | Any request that can be sent, submitted under a waiting row's id and left unanswered, keeps the IKOF, replaces the amounts, and is what every later retry sends. |
| Retry.DraftRetryAgrees | sepko/services.py:589-595 | For a row that was a draft first, the retry's IKOF data equals the first submission's if and only if the row's issue time is the time of sending. |
| Numbering.UniqueThroughoutExactly | sepko/services.py:61-101 | Over any run, in any time zones, with numbers from the system, callers, payloads or copies, order numbers in a year and local numbers in a month stay unique all the way if and only if every submission meets free numbers around its row's issue time; missing numbers are to be filled in only while all issue times are in UTC. |
| Numbering.StepUniqueExactly | sepko/services.py:212-220 | Only submissions can break uniqueness, and one does exactly when its numbers are taken. |
| Numbering.DraftUniqueExactly | sepko/services.py:589-590 | Sending a draft keeps numbers unique if and only if nobody has its order number in the year, nor (templates aside) its local number in the month, of the draft's own issue time. |
| Numbering.DraftInMonthFree | sepko/services.py:61-101 | A draft without a carried number that is sent in its issue month always meets free numbers. |
| Numbering.GivenNumberExactly | sepko/services.py:212-220 | A new invoice under a number given by the caller keeps numbers unique if and only if nobody has that number in its year. |
| Numbering.NumbersUniqueForever | sepko/services.py:61-101 | In every run with UTC times, system-chosen numbers and rows sent in their issue month, no two rows share an order number in a year nor, templates aside, a local number in a month. |
| Numbering.NumberedRunIsFree | sepko/services.py:61-101 | In such runs every submission meets free numbers, so numbers are unique at every step. |
| Numbering.FilledKeepsNumInv | sepko/services.py:104-138 | Filling in missing local numbers keeps all numbers unique. |
| Isolation.StepIsolated | sepko/services.py:175-353 | An operation of another tenant leaves every invoice of this one as it is, and adds and removes none, though all share the tables. |
| Isolation.RunIsolated | sepko/services.py:175-353 | So does every run of other tenants' operations. |
| Isolation.SubmissionUndisturbed | sepko/services.py:60-101 | Whatever run of others comes before it, a submission gets the same numbers, the same IKOF to reuse and answer, and writes the same row. |
| Isolation.DrawerUndisturbed | sepko/services.py:829-884 | No run of other tenants' operations moves a tenant's cash drawer of any day. |
| Consecutive.NumbersFollow | sepko/services.py:61-101 | A submission without numbers of its own gets the order number that follows the tenant's last of the year, and the local number that follows the last of the month, templates aside: 1, or one whose predecessor is there. |
| Consecutive.YearsNumberedForever | sepko/services.py:61-74 | After every run from the empty table with system-chosen numbers, in which no row with a number is edited, deleted or overwritten, each tenant's order numbers of a year are exactly 1 to the number of its numbered rows. |
| Consecutive.LosingExactly | sepko/services.py:435-575 | Editing or deleting a row with a number leaves no gap if and only if its order number was the last of its year. |
| Numbering.DraftsAcrossYears | sepko/services.py:589-590 | For any two drafts of another year than the one they are sent in, sending both yields the same order number twice in one year. |
| Numbering.DraftsAcrossMonths | sepko/services.py:589-590 | For any two drafts, templates aside, of one month sent in another, sending both yields the same local number twice in one month. |
| Numbering.FourStepsRepeatNumber | sepko/services.py:294-311 | From the empty table: saving any sendable request twice and sending both drafts in another year repeats an order number. |
| Numbering.FourStepsRepeatLocal | sepko/services.py:294-311 | From the empty table: saving any sendable request twice and sending both drafts in another month repeats a local number. |
| Numbering.CopyUniqueExactly | sepko/services.py:736-803 | A copy of a row whose payload carries a number keeps numbers unique if and only if nobody has that number in the year of copying, nor the next local number of the month of sending in the month of copying. |
| Numbering.CopyRepeatsNumber | sepko/services.py:736-803 | A copy, made and sent, of a row that carries its own number in its payload repeats the number in the same year. |
| Backfill.OrderCorrect | sepko/services.py:106-113 | The rows processed are exactly the eligible ones, once each, in the query's order. |
| Backfill.AssignNumbers | sepko/services.py:114-138 | The loop with its counter dictionary computes the specified numbering and counts every row. |
| Backfill.CachedIsFresh | sepko/services.py:114-136 | With UTC times the cached counters give each row the number a fresh maximum would give at that point. |
| Backfill.FreshBlock | sepko/services.py:114-136 | The i-th row gets the old maximum of its month plus its rank in that month: a consecutive block. |
| Backfill.BlockIncreases | sepko/services.py:114-136 | Later rows of a month get strictly larger numbers. |
| Backfill.FilledFrame | sepko/services.py:106-136 | Existing numbers and all other fields stay; a filled number is positive. |
| Backfill.FilledExactly | sepko/services.py:104-138 | Exactly the invoices, templates aside, of the tenant asked for with an order number and no local number get one; every other row stays. |
| Cash.OpeningFrozen | sepko/services.py:898-931 | No deposit of any date touches a registered INITIAL whose day has a fiscalized invoice. |
| Cash.RefusedExactly | sepko/services.py:898-915 | A deposit is refused exactly when it is an INITIAL, one is registered in the days it looks at (its own, in December also the rest of the month), and an invoice of these days is fiscalized. |
| Cash.AcceptedExactly | sepko/partner.py:430-478 | A deposit is registered exactly on the mock channel or on a configured Navira channel that gave a good answer. |
| Cash.BookedLast | sepko/services.py:916-969 | A deposit not refused is booked last, as it was given; before it at most one replaced INITIAL changes its status. |
| Cash.OneOpeningKept | sepko/services.py:898-949 | An accepted INITIAL keeps at most one registered opening a day if and only if the window's first opening is the day's own. |
| Cash.OneOpeningOtherwise | sepko/services.py:898-949 | Withdrawals, failed and refused deposits always keep it. |
| Cash.OwnDayFound | sepko/services.py:817-826 | From January to November, or with nothing later in December, the window finds the day's own opening. |
| Cash.DecemberTwoOpenings | sepko/services.py:817-826 | Four accepted openings in December, back-dated, leave two registered on one day. |
| Cash.DayDeposits | sepko/services.py:829-860 | The loop of the day summary computes the opening amount, the withdrawals and whether there is an opening. |
| Cash.DrawerAfterDeposit | sepko/services.py:829-884 | Outside December a deposit moves the drawer of its own day, and no other, by what it brings in. |
| Cash.DecemberDrawer | sepko/services.py:829-884 | For a December day the summary shows the rest of the month: the last opening entered for that day or a later one, and the cash sales less withdrawals of every day up to the 31st. |
| Runs.OpeningFrozenForever | sepko/services.py:898-931 | Once a day has a registered INITIAL and a fiscalized invoice, that INITIAL stays registered with its amount through every run. |
| Runs.OneOpeningForever | sepko/services.py:817-826 | With deposits in order no day ever has two registered INITIALs. |
| Runs.DrawerIsKeptBalance | sepko/services.py:829-884 | Over any run, outside December, the drawer computed from the tables moves by exactly the sum of what each operation brought in. |
| Calendar.AddMonthsLands | sepko/licenses.py:54-63 | The result lies exactly that many calendar months on, on the same day or the month's last. |
| Calendar.AddMonthsFails | sepko/licenses.py:54-63 | It raises exactly for negative months and past the year 9999. |
| Calendar.AddMonthsMonotone | sepko/licenses.py:54-63 | A later start never gives an earlier result. |
| Calendar.AddMonthsStrict | sepko/licenses.py:54-63 | More months give a strictly later date. |
| Calendar.AddMonthsSplit | sepko/licenses.py:54-63 | Two steps stay in the month of one step, are never later and at most three days earlier, and agree if and only if the intermediate month is long enough. |
| Calendar.DayWindow | sepko/services.py:817-826 | The day window is the day outside December and the rest of the month in December. |
| Calendar.YearWindow | sepko/services.py:61-74 | The year window holds exactly the instants of that UTC year. |
| Calendar.MonthWindow | sepko/services.py:77-83 | The month window holds exactly the instants of that UTC month. |
| Calendar.OrdinalCounts | sepko/license_invoice.py:592-674 | Days are counted one by one: each has the number after the day before. |
| Licences.Tenant.Extend | sepko/license_invoice.py:421-430 | The new deadline, licence kind, start and standing of a tenant; an error changes nothing. |
| Licences.ExtensionAdvances | sepko/licenses.py:66-75 | One extension of at least a month lies strictly past today and the old deadline, exactly the months bought after the later of them. |
| Licences.DeadlineMovesOn | sepko/license_invoice.py:421-430 | In any run of purchases, each successful one leaves the deadline for ever strictly past its day and the deadline it found. |
| Licences.MonthsBoughtAreKept | sepko/license_invoice.py:421-430 | No month bought is lost; without a lapse the deadline advances by exactly the months bought. |
| Licences.PiecesNeverLater | sepko/licenses.py:54-75 | Buying the same months in any number of pieces ends in the same month, never later, at most three days earlier, and equal for start days up to 28. |
| Licences.ProformaJob.RunDue | sepko/license_invoice.py:592-674 | The job files the specified documents, counts exactly the proformas that went out, and counts every expiring licence once. |
| Licences.PassSends | sepko/license_invoice.py:592-674 | After a pass a tenant's proforma for its deadline is out exactly when it was before, or the licence is expiring, has a contact and is delivered. |
| Licences.ExpiringExactly | sepko/license_invoice.py:592-640 | A licence is expiring exactly when it is a paid one, not suspended, and ends within 29 days or is over. |
| Licences.OneProformaForever | sepko/license_invoice.py:532-545 | In every run of jobs and tenant changes, each deadline of each tenant gets at most one proforma that goes out, and none disappears. |
| Schedules.ParseDays | sepko/schedules.py:34-46 | The loop returns the named days 1 to 31, ascending and once each, or the first. |
| Schedules.DaysRoundTrip | sepko/schedules.py:34-50 | Writing days and reading them back gives exactly the days 1 to 31 among them, or the first. |
| Schedules.EffectiveDays | sepko/schedules.py:85-96 | Every month has at least one run day, and all lie within the month. |
| Schedules.RunDayExactly | sepko/schedules.py:85-96 | A schedule runs on a day exactly when it names it, or names one past the end of a month of which this is the last day. |
| Schedules.Scheduler.RunSchedule | sepko/schedules.py:167-307 | One run: the row's recorded day and error, the invoice made, and the report, for every combination of active, due, forced, template, registration and mail. |
| Schedules.RunRecorded | sepko/schedules.py:182-286 | The error of a schedule reached on a due day is clear if and only if the invoice was made, registered if asked and mailed if asked; it names the mail before the registration; the day counts as run if and only if the template was found and nothing raised. |
| Schedules.Scheduler.RunDue | sepko/schedules.py:310-347 | The daily pass treats every row on its own, counts every active schedule once, and makes between `ran` and `ran + failed` invoices. |
| Schedules.PassMakesOne | sepko/schedules.py:310-347 | One pass makes at most one invoice for a schedule, and exactly when its own row and outcome call for it. |
| Schedules.SecondRunSameDay | sepko/schedules.py:288-292 | A second run on the day of an invoice makes another if and only if the first was broken off by its mail. |
| Schedules.OncePerDay | sepko/schedules.py:310-347 | In any history of unforced runs with days never going back and mail never raising, each day gets exactly one invoice if active, due, not yet done and the template was found in some run of the day; else none. |
| Schedules.MonthlyInvoices | sepko/schedules.py:85-96 | A month with a run on each due day gets exactly as many invoices as distinct days after cutting to its length: at least one. |
| Schedules.SchedulesIndependent | sepko/schedules.py:310-347 | After any passes each schedule's row and invoices are those of its own runs alone. |
| Schedules.PeriodsTile | sepko/schedules.py:62-82 | Billing periods of consecutive months adjoin without gap or overlap and hold exactly one calendar month. |
| Ledger.CustomerLedger | sepko/finansije.py:361-435 | The loop yields the sorted events with their running balance. |
| Ledger.LedgerWellKept | sepko/finansije.py:417-434 | The ledger is sorted by date, loses and adds no event, and each balance continues the one before. |
| Ledger.BookingOrder | sepko/finansije.py:417-434 | The ledger shows every event once, with its date, kind and amounts: by date, on one day invoices before payments, then by id. |
| Ledger.OwedIsInvoicedMinusPaid | sepko/finansije.py:438-453 | What a customer owes is what was invoiced minus what was paid. |
| Ledger.SummaryIs | sepko/finansije.py:438-453 | The summary shows the sum of all invoiced amounts, the sum of all payments, the difference, and the number of rows. |
| Ledger.LedgerIsProper | sepko/finansije.py:361-435 | The ledger of any dated events is sorted, dated and continuous, as the card theorems ask. |
| Ledger.FilterLedgerYear | sepko/kartica_export.py:62-99 | The loop yields the year card: the opening row and the year's rows with the balance kept anew. |
| Ledger.CardReproducesBalances | sepko/kartica_export.py:88-98 | On a sorted ledger with dated rows, the card's recomputed balances are exactly the ledger's own. |
| Ledger.ClosingIsNextOpening | sepko/kartica_export.py:70-75 | A year closes where the next one opens when no row lies between them. |
| Ledger.YearClosesWhereNextOpens | sepko/kartica_export.py:70-75 | closing(n) = opening(n+1) for all years, empty ones included. |
| Ledger.CustomerYearsJoinExactly | sepko/kartica_export.py:62-99 | For any customer's events, dated or without a date: closing(n) = opening(n+1) if and only if the undated amounts cancel out, an earlier dated year exists, or year n is empty. |
| Ledger.CardTurnoverBalances | sepko/kartica_export.py:102-132 | On every card the turnover columns are the year's debits and credits, total debit minus total credit is the final balance, and the opening columns are the signed split of the carried balance. |
| BankMatch.KeepBest | sepko/bank_match.py:292-298 | One entry per customer, each with that customer's best score, none missing. |
| BankMatch.Propose | sepko/bank_match.py:199-341 | Without a remembered payer a proposal is made if and only if some customer has a candidate of at least 88 with every candidate of any other customer at least 8 below, names that customer and best score, and is applied unasked exactly from 100 on. |
| BankMatch.LeadsExactly | sepko/bank_match.py:292-314 | A customer leads by best scores exactly when one of its candidates stands out so among all candidates. |
| BankMatch.OneLeader | sepko/bank_match.py:311-314 | At most one customer can lead. |
| BankMatch.Matcher.AutoMatch | sepko/bank_match.py:422-445 | Exactly the unmatched positive transactions of the list with a payee are matched, one payment of the whole amount each, to the customer remembered for the payer or else the one that leads with at least 100; what the tenant's customers owe by their ledgers falls by exactly the sum. |
| BankMatch.PaymentLowers | sepko/finansije.py:395-453 | A payment lowers what its own customer's ledger shows as owed by its amount, and nobody else's. |
| BankMatch.BillRaises | sepko/finansije.py:361-453 | An invoice raises what its own customer's ledger shows as owed by its amount, and nobody else's. |
| BankMatch.OnePaymentEach | sepko/bank_match.py:343-399 | No transaction gets two payments. |
| BankMatch.ListOrderIrrelevant | sepko/bank_match.py:422-445 | Order and repetitions of the list do not change the outcome. |
| BankMatch.RerunAddsNothing | sepko/bank_match.py:424-426 | Matching the same list again with the same proposals makes no payment and changes no row. |
| Register.CollectLines | sepko/web_pos.py:219-264 | The loop over the form collects the lines of the basket, or fails exactly when the schema refuses a line's rate or the length of an amount. |
| Register.SumTotals | sepko/web_pos.py:269-277 | The totals are the sums over the lines as stored, with vat = gross - net. |
| Register.BuildRequest | sepko/web_pos.py:205-290 | A request is built exactly for a cash method, an opened drawer, at least one line with quantity and price, rates from 0 to 100, and at most 500 lines and amounts within the schema's limits.  It has one line for each basket line with positive quantity and price, in order, with that line's code, name, quantity and rate, the gross nearest to price times quantity, and the net of that gross; its totals are the sums over the lines; time and payment method are those given. |
| Register.LineNetNearest | sepko/web_pos.py:250-252 | The line net is the nearest cent to gross / (1 + rate), ties up. |
| Register.NetClose | sepko/web_pos.py:250-253 | For every quantity the net recomputed from the 4-decimal unit price is within 0.005 + 0.00005*qty of the line net. |
| Register.NetRecovered | sepko/web_pos.py:250-275 | Up to a quantity of 100 it is the line net to the cent. |
| Register.NetRecoveredExactly | sepko/web_pos.py:250-275 | For every net and quantity the recomputed net is the line net if and only if what rounding the unit price drops is at most, or what it adds is below, half a cent. |
| Register.QuantityRecoversExactly | sepko/web_pos.py:250-275 | A quantity gives back every net if and only if it is at most 100. |
| Register.NetMissesBeyondHundred | sepko/web_pos.py:250-275 | An instance: 150 pieces at 0.01 recompute to a net one cent off. |
| Register.VatNotNegative | sepko/web_pos.py:250-277 | No line of any quantity and rate has negative VAT. |
| Register.RegisterRequestPasses | sepko/schemas.py:90-109 | Every request the register builds adds up exactly, has no negative total, passes validate_totals, and passes the schema exactly within its size limits. |
| SameTaxes.BuildSameTaxes | sepko/efi.py:508-547 | The loop over the dictionary returns a bucket for exactly the keys some line fits, each with the number of the lines that fit it and the sums of their rounded nets and grosses. |
| SameTaxes.SharedExactly | sepko/efi.py:498-515 | Two lines share a bucket if and only if their rates round half-even to the same two decimals and both name the same exemption class or none; their rates then differ by at most 0.01. |
| SameTaxes.KeyFits | sepko/efi.py:498-515 | A line's bucket says its rate to two decimals, ties to even, and the exemption class its code names: EX and digits, whatever the case and white space around. |
| SameTaxes.CodeOfClass | sepko/efi.py:498-505 | For every class number, EX and its digits name it, in upper or lower case. |
| SameTaxes.LineAmounts | sepko/efi.py:516-520 | Net and gross of a line are unit price times quantity, and its gross, to the nearest cent, ties to even. |
| SameTaxes.BucketBalances | sepko/efi.py:519-535 | In every bucket net plus VAT is gross. |
| SameTaxes.BucketsConserve | sepko/efi.py:508-547 | Over all buckets item counts sum to the number of lines, and nets, VAT and grosses to those of all the lines. |
| SameTaxes.PermutedLinesSameTaxes | sepko/efi.py:508-547 | The buckets do not depend on the order of the lines. |
| SameTaxes.ItemAndBucketNets | sepko/extfisk.py:203-212 | The item net of the EXTFISK message and the SameTaxes net of the same line differ by at most a cent, and exactly on half-cent ties whose half-up result is odd. |
| SameTaxes.ItemAndBucketVat | sepko/extfisk.py:209-212 | For whole-cent line amounts the VAT differs by the same cent the other way. |
| Rounding.ModesDifferOnlyOnTies | sepko/efi.py:519-524 | Half-up and half-even differ by at most one unit, and exactly on ties whose half-up result is odd. |
| Money.PeelGroups | sepko/money.py:42-45 | The loop that peels three digits at a time yields the digit groups from the right. |
| Money.FormatParseRoundTrip | sepko/money.py:28-91 | Printing with at least one decimal and reading back is rounding half-up to that many places. |
| Money.WholeRoundTrip | sepko/money.py:28-91 | Without decimals the value survives exactly below 1000 and above 999999. |
| Money.QtyRoundTrip | sepko/money.py:126-133 | A printed quantity survives exactly when it has a fraction or its size is outside 1000 to 999999. |
| Money.QtyTrimmed | sepko/money.py:126-133 | A quantity is printed with decimals if and only if it has some once rounded, and the last one is not a zero. |
| Money.NonnegRoundTrip | sepko/money.py:94-106 | A printed amount with at least one decimal is accepted exactly when its rounded value lies between zero and the maximum, and is then that value. |
| Money.ReadPoint | sepko/money.py:53-91 | Plain digits with a decimal point are read as that number. |
| InvoiceNumbers.InvNumInjective | sepko/efi.py:403-406 | For one unit and device, equal InvNum means equal order number and year. |
| InvoiceNumbers.DisplayRoundTrip | sepko/efi.py:409-468 | A printed local number is read back completely for 1 to 9999999 and not at all otherwise. |
| InvoiceNumbers.OlderFormExactly | sepko/efi.py:425-468 | The older form 1-1-N/YYYY, documented to name no month, is read as January's if and only if a slash follows N, N has at most seven digits and N is not zero. |
| InvoiceNumbers.MonthAndYearExactly | sepko/efi.py:435-445 | A number with month and year is read completely if and only if the month is 1 to 12 and the ordinal has one to seven digits and is not zero; otherwise only month 1 is read, without a month. |
| InvoiceNumbers.MonthOnlyExactly | sepko/efi.py:446-456 | A month without a year is read completely for months 1 to 12 and ordinals of one to seven digits, zero excepted, and not at all otherwise. |
| InvoiceNumbers.YearlyRoundTrip | sepko/efi.py:465-467 | An ordinal and a year with any of the three separators are read back. |
| Urls.QuoteRoundTrip | sepko/efi.py:563-574 | Every byte string survives percent-encoding and decoding. |
| Urls.QuoteWritesEscapes | sepko/efi.py:563-574 | A quoted text holds unreserved characters, plus signs and upper-case escapes of two digits, and nothing else. |
| Urls.UrlencodeRoundTrip | sepko/qr_import.py:70 | Reading an encoded query gives back, in order, every field that has a value. |
| Urls.UnquoteAgain | sepko/qr_import.py:78 | Decoding once more leaves exactly the texts without an escape unchanged. |
| QrUrl.IsoRoundTrip | sepko/qr_import.py:94-97 | Every datetime, with any offset in minutes or none, is read back from the text isoformat writes. |
| QrUrl.IssueDetermines | sepko/efi.py:562 | That text determines both the instant and the local clock. |
| QrUrl.ParsedIs | sepko/qr_import.py:60-72 | Reading a URL with the portal's hash route comes down to reading its query. |
| QrUrl.FieldRecovered | sepko/qr_import.py:74-78 | A field of the seller's query comes back if and only if it is non-empty, has no white space around it and no percent escape in it. |
| QrUrl.ScanRecovers | sepko/qr_import.py:50-149 | Scanning the seller's URL recovers order number, issue time and price always, the five identifiers if and only if they are clean, and then the seller's InvNum cut to 64; the stored URL is the scanned one cut to 512 unless a production query contains "efitest". |
| QrUrl.QueryScans | sepko/qr_import.py:55-67 | A scanner that returns only the query, with or without its question mark, gives the same draft as the whole URL, or the same refusal, stored under the production portal. |
| QrUrl.NumberedExactly | sepko/qr_import.py:118-122 | A scanned invoice gets a number if and only if its ordinal is there and not zero and its time is there. |
| QrUrl.ShortNumberReads | sepko/qr_import.py:118-122 | A scan without unit or device gets the short number, which read as a local number gives back its ordinal and year, and no month. |
| Printed.SubmissionScans | sepko/qr_import.py:50-149 | The QR code of a row just submitted scans back to that row: order number, gross and the time of sending, and with clean identifiers its IKOF, the seller's PIB and its InvNum, cut to 64. |
| Printed.PrintedVerifies | sepko/signing.py:91-126 | The data printed in the code of a signed invoice hash to the IKOF printed with them. |
| QrUrl.ParseVerifyUrl | sepko/qr_import.py:50-149 | The stepwise reader computes the specified draft or error. |
| Suppliers.FirmBook.MergeSuppliers | sepko/ulazne.py:116-204 | The loops over suppliers and orphans compute the specified customers and invoices, or a refused insert leaves both as they were. |
| Suppliers.CustomersOnlyGain | sepko/ulazne.py:110-157 | Merging fills empty fields and activates; no customer is lost, moved, renamed or overwritten. |
| Suppliers.DetailsKept | sepko/ulazne.py:110-113 | After the merge every customer is there with its key, name and every detail that was filled in. |
| Suppliers.SuppliersAreCustomers | sepko/ulazne.py:133-159 | After the merge every supplier that can be reached is a customer of its tenant with every detail it had, active if it was. |
| Suppliers.AddedAreSuppliers | sepko/ulazne.py:133-159 | Every customer the merge adds is one supplier that no customer of the tenant answered to: its PIB and name cut to 32 and 255 characters, its details, the default country where it had none, and active if and only if it or a later supplier with that PIB is. |
| Suppliers.MergeTwiceExactly | sepko/db.py:251-259 | After a merge that went through, the one at the next start goes through if and only if every supplier's PIB has at most 32 characters or belongs to a customer in full, and then it changes nothing; otherwise the program does not start. |
| Suppliers.MergeFitsExactly | sepko/ulazne.py:133-159 | A merge goes through if and only if no supplier out of reach finds its PIB, cut to 32 characters, taken by a customer or by an earlier supplier that became one. |
| Suppliers.UniqueExactly | sepko/models.py:148-148 | The inserts refused are those the constraint forbids: every tenant has each PIB once after n suppliers if and only if all of them fit. |
| Suppliers.SecondPassIdle | sepko/ulazne.py:188-204 | The second pass over the orphans never changes anything. |
| Suppliers.InvoicesAfterMerge | sepko/ulazne.py:160-204 | Tied invoices stay; every invoice of a listed supplier of its tenant is tied; one left untied names no customer's PIB; one of no listed supplier that names no PIB is left alone. |
| Suppliers.MergeTiesToOwn | sepko/ulazne.py:160-204 | An invoice the merge ties goes to a customer of its own tenant with its supplier's PIB, cut to 32, or its own. |
| Suppliers.ActiveAfterMerge | sepko/db.py:251-253 | A customer is active after the merge if and only if it was before or some active supplier is that customer. |
| RateLimit.Limiter.RateLimited | sepko/security_middleware.py:109-118 | Each call is limited if and only if the full history holds more than 120 calls of that address, itself included, in the last 60 seconds. |
| RateLimit.LimitedExactly | sepko/security_middleware.py:109-118 | An address is limited exactly when it made more than 120 calls in the last 60 seconds. |
| RateLimit.Limiter.Evict | sepko/security_middleware.py:114-117 | Eviction drops at most 2000 addresses, all stale, and keeps every other list. |
| RateLimit.StoreAfterCall | sepko/security_middleware.py:109-113 | The pruned list after a call is exactly the recent part of the full history. |
| RateLimit.StoreAfterEviction | sepko/security_middleware.py:114-117 | Dropping stale addresses leaves the store answering as the history would. |

## Left out

- QrUrl.ScanRecovers: issue times with offsets in whole minutes; other datetime texts Python accepts, and the two fallback formats, are not read.
- QrUrl.ParseVerifyUrl: texts are byte strings; replacement of invalid UTF-8 and urlparse's removal of tabs and newlines are not modelled.
- Register.CollectLines: quantities and VAT rates have at most four decimals (the schema refuses longer quantities) and quotients are exact, where Python keeps 28 significant digits.
- Register.BuildRequest: VAT rates with more than four decimals, which the schema accepts, are not represented.
- Money.FormatParseRoundTrip: ASCII digits only, where Python's digit tests admit other scripts.
- Schedules.ParseDays: int() on ASCII digits only.
- Schedules.OncePerDay: a forced run makes its invoice on any day and is excluded, as are broken-off runs, for which Schedules.SecondRunSameDay says what happens.
- BankMatch.Matcher.AutoMatch: the remembered customer and the candidates of each transaction are inputs; learned pairs, extracted references and fuzzy name scores are computed elsewhere, and matching by hand has no guard against a second payment.
- Licences.OneProformaForever: proformas sent by hand and a commit that fails after the mail went out.
- Ledger.CustomerYearsJoinExactly: dates are empty or start with a four-digit year.
- InvoiceNumbers.DisplayRoundTrip: series 1, the only one in use.
- invoice_to_fiscalize_request rebuilds a request from lines when a row has no stored payload; rows here always have one.
- The second, redundant copy of the invoice type kept in its own column.
- Schedules and payments in the invoice tables are their references and the template flag; which invoice of a run a schedule records, and which one a bank payment names, comes from outside.
- Bulk deletion and bulk fiscalization: loops over the single operations with counters.
- The article fallback price in the register loop: it is reached only with a price already checked to be positive, so it never runs.
- HTTP, mail, IMAP, SOAP, PDF, XLSX and HTML output, signatures and hashes: the partner's answer, the certificate and the hash are parameters of a call.
- Transactions, concurrent workers and failing commits: one call at a time on tables in memory.
- Notes, audit rows, translations, routes, sessions and the numbers an administrator types on licence invoices.
- Floating-point ledger sums: amounts are integer cents, as the rounding to two places after each step keeps them.
