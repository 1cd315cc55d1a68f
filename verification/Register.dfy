/** The retail basket turned into a fiscal request (pos_fiscalize in sepko/web_pos.py). */
module Register {
  import opened Wrappers
  import opened Calendar
  import opened Requests
  import opened Rounding
  import opened Picking

  /** A form line: quantity in units of 10^-4, unit price with VAT in cents (None when unreadable),
      VAT rate in units of 10^-4 percent. */
  datatype BasketLine = BasketLine(code: string, name: string, qty: int, price: Option<int>, rate: int)

  /** Lines without a positive quantity and price are passed over. */
  predicate Kept(b: BasketLine) { b.qty > 0 && b.price.Some? && b.price.value > 0 }

  const UNIT := 1_000_000

  function LineGross(price: int, qty: int): int { HalfUp(price * qty, 10_000) }

  function LineNet(gross: int, rate: int): int
    requires rate >= 0
  {
    HalfUp(gross * UNIT, UNIT + rate)
  }

  function UnitNet(net: int, qty: int): int
    requires qty > 0
  {
    HalfUp(net * UNIT, qty)
  }

  /** The line's net computed again from its stored unit price. */
  function RecomputedNet(unitNet: int, qty: int): int { HalfUp(unitNet * qty, UNIT) }

  /** The schema takes rates from 0 to 100 percent. */
  predicate RateOk(b: BasketLine) { 0 <= b.rate <= UNIT }

  function Invoiced(b: BasketLine): (l: Line)
    requires Kept(b) && RateOk(b)
    ensures l.quantity > 0
  {
    var gross := LineGross(b.price.value, b.qty);
    Line(b.code, b.name, b.qty, UnitNet(LineNet(gross, b.rate), b.qty), b.rate, 100 * gross, "", "KOM")
  }

  predicate RatesOk(basket: seq<BasketLine>) { forall b | b in basket && Kept(b) :: RateOk(b) }

  function LinesOf(basket: seq<BasketLine>): (lines: seq<Line>)
    requires RatesOk(basket)
    ensures forall l | l in lines :: l.quantity > 0
  {
    if basket == [] then []
    else
      var n := |basket| - 1;
      assert forall b | b in basket[..n] :: b in basket;
      LinesOf(basket[..n]) + if Kept(basket[n]) then [Invoiced(basket[n])] else []
  }

  function NetOf(l: Line): int { RecomputedNet(l.unitNet, l.quantity) }

  function GrossOf(l: Line): int { HalfUp(l.gross, 100) }

  function NetSum(lines: seq<Line>): int {
    if lines == [] then 0 else NetSum(lines[..|lines| - 1]) + NetOf(lines[|lines| - 1])
  }

  function GrossCents(lines: seq<Line>): int {
    if lines == [] then 0 else GrossCents(lines[..|lines| - 1]) + GrossOf(lines[|lines| - 1])
  }

  function RequestOf(lines: seq<Line>, pay: PayMethod, now: DateTime): Request {
    Request(None, now, CASH, pay, INVOICE, None, "EUR", None, lines, NetSum(lines),
            GrossCents(lines) - NetSum(lines), GrossCents(lines), Some("POS / maloprodaja"), None, None)
  }

  /** Ten digits before the decimal point and four after it: what InvoiceLineIn takes. */
  const DIGITS_LIMIT := 100_000_000_000_000

  predicate Fits(l: Line) { l.quantity < DIGITS_LIMIT && l.unitNet < DIGITS_LIMIT && l.gross < DIGITS_LIMIT }

  predicate LinesOk(basket: seq<BasketLine>) {
    RatesOk(basket) && forall b | b in basket && Kept(b) :: Fits(Invoiced(b))
  }

  /** The first loop of pos_fiscalize; None when the schema refuses a line. */
  method CollectLines(basket: seq<BasketLine>) returns (r: Option<seq<Line>>)
    ensures r.Some? <==> LinesOk(basket)
    ensures r.Some? ==> r.value == LinesOf(basket)
  {
    var lines: seq<Line> := [];
    var i := 0;
    while i < |basket|
      invariant i <= |basket|
      invariant LinesOk(basket[..i]) && lines == LinesOf(basket[..i])
    {
      assert basket[..i + 1][..i] == basket[..i] && basket[..i + 1] == basket[..i] + [basket[i]];
      if Kept(basket[i]) {
        if !RateOk(basket[i]) || !Fits(Invoiced(basket[i])) {
          assert basket[i] in basket;
          return None;
        }
        lines := lines + [Invoiced(basket[i])];
      }
      i := i + 1;
    }
    assert basket[..i] == basket;
    r := Some(lines);
  }

  /** The second loop: totals from the lines as stored. */
  method SumTotals(lines: seq<Line>) returns (net: int, vat: int, gross: int)
    ensures net == NetSum(lines) && gross == GrossCents(lines) && vat == gross - net
  {
    gross, net, vat := 0, 0, 0;
    var k := 0;
    while k < |lines|
      invariant k <= |lines|
      invariant net == NetSum(lines[..k]) && gross == GrossCents(lines[..k]) && vat == gross - net
    {
      assert lines[..k + 1][..k] == lines[..k];
      var lineNet := NetOf(lines[k]);
      var lineVat := GrossOf(lines[k]) - lineNet;
      gross, net, vat := gross + GrossOf(lines[k]), net + lineNet, vat + lineVat;
      k := k + 1;
    }
    assert lines[..k] == lines;
  }

  lemma {:induction false} SomeLineKept(basket: seq<BasketLine>)
    requires RatesOk(basket)
    ensures LinesOf(basket) != [] <==> exists b :: b in basket && Kept(b)
  {
    if basket != [] {
      var n := |basket| - 1;
      assert forall b | b in basket[..n] :: b in basket;
      assert forall b | b in basket :: b in basket[..n] || b == basket[n];
      assert basket[n] in basket;
      SomeLineKept(basket[..n]);
    }
  }

  // ---------- what the lines say ----------

  /** v is num / den rounded to the nearest, ties up. */
  predicate NearestUp(v: int, num: int, den: int)
    requires den > 0
  {
    -den < 2 * (v * den - num) <= den
  }

  lemma HalfUpNearestUp(num: int, den: int)
    requires den > 0 && num >= 0
    ensures NearestUp(HalfUp(num, den), num, den)
  {
    HalfUpNearest(num, den);
  }

  /** The line net is the nearest to gross / (1 + rate), ties up. */
  lemma LineNetNearest(gross: int, rate: int)
    requires gross >= 0 && rate >= 0
    ensures NearestUp(LineNet(gross, rate), gross * UNIT, UNIT + rate)
  {
    HalfUpNearestUp(gross * UNIT, UNIT + rate);
  }

  /** A positive quantity at a positive price. */
  predicate Sold(b: BasketLine) { b.qty > 0 && b.price.Some? && b.price.value > 0 }

  /** The invoice line is the basket line: same code, name, quantity and rate; the gross is price times quantity to
      the cent; the unit net is the net of that gross over the quantity, to four decimals. */
  ghost predicate SaysTheSame(l: Line, b: BasketLine) {
    && b.price.Some? && b.qty > 0 && b.rate >= 0
    && l.code == b.code && l.name == b.name && l.quantity == b.qty && l.vatRate == b.rate
    && l.taxCode == "" && l.unit == "KOM"
    && exists gross: int, net: int :: Amounts(l, b, gross, net)
  }

  /** The two roundings behind a line. */
  ghost predicate Amounts(l: Line, b: BasketLine, gross: int, net: int)
    requires b.price.Some? && b.qty > 0 && b.rate >= 0
  {
    && l.gross == 100 * gross && NearestUp(gross, b.price.value * b.qty, 10_000)
    && NearestUp(net, gross * 1_000_000, 1_000_000 + b.rate)
    && NearestUp(l.unitNet, net * 1_000_000, b.qty)
  }

  lemma InvoicedSays(b: BasketLine)
    requires Kept(b) && RateOk(b)
    ensures SaysTheSame(Invoiced(b), b)
  {
    var gross := LineGross(b.price.value, b.qty);
    var net := LineNet(gross, b.rate);
    PositiveProduct(b.price.value, b.qty);
    HalfUpNearestUp(b.price.value * b.qty, 10_000);
    HalfUpNearest(b.price.value * b.qty, 10_000);
    LineNetNearest(gross, b.rate);
    NetWithinGross(gross, b.rate);
    HalfUpNearestUp(net * UNIT, b.qty);
    assert Amounts(Invoiced(b), b, gross, net);
  }

  /** The lines are the sold basket lines, in the basket's order. */
  ghost predicate LinesFrom(lines: seq<Line>, basket: seq<BasketLine>, from: seq<nat>) {
    Picked(lines, basket, from, (b: BasketLine) => Sold(b), (l: Line, b: BasketLine) => SaysTheSame(l, b))
  }

  lemma {:induction false} LinesSay(basket: seq<BasketLine>) returns (from: seq<nat>)
    requires RatesOk(basket)
    ensures LinesFrom(LinesOf(basket), basket, from)
  {
    if basket == [] {
      from := [];
    } else {
      var n := |basket| - 1;
      assert forall b | b in basket[..n] :: b in basket;
      var most := LinesSay(basket[..n]);
      if Kept(basket[n]) { InvoicedSays(basket[n]); }
      PickedNext(LinesOf(basket[..n]), basket[..n], most, (b: BasketLine) => Sold(b),
                 (l: Line, b: BasketLine) => SaysTheSame(l, b), basket[n],
                 if Kept(basket[n]) then [Invoiced(basket[n])] else []);
      from := most + if Sold(basket[n]) then [n] else [];
      assert basket[..n] + [basket[n]] == basket;
    }
  }

  // ---------- rounding twice ----------

  /** Dividing an amount by 1 + rate never makes it larger. */
  lemma NetWithinGross(gross: int, rate: int)
    requires gross >= 0 && rate >= 0
    ensures 0 <= LineNet(gross, rate) <= gross
  {
    HalfUpNearest(gross * UNIT, UNIT + rate);
    Distribute(gross, UNIT, rate);
    HalfUpMonotone(gross * UNIT, gross * (UNIT + rate), UNIT + rate);
    HalfUpExact(gross, UNIT + rate);
  }

  lemma Distribute(a: int, b: int, c: int)
    ensures a * (b + c) == a * b + a * c
    ensures a >= 0 && c >= 0 ==> a * c >= 0
  {
  }

  /** The recomputed net misses the line net by at most half a cent plus half a unit price step times
      the quantity: 0.005 + 0.00005 * qty. */
  lemma NetClose(net: int, qty: int)
    requires net >= 0 && qty > 0
    ensures var u := UnitNet(net, qty);
      && 2 * Abs(u * qty - net * UNIT) <= qty
      && 2 * UNIT * Abs(RecomputedNet(u, qty) - net) <= UNIT + qty
  {
    var u := UnitNet(net, qty);
    HalfUpNearest(net * UNIT, qty);
    HalfUpNearest(u * qty, UNIT);
  }

  /** Up to a quantity of 100 the recomputed net is the line net, to the cent. */
  lemma NetRecovered(net: int, qty: int)
    requires net >= 0 && 0 < qty <= 100 * 10_000
    ensures RecomputedNet(UnitNet(net, qty), qty) == net
  {
    if qty == UNIT {
      HalfUpExact(net, qty);
      HalfUpExact(net, UNIT);
    } else {
      NetClose(net, qty);
      HalfUpIs(UnitNet(net, qty) * qty, UNIT, net);
    }
  }

  /** The unit price is rounded down by the remainder of net / qty, or up to the next multiple. */
  lemma UnitNetIs(net: int, qty: int)
    requires net >= 0 && qty > 0
    ensures var r := (net * UNIT) % qty;
      UnitNet(net, qty) * qty == if 2 * r < qty then net * UNIT - r else net * UNIT + (qty - r)
  {
    var q, r := (net * UNIT) / qty, (net * UNIT) % qty;
    DivMod(net * UNIT, qty);
    if 2 * r < qty {
      HalfUpIs(net * UNIT, qty, q);
    } else if 2 * r > qty {
      HalfUpIs(net * UNIT, qty, q + 1);
    } else {
      HalfUpNearest(net * UNIT, qty);
      TieNeighbours(UnitNet(net, qty), net * UNIT, qty);
    }
  }

  /** Rounding a whole number of cents plus d, |d| below a cent's own size or not. */
  lemma HalfUpNear(net: int, d: int)
    requires net >= 0 && net * UNIT + d >= 0
    ensures HalfUp(net * UNIT + d, UNIT) == net <==> -UNIT <= 2 * d < UNIT
  {
    HalfUpNearest(net * UNIT + d, UNIT);
    if -UNIT < 2 * d < UNIT { HalfUpIs(net * UNIT + d, UNIT, net); }
  }

  /** For every net and quantity: the recomputed net is the line net exactly when the remainder that rounding
      the unit price drops or adds is at most, or below, half a cent. */
  lemma NetRecoveredExactly(net: int, qty: int)
    requires net >= 0 && qty > 0
    ensures var r := (net * UNIT) % qty;
      RecomputedNet(UnitNet(net, qty), qty) == net <==> if 2 * r < qty then 2 * r <= UNIT else 2 * (qty - r) < UNIT
  {
    var r := (net * UNIT) % qty;
    UnitNetIs(net, qty);
    HalfUpNearest(net * UNIT, qty);
    PositiveOrZero(UnitNet(net, qty), qty);
    HalfUpNear(net, if 2 * r < qty then -r else qty - r);
  }

  lemma PositiveOrZero(u: int, qty: int)
    requires u >= 0 && qty > 0
    ensures u * qty >= 0
  {
  }

  /** A net that a quantity above 100 does not give back: as many cents as it takes for the excess over 100,
      taken that often, to reach half of 100. */
  function LostNet(qty: int): (n: int)
    requires qty > UNIT
    ensures n >= 1 && UNIT <= 2 * (n * (qty - UNIT)) < UNIT + 2 * (qty - UNIT)
  {
    var e := qty - UNIT;
    var n := (UNIT + 2 * e - 1) / (2 * e);
    DivBounds(UNIT + 2 * e - 1, 2 * e);
    assert n * (2 * e) == 2 * (n * e);
    PositiveFactor(n, 2 * e);
    n
  }

  lemma PositiveFactor(n: int, b: int)
    requires b > 0 && n * b > 0
    ensures n >= 1
  {
  }

  lemma LostNetLost(qty: int)
    requires qty > UNIT
    ensures RecomputedNet(UnitNet(LostNet(qty), qty), qty) != LostNet(qty)
  {
    var n, e := LostNet(qty), qty - UNIT;
    var up := n * e;
    assert n * UNIT == (n - 1) * qty + (qty - up) by {
      assert n * qty == n * UNIT + n * e;
      assert (n - 1) * qty == n * qty - qty;
    }
    DivIs(n * UNIT, qty, n - 1);
    DivMod(n * UNIT, qty);
    assert (n * UNIT) % qty == qty - up;
    NetRecoveredExactly(n, qty);
  }

  /** A quantity recovers every line net exactly when it is at most 100. */
  lemma QuantityRecoversExactly(qty: int)
    requires qty > 0
    ensures (forall net: nat :: RecomputedNet(UnitNet(net, qty), qty) == net) <==> qty <= UNIT
  {
    if qty <= UNIT {
      forall net: nat ensures RecomputedNet(UnitNet(net, qty), qty) == net { NetRecovered(net, qty); }
    } else {
      LostNetLost(qty);
      var n: nat := LostNet(qty);
      assert RecomputedNet(UnitNet(n, qty), qty) != n;
    }
  }

  /** For instance 150 pieces at 0.01 with 21 percent VAT. */
  lemma NetMissesBeyondHundred()
    ensures var net := LineNet(LineGross(1, 1_500_000), 210_000);
      net == 124 && RecomputedNet(UnitNet(net, 1_500_000), 1_500_000) == 125
  {
  }

  lemma HalfUpScale(a: int, den: int)
    requires a >= 0 && den > 0
    ensures HalfUp(100 * a, 100 * den) == HalfUp(a, den)
  {
    var v := HalfUp(a, den);
    DivBounds(2 * a + den, 2 * den);
    DivIs(2 * (100 * a) + 100 * den, 2 * (100 * den), v);
  }

  /** The unit net never exceeds the unit price once the quantity passes 100. */
  lemma UnitNetWithinPrice(price: int, qty: int, net: int)
    requires price > 0 && qty > UNIT && 0 <= net <= LineGross(price, qty)
    ensures UnitNet(net, qty) <= 100 * price
  {
    var u, gross := UnitNet(net, qty), LineGross(price, qty);
    PositiveProduct(price, qty);
    HalfUpNearest(price * qty, 10_000);
    HalfUpNearest(net * UNIT, qty);
    assert 2 * (u * qty) <= 2 * (net * UNIT) + qty;
    assert 2 * (gross * 10_000) <= 2 * (price * qty) + 10_000;
    var d := u - 100 * price;
    assert d * qty == u * qty - 100 * (price * qty);
    MulFar(d, qty);
  }

  lemma PositiveProduct(a: int, b: int)
    requires a > 0 && b > 0
    ensures a * b > 0
  {
  }

  lemma LargeQtyNet(price: int, qty: int, net: int)
    requires price > 0 && qty > UNIT && 0 <= net <= LineGross(price, qty)
    ensures 0 <= RecomputedNet(UnitNet(net, qty), qty) <= LineGross(price, qty)
  {
    var u := UnitNet(net, qty);
    UnitNetWithinPrice(price, qty, net);
    HalfUpNearest(net * UNIT, qty);
    MulOrdered(u, 100 * price, qty);
    HalfUpNearest(u * qty, UNIT);
    PositiveProduct(price, qty);
    assert 100 * price * qty == 100 * (price * qty);
    HalfUpMonotone(u * qty, 100 * (price * qty), UNIT);
    HalfUpScale(price * qty, 10_000);
  }

  /** No basket line has negative VAT, whatever its quantity and rate. */
  lemma VatNotNegative(price: int, qty: int, rate: int)
    requires price > 0 && qty > 0 && rate >= 0
    ensures var gross := LineGross(price, qty);
      0 <= RecomputedNet(UnitNet(LineNet(gross, rate), qty), qty) <= gross
  {
    var gross := LineGross(price, qty);
    PositiveProduct(price, qty);
    HalfUpNearest(price * qty, 10_000);
    NetWithinGross(gross, rate);
    if qty <= UNIT { NetRecovered(LineNet(gross, rate), qty); } else { LargeQtyNet(price, qty, LineNet(gross, rate)); }
  }

  lemma MulOrdered(u: int, v: int, q: int)
    requires 0 <= u <= v && q > 0
    ensures 0 <= u * q <= v * q
  {
  }

  // ---------- the request ----------

  lemma InvoicedAmounts(b: BasketLine)
    requires Kept(b) && RateOk(b)
    ensures var l := Invoiced(b);
      l.unitNet >= 0 && l.gross == 100 * GrossOf(l) && 0 <= NetOf(l) <= GrossOf(l)
  {
    var gross := LineGross(b.price.value, b.qty);
    PositiveProduct(b.price.value, b.qty);
    HalfUpNearest(b.price.value * b.qty, 10_000);
    NetWithinGross(gross, b.rate);
    HalfUpNearest(LineNet(gross, b.rate) * UNIT, b.qty);
    VatNotNegative(b.price.value, b.qty, b.rate);
    HalfUpExact(gross, 100);
  }

  predicate Sane(l: Line) {
    l.quantity > 0 && l.unitNet >= 0 && 0 <= l.vatRate <= UNIT && l.gross == 100 * GrossOf(l)
    && 0 <= NetOf(l) <= GrossOf(l)
  }

  lemma {:induction false} LinesAreSane(basket: seq<BasketLine>)
    requires RatesOk(basket)
    ensures forall l | l in LinesOf(basket) :: Sane(l)
  {
    if basket != [] {
      var n := |basket| - 1;
      assert forall b | b in basket[..n] :: b in basket;
      LinesAreSane(basket[..n]);
      if Kept(basket[n]) { InvoicedAmounts(basket[n]); }
    }
  }

  lemma {:induction false} SaneSums(lines: seq<Line>)
    requires forall l | l in lines :: Sane(l)
    ensures 0 <= NetSum(lines) <= GrossCents(lines)
    ensures GrossSum(lines) == 100 * GrossCents(lines)
  {
    if lines != [] {
      var n := |lines| - 1;
      assert forall l | l in lines[..n] :: l in lines;
      assert lines[n] in lines;
      SaneSums(lines[..n]);
      GrossSumSnoc(lines[..n], lines[n]);
      assert lines == lines[..n] + [lines[n]];
    }
  }

  lemma {:induction false} GrossSumSnoc(lines: seq<Line>, l: Line)
    ensures GrossSum(lines + [l]) == GrossSum(lines) + l.gross
  {
    if lines != [] {
      assert (lines + [l])[1..] == lines[1..] + [l];
      GrossSumSnoc(lines[1..], l);
    }
  }

  /** Amounts and line count within the schema's limits. */
  predicate WithinLimits(req: Request) {
    && |req.lines| <= 500 && 100 * req.gross <= 100_000_000_000
    && forall l | l in req.lines ::
         l.quantity <= 100_000_000_000 && l.unitNet <= 100_000_000_000 && l.gross <= 100_000_000_000
  }

  lemma SaneRequestSendable(lines: seq<Line>, pay: PayMethod, now: DateTime)
    requires CashMethod(pay) && forall l | l in lines :: Sane(l)
    ensures Refusal(RequestOf(lines, pay, now)) == None
  {
    SaneSums(lines);
  }

  lemma SaneRequestAccepted(lines: seq<Line>, pay: PayMethod, now: DateTime)
    requires lines != [] && forall l | l in lines :: Sane(l)
    ensures var req := RequestOf(lines, pay, now); SchemaAccepts(req) <==> WithinLimits(req)
  {
    SaneSums(lines);
  }

  /** Every request the register builds passes all checks before fiscalization, and the schema as far
      as its limits allow: totals add up exactly and nothing is negative. */
  lemma RegisterRequestPasses(basket: seq<BasketLine>, pay: PayMethod, now: DateTime)
    requires RatesOk(basket) && CashMethod(pay) && LinesOf(basket) != []
    ensures var req := RequestOf(LinesOf(basket), pay, now);
      && req.net + req.vat == req.gross && 0 <= req.net && 0 <= req.vat
      && GrossSum(req.lines) == 100 * req.gross
      && Refusal(req) == None
      && (SchemaAccepts(req) <==> WithinLimits(req))
  {
    LinesAreSane(basket);
    SaneSums(LinesOf(basket));
    SaneRequestSendable(LinesOf(basket), pay, now);
    SaneRequestAccepted(LinesOf(basket), pay, now);
  }

  lemma {:induction false} KeptIsInvoiced(basket: seq<BasketLine>, b: BasketLine)
    requires RatesOk(basket) && b in basket && Kept(b)
    ensures Invoiced(b) in LinesOf(basket)
  {
    var n := |basket| - 1;
    assert forall c | c in basket[..n] :: c in basket;
    if b in basket[..n] { KeptIsInvoiced(basket[..n], b); }
  }

  lemma LimitsMakeLinesOk(basket: seq<BasketLine>, pay: PayMethod, now: DateTime)
    requires RatesOk(basket) && WithinLimits(RequestOf(LinesOf(basket), pay, now))
    ensures LinesOk(basket)
  {
    forall b | b in basket && Kept(b) ensures Fits(Invoiced(b)) { KeptIsInvoiced(basket, b); }
  }

  // ---------- what the request says ----------

  function SumOf(amounts: seq<int>): int {
    if amounts == [] then 0 else SumOf(amounts[..|amounts| - 1]) + amounts[|amounts| - 1]
  }

  /** The net of a line is unit net times quantity, to the cent. */
  predicate IsNetOf(net: int, l: Line) { NearestUp(net, l.unitNet * l.quantity, 1_000_000) }

  /** A sum with one summand for each item. */
  predicate Summed<T>(sum: int, items: seq<T>, parts: seq<int>, fits: (int, T) -> bool) {
    && |parts| == |items| && sum == SumOf(parts)
    && forall i | 0 <= i < |items| :: fits(parts[i], items[i])
  }

  lemma SummedNext<T>(sum: int, items: seq<T>, parts: seq<int>, fits: (int, T) -> bool, item: T, part: int)
    requires Summed(sum, items, parts, fits) && fits(part, item)
    ensures Summed(sum + part, items + [item], parts + [part], fits)
  {
    assert (parts + [part])[..|parts|] == parts;
  }

  /** The net is the sum of unit net times quantity of each line, to the cent; `nets` are the summands. */
  predicate NetFrom(net: int, lines: seq<Line>, nets: seq<int>) {
    Summed(net, lines, nets, (n: int, l: Line) => IsNetOf(n, l))
  }

  lemma SaneNet(l: Line)
    requires Sane(l)
    ensures IsNetOf(NetOf(l), l)
  {
    MulOrdered(0, l.unitNet, l.quantity);
    HalfUpNearestUp(l.unitNet * l.quantity, UNIT);
  }

  lemma {:induction false} NetSumFrom(lines: seq<Line>) returns (nets: seq<int>)
    requires forall l | l in lines :: Sane(l)
    ensures NetFrom(NetSum(lines), lines, nets)
  {
    if lines == [] {
      nets := [];
    } else {
      var n := |lines| - 1;
      assert forall l | l in lines[..n] :: l in lines;
      assert lines[n] in lines;
      var most := NetSumFrom(lines[..n]);
      SaneNet(lines[n]);
      nets := most + [NetOf(lines[n])];
      SummedNext(NetSum(lines[..n]), lines[..n], most, (n: int, l: Line) => IsNetOf(n, l), lines[n], NetOf(lines[n]));
      assert lines[..n] + [lines[n]] == lines;
    }
  }

  /** A cash invoice with this time and payment method, for the sold basket lines, whose totals add up. */
  ghost predicate RequestFrom(req: Request, basket: seq<BasketLine>, pay: PayMethod, now: DateTime) {
    && req.issue == now && req.pay == pay && req.typeOfInv == CASH && req.docType == INVOICE && req.currency == "EUR"
    && req.externalId.None? && req.ordNum.None? && req.buyer.None? && req.iicRef.None? && req.refInvoice.None?
    && (exists from: seq<nat> :: LinesFrom(req.lines, basket, from))
    && (exists nets: seq<int> :: NetFrom(req.net, req.lines, nets))
    && 100 * req.gross == GrossSum(req.lines) && req.vat == req.gross - req.net
  }

  lemma RegisterRequestSays(basket: seq<BasketLine>, pay: PayMethod, now: DateTime)
    requires RatesOk(basket)
    ensures RequestFrom(RequestOf(LinesOf(basket), pay, now), basket, pay, now)
  {
    LinesAreSane(basket);
    SaneSums(LinesOf(basket));
    var from := LinesSay(basket);
    var nets := NetSumFrom(LinesOf(basket));
  }

  /** pos_fiscalize up to the submission: a request is built exactly for a cash method, an opened drawer, at
      least one line with quantity and price, rates the schema takes, and amounts within its limits. */
  method BuildRequest(basket: seq<BasketLine>, pay: PayMethod, hasInitial: bool, now: DateTime)
    returns (r: Result<Request>)
    ensures r.Ok? <==> CashMethod(pay) && hasInitial && RatesOk(basket) && (exists b :: b in basket && Kept(b))
                       && WithinLimits(RequestOf(LinesOf(basket), pay, now))
    ensures r.Ok? ==> RatesOk(basket) && r.value == RequestOf(LinesOf(basket), pay, now)
    ensures r.Ok? ==> RequestFrom(r.value, basket, pay, now)
  {
    if !CashMethod(pay) { return Err("payment method"); }
    if !hasInitial { return Err("no opening deposit today"); }
    r := RequestFor(basket, pay, now);
    if r.Ok? { RegisterRequestSays(basket, pay, now); }
  }

  /** What follows once the method and the drawer are right. */
  method RequestFor(basket: seq<BasketLine>, pay: PayMethod, now: DateTime) returns (r: Result<Request>)
    requires CashMethod(pay)
    ensures r.Ok? <==> RatesOk(basket) && (exists b :: b in basket && Kept(b))
                       && WithinLimits(RequestOf(LinesOf(basket), pay, now))
    ensures r.Ok? ==> RatesOk(basket) && r.value == RequestOf(LinesOf(basket), pay, now)
  {
    var collected := CollectLines(basket);
    if collected.None? {
      if RatesOk(basket) && WithinLimits(RequestOf(LinesOf(basket), pay, now)) { LimitsMakeLinesOk(basket, pay, now); }
      return Err("line refused");
    }
    var lines := collected.value;
    SomeLineKept(basket);
    if lines == [] { return Err("empty basket"); }
    var net, vat, gross := SumTotals(lines);
    var req := Request(None, now, CASH, pay, INVOICE, None, "EUR", None, lines, net, vat, gross,
                       Some("POS / maloprodaja"), None, None);
    LinesAreSane(basket);
    SaneRequestAccepted(lines, pay, now);
    if !SchemaAccepts(req) { return Err("request refused"); }
    r := Ok(req);
  }
}
