/** The tax totals by rate and exemption (build_same_taxes in sepko/efi.py) beside the per-item
    amounts of the EXTFISK message (sepko/extfisk.py), which round the other way. */
module SameTaxes {
  import opened Wrappers
  import opened Text
  import opened Requests
  import opened Rounding

  /** exempt_from_vat_code: EX and digits name an exemption class, anything else none. */
  function Exemption(code: string): Option<nat> {
    var c := Upper(Trim(code));
    if |c| > 2 && c[..2] == "EX" && AllDigits(c[2..]) then Some(Val(c[2..])) else None
  }

  /** The rate to two decimals of a percent, and the exemption. */
  datatype Key = Key(rate: int, exemption: Option<nat>)

  function KeyOf(l: Line): Key { Key(HalfEven(l.vatRate, 100), Exemption(l.taxCode)) }

  /** Line amounts in cents, ties to even: unit price times quantity is in units of 10^-8. */
  function Net(l: Line): int { HalfEven(l.unitNet * l.quantity, 1_000_000) }

  function Gross(l: Line): int { HalfEven(l.gross, 100) }

  datatype Bucket = Bucket(items: nat, net: int, vat: int, gross: int)

  const ZERO := Bucket(0, 0, 0, 0)

  function Added(b: Bucket, l: Line): Bucket {
    Bucket(b.items + 1, b.net + Net(l), b.vat + (Gross(l) - Net(l)), b.gross + Gross(l))
  }

  /** The bucket of a key, counted over the lines. */
  function BucketOf(lines: seq<Line>, k: Key): Bucket {
    if lines == [] then ZERO
    else
      var n := |lines| - 1;
      var b := BucketOf(lines[..n], k);
      if KeyOf(lines[n]) == k then Added(b, lines[n]) else b
  }

  function Keys(lines: seq<Line>): set<Key> { set i | 0 <= i < |lines| :: KeyOf(lines[i]) }

  function Buckets(lines: seq<Line>): map<Key, Bucket> { map k | k in Keys(lines) :: BucketOf(lines, k) }

  /** The loop of build_same_taxes over its dictionary of buckets. */
  method BuildSameTaxes(lines: seq<Line>) returns (buckets: map<Key, Bucket>)
    ensures buckets == Buckets(lines)
    ensures forall k :: k in buckets <==> exists l :: l in lines && Fits(l, k)
    ensures forall k | k in buckets :: buckets[k] == BucketFor(Fitting(lines, k))
  {
    buckets := map[];
    var i := 0;
    while i < |lines|
      invariant i <= |lines|
      invariant buckets.Keys == Keys(lines[..i])
      invariant forall k | k in buckets :: buckets[k] == BucketOf(lines[..i], k)
    {
      var line := lines[i];
      assert lines[..i + 1][..i] == lines[..i];
      KeysGrow(lines, i);
      var key := KeyOf(line);
      if key !in buckets {
        NoBucketYet(lines[..i], key);
        buckets := buckets[key := ZERO];
      }
      buckets := buckets[key := Added(buckets[key], line)];
      i := i + 1;
    }
    assert lines[..i] == lines;
    forall k ensures k in buckets <==> exists l :: l in lines && Fits(l, k) { BucketsFit(lines, k); }
    forall k | k in buckets ensures buckets[k] == BucketFor(Fitting(lines, k)) { BucketHolds(lines, k); }
  }

  lemma KeysGrow(lines: seq<Line>, i: nat)
    requires i < |lines|
    ensures Keys(lines[..i + 1]) == Keys(lines[..i]) + {KeyOf(lines[i])}
  {
    forall k | k in Keys(lines[..i + 1]) ensures k in Keys(lines[..i]) + {KeyOf(lines[i])} {
      var j :| 0 <= j < |lines[..i + 1]| && KeyOf(lines[..i + 1][j]) == k;
      if j < i { assert lines[..i][j] == lines[j]; }
    }
    forall k | k in Keys(lines[..i]) + {KeyOf(lines[i])} ensures k in Keys(lines[..i + 1]) {
      if k in Keys(lines[..i]) {
        var j :| 0 <= j < |lines[..i]| && KeyOf(lines[..i][j]) == k;
        assert lines[..i + 1][j] == lines[j];
      } else {
        assert lines[..i + 1][i] == lines[i];
      }
    }
  }

  lemma {:induction false} NoBucketYet(lines: seq<Line>, k: Key)
    requires k !in Keys(lines)
    ensures BucketOf(lines, k) == ZERO
  {
    if lines != [] {
      var n := |lines| - 1;
      KeysGrow(lines, n);
      assert lines[..n + 1] == lines;
      NoBucketYet(lines[..n], k);
    }
  }

  // ---------- conservation ----------

  /** In every bucket net and VAT make up the gross. */
  lemma {:induction false} BucketBalances(lines: seq<Line>, k: Key)
    ensures var b := BucketOf(lines, k); b.net + b.vat == b.gross
  {
    if lines != [] { BucketBalances(lines[..|lines| - 1], k); }
  }

  /** Totals over a list of keys. */
  function Total(lines: seq<Line>, keys: seq<Key>): Bucket {
    if keys == [] then ZERO
    else
      var b, rest := BucketOf(lines, keys[0]), Total(lines, keys[1..]);
      Bucket(b.items + rest.items, b.net + rest.net, b.vat + rest.vat, b.gross + rest.gross)
  }

  function NetSum(lines: seq<Line>): int {
    if lines == [] then 0 else NetSum(lines[..|lines| - 1]) + Net(lines[|lines| - 1])
  }

  function GrossTotal(lines: seq<Line>): int {
    if lines == [] then 0 else GrossTotal(lines[..|lines| - 1]) + Gross(lines[|lines| - 1])
  }

  lemma SumsNext(lines: seq<Line>, l: Line)
    ensures NetSum(lines + [l]) == NetSum(lines) + Net(l) && GrossTotal(lines + [l]) == GrossTotal(lines) + Gross(l)
  {
    assert (lines + [l])[..|lines|] == lines;
  }

  /** All of these lines in one bucket. */
  function BucketFor(own: seq<Line>): Bucket {
    Bucket(|own|, NetSum(own), GrossTotal(own) - NetSum(own), GrossTotal(own))
  }

  lemma BucketForNext(own: seq<Line>, l: Line)
    ensures BucketFor(own + [l]) == Added(BucketFor(own), l)
  {
    SumsNext(own, l);
  }

  predicate DistinctKeys(keys: seq<Key>) { forall i, j | 0 <= i < j < |keys| :: keys[i] != keys[j] }

  lemma {:induction false} TotalOfNothing(keys: seq<Key>)
    ensures Total([], keys) == ZERO
  {
    if keys != [] { TotalOfNothing(keys[1..]); }
  }

  lemma {:induction false} TotalSnoc(lines: seq<Line>, l: Line, keys: seq<Key>)
    requires DistinctKeys(keys)
    ensures Total(lines + [l], keys)
         == if KeyOf(l) in keys then Added(Total(lines, keys), l) else Total(lines, keys)
  {
    if keys != [] {
      assert (lines + [l])[..|lines|] == lines;
      TotalSnoc(lines, l, keys[1..]);
      assert keys[0] !in keys[1..];
    }
  }

  /** The buckets conserve: over all keys, items sum to the number of lines, and net, VAT and gross to
      the rounded line amounts. */
  lemma {:induction false} BucketsConserve(lines: seq<Line>, keys: seq<Key>)
    requires DistinctKeys(keys) && (forall k | k in Keys(lines) :: k in keys)
    ensures Total(lines, keys) == BucketFor(lines)
  {
    if lines == [] {
      TotalOfNothing(keys);
    } else {
      var n := |lines| - 1;
      KeysGrow(lines, n);
      assert lines[..n + 1] == lines && lines == lines[..n] + [lines[n]];
      BucketsConserve(lines[..n], keys);
      TotalSnoc(lines[..n], lines[n], keys);
      BucketForNext(lines[..n], lines[n]);
    }
  }

  // ---------- order of lines ----------

  lemma WithoutSlices(lines: seq<Line>, i: nat)
    requires i < |lines| - 1
    ensures var n, without := |lines| - 1, lines[..i] + lines[i + 1..];
      |without| == n && without[..n - 1] == lines[..n][..i] + lines[..n][i + 1..] && without[n - 1] == lines[n]
  {
  }

  lemma {:induction false} BucketWithout(lines: seq<Line>, i: nat, k: Key)
    requires i < |lines|
    ensures BucketOf(lines, k)
         == var rest := BucketOf(lines[..i] + lines[i + 1..], k);
            if KeyOf(lines[i]) == k then Added(rest, lines[i]) else rest
    decreases |lines|
  {
    var n := |lines| - 1;
    var without := lines[..i] + lines[i + 1..];
    if i == n {
      assert without == lines[..n];
    } else {
      BucketWithout(lines[..n], i, k);
      WithoutSlices(lines, i);
    }
  }

  lemma MultisetWithout<T>(s: seq<T>, i: nat)
    requires i < |s|
    ensures multiset(s[..i] + s[i + 1..]) == multiset(s) - multiset{s[i]}
  {
    assert s == s[..i] + [s[i]] + s[i + 1..];
  }

  lemma {:induction false} BucketPermuted(a: seq<Line>, b: seq<Line>, k: Key)
    requires multiset(a) == multiset(b)
    ensures BucketOf(a, k) == BucketOf(b, k)
    decreases |a|
  {
    if a == [] {
      assert |multiset(b)| == 0;
    } else {
      var n := |a| - 1;
      assert a[n] in multiset(a);
      var i :| 0 <= i < |b| && b[i] == a[n];
      MultisetWithout(a, n);
      MultisetWithout(b, i);
      assert a[..n] + a[n + 1..] == a[..n];
      BucketPermuted(a[..n], b[..i] + b[i + 1..], k);
      BucketWithout(b, i, k);
    }
  }

  /** The buckets do not depend on the order of the lines. */
  lemma PermutedLinesSameTaxes(a: seq<Line>, b: seq<Line>)
    requires multiset(a) == multiset(b)
    ensures Buckets(a) == Buckets(b)
  {
    forall k ensures k in Keys(a) <==> k in Keys(b) { KeysByMembers(a, k); KeysByMembers(b, k); MembersAgree(a, b); }
    assert Keys(a) == Keys(b);
    forall k | k in Keys(a) ensures BucketOf(a, k) == BucketOf(b, k) { BucketPermuted(a, b, k); }
  }

  lemma KeysByMembers(lines: seq<Line>, k: Key)
    ensures k in Keys(lines) <==> exists l :: l in lines && KeyOf(l) == k
  {
    if k in Keys(lines) {
      var i :| 0 <= i < |lines| && KeyOf(lines[i]) == k;
      assert lines[i] in lines;
    }
  }

  lemma MembersAgree(a: seq<Line>, b: seq<Line>)
    requires multiset(a) == multiset(b)
    ensures forall l :: l in a <==> l in b
  {
    forall l ensures l in a <==> l in b {
      assert l in a <==> l in multiset(a);
      assert l in b <==> l in multiset(b);
    }
  }

  // ---------- the same line in two messages ----------

  /** PB of an EXTFISK item. */
  function ItemNet(l: Line): int { HalfUp(l.unitNet * l.quantity, 1_000_000) }

  /** VA of an EXTFISK item. */
  function ItemVat(l: Line): int { HalfUp(l.gross, 100) - ItemNet(l) }

  /** The net of one line in the two messages differs by at most one cent, and exactly when unit price
      times quantity is half way between two cents and the item rounds to the odd one. */
  lemma ItemAndBucketNets(l: Line)
    ensures Abs(ItemNet(l) - Net(l)) <= 1
    ensures ItemNet(l) != Net(l) <==> Tie(l.unitNet * l.quantity, 1_000_000) && ItemNet(l) % 2 != 0
  {
    ModesDifferOnlyOnTies(l.unitNet * l.quantity, 1_000_000);
  }

  /** With line amounts in whole cents the VAT differs exactly when the net does, by the same cent. */
  lemma ItemAndBucketVat(l: Line, cents: int)
    requires l.gross == 100 * cents
    ensures ItemVat(l) - (Gross(l) - Net(l)) == Net(l) - ItemNet(l)
  {
    HalfUpExact(cents, 100);
    HalfEvenNearest(l.gross, 100);
    ModesDifferOnlyOnTies(l.gross, 100);
  }

  // ---------- which lines share a bucket ----------

  /** The rate, in units of 10^-4 percent, rounds half-even to this many hundredths of a percent. */
  predicate RoundsTo(rate: int, hundredths: int) {
    && -100 <= 2 * (hundredths * 100 - rate) <= 100
    && (2 * (hundredths * 100 - rate) == 100 || 2 * (hundredths * 100 - rate) == -100 ==> hundredths % 2 == 0)
  }

  lemma RateRounds(rate: int, hundredths: int)
    ensures HalfEven(rate, 100) == hundredths <==> RoundsTo(rate, hundredths)
  {
  }

  /** The code, white space and case aside, is EX followed by the digits of a number, or it names no class. */
  predicate NamesClass(code: string, exemption: Option<nat>) {
    var c := Upper(Trim(code));
    match exemption
    case Some(n) => |c| > 2 && c == "EX" + c[2..] && AllDigits(c[2..]) && n == Val(c[2..])
    case None => !(|c| > 2 && c == "EX" + c[2..] && AllDigits(c[2..]))
  }

  lemma ClassNamed(code: string, exemption: Option<nat>)
    ensures Exemption(code) == exemption <==> NamesClass(code, exemption)
  {
    var c := Upper(Trim(code));
    if |c| > 2 { assert c == c[..2] + c[2..]; }
  }

  /** For every number there is the code that names it, in upper or lower case, white space around it or not. */
  lemma CodeOfClass(n: nat)
    ensures Exemption("EX" + DigitsOf(n)) == Some(n) && Exemption(" ex" + DigitsOf(n) + " ") == Some(n)
  {
    var d := DigitsOf(n);
    ValDigitsOf(n);
    CodeRead("EX", d, "EX" + d);
    CodeRead("ex", d, " ex" + d + " ");
  }

  lemma CodeRead(ex: string, d: string, code: string)
    requires |ex| == 2 && Upper(ex) == "EX" && AllDigits(d) && d != []
    requires code == ex + d || code == " " + ex + d + " "
    ensures Exemption(code) == Some(Val(d))
  {
    var t := ex + d;
    assert Upper(t) == "EX" + d by {
      assert forall i | 0 <= i < |d| :: UpperChar(d[i]) == d[i];
      assert forall i | 0 <= i < |ex| :: Upper(ex)[i] == UpperChar(ex[i]);
    }
    assert t[0] == ex[0] && t[|t| - 1] == d[|d| - 1];
    assert UpperChar(ex[0]) == 'E' by { assert Upper(ex)[0] == 'E'; }
    TrimTrims(t);
    if code != t { TrimSpaced(t); assert code == " " + t + " "; }
    assert Upper(Trim(code))[2..] == d && Upper(Trim(code))[..2] == "EX";
  }

  lemma TrimSpaced(t: string)
    requires t != "" && Trimmed(t)
    ensures Trim(" " + t + " ") == t
  {
    var s := t + " ";
    assert (" " + s)[1..] == s && " " + t + " " == " " + s;
    assert TrimLeft(" " + s) == TrimLeft(s) == s;
    assert s[..|s| - 1] == t;
    TrimTrims(t);
    assert TrimRight(s) == TrimRight(t);
  }

  /** A bucket's key says the rounded rate and the exemption class of each of its lines. */
  predicate Fits(l: Line, k: Key) { RoundsTo(l.vatRate, k.rate) && NamesClass(l.taxCode, k.exemption) }

  lemma KeyFits(l: Line, k: Key)
    ensures KeyOf(l) == k <==> Fits(l, k)
  {
    RateRounds(l.vatRate, k.rate);
    ClassNamed(l.taxCode, k.exemption);
  }

  /** Two lines share a bucket exactly when their rates round to the same two decimals and both name the same
      exemption class or none; the rates then differ by at most 0.01. */
  lemma SharedExactly(l: Line, m: Line)
    ensures KeyOf(l) == KeyOf(m)
       <==> (exists rate :: RoundsTo(l.vatRate, rate) && RoundsTo(m.vatRate, rate))
            && (exists ex :: NamesClass(l.taxCode, ex) && NamesClass(m.taxCode, ex))
    ensures KeyOf(l) == KeyOf(m) ==> Abs(l.vatRate - m.vatRate) <= 100
  {
    KeyFits(l, KeyOf(l));
    KeyFits(m, KeyOf(m));
    forall rate | RoundsTo(l.vatRate, rate) && RoundsTo(m.vatRate, rate) ensures KeyOf(l).rate == KeyOf(m).rate {
      RateRounds(l.vatRate, rate);
      RateRounds(m.vatRate, rate);
    }
    forall ex | NamesClass(l.taxCode, ex) && NamesClass(m.taxCode, ex)
      ensures KeyOf(l).exemption == KeyOf(m).exemption
    {
      ClassNamed(l.taxCode, ex);
      ClassNamed(m.taxCode, ex);
    }
  }

  // ---------- what a bucket holds ----------

  /** The lines that fit a key, in order. */
  function Fitting(lines: seq<Line>, k: Key): seq<Line> {
    if lines == [] then []
    else
      var n := |lines| - 1;
      if Fits(lines[n], k) then Fitting(lines[..n], k) + [lines[n]] else Fitting(lines[..n], k)
  }

  /** A bucket counts the lines that fit its key, and sums their rounded nets and grosses. */
  lemma {:induction false} BucketHolds(lines: seq<Line>, k: Key)
    ensures BucketOf(lines, k) == BucketFor(Fitting(lines, k))
  {
    if lines != [] {
      var n := |lines| - 1;
      BucketHolds(lines[..n], k);
      KeyFits(lines[n], k);
      BucketForNext(Fitting(lines[..n], k), lines[n]);
    }
  }

  /** The amounts of a line: unit price times quantity, and its gross, both half-even to the cent. */
  lemma LineAmounts(l: Line)
    ensures Nearest(Net(l), l.unitNet * l.quantity, 1_000_000) && Nearest(Gross(l), l.gross, 100)
    ensures Tie(l.unitNet * l.quantity, 1_000_000) ==> Net(l) % 2 == 0
    ensures Tie(l.gross, 100) ==> Gross(l) % 2 == 0
  {
    HalfEvenNearest(l.unitNet * l.quantity, 1_000_000);
    HalfEvenNearest(l.gross, 100);
  }

  /** The buckets returned are those that some line fits, and no other. */
  lemma BucketsFit(lines: seq<Line>, k: Key)
    ensures k in Buckets(lines) <==> exists l :: l in lines && Fits(l, k)
  {
    KeysByMembers(lines, k);
    forall l | l in lines ensures KeyOf(l) == k <==> Fits(l, k) { KeyFits(l, k); }
  }
}
