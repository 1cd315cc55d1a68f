/** Strings as the program uses them: decimal digits, padding, trimming, splitting and
    dictionary order.  Characters stand for single code points. */
module Text {
  import opened Wrappers

  // ---------- decimal digits ----------

  predicate IsDigit(c: char) { '0' <= c <= '9' }

  function DigitChar(d: nat): (c: char)
    requires d < 10
    ensures IsDigit(c) && DigitVal(c) == d
  {
    ('0' as int + d) as char
  }

  function DigitVal(c: char): (d: nat)
    requires IsDigit(c)
    ensures d < 10
  {
    c as int - '0' as int
  }

  predicate AllDigits(s: string) { forall i :: 0 <= i < |s| ==> IsDigit(s[i]) }

  function Pow10(n: nat): (p: nat)
    ensures p > 0
  {
    if n == 0 then 1 else 10 * Pow10(n - 1)
  }

  lemma {:induction false} Pow10Add(a: nat, b: nat)
    ensures Pow10(a + b) == Pow10(a) * Pow10(b)
  {
    if a == 0 {
    } else {
      Pow10Add(a - 1, b);
      assert Pow10(a + b) == 10 * Pow10(a - 1 + b);
    }
  }

  lemma {:induction false} Pow10Grows(a: nat, b: nat)
    ensures a <= b ==> Pow10(a) <= Pow10(b)
  {
    if a < b { Pow10Grows(a, b - 1); }
  }

  /** str(n) */
  function DigitsOf(n: nat): (s: string)
    ensures s != [] && AllDigits(s)
  {
    if n < 10 then [DigitChar(n)] else DigitsOf(n / 10) + [DigitChar(n % 10)]
  }

  /** int(s) */
  function Val(s: string): nat
    requires AllDigits(s)
  {
    if s == [] then 0 else 10 * Val(s[..|s| - 1]) + DigitVal(s[|s| - 1])
  }

  lemma {:induction false} ValDigitsOf(n: nat)
    ensures Val(DigitsOf(n)) == n
  {
    if n >= 10 {
      ValDigitsOf(n / 10);
      var s := DigitsOf(n);
      assert s[..|s| - 1] == DigitsOf(n / 10);
    }
  }

  lemma DigitsOfInjective(m: nat, n: nat)
    requires DigitsOf(m) == DigitsOf(n)
    ensures m == n
  {
    ValDigitsOf(m);
    ValDigitsOf(n);
  }

  lemma {:induction false} ValConcat(a: string, b: string)
    requires AllDigits(a) && AllDigits(b)
    ensures AllDigits(a + b)
    ensures Val(a + b) == Val(a) * Pow10(|b|) + Val(b)
  {
    if b == [] {
      assert a + b == a;
    } else {
      var b' := b[..|b| - 1];
      ValConcat(a, b');
      assert (a + b)[..|a + b| - 1] == a + b';
      MulTen(Val(a), Pow10(|b'|));
    }
  }

  lemma MulTen(a: nat, p: nat)
    ensures a * (10 * p) == 10 * (a * p)
  {
  }

  lemma {:induction false} ValBound(s: string)
    requires AllDigits(s)
    ensures Val(s) < Pow10(|s|)
  {
    if s != [] { ValBound(s[..|s| - 1]); }
  }

  /** A number of n digits, first digit nonzero, is at least 10^(n-1). */
  lemma {:induction false} DigitsOfSize(n: nat)
    ensures n >= 1 ==> Pow10(|DigitsOf(n)| - 1) <= n
    ensures n < Pow10(|DigitsOf(n)|)
  {
    ValDigitsOf(n);
    ValBound(DigitsOf(n));
    if n >= 10 { DigitsOfSize(n / 10); }
  }

  function Zeros(n: nat): (z: string)
    ensures |z| == n && AllDigits(z)
  {
    seq(n, _ => '0')
  }

  lemma {:induction false} ValZeros(n: nat)
    ensures Val(Zeros(n)) == 0
  {
    if n > 0 {
      ValZeros(n - 1);
      assert Zeros(n)[..n - 1] == Zeros(n - 1);
    }
  }

  /** f"{n:0{width}d}" */
  function Pad(n: nat, width: nat): (s: string)
    ensures AllDigits(s) && |s| >= width && s != []
  {
    var d := DigitsOf(n);
    if |d| >= width then d else Zeros(width - |d|) + d
  }

  lemma PadVal(n: nat, width: nat)
    ensures Val(Pad(n, width)) == n
  {
    ValDigitsOf(n);
    var d := DigitsOf(n);
    if |d| < width {
      ValConcat(Zeros(width - |d|), d);
      ValZeros(width - |d|);
      assert 0 * Pow10(|d|) == 0;
    }
  }

  /** A number below 10^width is padded to exactly that width. */
  lemma PadWidth(n: nat, width: nat)
    requires width >= 1 && n < Pow10(width)
    ensures |Pad(n, width)| == width
  {
    DigitsOfSize(n);
    Pow10Grows(width, |DigitsOf(n)| - 1);
  }

  // ---------- white space and case ----------

  predicate IsSpace(c: char) {
    c == ' ' || c == '\t' || c == '\n' || c == '\r' || c as int == 11 || c as int == 12 || c as int == 0xA0
  }

  function TrimLeft(s: string): string {
    if s != [] && IsSpace(s[0]) then TrimLeft(s[1..]) else s
  }

  function TrimRight(s: string): string {
    if s != [] && IsSpace(s[|s| - 1]) then TrimRight(s[..|s| - 1]) else s
  }

  /** s.strip() */
  function Trim(s: string): string { TrimRight(TrimLeft(s)) }

  predicate Trimmed(s: string) { s == [] || (!IsSpace(s[0]) && !IsSpace(s[|s| - 1])) }

  lemma {:induction false} TrimRightKeepsHead(s: string)
    requires s == [] || !IsSpace(s[0])
    ensures Trimmed(TrimRight(s))
    decreases |s|
  {
    if s != [] && IsSpace(s[|s| - 1]) { TrimRightKeepsHead(s[..|s| - 1]); }
  }

  lemma {:induction false} TrimLeftHead(s: string)
    ensures TrimLeft(s) == [] || !IsSpace(TrimLeft(s)[0])
  {
    if s != [] && IsSpace(s[0]) { TrimLeftHead(s[1..]); }
  }

  /** Trimming gives a trimmed text, and leaves exactly the trimmed texts alone. */
  lemma TrimTrims(s: string)
    ensures Trimmed(Trim(s))
    ensures Trimmed(s) <==> Trim(s) == s
  {
    TrimLeftHead(s);
    TrimRightKeepsHead(TrimLeft(s));
  }

  function UpperChar(c: char): (u: char)
    ensures IsSpace(u) == IsSpace(c)
  {
    if 'a' <= c <= 'z' then (c as int - 32) as char else c
  }

  /** s.upper(), on ASCII letters */
  function Upper(s: string): (u: string)
    ensures |u| == |s|
    ensures forall i :: 0 <= i < |s| ==> u[i] == UpperChar(s[i])
  {
    seq(|s|, i requires 0 <= i < |s| => UpperChar(s[i]))
  }

  /** The form (s or "").strip().upper() in which an IKOF is handed on. */
  function Normal(s: string): string { Upper(Trim(s)) }

  lemma NormalIdempotent(s: string)
    ensures Normal(Normal(s)) == Normal(s)
  {
    TrimTrims(s);
    var u := Normal(s);
    assert Trimmed(u);
    TrimTrims(u);
    assert Upper(u) == u;
  }

  // ---------- searching and splitting ----------

  function IndexOf(s: string, c: char): (k: nat)
    ensures k <= |s|
    ensures k < |s| ==> s[k] == c
    ensures forall i :: 0 <= i < k ==> s[i] != c
  {
    if s == [] then 0 else if s[0] == c then 0 else 1 + IndexOf(s[1..], c)
  }

  lemma IndexOfIs(s: string, c: char, k: nat)
    requires k < |s| && s[k] == c
    requires forall i :: 0 <= i < k ==> s[i] != c
    ensures IndexOf(s, c) == k
  {
  }

  lemma IndexOfNone(s: string, c: char)
    requires c !in s
    ensures IndexOf(s, c) == |s|
  {
  }

  /** s.split(c) */
  function Split(s: string, c: char): (parts: seq<string>)
    ensures parts != []
    decreases |s|
  {
    var k := IndexOf(s, c);
    if k == |s| then [s] else [s[..k]] + Split(s[k + 1..], c)
  }

  /** sep.join(parts) */
  function Join(parts: seq<string>, sep: string): string {
    if parts == [] then "" else if |parts| == 1 then parts[0]
    else parts[0] + sep + Join(parts[1..], sep)
  }

  lemma {:induction false} SplitJoin(parts: seq<string>, c: char)
    requires parts != [] && forall p :: p in parts ==> c !in p
    ensures Split(Join(parts, [c]), c) == parts
  {
    var s := Join(parts, [c]);
    var h := parts[0];
    if |parts| == 1 {
      IndexOfNone(s, c);
    } else {
      assert s == h + [c] + Join(parts[1..], [c]);
      assert h in parts && forall i :: 0 <= i < |h| ==> s[i] == h[i];
      IndexOfIs(s, c, |h|);
      assert s[..|h|] == h;
      assert s[|h| + 1..] == Join(parts[1..], [c]);
      SplitJoin(parts[1..], c);
    }
  }

  /** s.replace(c, "") for a single character */
  function Remove(s: string, c: char): string {
    if s == [] then [] else (if s[0] == c then [] else [s[0]]) + Remove(s[1..], c)
  }

  lemma {:induction false} RemoveConcat(a: string, b: string, c: char)
    ensures Remove(a + b, c) == Remove(a, c) + Remove(b, c)
  {
    if a == [] {
      assert a + b == b;
    } else {
      assert (a + b)[1..] == a[1..] + b;
      RemoveConcat(a[1..], b, c);
    }
  }

  lemma {:induction false} RemoveAbsent(s: string, c: char)
    requires c !in s
    ensures Remove(s, c) == s
  {
    if s != [] { RemoveAbsent(s[1..], c); }
  }

  /** s.replace(c, d) for single characters */
  function Replace(s: string, c: char, d: char): (r: string)
    ensures |r| == |s|
    ensures forall i :: 0 <= i < |s| ==> r[i] == if s[i] == c then d else s[i]
  {
    seq(|s|, i requires 0 <= i < |s| => if s[i] == c then d else s[i])
  }

  /** s.count(c) */
  function Count(s: string, c: char): nat {
    if s == [] then 0 else (if s[0] == c then 1 else 0) + Count(s[1..], c)
  }

  lemma {:induction false} CountConcat(a: string, b: string, c: char)
    ensures Count(a + b, c) == Count(a, c) + Count(b, c)
  {
    if a == [] {
      assert a + b == b;
    } else {
      assert (a + b)[1..] == a[1..] + b;
      CountConcat(a[1..], b, c);
    }
  }

  lemma {:induction false} CountZero(s: string, c: char)
    ensures Count(s, c) == 0 <==> c !in s
  {
    if s != [] { CountZero(s[1..], c); }
  }

  predicate Contains(s: string, t: string) {
    exists k :: 0 <= k <= |s| && t <= s[k..]
  }

  // ---------- integers ----------

  /** ASCII digits, with single underscores between them allowed */
  predicate Numeric(d: string) {
    && |d| > 0 && IsDigit(d[0]) && IsDigit(d[|d| - 1])
    && forall i | 0 < i < |d| - 1 :: IsDigit(d[i]) || (d[i] == '_' && d[i - 1] != '_')
  }

  lemma {:induction false} RemoveKeepsDigits(d: string)
    requires forall i | 0 <= i < |d| :: IsDigit(d[i]) || d[i] == '_'
    ensures AllDigits(Remove(d, '_'))
  {
    if |d| > 0 { RemoveKeepsDigits(d[1..]); }
  }

  /** int(s), for ASCII digits with an optional sign */
  function ReadInt(s: string): Option<int> {
    var d := if s != [] && (s[0] == '-' || s[0] == '+') then s[1..] else s;
    if !Numeric(d) then None
    else
      RemoveKeepsDigits(d);
      var n := Val(Remove(d, '_'));
      Some(if s[0] == '-' then -(n as int) else n)
  }

  lemma ReadsPlain(n: nat)
    ensures ReadInt(DigitsOf(n)) == Some(n)
  {
    var s := DigitsOf(n);
    ValDigitsOf(n);
    RemoveAbsent(s, '_');
    assert IsDigit(s[0]) && IsDigit(s[|s| - 1]);
  }

  lemma ReadsDigits(n: nat)
    ensures ReadInt(Trim(DigitsOf(n))) == Some(n)
  {
    var s := DigitsOf(n);
    assert IsDigit(s[0]) && IsDigit(s[|s| - 1]);
    TrimTrims(s);
    ReadsPlain(n);
  }

  // ---------- dictionary order ----------

  predicate LexLeq(a: string, b: string) {
    a == [] || (b != [] && (a[0] < b[0] || (a[0] == b[0] && LexLeq(a[1..], b[1..]))))
  }

  predicate LexLess(a: string, b: string) { !LexLeq(b, a) }

  lemma {:induction false} LexTotal(a: string, b: string)
    ensures LexLeq(a, b) || LexLeq(b, a)
    ensures LexLeq(a, b) && LexLeq(b, a) ==> a == b
    ensures a == b ==> LexLeq(a, b)
  {
    if a != [] && b != [] && a[0] == b[0] {
      LexTotal(a[1..], b[1..]);
      assert a == [a[0]] + a[1..] && b == [b[0]] + b[1..];
    }
  }

  lemma {:induction false} LexTrans(a: string, b: string, c: string)
    requires LexLeq(a, b) && LexLeq(b, c)
    ensures LexLeq(a, c)
  {
    if a != [] && a[0] == b[0] && b[0] == c[0] { LexTrans(a[1..], b[1..], c[1..]); }
  }

  /** Cutting both texts to the same length keeps their order. */
  lemma {:induction false} LexPrefix(a: string, b: string, k: nat)
    requires LexLeq(a, b) && k <= |a| && k <= |b|
    ensures LexLeq(a[..k], b[..k])
  {
    if k > 0 && a[0] == b[0] {
      LexPrefix(a[1..], b[1..], k - 1);
      assert a[..k][1..] == a[1..][..k - 1] && b[..k][1..] == b[1..][..k - 1];
    }
  }
}
