/** Percent-encoding (section 2.1 of RFC 3986) and query strings, as urllib.parse writes and reads them.
    Characters stand for the bytes of the UTF-8 text. */
module Urls {
  import opened Wrappers
  import opened Text

  predicate IsByte(c: char) { c as int < 256 }

  predicate Bytes(s: string) { forall i :: 0 <= i < |s| ==> IsByte(s[i]) }

  /** Section 2.3 of RFC 3986 */
  predicate Unreserved(c: char) {
    'a' <= c <= 'z' || 'A' <= c <= 'Z' || '0' <= c <= '9' || c == '_' || c == '.' || c == '-' || c == '~'
  }

  function HexDigit(n: nat): char
    requires n < 16
  {
    if n < 10 then ('0' as int + n) as char else ('A' as int + n - 10) as char
  }

  function HexVal(c: char): Option<nat> {
    if '0' <= c <= '9' then Some(c as int - '0' as int)
    else if 'A' <= c <= 'F' then Some(c as int - 'A' as int + 10)
    else if 'a' <= c <= 'f' then Some(c as int - 'a' as int + 10)
    else None
  }

  function QuoteByte(c: char): string
    requires IsByte(c)
  {
    if Unreserved(c) then [c]
    else if c == ' ' then "+"
    else ['%', HexDigit(c as int / 16), HexDigit(c as int % 16)]
  }

  /** quote_plus */
  function Quote(s: string): string
    requires Bytes(s)
  {
    if s == [] then [] else QuoteByte(s[0]) + Quote(s[1..])
  }

  predicate Escape(s: string) {
    |s| >= 3 && s[0] == '%' && HexVal(s[1]).Some? && HexVal(s[2]).Some?
  }

  function EscapedByte(s: string): char
    requires Escape(s)
  {
    var n := 16 * HexVal(s[1]).value + HexVal(s[2]).value;
    if n < 256 then n as char else ' '
  }

  /** unquote: a percent sign without two hexadecimal digits after it stands for itself. */
  function Unquote(s: string): string {
    if s == [] then []
    else if Escape(s) then [EscapedByte(s)] + Unquote(s[3..])
    else [s[0]] + Unquote(s[1..])
  }

  /** unquote_plus */
  function UnquotePlus(s: string): string { Unquote(Replace(s, '+', ' ')) }

  lemma HexRoundTrip(c: char)
    requires IsByte(c) && c != ' ' && !Unreserved(c)
    ensures var q := QuoteByte(c); Escape(q) && EscapedByte(q) == c && '+' !in q
  {
    assert 16 * (c as int / 16) + c as int % 16 == c as int;
  }

  /** Every text survives quoting. */
  lemma {:induction false} QuoteRoundTrip(s: string)
    requires Bytes(s)
    ensures UnquotePlus(Quote(s)) == s
  {
    if s != [] {
      var c, rest := s[0], Quote(s[1..]);
      var q, r := QuoteByte(c), Replace(rest, '+', ' ');
      QuoteRoundTrip(s[1..]);
      assert Replace(q + rest, '+', ' ') == Replace(q, '+', ' ') + r;
      if Unreserved(c) || c == ' ' {
        assert Replace(q, '+', ' ') == [c];
        assert ([c] + r)[0] == c && ([c] + r)[1..] == r;
      } else {
        HexRoundTrip(c);
        assert Replace(q, '+', ' ') == q;
        assert (q + r)[3..] == r && Escape(q + r) && EscapedByte(q + r) == c;
      }
    }
  }

  predicate Quoted(s: string) { forall i :: 0 <= i < |s| ==> Unreserved(s[i]) || s[i] == '+' || s[i] == '%' }

  lemma {:induction false} QuoteIsQuoted(s: string)
    requires Bytes(s)
    ensures Quoted(Quote(s)) && (Quote(s) == [] <==> s == [])
  {
    if s != [] { QuoteIsQuoted(s[1..]); }
  }

  /** Each percent sign stands before two hexadecimal digits, upper-case as section 2.1 of RFC 3986 asks. */
  predicate UpperEscapes(s: string) {
    forall i :: 0 <= i < |s| && s[i] == '%' ==> i + 2 < |s| && UpperHex(s[i + 1]) && UpperHex(s[i + 2])
  }

  predicate UpperHex(c: char) { '0' <= c <= '9' || 'A' <= c <= 'F' }

  /** A quoted text holds no other characters than the unreserved ones, plus signs and upper-case escapes. */
  lemma {:induction false} QuoteWritesEscapes(s: string)
    requires Bytes(s)
    ensures Quoted(Quote(s)) && UpperEscapes(Quote(s))
  {
    QuoteIsQuoted(s);
    if s != [] {
      var q, rest := QuoteByte(s[0]), Quote(s[1..]);
      QuoteWritesEscapes(s[1..]);
      forall i | 0 <= i < |q + rest| && (q + rest)[i] == '%'
        ensures i + 2 < |q + rest| && UpperHex((q + rest)[i + 1]) && UpperHex((q + rest)[i + 2])
      {
        if i >= |q| {
          assert rest[i - |q|] == '%';
        } else {
          assert q[i] == '%';
        }
      }
    }
  }

  /** No percent sign is followed by two hexadecimal digits. */
  predicate NoEscape(s: string) { forall i :: 0 <= i < |s| ==> !Escape(s[i..]) }

  /** Unquoting once more leaves exactly the texts without an escape alone. */
  lemma {:induction false} UnquoteAgain(s: string)
    ensures |Unquote(s)| <= |s|
    ensures |Unquote(s)| == |s| <==> NoEscape(s)
    ensures Unquote(s) == s <==> NoEscape(s)
  {
    if s != [] {
      if Escape(s) {
        UnquoteAgain(s[3..]);
        assert s[0..] == s;
      } else {
        UnquoteAgain(s[1..]);
        assert s == [s[0]] + s[1..];
        assert forall i :: 0 <= i < |s| - 1 ==> s[1..][i..] == s[i + 1..];
        if NoEscape(s[1..]) {
          forall i | 0 <= i < |s| ensures !Escape(s[i..]) {
            if i == 0 { assert s[0..] == s; } else { assert s[i..] == s[1..][i - 1..]; }
          }
        }
      }
    }
  }

  // ---------- query strings ----------

  datatype Field = Field(name: string, value: string)

  predicate FieldBytes(fields: seq<Field>) {
    forall i :: 0 <= i < |fields| ==> Bytes(fields[i].name) && Bytes(fields[i].value)
  }

  function Written(f: Field): string
    requires Bytes(f.name) && Bytes(f.value)
  {
    Quote(f.name) + ("=" + Quote(f.value))
  }

  function AllWritten(fields: seq<Field>): (parts: seq<string>)
    requires FieldBytes(fields)
    ensures |parts| == |fields|
  {
    if fields == [] then [] else [Written(fields[0])] + AllWritten(fields[1..])
  }

  /** urlencode */
  function Urlencode(fields: seq<Field>): string
    requires FieldBytes(fields)
  {
    Join(AllWritten(fields), "&")
  }

  function Pair(part: string): seq<Field> {
    var k := IndexOf(part, '=');
    if k + 1 >= |part| then [] else [Field(UnquotePlus(part[..k]), UnquotePlus(part[k + 1..]))]
  }

  function Pairs(parts: seq<string>): seq<Field> {
    if parts == [] then [] else Pair(parts[0]) + Pairs(parts[1..])
  }

  /** parse_qs: parts without a value are dropped. */
  function ParseQs(q: string): seq<Field> { Pairs(Split(q, '&')) }

  function NonBlank(fields: seq<Field>): seq<Field> {
    if fields == [] then [] else (if fields[0].value == [] then [] else [fields[0]]) + NonBlank(fields[1..])
  }

  lemma PairAt(name: string, value: string)
    requires '=' !in name
    ensures Pair(name + ("=" + value))
         == if value == [] then [] else [Field(UnquotePlus(name), UnquotePlus(value))]
  {
    var part := name + ("=" + value);
    assert part[|name|] == '=' && forall i :: 0 <= i < |name| ==> part[i] == name[i];
    IndexOfIs(part, '=', |name|);
    assert part[..|name|] == name && part[|name| + 1..] == value;
  }

  lemma PairRoundTrip(f: Field)
    requires Bytes(f.name) && Bytes(f.value)
    ensures Pair(Written(f)) == if f.value == [] then [] else [f]
  {
    QuoteIsQuoted(f.name);
    QuoteIsQuoted(f.value);
    QuoteRoundTrip(f.name);
    QuoteRoundTrip(f.value);
    PairAt(Quote(f.name), Quote(f.value));
  }

  lemma {:induction false} PairsRoundTrip(fields: seq<Field>)
    requires FieldBytes(fields)
    ensures Pairs(AllWritten(fields)) == NonBlank(fields)
  {
    if fields != [] {
      PairRoundTrip(fields[0]);
      PairsRoundTrip(fields[1..]);
    }
  }

  predicate QueryText(s: string) {
    forall i :: 0 <= i < |s| ==> Unreserved(s[i]) || s[i] == '+' || s[i] == '%' || s[i] == '=' || s[i] == '&'
  }

  lemma WrittenOne(f: Field)
    requires Bytes(f.name) && Bytes(f.value)
    ensures QueryText(Written(f)) && '&' !in Written(f)
  {
    QuoteIsQuoted(f.name);
    QuoteIsQuoted(f.value);
  }

  lemma {:induction false} WrittenText(fields: seq<Field>)
    requires FieldBytes(fields)
    ensures forall p :: p in AllWritten(fields) ==> '&' !in p
    ensures QueryText(Urlencode(fields))
  {
    if fields != [] {
      WrittenText(fields[1..]);
      WrittenOne(fields[0]);
      var parts := AllWritten(fields);
      assert parts[1..] == AllWritten(fields[1..]);
    }
  }

  /** Reading an encoded query gives back every field that has a value, in order. */
  lemma UrlencodeRoundTrip(fields: seq<Field>)
    requires FieldBytes(fields)
    ensures ParseQs(Urlencode(fields)) == NonBlank(fields)
  {
    if fields == [] {
      IndexOfNone("", '&');
      assert Split("", '&') == [""] && Pair("") == [];
      assert Pairs([""]) == Pair("") + Pairs([""][1..]);
    } else {
      WrittenText(fields);
      SplitJoin(AllWritten(fields), '&');
      PairsRoundTrip(fields);
    }
  }

  /** qs.get(name): the first value under that name */
  function Lookup(fields: seq<Field>, name: string): Option<string> {
    if fields == [] then None
    else if fields[0].name == name then Some(fields[0].value)
    else Lookup(fields[1..], name)
  }
}
