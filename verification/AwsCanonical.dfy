/** The canonical parts of an AWS version 4 signature: percent-encoded query strings and sorted
    header lists. Percent-encoding is that of sections 2.1 and 2.3 of RFC 3986. Values are byte
    strings; what is built from them is ASCII text. */
module AwsCanonical {
  import opened Wrappers
  import opened Text
  import opened StringOrder

  type byte = x: int | 0 <= x < 256

  type Bytes = seq<byte>

  // ----- percent-encoding

  predicate IsUnreserved(b: int) {
    (0x41 <= b <= 0x5A) || (0x61 <= b <= 0x7A) || (0x30 <= b <= 0x39) || b == 0x2D || b == 0x5F || b == 0x2E || b == 0x7E
  }

  function HexDigit(n: int): char
    requires 0 <= n < 16
  {
    if n < 10 then (0x30 + n) as char else (0x41 + n - 10) as char
  }

  /** `url.QueryEscape` on one byte. */
  function EscapeByte(b: byte): string {
    if IsUnreserved(b) then [b as char]
    else if b == 0x20 then "+"
    else ['%', HexDigit(b / 16), HexDigit(b % 16)]
  }

  function QueryEscape(v: Bytes): string {
    if v == [] then "" else EscapeByte(v[0]) + QueryEscape(v[1..])
  }

  /** `strings.ReplaceAll(s, "+", "%20")`. */
  function ReplacePlus(s: string): string {
    if s == "" then "" else (if s[0] == '+' then "%20" else [s[0]]) + ReplacePlus(s[1..])
  }

  function AwsEscape(v: Bytes): string { ReplacePlus(QueryEscape(v)) }

  function HexValue(c: char): Option<int> {
    if '0' <= c <= '9' then Some(c as int - 0x30)
    else if 'A' <= c <= 'F' then Some(c as int - 0x41 + 10)
    else None
  }

  /** The first encoded byte of a text, with the number of characters it takes. */
  function DecodeOne(s: string): Option<(byte, nat)>
    requires s != ""
  {
    if s[0] == '%' then
      if |s| < 3 || HexValue(s[1]).None? || HexValue(s[2]).None? then None
      else Some((HexValue(s[1]).value * 16 + HexValue(s[2]).value, 3))
    else if IsUnreserved(s[0] as int) then Some((s[0] as int, 1))
    else None
  }

  /** Percent-decoding: only unreserved characters and percent triplets are accepted. */
  function Decode(s: string): Option<Bytes>
    decreases |s|
  {
    if s == "" then Some([])
    else
      match DecodeOne(s)
      case None => None
      case Some((b, size)) =>
        match Decode(s[size..])
        case None => None
        case Some(rest) => Some([b] + rest)
  }

  lemma {:induction false} ReplacePlusAppend(a: string, b: string)
    ensures ReplacePlus(a + b) == ReplacePlus(a) + ReplacePlus(b)
  {
    if a == "" {
      assert a + b == b;
    } else {
      assert (a + b)[1..] == a[1..] + b;
      ReplacePlusAppend(a[1..], b);
    }
  }

  function Triplet(b: byte): string {
    if IsUnreserved(b) then [b as char] else ['%', HexDigit(b / 16), HexDigit(b % 16)]
  }

  lemma ReplacePlusNone(s: string)
    requires |s| <= 3 && '+' !in s
    ensures ReplacePlus(s) == s
  {
    assert s == "" || s[1..] == "" || s[2..] == "" || s[3..] == "";
    if |s| >= 1 { assert s == [s[0]] + s[1..] && s[0] in s; }
    if |s| >= 2 { assert s[1..] == [s[1]] + s[2..] && s[1] in s; }
    if |s| >= 3 { assert s[2..] == [s[2]] + s[3..] && s[2] in s; }
  }

  lemma EscapeOne(b: byte)
    ensures ReplacePlus(EscapeByte(b)) == Triplet(b)
  {
    if b == 0x20 {
      assert ReplacePlus("+") == "%20" + ReplacePlus("+"[1..]);
      assert HexDigit(2) == '2' && HexDigit(0) == '0';
    } else {
      ReplacePlusNone(EscapeByte(b));
    }
  }

  /** The two passes together write each byte as an unreserved character or a triplet. */
  lemma AwsEscapeStep(v: Bytes)
    requires v != []
    ensures AwsEscape(v) == Triplet(v[0]) + AwsEscape(v[1..])
  {
    ReplacePlusAppend(EscapeByte(v[0]), QueryEscape(v[1..]));
    EscapeOne(v[0]);
  }

  predicate Harmless(c: char) { c != '&' && c != '=' && c != '+' }

  lemma DecodeTriplet(b: byte, rest: string)
    ensures DecodeOne(Triplet(b) + rest) == Some((b, |Triplet(b)|))
    ensures forall c <- Triplet(b) :: Harmless(c)
  {
  }

  /** Escaping emits only unreserved characters and percent triplets, so no separator, and decoding
      gives the value back. */
  lemma {:induction false} EscapeRoundTrip(v: Bytes)
    ensures Decode(AwsEscape(v)) == Some(v)
    ensures forall c <- AwsEscape(v) :: Harmless(c)
  {
    if v != [] {
      var s, rest := AwsEscape(v), AwsEscape(v[1..]);
      AwsEscapeStep(v);
      DecodeTriplet(v[0], rest);
      EscapeRoundTrip(v[1..]);
      assert s == Triplet(v[0]) + rest && s[|Triplet(v[0])|..] == rest;
      assert v == [v[0]] + v[1..];
    }
  }

  // ----- the canonical query string

  function Join(parts: seq<string>, separator: char): string {
    if parts == [] then "" else if |parts| == 1 then parts[0] else parts[0] + [separator] + Join(parts[1..], separator)
  }

  type Values = map<Bytes, seq<Bytes>>

  type Pair = (Bytes, Bytes)

  function PairString(p: Pair): string { AwsEscape(p.0) + "=" + AwsEscape(p.1) }

  /** An empty value list counts as one empty value. */
  function Items(items: seq<Bytes>): seq<Bytes> { if |items| == 0 then [[]] else items }

  function Count<T(==)>(s: seq<T>, x: T): nat {
    if s == [] then 0 else Count(s[..|s| - 1], x) + if s[|s| - 1] == x then 1 else 0
  }

  /** How often a pair occurs in the values. */
  function Multiplicity(values: Values, p: Pair): nat {
    if p.0 in values then Count(Items(values[p.0]), p.1) else 0
  }

  function MapAll<A, B>(s: seq<A>, f: A -> B): seq<B> {
    if s == [] then [] else MapAll(s[..|s| - 1], f) + [f(s[|s| - 1])]
  }

  function PairStrings(pairs: seq<Pair>): seq<string> { MapAll(pairs, PairString) }

  /** `pairs` lists the pairs of `values` in some order. */
  ghost predicate Lists(values: Values, pairs: seq<Pair>) {
    forall p: Pair :: Count(pairs, p) == Multiplicity(values, p)
  }

  /** `s` is a canonical query of `values`: its pairs, sorted as text and joined. */
  ghost predicate IsCanonical(values: Values, s: string) {
    exists pairs: seq<Pair> :: Lists(values, pairs) && s == Join(Sort(PairStrings(pairs)), '&')
  }

  /** The map yields its keys in an arbitrary order. */
  method CanonicalQuery(values: Values) returns (query: string)
    ensures IsCanonical(values, query)
  {
    var pairs: seq<string> := [];
    ghost var listed: seq<Pair> := [];
    var keys := values.Keys;
    while keys != {}
      invariant keys <= values.Keys && pairs == PairStrings(listed)
      invariant forall p: Pair :: Count(listed, p) == if p.0 in keys then 0 else Multiplicity(values, p)
      decreases keys
    {
      var key :| key in keys;
      pairs, listed := AppendItems(pairs, listed, key, Items(values[key]));
      keys := keys - {key};
    }
    query := Join(Sort(pairs), '&');
  }

  /** The inner loop: the pairs of one key. */
  method AppendItems(pairs: seq<string>, ghost listed: seq<Pair>, key: Bytes, items: seq<Bytes>)
    returns (pairs': seq<string>, ghost listed': seq<Pair>)
    requires pairs == PairStrings(listed)
    ensures pairs' == PairStrings(listed')
    ensures forall p: Pair :: Count(listed', p) == Count(listed, p) + if p.0 == key then Count(items, p.1) else 0
  {
    pairs', listed' := pairs, listed;
    for i := 0 to |items|
      invariant pairs' == PairStrings(listed')
      invariant forall p: Pair :: Count(listed', p) == Count(listed, p) + if p.0 == key then Count(items[..i], p.1) else 0
    {
      assert items[..i + 1][..i] == items[..i];
      ghost var longer := listed' + [(key, items[i])];
      assert longer[..|longer| - 1] == listed';
      pairs' := pairs' + [AwsEscape(key) + "=" + AwsEscape(items[i])];
      listed' := longer;
    }
    assert items[..|items|] == items;
  }

  lemma PairStringInjective(p: Pair, q: Pair)
    requires PairString(p) == PairString(q)
    ensures p == q
  {
    EscapeRoundTrip(p.0);
    EscapeRoundTrip(p.1);
    EscapeRoundTrip(q.0);
    EscapeRoundTrip(q.1);
    CutUnique('=', AwsEscape(p.0), AwsEscape(p.1), AwsEscape(q.0), AwsEscape(q.1));
  }

  lemma {:induction false} PairStringsCount(pairs: seq<Pair>, p: Pair)
    ensures multiset(PairStrings(pairs))[PairString(p)] == Count(pairs, p)
  {
    if pairs != [] {
      PairStringsCount(pairs[..|pairs| - 1], p);
      if PairString(pairs[|pairs| - 1]) == PairString(p) {
        PairStringInjective(pairs[|pairs| - 1], p);
      }
    }
  }

  lemma {:induction false} PairStringsElements(pairs: seq<Pair>)
    ensures |PairStrings(pairs)| == |pairs|
    ensures forall i :: 0 <= i < |pairs| ==> PairStrings(pairs)[i] == PairString(pairs[i])
  {
    if pairs != [] {
      PairStringsElements(pairs[..|pairs| - 1]);
    }
  }

  /** The query does not depend on the order in which the map yields its keys. */
  lemma CanonicalQueryIsUnique(values: Values, s1: string, s2: string)
    requires IsCanonical(values, s1) && IsCanonical(values, s2)
    ensures s1 == s2
  {
    var p1: seq<Pair> :| Lists(values, p1) && s1 == Join(Sort(PairStrings(p1)), '&');
    var p2: seq<Pair> :| Lists(values, p2) && s2 == Join(Sort(PairStrings(p2)), '&');
    SamePairStrings(p1, p2);
    SortSorts(PairStrings(p1));
    SortSorts(PairStrings(p2));
    SortedIsUnique(Sort(PairStrings(p1)), Sort(PairStrings(p2)));
  }

  lemma SamePairStrings(p1: seq<Pair>, p2: seq<Pair>)
    requires forall p: Pair :: Count(p1, p) == Count(p2, p)
    ensures multiset(PairStrings(p1)) == multiset(PairStrings(p2))
  {
    forall x: string
      ensures multiset(PairStrings(p1))[x] == multiset(PairStrings(p2))[x]
    {
      if x in PairStrings(p1) || x in PairStrings(p2) {
        PairStringsElements(p1);
        PairStringsElements(p2);
        var p: Pair :| x == PairString(p);
        PairStringsCount(p1, p);
        PairStringsCount(p2, p);
      } else {
        assert x !in multiset(PairStrings(p1)) && x !in multiset(PairStrings(p2));
      }
    }
  }

  // ----- reading a query back

  /** The part before the first '=' and the part after it, decoded. */
  function ParsePair(s: string): Option<Pair> {
    var cut := FirstEquals(s);
    if cut == |s| then None
    else
      match (Decode(s[..cut]), Decode(s[cut + 1..]))
      case (Some(k), Some(v)) => Some((k, v))
      case _ => None
  }

  function FirstEquals(s: string): (i: nat)
    ensures i <= |s|
  {
    if s == "" || s[0] == '=' then 0 else 1 + FirstEquals(s[1..])
  }

  /** All or nothing. */
  function TryAll<A, B>(s: seq<A>, f: A -> Option<B>): Option<seq<B>> {
    if s == [] then Some([])
    else
      match (TryAll(s[..|s| - 1], f), f(s[|s| - 1]))
      case (Some(before), Some(x)) => Some(before + [x])
      case _ => None
  }

  function ParsePairs(parts: seq<string>): Option<seq<Pair>> { TryAll(parts, ParsePair) }

  function Parse(query: string): Option<seq<Pair>> {
    if query == "" then Some([]) else ParsePairs(Split(query, '&'))
  }

  lemma {:induction false} FirstEqualsFinds(a: string, b: string)
    requires '=' !in a
    ensures FirstEquals(a + "=" + b) == |a|
  {
    if a != "" {
      assert (a + "=" + b)[1..] == a[1..] + "=" + b;
      assert a[0] in a && forall c <- a[1..] :: c in a;
      FirstEqualsFinds(a[1..], b);
    }
  }

  lemma ParsePairRoundTrip(p: Pair)
    ensures ParsePair(PairString(p)) == Some(p)
    ensures PairString(p) != "" && '&' !in PairString(p)
  {
    EscapeRoundTrip(p.0);
    EscapeRoundTrip(p.1);
    var a, b, s := AwsEscape(p.0), AwsEscape(p.1), PairString(p);
    FirstEqualsFinds(a, b);
    assert s[..|a|] == a && s[|a| + 1..] == b;
  }

  lemma {:induction false} SplitOne(a: string)
    requires '&' !in a
    ensures Split(a, '&') == [a]
  {
    if a != "" {
      assert a[0] in a && forall c <- a[1..] :: c in a;
      SplitOne(a[1..]);
      assert [a[0]] + a[1..] == a;
      assert Split(a, '&') == [[a[0]] + Split(a[1..], '&')[0]] + Split(a[1..], '&')[1..];
    }
  }

  lemma {:induction false} SplitFirst(a: string, rest: string)
    requires '&' !in a
    ensures Split(a + "&" + rest, '&') == [a] + Split(rest, '&')
  {
    if a == "" {
      assert (a + "&" + rest)[1..] == rest;
    } else {
      var s, tail := a + "&" + rest, a[1..] + "&" + rest;
      assert s[0] == a[0] && s[1..] == tail;
      assert a[0] in a && forall c <- a[1..] :: c in a;
      SplitFirst(a[1..], rest);
      assert [a[0]] + a[1..] == a;
      assert Split(s, '&') == [[a[0]] + Split(tail, '&')[0]] + Split(tail, '&')[1..];
    }
  }

  lemma {:induction false} SplitJoin(parts: seq<string>)
    requires parts != [] && forall s <- parts :: '&' !in s
    ensures Split(Join(parts, '&'), '&') == parts
  {
    assert parts[0] in parts;
    if |parts| == 1 {
      SplitOne(parts[0]);
    } else {
      assert forall s <- parts[1..] :: s in parts;
      SplitJoin(parts[1..]);
      SplitFirst(parts[0], Join(parts[1..], '&'));
    }
  }

  /** When `f` undoes `g` on every part, so do the lists. */
  lemma {:induction false} TryAllBack<A, B>(s: seq<A>, f: A -> Option<B>, g: B -> A)
    requires forall i :: 0 <= i < |s| ==> f(s[i]).Some? && g(f(s[i]).value) == s[i]
    ensures TryAll(s, f).Some? && MapAll(TryAll(s, f).value, g) == s
  {
    if s != [] {
      var n := |s| - 1;
      TryAllBack(s[..n], f, g);
      var before, x := TryAll(s[..n], f).value, f(s[n]).value;
      assert (before + [x])[..|before|] == before;
    }
  }

  lemma PartsAreReadable(pairs: seq<Pair>)
    ensures var parts := Sort(PairStrings(pairs));
            forall i :: 0 <= i < |parts| ==>
              && ParsePair(parts[i]).Some? && PairString(ParsePair(parts[i]).value) == parts[i]
              && '&' !in parts[i] && parts[i] != ""
  {
    var parts := Sort(PairStrings(pairs));
    SortSorts(PairStrings(pairs));
    forall i | 0 <= i < |parts|
      ensures ParsePair(parts[i]).Some? && PairString(ParsePair(parts[i]).value) == parts[i]
      ensures '&' !in parts[i] && parts[i] != ""
    {
      assert parts[i] in multiset(parts);
      assert parts[i] in multiset(PairStrings(pairs));
      var k := FindPair(pairs, parts[i]);
      ParsePairRoundTrip(pairs[k]);
    }
  }

  lemma FindPair(pairs: seq<Pair>, s: string) returns (k: nat)
    requires s in multiset(PairStrings(pairs))
    ensures k < |pairs| && PairString(pairs[k]) == s
  {
    PairStringsElements(pairs);
    k :| 0 <= k < |pairs| && PairStrings(pairs)[k] == s;
  }

  lemma SameCounts(p1: seq<Pair>, p2: seq<Pair>, p: Pair)
    requires multiset(PairStrings(p1)) == multiset(PairStrings(p2))
    ensures Count(p1, p) == Count(p2, p)
  {
    PairStringsCount(p1, p);
    PairStringsCount(p2, p);
  }

  lemma ParseJoined(parts: seq<string>)
    requires forall i :: 0 <= i < |parts| ==>
               && ParsePair(parts[i]).Some? && PairString(ParsePair(parts[i]).value) == parts[i]
               && '&' !in parts[i] && parts[i] != ""
    ensures Parse(Join(parts, '&')).Some? && PairStrings(Parse(Join(parts, '&')).value) == parts
  {
    if parts != [] {
      SplitJoin(parts);
      TryAllBack(parts, ParsePair, PairString);
      assert Join(parts, '&') != "";
    }
  }

  /** A canonical query can be read back: splitting and decoding it gives exactly the pairs of the
      values, each as often as it occurs. */
  lemma CanonicalQueryRoundTrip(values: Values, s: string)
    requires IsCanonical(values, s)
    ensures Parse(s).Some? && Lists(values, Parse(s).value)
  {
    var pairs: seq<Pair> :| Lists(values, pairs) && s == Join(Sort(PairStrings(pairs)), '&');
    SortSorts(PairStrings(pairs));
    PartsAreReadable(pairs);
    ParseJoined(Sort(PairStrings(pairs)));
    forall p: Pair
      ensures Count(Parse(s).value, p) == Count(pairs, p)
    {
      SameCounts(Parse(s).value, pairs, p);
    }
  }
}
