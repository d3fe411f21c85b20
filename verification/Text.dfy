/** The parts of Go's `strings` package the models need. */
module Text {

  /** The code points `strings.TrimSpace` removes. */
  predicate IsSpace(c: char) {
    c in {'\t', '\n', '\U{0B}', '\U{0C}', '\r', ' ', '\U{85}', '\U{A0}', '\U{1680}', '\U{2028}', '\U{2029}', '\U{202F}', '\U{205F}', '\U{3000}'}
    || '\U{2000}' <= c <= '\U{200A}'
  }

  predicate Blank(s: string) {
    forall c <- s :: IsSpace(c)
  }

  function TrimLeft(s: string): string {
    if s != "" && IsSpace(s[0]) then TrimLeft(s[1..]) else s
  }

  function TrimRight(s: string): string {
    if s != "" && IsSpace(s[|s| - 1]) then TrimRight(s[..|s| - 1]) else s
  }

  function Trim(s: string): string { TrimRight(TrimLeft(s)) }

  predicate HasPrefix(s: string, prefix: string) {
    |prefix| <= |s| && s[..|prefix|] == prefix
  }

  /** The text before and after the first separator is determined by the whole. */
  lemma CutUnique(separator: char, a1: string, b1: string, a2: string, b2: string)
    requires separator !in a1 && separator !in a2 && a1 + [separator] + b1 == a2 + [separator] + b2
    ensures a1 == a2 && b1 == b2
  {
    var t := a1 + [separator] + b1;
    assert t[|a1|] == separator && t[|a2|] == separator;
    assert forall i :: 0 <= i < |a1| ==> t[i] == a1[i] && a1[i] in a1;
    assert forall i :: 0 <= i < |a2| ==> t[i] == a2[i] && a2[i] in a2;
    assert a1 == t[..|a1|] && a2 == t[..|a2|];
    assert b1 == t[|a1| + 1..] && b2 == t[|a2| + 1..];
  }

  /** What Go's `len` gives: the bytes of the UTF-8 encoding (section 3 of RFC 3629). */
  function ByteLength(s: string): nat {
    if s == "" then 0
    else (if s[0] < '\U{80}' then 1 else if s[0] < '\U{800}' then 2 else if s[0] < '\U{10000}' then 3 else 4) + ByteLength(s[1..])
  }

  function Split(s: string, separator: char): (parts: seq<string>)
    ensures parts != []
  {
    if s == "" then [""]
    else if s[0] == separator then [""] + Split(s[1..], separator)
    else
      var rest := Split(s[1..], separator);
      [[s[0]] + rest[0]] + rest[1..]
  }
}
