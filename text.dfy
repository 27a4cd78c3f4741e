/** The string primitives the popup script relies on: the `\s` class of
    JavaScript regular expressions, `String.prototype.trim`, `toLowerCase`
    on ASCII letters, and `includes`. */
module Text {

  /** JavaScript's white space and line terminators: the characters `\s`
      matches and `trim` removes. */
  predicate IsSpace(c: char) {
    c == ' ' || c == '\t' || c == '\n' || c == '\r' || c == '\U{000B}' || c == '\U{000C}'
    || c == '\U{00A0}' || c == '\U{1680}' || ('\U{2000}' <= c <= '\U{200A}')
    || c == '\U{2028}' || c == '\U{2029}' || c == '\U{202F}' || c == '\U{205F}'
    || c == '\U{3000}' || c == '\U{FEFF}'
  }

  predicate AllSpace(s: string) {
    forall i | 0 <= i < |s| :: IsSpace(s[i])
  }

  predicate NoSpace(s: string) {
    forall i | 0 <= i < |s| :: !IsSpace(s[i])
  }

  /** Number of white-space characters at the start of `s`. */
  function LeadingSpaces(s: string): (n: nat)
    ensures n <= |s|
    ensures forall i | 0 <= i < n :: IsSpace(s[i])
    ensures n < |s| ==> !IsSpace(s[n])
  {
    if s == [] || !IsSpace(s[0]) then 0
    else 1 + LeadingSpaces(s[1..])
  }

  /** Number of white-space characters at the end of `s`. */
  function TrailingSpaces(s: string): (n: nat)
    ensures n <= |s|
    ensures forall i | |s| - n <= i < |s| :: IsSpace(s[i])
    ensures n < |s| ==> !IsSpace(s[|s| - n - 1])
  {
    if s == [] || !IsSpace(s[|s| - 1]) then 0
    else 1 + TrailingSpaces(s[..|s| - 1])
  }

  /** The bounds `(i, j)` of `s.trim()` inside `s`: everything outside them is
      white space and the kept part neither starts nor ends with white space. */
  function TrimBounds(s: string): (b: (nat, nat))
    ensures b.0 <= b.1 <= |s|
    ensures forall i | 0 <= i < b.0 :: IsSpace(s[i])
    ensures forall i | b.1 <= i < |s| :: IsSpace(s[i])
    ensures b.0 < b.1 ==> !IsSpace(s[b.0]) && !IsSpace(s[b.1 - 1])
  {
    var i := LeadingSpaces(s);
    var n := TrailingSpaces(s[i..]);
    (i, |s| - n)
  }

  /** `s.trim()`. */
  function Trim(s: string): string {
    var b := TrimBounds(s);
    s[b.0..b.1]
  }

  /** `toLowerCase` restricted to ASCII: `A`..`Z` become `a`..`z`. */
  function LowerChar(c: char): char {
    if 'A' <= c <= 'Z' then (c as int + 32) as char else c
  }

  function Lower(s: string): (r: string)
    ensures |r| == |s|
    ensures forall i | 0 <= i < |s| :: r[i] == LowerChar(s[i])
  {
    seq(|s|, i requires 0 <= i < |s| => LowerChar(s[i]))
  }

  /** The normalisation the collector applies to a criterion: `s.trim().toLowerCase()`. */
  function Norm(s: string): string {
    Lower(Trim(s))
  }

  /** `sub` occurs in `s` starting at index `i`. */
  predicate OccursAt(s: string, sub: string, i: nat) {
    i + |sub| <= |s| && s[i..i + |sub|] == sub
  }

  /** `s.includes(sub)`: `sub` occurs in `s` as a contiguous substring. */
  predicate Contains(s: string, sub: string) {
    exists i | 0 <= i <= |s| :: OccursAt(s, sub, i)
  }

  /** Index of the first `c` in `s`, or `|s|` when there is none. */
  function Find(s: string, c: char): (i: nat)
    ensures i <= |s|
    ensures i < |s| ==> s[i] == c
    ensures forall j | 0 <= j < i :: s[j] != c
  {
    if s == [] then 0
    else if s[0] == c then 0
    else 1 + Find(s[1..], c)
  }

  /** Index just after the last white-space character of `s`, or 0 when `s`
      holds none: `s[k..]` is the longest suffix without white space. */
  function AfterLastSpace(s: string): (k: nat)
    ensures k <= |s|
    ensures k > 0 ==> IsSpace(s[k - 1])
    ensures forall j | k <= j < |s| :: !IsSpace(s[j])
  {
    if s == [] then 0
    else if IsSpace(s[|s| - 1]) then |s|
    else AfterLastSpace(s[..|s| - 1])
  }

  /** `trim` removes white space from both ends and nothing else: what it
      returns is the middle of a split of `s` whose outer parts are white
      space and whose middle neither starts nor ends with white space. */
  lemma TrimSplit(s: string) returns (pre: string, post: string)
    ensures s == pre + Trim(s) + post
    ensures AllSpace(pre) && AllSpace(post)
    ensures Trim(s) != [] ==> !IsSpace(Trim(s)[0]) && !IsSpace(Trim(s)[|Trim(s)| - 1])
  {
    var b := TrimBounds(s);
    pre, post := s[..b.0], s[b.1..];
    assert s == s[..b.0] + s[b.0..b.1] + s[b.1..];
  }

  /** A string without white space is its own trim. */
  lemma TrimOfNoSpace(s: string)
    requires NoSpace(s)
    ensures Trim(s) == s
  {
    var b := TrimBounds(s);
    if 0 < |s| {
      assert IsSpace(s[0]) || b.0 == 0;
      assert IsSpace(s[|s| - 1]) || b.1 == |s|;
    }
  }

  /** Lower-casing leaves no upper-case letter, so a second lower-casing
      changes nothing. */
  lemma LowerNormalises(s: string)
    ensures forall i | 0 <= i < |s| :: !('A' <= Lower(s)[i] <= 'Z')
    ensures Lower(Lower(s)) == Lower(s)
  {
  }

  /** Lower-casing creates and removes no character other than a letter. */
  lemma LowerKeeps(s: string, c: char)
    requires !('a' <= c <= 'z') && !('A' <= c <= 'Z')
    ensures c in Lower(s) <==> c in s
  {
    if c in s {
      var i :| 0 <= i < |s| && s[i] == c;
      assert Lower(s)[i] == c;
    }
    if c in Lower(s) {
      var i :| 0 <= i < |s| && Lower(s)[i] == c;
      assert s[i] == c;
    }
  }
}
