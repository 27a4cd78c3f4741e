/** The author parse of the popup's start-up handler: the anchored pattern
      ^("?([^"]+)"?\s+)?<?([\w._%+-]+)@([\w.-]+\.[a-zA-Z]{2,})>?$
    written as a hand-made parser over strings, with the pattern itself stated
    relationally (`BareForm`, `NamedForm`) and the parser proved sound and
    complete against it, including which display name JavaScript's
    backtracking chooses when several decompositions exist. */
module Address {
  import opened Common
  import opened Text

  /** `\w` (ASCII in JavaScript), and the two bracket classes of the pattern. */
  predicate IsWordChar(c: char) {
    ('a' <= c <= 'z') || ('A' <= c <= 'Z') || ('0' <= c <= '9') || c == '_'
  }

  predicate IsLocalChar(c: char) {
    IsWordChar(c) || c == '.' || c == '%' || c == '+' || c == '-'
  }

  predicate IsDomainChar(c: char) {
    IsWordChar(c) || c == '.' || c == '-'
  }

  predicate IsAsciiLetter(c: char) {
    ('a' <= c <= 'z') || ('A' <= c <= 'Z')
  }

  /** `[\w._%+-]+`: capture 3, the sender. */
  predicate IsLocalPart(l: string) {
    |l| > 0 && forall i | 0 <= i < |l| :: IsLocalChar(l[i])
  }

  /** The dot at `p` is followed only by ASCII letters up to the end. */
  predicate DotBeforeLetters(d: string, p: nat) {
    p < |d| && d[p] == '.' && forall j | p < j < |d| :: IsAsciiLetter(d[j])
  }

  /** `[\w.-]+\.[a-zA-Z]{2,}`: capture 4, the domain. */
  predicate IsDomain(d: string) {
    && (forall i | 0 <= i < |d| :: IsDomainChar(d[i]))
    && exists p | 1 <= p < |d| - 2 :: DotBeforeLetters(d, p)
  }

  /** An optional single character of the pattern (`"?`, `<?`, `>?`). */
  function Opt(present: bool, c: char): string {
    if present then [c] else []
  }

  /** The text `<?local@domain>?`. */
  function AddressText(open: bool, local: string, domain: string, close: bool): string {
    Opt(open, '<') + ((local + "@" + domain) + Opt(close, '>'))
  }

  /** The text `"?name"?gap` of the optional group 1. */
  function NameText(lead: bool, name: string, trail: bool, gap: string): string {
    Opt(lead, '"') + (name + Opt(trail, '"') + gap)
  }

  /** Captures 3 and 4 are drawn from their character classes. */
  predicate Captures(local: string, domain: string) {
    IsLocalPart(local) && IsDomain(domain)
  }

  /** `[^"]+` for the name and `\s+` for the gap after it. */
  predicate NamePart(name: string, gap: string) {
    |name| > 0 && '"' !in name && |gap| > 0 && AllSpace(gap)
  }

  /** `s` matches the pattern with group 1 absent. */
  ghost predicate BareForm(s: string, open: bool, local: string, domain: string, close: bool) {
    s == AddressText(open, local, domain, close) && Captures(local, domain)
  }

  /** `s` matches the pattern with group 1 present and capture 2 equal to `name`. */
  ghost predicate NamedForm(s: string, lead: bool, name: string, trail: bool, gap: string,
                            open: bool, local: string, domain: string, close: bool) {
    && NamePart(name, gap) && Captures(local, domain)
    && s == NameText(lead, name, trail, gap) + AddressText(open, local, domain, close)
  }

  /** The captures of a successful match; `name` is `match[2] || ''`. */
  datatype ParseResult = Parsed(name: string, sender: string, domain: string) | NoMatch

  /** The optional character `c` at the start of `t` (`"?`, `<?`): greedy, so
      it is taken whenever it is there. */
  function StripFirst(t: string, c: char): (r: (bool, string))
    ensures t == Opt(r.0, c) + r.1
    ensures r.0 <==> |t| > 0 && t[0] == c
  {
    if |t| > 0 && t[0] == c then (true, t[1..]) else (false, t)
  }

  /** The optional character `c` at the end of `t` (`>?`). */
  function StripLast(t: string, c: char): (r: (string, bool))
    ensures t == r.0 + Opt(r.1, c)
    ensures r.1 <==> |t| > 0 && t[|t| - 1] == c
  {
    if |t| > 0 && t[|t| - 1] == c then (t[..|t| - 1], true) else (t, false)
  }

  /** `t` split around its first `c`, if it has one. */
  function SplitFirst(t: string, c: char): (r: Option<(string, string)>)
    ensures r.Some? ==> t == r.value.0 + [c] + r.value.1 && c !in r.value.0
    ensures r.None? <==> c !in t
  {
    var i := Find(t, c);
    if i < |t| then
      assert t == t[..i] + [c] + t[i + 1..];
      Some((t[..i], t[i + 1..]))
    else None
  }

  /** Matches `t` against `<?([\w._%+-]+)@([\w.-]+\.[a-zA-Z]{2,})>?` as a whole.
      Neither capture can hold `<`, `>` or `@`, so each optional bracket is
      taken exactly when present and the split is at the first `@`. */
  function ParseAddress(t: string): (r: Option<(string, string)>)
    ensures r.Some? ==> Captures(r.value.0, r.value.1)
  {
    var (open, t1) := StripFirst(t, '<');
    var (t2, close) := StripLast(t1, '>');
    match SplitFirst(t2, '@')
    case Some((local, domain)) =>
      if Captures(local, domain) then Some((local, domain)) else None
    case None => None
  }

  /** Matches `p` against `"?([^"]+)"?\s+` as a whole and returns capture 2 as
      the backtracking matcher picks it. The name cannot hold a quote, so a
      quote after it must be the closing `"?` with only white space behind;
      without one, the longest name leaves a single white-space character to
      `\s+`. */
  function ParseName(p: string): Option<string> {
    NameAfterQuote(StripFirst(p, '"').1)
  }

  /** The rest of group 1 once an opening quote is consumed: `([^"]+)"?\s+`. */
  function NameAfterQuote(inner: string): Option<string> {
    match SplitFirst(inner, '"')
    case Some((name, gap)) =>
      if NamePart(name, gap) then Some(name) else None
    case None =>
      if 2 <= |inner| && IsSpace(inner[|inner| - 1]) then Some(inner[..|inner| - 1]) else None
  }

  /** `author.match(addressRegex)`. No character of the address part is white
      space, so the address part is the longest white-space-free suffix and
      group 1, when present, is everything before it. */
  function Parse(author: string): (r: ParseResult)
    ensures r.Parsed? ==> Captures(r.sender, r.domain)
  {
    var k := AfterLastSpace(author);
    var address := ParseAddress(author[k..]);
    var name := if k == 0 then Some("") else ParseName(author[..k]);
    if address.Some? && name.Some? then Parsed(name.value, address.value.0, address.value.1)
    else NoMatch
  }

  /** The three variables the handler sets: all `undefined` on a failed match. */
  datatype AuthorFields = AuthorFields(name: Option<string>, sender: Option<string>, domain: Option<string>)

  function FieldsOf(author: string): (f: AuthorFields)
    ensures f.name.Some? == f.sender.Some? == f.domain.Some? == Parse(author).Parsed?
    ensures f.sender.Some? ==> Truthy(f.sender) && Truthy(f.domain)
    ensures f.sender.Some? ==> IsLocalPart(f.sender.value) && IsDomain(f.domain.value)
  {
    match Parse(author)
    case Parsed(name, sender, domain) => AuthorFields(Some(name), Some(sender), Some(domain))
    case NoMatch => AuthorFields(None, None, None)
  }

  // ---------------------------------------------------------------------------
  // Properties of the captures

  /** The domain holds a dot and ends in at least two ASCII letters. */
  lemma DomainEndsInLetters(d: string)
    requires IsDomain(d)
    ensures '.' in d && |d| >= 4
    ensures IsAsciiLetter(d[|d| - 1]) && IsAsciiLetter(d[|d| - 2])
  {
    var p :| 1 <= p < |d| - 2 && DotBeforeLetters(d, p);
    assert d[p] == '.';
  }

  lemma AddressHasNoSpace(open: bool, local: string, domain: string, close: bool)
    requires IsLocalPart(local) && IsDomain(domain)
    ensures NoSpace(AddressText(open, local, domain, close))
  {
    var t := AddressText(open, local, domain, close);
    var o := Opt(open, '<');
    forall i | 0 <= i < |t| ensures !IsSpace(t[i]) {
      if i < |o| {
      } else if i < |o| + |local| {
        assert t[i] == local[i - |o|];
      } else if i == |o| + |local| {
      } else if i < |o| + |local| + 1 + |domain| {
        assert t[i] == domain[i - |o| - |local| - 1];
      }
    }
  }

  lemma SplitJoin(s: string, k: nat)
    requires k <= |s|
    ensures s[..k] + s[k..] == s
  {
  }

  lemma AfterLastSpaceAt(s: string, k: nat)
    requires k <= |s| && (k > 0 ==> IsSpace(s[k - 1]))
    requires forall j | k <= j < |s| :: !IsSpace(s[j])
    ensures AfterLastSpace(s) == k
  {
  }

  // ---------------------------------------------------------------------------
  // Soundness and completeness of the address part

  lemma StripFirstOf(present: bool, c: char, rest: string)
    requires |rest| > 0 && rest[0] != c
    ensures StripFirst(Opt(present, c) + rest, c) == (present, rest)
  {
    var t := Opt(present, c) + rest;
    if present { assert t[1..] == rest; } else { assert t == rest; }
  }

  lemma StripLastOf(rest: string, present: bool, c: char)
    requires |rest| > 0 && rest[|rest| - 1] != c
    ensures StripLast(rest + Opt(present, c), c) == (rest, present)
  {
    var t := rest + Opt(present, c);
    if present { assert t[..|t| - 1] == rest; } else { assert t == rest; }
  }

  lemma SplitFirstOf(a: string, c: char, b: string)
    requires c !in a
    ensures SplitFirst(a + [c] + b, c) == Some((a, b))
  {
    var t := a + [c] + b;
    assert t[|a|] == c;
    assert forall j | 0 <= j < |a| :: t[j] == a[j] && a[j] != c;
    assert Find(t, c) == |a|;
    assert t[..|a|] == a && t[|a| + 1..] == b;
  }

  /** The captures hold neither white space nor angle brackets. */
  lemma CapturesArePlain(local: string, domain: string)
    requires Captures(local, domain)
    ensures NoSpace(local) && NoSpace(domain)
    ensures '<' !in local && '>' !in local && '<' !in domain && '>' !in domain
  {
  }

  lemma ParseAddressComplete(open: bool, local: string, domain: string, close: bool)
    requires Captures(local, domain)
    ensures ParseAddress(AddressText(open, local, domain, close)) == Some((local, domain))
  {
    var t2 := local + "@" + domain;
    var t1 := t2 + Opt(close, '>');
    assert AddressText(open, local, domain, close) == Opt(open, '<') + t1;
    assert t1[0] == local[0];
    StripFirstOf(open, '<', t1);
    assert t2[|t2| - 1] == domain[|domain| - 1];
    StripLastOf(t2, close, '>');
    SplitFirstOf(local, '@', domain);
    assert SplitFirst(t2, '@') == Some((local, domain));
  }

  lemma ParseAddressSound(t: string) returns (open: bool, close: bool)
    requires ParseAddress(t).Some?
    ensures t == AddressText(open, ParseAddress(t).value.0, ParseAddress(t).value.1, close)
  {
    var t1, t2;
    open, t1 := StripFirst(t, '<').0, StripFirst(t, '<').1;
    t2, close := StripLast(t1, '>').0, StripLast(t1, '>').1;
  }

  // ---------------------------------------------------------------------------
  // Soundness and completeness of group 1

  lemma NotInAppend(a: string, b: string, c: char)
    requires c !in a && c !in b
    ensures c !in a + b
  {
  }

  lemma AppendNothing(a: string, b: string)
    ensures a + [] + b == a + b
  {
  }

  lemma DropLastOfAppend(a: string, b: string)
    requires |b| > 0
    ensures (a + b)[..|a| + |b| - 1] == a + b[..|b| - 1]
  {
  }

  lemma NoQuoteInSpaces(gap: string)
    requires AllSpace(gap)
    ensures '"' !in gap
  {
    assert forall i | 0 <= i < |gap| :: gap[i] != '"';
  }

  lemma QuotedNameComplete(name: string, gap: string)
    requires NamePart(name, gap)
    ensures NameAfterQuote(name + ['"'] + gap) == Some(name)
  {
    SplitFirstOf(name, '"', gap);
  }

  lemma UnquotedNameComplete(name: string, gap: string)
    requires NamePart(name, gap)
    ensures NameAfterQuote(name + gap) == Some(name + gap[..|gap| - 1])
  {
    NoQuoteInSpaces(gap);
    NotInAppend(name, gap, '"');
    DropLastOfAppend(name, gap);
  }

  lemma ParseNameComplete(lead: bool, name: string, trail: bool, gap: string)
    requires NamePart(name, gap)
    ensures ParseName(NameText(lead, name, trail, gap))
         == Some(if trail then name else name + gap[..|gap| - 1])
  {
    var inner := name + Opt(trail, '"') + gap;
    assert inner[0] == name[0];
    StripFirstOf(lead, '"', inner);
    if trail {
      QuotedNameComplete(name, gap);
    } else {
      AppendNothing(name, gap);
      UnquotedNameComplete(name, gap);
    }
  }

  lemma ParseNameSound(p: string) returns (lead: bool, trail: bool, gap: string)
    requires ParseName(p).Some?
    ensures NamePart(ParseName(p).value, gap)
    ensures p == NameText(lead, ParseName(p).value, trail, gap)
  {
    var inner := StripFirst(p, '"').1;
    lead := StripFirst(p, '"').0;
    var name := ParseName(p).value;
    match SplitFirst(inner, '"')
    case Some((n, g)) =>
      trail, gap := true, g;
    case None =>
      trail, gap := false, [inner[|inner| - 1]];
      assert inner == name + gap;
  }

  // ---------------------------------------------------------------------------
  // The parser agrees with the pattern

  /** How `Parse` arrives at a successful result, one step at a time. */
  lemma ParseSteps(s: string)
    requires Parse(s).Parsed?
    ensures var k := AfterLastSpace(s); var r := Parse(s);
      && ParseAddress(s[k..]) == Some((r.sender, r.domain))
      && (k == 0 ==> r.name == "")
      && (k > 0 ==> ParseName(s[..k]) == Some(r.name))
  {
  }

  /** Every successful parse is a match of the pattern, with group 1 absent
      exactly when the name is empty. */
  lemma ParseSound(s: string) returns (lead: bool, trail: bool, gap: string, open: bool, close: bool)
    requires Parse(s).Parsed?
    ensures var r := Parse(s);
      && (r.name == "" ==> BareForm(s, open, r.sender, r.domain, close))
      && (r.name != "" ==> NamedForm(s, lead, r.name, trail, gap, open, r.sender, r.domain, close))
  {
    var k := AfterLastSpace(s);
    var r := Parse(s);
    ParseSteps(s);
    open, close := ParseAddressSound(s[k..]);
    if k == 0 {
      assert s[k..] == s;
      lead, trail, gap := false, false, "";
    } else {
      lead, trail, gap := ParseNameSound(s[..k]);
      SplitJoin(s, k);
    }
  }

  /** An author that is just an address parses with an empty name. */
  lemma ParseCompleteBare(s: string, open: bool, local: string, domain: string, close: bool)
    requires BareForm(s, open, local, domain, close)
    ensures Parse(s) == Parsed("", local, domain)
  {
    AddressHasNoSpace(open, local, domain, close);
    AfterLastSpaceAt(s, 0);
    ParseAddressComplete(open, local, domain, close);
    ParseWithoutName(s, local, domain);
  }

  /** With no white space before the address, group 1 is absent and the name
      is empty. */
  lemma ParseWithoutName(s: string, local: string, domain: string)
    requires AfterLastSpace(s) == 0 && ParseAddress(s) == Some((local, domain))
    ensures Parse(s) == Parsed("", local, domain)
  {
    assert s[0..] == s;
  }

  /** An author with a display name parses with the same sender and domain,
      and with the name the backtracking matcher settles on: the quoted name
      exactly, or an unquoted name extended by all of the gap but its last
      white-space character. */
  lemma ParseCompleteNamed(s: string, lead: bool, name: string, trail: bool, gap: string,
                           open: bool, local: string, domain: string, close: bool)
    requires NamedForm(s, lead, name, trail, gap, open, local, domain, close)
    ensures Parse(s) == Parsed(if trail then name else name + gap[..|gap| - 1], local, domain)
  {
    var p := NameText(lead, name, trail, gap);
    var a := AddressText(open, local, domain, close);
    AddressHasNoSpace(open, local, domain, close);
    assert s[..|p|] == p && s[|p|..] == a;
    assert s[|p| - 1] == gap[|gap| - 1];
    forall j | |p| <= j < |s| ensures !IsSpace(s[j]) {
      assert s[j] == a[j - |p|];
    }
    AfterLastSpaceAt(s, |p|);
    ParseAddressComplete(open, local, domain, close);
    ParseNameComplete(lead, name, trail, gap);
  }

  /** No decomposition of a non-matching author fits the pattern. */
  lemma ParseNoMatch(s: string, lead: bool, name: string, trail: bool, gap: string,
                     open: bool, local: string, domain: string, close: bool)
    requires Parse(s) == NoMatch
    ensures !BareForm(s, open, local, domain, close)
    ensures !NamedForm(s, lead, name, trail, gap, open, local, domain, close)
  {
    if BareForm(s, open, local, domain, close) {
      ParseCompleteBare(s, open, local, domain, close);
    }
    if NamedForm(s, lead, name, trail, gap, open, local, domain, close) {
      ParseCompleteNamed(s, lead, name, trail, gap, open, local, domain, close);
    }
  }

  lemma AtInAddress(open: bool, local: string, domain: string, close: bool)
    ensures '@' in AddressText(open, local, domain, close)
  {
    assert AddressText(open, local, domain, close)[|Opt(open, '<')| + |local|] == '@';
  }

  lemma InSuffix(x: string, y: string, c: char)
    requires c in y
    ensures c in x + y
  {
    var i :| 0 <= i < |y| && y[i] == c;
    assert (x + y)[|x| + i] == c;
  }

  /** An author that matches holds an `@`. */
  lemma ParseNeedsAt(s: string)
    ensures Parse(s).Parsed? ==> '@' in s
  {
    if Parse(s).Parsed? {
      var r := Parse(s);
      var lead, trail, gap, open, close := ParseSound(s);
      AtInAddress(open, r.sender, r.domain, close);
      if r.name != "" {
        InSuffix(NameText(lead, r.name, trail, gap), AddressText(open, r.sender, r.domain, close), '@');
      }
    }
  }

  // ---------------------------------------------------------------------------
  // Examples

  lemma QuotedPieces()
    ensures NamePart("Jane Doe", " ") && Captures("jane", "example.com")
  {
    assert DotBeforeLetters("example.com", 7);
  }

  lemma QuotedText(s: string)
    requires s == "\"Jane Doe\" <jane@example.com>"
    ensures s == NameText(true, "Jane Doe", true, " ") + AddressText(true, "jane", "example.com", true)
  {
  }

  lemma ExampleQuotedName(s: string)
    requires s == "\"Jane Doe\" <jane@example.com>"
    ensures Parse(s) == Parsed("Jane Doe", "jane", "example.com")
  {
    QuotedPieces();
    QuotedText(s);
    ParseCompleteNamed(s, true, "Jane Doe", true, " ", true, "jane", "example.com", true);
  }

  lemma BareText(s: string)
    requires s == "jane@example.com"
    ensures s == AddressText(false, "jane", "example.com", false)
  {
  }

  lemma ExampleBareAddress(s: string)
    requires s == "jane@example.com"
    ensures Parse(s) == Parsed("", "jane", "example.com")
  {
    QuotedPieces();
    BareText(s);
    ParseCompleteBare(s, false, "jane", "example.com", false);
  }

  /** An author without `@`, such as `not an email`, never matches. */
  lemma NoAtNoMatch(s: string)
    requires '@' !in s
    ensures Parse(s) == NoMatch
  {
    ParseNeedsAt(s);
  }
}
