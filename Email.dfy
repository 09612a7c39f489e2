/**
  The e-mail validator of the blueprint version of the service.

  The source accepts an address when Python's `re.match` finds the pattern
  `^[a-zA-Z0-9_.+-]+@[a-zA-Z0-9-]+\.[a-zA-Z0-9-.]+$` in it.  Python parses the
  last class as letters, digits, `-` and `.`, and its `$` matches at the very end
  of the string or just before one final newline.

  `IsValidEmail` decides the pattern deterministically (first `@`, then the first
  `.` after it); `PatternMatches` states the pattern as the regular expression
  does, by an arbitrary split; `IsValidEmailMeansPattern` proves them equal.
*/
module Email {
  import opened Wrappers

  /** `[a-zA-Z0-9_.+-]`: characters of the part before the `@`. */
  predicate IsLocalChar(c: char) {
    'a' <= c <= 'z' || 'A' <= c <= 'Z' || '0' <= c <= '9' || c == '_' || c == '.' || c == '+' || c == '-'
  }

  /** `[a-zA-Z0-9-]`: characters of the label between the `@` and the first `.`. */
  predicate IsLabelChar(c: char) {
    'a' <= c <= 'z' || 'A' <= c <= 'Z' || '0' <= c <= '9' || c == '-'
  }

  /** `[a-zA-Z0-9-.]`: characters of everything after that `.`. */
  predicate IsTailChar(c: char) {
    'a' <= c <= 'z' || 'A' <= c <= 'Z' || '0' <= c <= '9' || c == '-' || c == '.'
  }

  predicate IsLocalPart(s: string) {
    |s| > 0 && forall i :: 0 <= i < |s| ==> IsLocalChar(s[i])
  }

  predicate IsLabel(s: string) {
    |s| > 0 && forall i :: 0 <= i < |s| ==> IsLabelChar(s[i])
  }

  predicate IsTail(s: string) {
    |s| > 0 && forall i :: 0 <= i < |s| ==> IsTailChar(s[i])
  }

  /** The pattern matched against the whole of `s`, with the split left open. */
  ghost predicate WholeMatch(s: string) {
    exists l: string, d: string, t: string ::
      IsLocalPart(l) && IsLabel(d) && IsTail(t) && s == l + "@" + d + "." + t
  }

  /** What `re.match` with the anchored pattern accepts: a whole match, or a whole
      match followed by one newline (Python's `$`). */
  ghost predicate PatternMatches(s: string) {
    WholeMatch(s) || (|s| > 0 && s[|s| - 1] == '\n' && WholeMatch(s[..|s| - 1]))
  }

  /** The position of the first `c` in `s`, if there is one. */
  function IndexOf(s: string, c: char): (r: Option<nat>)
    ensures r.Some? ==> r.value < |s| && s[r.value] == c && c !in s[..r.value]
    ensures r.None? ==> c !in s
  {
    if |s| == 0 then None
    else if s[0] == c then Some(0)
    else
      match IndexOf(s[1..], c)
      case None => None
      case Some(i) =>
        assert s[..i + 1] == [s[0]] + s[1..][..i];
        Some(i + 1)
  }

  /** Drops the one final newline that Python's `$` lets through. */
  function StripNewline(s: string): string {
    if |s| > 0 && s[|s| - 1] == '\n' then s[..|s| - 1] else s
  }

  /** The pattern against the whole of `s`, decided by splitting at the first `@`
      and then at the first `.` after it. */
  predicate MatchesWhole(s: string) {
    match IndexOf(s, '@')
    case None => false
    case Some(a) =>
      IsLocalPart(s[..a]) &&
      match IndexOf(s[a + 1..], '.')
      case None => false
      case Some(p) => IsLabel(s[a + 1..][..p]) && IsTail(s[a + 1..][p + 1..])
  }

  /** `is_valid_email`: truthy exactly when `re.match` returns a match.  An
      accepted address has a local-part character first and room for at least
      `L@D.T`; `IsValidEmailMeansPattern` proves the verdict exact. */
  function IsValidEmail(s: string): (ok: bool)
    ensures ok ==> 5 <= |s| && IsLocalChar(s[0])
  {
    MatchesWhole(StripNewline(s))
  }

  /** If `c` does not occur before position `i` and does occur at `i`, then the
      first occurrence of `c` is at `i`. */
  lemma IndexOfIsFirst(s: string, c: char, i: nat)
    requires i < |s| && s[i] == c && c !in s[..i]
    ensures IndexOf(s, c) == Some(i)
  {
    assert s[i] in s;
  }

  /** The deterministic split finds a match exactly when some split does. */
  lemma MatchesWholeIff(s: string)
    ensures MatchesWhole(s) <==> WholeMatch(s)
  {
    if MatchesWhole(s) {
      MatchedSplit(s);
    }
    if WholeMatch(s) {
      var l: string, d: string, t: string :|
        IsLocalPart(l) && IsLabel(d) && IsTail(t) && s == l + "@" + d + "." + t;
      SplitMatched(l, d, t);
    }
  }

  /** A match found by the deterministic split is a split of the pattern. */
  lemma MatchedSplit(s: string)
    requires MatchesWhole(s)
    ensures WholeMatch(s)
  {
    var a := IndexOf(s, '@').value;
    var rest := s[a + 1..];
    var p := IndexOf(rest, '.').value;
    var l, d, t := s[..a], rest[..p], rest[p + 1..];
    assert rest == d + "." + t;
    assert s == l + "@" + d + "." + t;
  }

  /** Any split of the pattern is the one the deterministic split finds. */
  lemma SplitMatched(l: string, d: string, t: string)
    requires IsLocalPart(l) && IsLabel(d) && IsTail(t)
    ensures MatchesWhole(l + "@" + d + "." + t)
  {
    var rest := d + "." + t;
    var s := l + "@" + rest;
    assert s == l + "@" + d + "." + t;
    assert forall k :: 0 <= k < |l| ==> l[k] != '@';
    assert s[..|l|] == l;
    IndexOfIsFirst(s, '@', |l|);
    assert s[|l| + 1..] == rest;
    assert forall k :: 0 <= k < |d| ==> d[k] != '.';
    assert rest[..|d|] == d;
    IndexOfIsFirst(rest, '.', |d|);
    assert rest[|d| + 1..] == t;
  }

  /** A whole match ends in a tail character, so never in a newline. */
  lemma WholeMatchEndsInTailChar(s: string)
    requires WholeMatch(s)
    ensures |s| > 0 && IsTailChar(s[|s| - 1])
  {
    var l: string, d: string, t: string :|
      IsLocalPart(l) && IsLabel(d) && IsTail(t) && s == l + "@" + d + "." + t;
    assert s[|s| - 1] == t[|t| - 1];
  }

  /** `IsValidEmail` is exactly the regular expression as `re.match` applies it. */
  lemma IsValidEmailMeansPattern(s: string)
    ensures IsValidEmail(s) <==> PatternMatches(s)
  {
    if |s| > 0 && s[|s| - 1] == '\n' {
      if WholeMatch(s) {
        WholeMatchEndsInTailChar(s);
      }
      MatchesWholeIff(s[..|s| - 1]);
    } else {
      MatchesWholeIff(s);
    }
  }

  /** The shape every accepted address has: exactly one `@`, and after it a
      non-empty label without dots followed by a `.`. */
  ghost predicate HasAddressShape(s: string) {
    && multiset(s)['@'] == 1
    && exists a, p :: 0 <= a && a + 1 < p < |s| && s[a] == '@' && s[p] == '.' && '.' !in s[a + 1..p]
  }

  /** Every accepted address has exactly one `@`, and after it a non-empty label
      without dots followed by a `.`. */
  lemma AcceptedEmailShape(s: string)
    requires IsValidEmail(s)
    ensures HasAddressShape(s)
  {
    var w := StripNewline(s);
    MatchesWholeIff(w);
    StrippedNewline(s);
    StrippedShape(s, w);
  }

  /** `StripNewline` removes nothing or exactly one final newline. */
  lemma StrippedNewline(s: string)
    ensures s == StripNewline(s) || s == StripNewline(s) + "\n"
  {
    if |s| > 0 && s[|s| - 1] == '\n' {
      assert s == s[..|s| - 1] + "\n";
    }
  }

  lemma StrippedShape(s: string, w: string)
    requires WholeMatch(w)
    requires s == w || s == w + "\n"
    ensures HasAddressShape(s)
  {
    WholeMatchShape(w);
    if s != w {
      NewlineKeepsShape(w);
    }
  }

  lemma WholeMatchShape(w: string)
    requires WholeMatch(w)
    ensures HasAddressShape(w)
  {
    var l: string, d: string, t: string :|
      IsLocalPart(l) && IsLabel(d) && IsTail(t) && w == l + "@" + d + "." + t;
    SplitShape(l, d, t);
  }

  lemma NewlineKeepsShape(w: string)
    requires HasAddressShape(w)
    ensures HasAddressShape(w + "\n")
  {
    var s := w + "\n";
    assert multiset(s) == multiset(w) + multiset{'\n'};
    var a, p :| 0 <= a && a + 1 < p < |w| && w[a] == '@' && w[p] == '.' && '.' !in w[a + 1..p];
    assert s[a + 1..p] == w[a + 1..p];
    assert s[a] == '@' && s[p] == '.';
  }

  /** In a split address the only `@` is the separator, and the label between it
      and the following `.` has no dot. */
  lemma SplitShape(l: string, d: string, t: string)
    requires IsLocalPart(l) && IsLabel(d) && IsTail(t)
    ensures HasAddressShape(l + "@" + d + "." + t)
  {
    var w := l + "@" + d + "." + t;
    assert forall k :: 0 <= k < |l| ==> l[k] != '@';
    assert forall k :: 0 <= k < |d| ==> d[k] != '@' && d[k] != '.';
    assert forall k :: 0 <= k < |t| ==> t[k] != '@';
    assert multiset(w) == multiset(l) + multiset{'@'} + multiset(d) + multiset{'.'} + multiset(t);
    var a, p := |l|, |l| + 1 + |d|;
    assert w[a + 1..p] == d;
    assert w[a] == '@' && w[p] == '.';
  }

  /** Every split of the pattern, with or without one final newline, is accepted. */
  lemma SplitAccepted(s: string, l: string, d: string, t: string)
    requires IsLocalPart(l) && IsLabel(d) && IsTail(t)
    requires s == l + "@" + d + "." + t || s == l + "@" + d + "." + t + "\n"
    ensures IsValidEmail(s)
  {
    SplitMatched(l, d, t);
    var w := l + "@" + d + "." + t;
    if s != w {
      assert s[..|s| - 1] == w;
    } else {
      assert s[|s| - 1] == t[|t| - 1];
    }
  }

  /** An address without `@` is rejected. */
  lemma RejectsWithoutAt(s: string)
    requires '@' !in s
    ensures !IsValidEmail(s)
  {
    if IsValidEmail(s) {
      AcceptedEmailShape(s);
    }
  }

  /** An address without any `.` is rejected. */
  lemma RejectsWithoutDot(s: string)
    requires '.' !in s
    ensures !IsValidEmail(s)
  {
    if IsValidEmail(s) {
      AcceptedEmailShape(s);
    }
  }

  /** An address with two or more `@` is rejected. */
  lemma RejectsRepeatedAt(s: string)
    requires multiset(s)['@'] >= 2
    ensures !IsValidEmail(s)
  {
    if IsValidEmail(s) {
      AcceptedEmailShape(s);
    }
  }
}

/** The documented address, three malformed ones, and their verdicts. */
module EmailExamples {
  import opened Email

  /** The documented address (with and without a final newline) and three
      malformed ones. */
  const DocumentedAddress: string := "johndoe@example.com"
  const DocumentedAddressWithNewline: string := "johndoe@example.com\n"
  const AddressWithoutAt: string := "bad-email"
  const AddressWithoutDot: string := "a@b"
  const AddressWithDoubleAt: string := "a@@b.com"

  /** The documented address is accepted. */
  lemma AcceptsDocumentedAddress()
    ensures IsValidEmail(DocumentedAddress)
  {
    SplitAccepted(DocumentedAddress, "johndoe", "example", "com");
  }

  /** So is the documented address followed by the one newline `$` admits. */
  lemma AcceptsDocumentedAddressWithNewline()
    ensures IsValidEmail(DocumentedAddressWithNewline)
  {
    SplitAccepted(DocumentedAddressWithNewline, "johndoe", "example", "com");
  }

  lemma RejectsAddressWithoutAt()
    ensures !IsValidEmail(AddressWithoutAt)
  {
    RejectsWithoutAt(AddressWithoutAt);
  }

  lemma RejectsAddressWithoutDot()
    ensures !IsValidEmail(AddressWithoutDot)
  {
    RejectsWithoutDot(AddressWithoutDot);
  }

  lemma RejectsAddressWithDoubleAt()
    ensures !IsValidEmail(AddressWithDoubleAt)
  {
    assert multiset(AddressWithDoubleAt)['@'] == 2;
    RejectsRepeatedAt(AddressWithDoubleAt);
  }
}
