/**
 * `isValidEmail`: whether a string, as a whole, matches the pattern
 * `\b[\w.%+-]+@[a-zA-Z0-9.-]+\.[a-zA-Z]{2,6}\b`, with Java's ASCII
 * character classes. The pattern's language is stated as the existence of
 * the two split points (the '@' and the last '.'); `MatchesEmail` finds
 * them directly.
 */
module Validator {
  import opened Wrappers
  import opened Strings

  /** `\w`: an ASCII letter, digit or underscore. */
  predicate IsWordChar(c: char) {
    'a' <= c <= 'z' || 'A' <= c <= 'Z' || '0' <= c <= '9' || c == '_'
  }

  predicate IsLetter(c: char) {
    'a' <= c <= 'z' || 'A' <= c <= 'Z'
  }

  /** `[\w.%+-]`, the characters of the local part. */
  predicate IsLocalChar(c: char) {
    IsWordChar(c) || c == '.' || c == '%' || c == '+' || c == '-'
  }

  /** `[a-zA-Z0-9.-]`, the characters of the domain before the last dot. */
  predicate IsDomainChar(c: char) {
    IsLetter(c) || '0' <= c <= '9' || c == '.' || c == '-'
  }

  predicate AllLocal(s: string) {
    forall i :: 0 <= i < |s| ==> IsLocalChar(s[i])
  }

  predicate AllDomain(s: string) {
    forall i :: 0 <= i < |s| ==> IsDomainChar(s[i])
  }

  predicate AllLetters(s: string) {
    forall i :: 0 <= i < |s| ==> IsLetter(s[i])
  }

  /**
   * The three parts an address splits into around its '@' and its final
   * '.'. The leading `\b` asks for a word character first, since the match
   * starts the string; the trailing `\b` always holds after a letter.
   */
  predicate EmailParts(local: string, domain: string, tld: string) {
    && |local| > 0 && IsWordChar(local[0]) && AllLocal(local)
    && |domain| > 0 && AllDomain(domain)
    && 2 <= |tld| <= 6 && AllLetters(tld)
  }

  /** The language of the pattern: some split of s into local '@' domain '.' tld. */
  ghost predicate InEmailLanguage(s: string) {
    exists at, dot :: 0 <= at < dot < |s| && s[at] == '@' && s[dot] == '.'
      && EmailParts(s[..at], s[at + 1..dot], s[dot + 1..])
  }

  /** The last position of c in s, or -1. */
  function LastIndexOf(s: string, c: char): (i: int)
    ensures -1 <= i < |s|
    ensures i >= 0 ==> s[i] == c
    ensures forall j :: i < j < |s| ==> s[j] != c
  {
    if s == [] then -1
    else if s[|s| - 1] == c then |s| - 1
    else LastIndexOf(s[..|s| - 1], c)
  }

  /** The pattern match on one string, splitting at the first '@' and the last '.'. */
  predicate MatchesEmail(s: string) {
    var at := IndexOf(s, '@');
    var dot := LastIndexOf(s, '.');
    0 <= at < dot && EmailParts(s[..at], s[at + 1..dot], s[dot + 1..])
  }

  /** `isValidEmail`: null is not valid; a string is valid when it matches the whole pattern. */
  predicate IsValidEmail(email: Option<string>) {
    email.Some? && MatchesEmail(email.value)
  }

  /** An '@' with only local-part characters before it is the first '@'. */
  lemma FirstAt(s: string, at: int)
    requires 0 <= at < |s| && s[at] == '@' && AllLocal(s[..at])
    ensures IndexOf(s, '@') == at
  {
    var k := IndexOf(s, '@');
    assert s[k] == '@' && !IsLocalChar(s[k]);
  }

  /** A '.' with only letters after it is the last '.'. */
  lemma LastDot(s: string, dot: int)
    requires 0 <= dot < |s| && s[dot] == '.' && AllLetters(s[dot + 1..])
    ensures LastIndexOf(s, '.') == dot
  {
    var k := LastIndexOf(s, '.');
    assert s[k] == '.' && !IsLetter(s[k]);
  }

  /** `MatchesEmail` holds of exactly the strings of the pattern's language. */
  lemma MatchesEmailIsLanguage(s: string)
    ensures MatchesEmail(s) <==> InEmailLanguage(s)
  {
    if InEmailLanguage(s) {
      var at, dot :| 0 <= at < dot < |s| && s[at] == '@' && s[dot] == '.'
        && EmailParts(s[..at], s[at + 1..dot], s[dot + 1..]);
      FirstAt(s, at);
      LastDot(s, dot);
    }
  }

  /** `isValidEmail` accepts exactly the non-null strings of the pattern's language. */
  lemma IsValidEmailIsLanguage(email: Option<string>)
    ensures IsValidEmail(email) <==> email.Some? && InEmailLanguage(email.value)
  {
    if email.Some? {
      MatchesEmailIsLanguage(email.value);
    }
  }

  /** A string whose first character is not a word character is not an address. */
  lemma BadFirst(s: string)
    requires |s| > 0 && !IsWordChar(s[0])
    ensures !IsValidEmail(Some(s))
  {
    var at := IndexOf(s, '@');
    assert 0 < at ==> s[..at][0] == s[0];
  }

  /** Null is rejected, and so are strings the leading `\b` rules out. */
  lemma Rejections(s: string, t: string)
    requires s == ".a@b.co" && t == "@example.com"
    ensures !IsValidEmail(None)
    ensures !IsValidEmail(Some(s)) && !IsValidEmail(Some(t))
  {
    BadFirst(s);
    BadFirst(t);
  }

  /** A character outside `[\w.%+-]` before the first '@' rules the string out. */
  lemma BadLocal(s: string, i: int)
    requires 0 <= i < |s| && !IsLocalChar(s[i]) && forall j :: 0 <= j <= i ==> s[j] != '@'
    ensures !IsValidEmail(Some(s))
  {
    var at := IndexOf(s, '@');
    assert at >= 0 ==> s[..at][i] == s[i];
  }

  /** The whole string must match: one that merely contains an address is rejected. */
  lemma WholeMatch(s: string)
    requires s == "see a@b.co"
    ensures !IsValidEmail(Some(s))
  {
    BadLocal(s, 3);
  }

  /** A top-level domain of one letter, or of seven, is rejected. */
  lemma TopLevelLength(s: string, t: string)
    requires s == "a@b.c" && t == "a@b.abcdefg"
    ensures !IsValidEmail(Some(s)) && !IsValidEmail(Some(t))
  {
    LastDot(s, 3);
    LastDot(t, 3);
  }

  /** Any three parts of the right shapes, joined by '@' and '.', make an address. */
  lemma Joined(local: string, domain: string, tld: string)
    requires EmailParts(local, domain, tld)
    ensures IsValidEmail(Some(local + "@" + domain + "." + tld))
  {
    var s := local + "@" + domain + "." + tld;
    var at, dot := |local|, |local| + 1 + |domain|;
    assert s[..at] == local && s[at + 1..dot] == domain && s[dot + 1..] == tld;
    FirstAt(s, at);
    LastDot(s, dot);
  }

  /**
   * Accepted addresses: dots and '+' in the local part; '%' and '_' in the
   * local part with dots and '-' in the domain.
   */
  lemma AcceptedExamples()
    ensures IsValidEmail(Some("a.b+c" + "@" + "example" + "." + "co"))
    ensures IsValidEmail(Some("x_1%y" + "@" + "st-andrews.ac" + "." + "uk"))
  {
    assert EmailParts("a.b+c", "example", "co");
    Joined("a.b+c", "example", "co");
    assert EmailParts("x_1%y", "st-andrews.ac", "uk");
    Joined("x_1%y", "st-andrews.ac", "uk");
  }

  /** Every character of an accepted address is a local-part character or '@'. */
  lemma ValidEmailChars(email: string)
    requires IsValidEmail(Some(email))
    ensures forall k :: 0 <= k < |email| ==> IsLocalChar(email[k]) || email[k] == '@'
  {
    var at, dot := IndexOf(email, '@'), LastIndexOf(email, '.');
    forall k | 0 <= k < |email| ensures IsLocalChar(email[k]) || email[k] == '@' {
      if k < at {
        assert email[k] == email[..at][k];
      } else if at < k < dot {
        assert email[k] == email[at + 1..dot][k - at - 1];
      } else if dot < k {
        assert email[k] == email[dot + 1..][k - dot - 1];
      }
    }
  }

  /** Domain characters, a '.', then letters: domain characters throughout. */
  lemma TailChars(s: string, at: int, dot: int)
    requires 0 <= at < dot < |s| && s[dot] == '.'
    requires AllDomain(s[at + 1..dot]) && AllLetters(s[dot + 1..])
    ensures forall k :: at < k < |s| ==> IsDomainChar(s[k])
  {
    forall k | at < k < |s| ensures IsDomainChar(s[k]) {
      if k < dot {
        assert s[k] == s[at + 1..dot][k - at - 1];
      } else if dot < k {
        assert s[k] == s[dot + 1..][k - dot - 1];
      }
    }
  }

  /** Every character after the '@' of an accepted address is a domain character. */
  lemma DomainAfterAt(email: string)
    requires IsValidEmail(Some(email))
    ensures 0 <= IndexOf(email, '@')
    ensures forall k :: IndexOf(email, '@') < k < |email| ==> IsDomainChar(email[k])
  {
    TailChars(email, IndexOf(email, '@'), LastIndexOf(email, '.'));
  }

  /** A '+' lies before an '@' that only domain characters follow. */
  lemma PlusNotInDomain(s: string, at: int, i: int)
    requires 0 <= at < |s| && s[at] == '@' && forall k :: at < k < |s| ==> IsDomainChar(s[k])
    requires 0 <= i < |s| && s[i] == '+'
    ensures i < at
  {
  }

  /** An accepted address has a '+' only before its '@'. */
  lemma PlusBeforeAt(email: string, i: int)
    requires IsValidEmail(Some(email)) && 0 <= i < |email| && email[i] == '+'
    ensures i < IndexOf(email, '@')
  {
    DomainAfterAt(email);
    PlusNotInDomain(email, IndexOf(email, '@'), i);
  }

  /** A '+' before the first '@' makes the string rejected once its '+' characters are spaces. */
  lemma PlusAsSpaceRejected(email: string, i: int)
    requires 0 <= i < |email| && email[i] == '+' && i < IndexOf(email, '@')
    ensures !IsValidEmail(Some(Replace(email, '+', ' ')))
  {
    var r := Replace(email, '+', ' ');
    assert forall j :: 0 <= j <= i ==> r[j] != '@';
    BadLocal(r, i);
  }
}
