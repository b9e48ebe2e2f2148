/**
 * The two field validators of the entity model: a URL check, which searches
 * its value for `http(s?)://[\w|-|\.]+` anywhere, and an e-mail check, which
 * matches its value against `^[a-zA-Z0-9_.+-]+@[a-zA-Z0-9-]+\.[a-zA-Z0-9-.]+$`.
 * Both accept an absent value. The regular expressions are written out as
 * hand-made matchers over strings, each proved equal to a declarative
 * description of the strings the pattern accepts.
 */
module Validators {
  import opened Wrappers
  import Decimal

  /** The `ValueError` a validator raises, with its message. */
  datatype ValueError = ValueError(message: string)

  // ---------------------------------------------------------------------------
  // Character classes
  // ---------------------------------------------------------------------------

  predicate IsAsciiLetter(c: char) {
    'a' <= c <= 'z' || 'A' <= c <= 'Z'
  }

  predicate IsAlnum(c: char) {
    IsAsciiLetter(c) || Decimal.IsDigit(c)
  }

  /** `\w`, restricted to ASCII: letters, digits and the underscore. */
  predicate IsWordChar(c: char) {
    IsAlnum(c) || c == '_'
  }

  /** The bracketed classes of the two patterns. */
  datatype CharClass =
    | Host    // [\w|-|\.] : `\w`, the one-character range `|-|`, and `\.`
    | Local   // [a-zA-Z0-9_.+-]
    | Domain  // [a-zA-Z0-9-]
    | Tld     // [a-zA-Z0-9-.]

  predicate InClass(c: char, k: CharClass) {
    match k
    case Host => IsWordChar(c) || c == '|' || c == '.'
    case Local => IsAlnum(c) || c == '_' || c == '.' || c == '+' || c == '-'
    case Domain => IsAlnum(c) || c == '-'
    case Tld => IsAlnum(c) || c == '-' || c == '.'
  }

  predicate AllIn(s: string, k: CharClass) {
    forall i :: 0 <= i < |s| ==> InClass(s[i], k)
  }

  // ---------------------------------------------------------------------------
  // URL: re.search(r"http(s?)://[\w|-|\.]+", value)
  // ---------------------------------------------------------------------------

  /** The pattern matches at position `k` of `s` with the optional `s` taken. */
  predicate SecureUrlAt(s: string, k: nat) {
    k + 8 < |s| && s[k..k + 8] == "https://" && InClass(s[k + 8], Host)
  }

  /** The pattern matches at position `k` of `s` with the optional `s` left out. */
  predicate PlainUrlAt(s: string, k: nat) {
    k + 7 < |s| && s[k..k + 7] == "http://" && InClass(s[k + 7], Host)
  }

  /** The pattern matches at position `k`: `http`, maybe `s`, `://`, then a host character. */
  predicate UrlAt(s: string, k: nat) {
    SecureUrlAt(s, k) || PlainUrlAt(s, k)
  }

  /** What the URL validator is meant to accept: a match at some position. */
  ghost predicate ContainsUrl(s: string) {
    exists k: nat :: k < |s| && UrlAt(s, k)
  }

  /** The span `s[start..end]` of a successful search. */
  datatype Match = Match(start: nat, end: nat)

  /** Length of the `http(s?)://` part of a match at `k`. */
  function SchemeLength(s: string, k: nat): (n: nat)
    requires UrlAt(s, k)
    ensures n == 7 || n == 8
    ensures k + n < |s| && InClass(s[k + n], Host)
  {
    if SecureUrlAt(s, k) then 8 else 7
  }

  /** The end of the greedy run `[\w|-|\.]+` that starts at `i`. */
  function HostRunEnd(s: string, i: nat): (j: nat)
    requires i <= |s|
    ensures i <= j <= |s|
    ensures AllIn(s[i..j], Host)
    ensures j == |s| || !InClass(s[j], Host)
    decreases |s| - i
  {
    if i < |s| && InClass(s[i], Host) then
      var j := HostRunEnd(s, i + 1);
      assert s[i..j] == [s[i]] + s[i + 1..j];
      j
    else i
  }

  /** The leftmost match at or after `from`, or `None` when there is none. */
  function SearchUrlFrom(s: string, from: nat): (r: Option<Match>)
    requires from <= |s|
    ensures r.None? ==> forall k: nat :: from <= k < |s| ==> !UrlAt(s, k)
    ensures r.Some? ==> from <= r.value.start < |s| && UrlAt(s, r.value.start)
    ensures r.Some? ==> forall k: nat :: from <= k < r.value.start ==> !UrlAt(s, k)
    ensures r.Some? ==>
      r.value.end == HostRunEnd(s, r.value.start + SchemeLength(s, r.value.start))
    decreases |s| - from
  {
    if from == |s| then None
    else if UrlAt(s, from) then
      Some(Match(from, HostRunEnd(s, from + SchemeLength(s, from))))
    else SearchUrlFrom(s, from + 1)
  }

  /**
   * `re.search` with the URL pattern: the leftmost match, whose text is the
   * scheme and the longest run of host characters after it.
   */
  function SearchUrl(s: string): (r: Option<Match>)
    ensures r.None? <==> !ContainsUrl(s)
    ensures r.Some? ==> UrlAt(s, r.value.start)
    ensures r.Some? ==> forall k: nat :: k < r.value.start ==> !UrlAt(s, k)
    ensures r.Some? ==>
      var m := r.value;
      var host := m.start + SchemeLength(s, m.start);
      && (s[m.start..host] == "http://" || s[m.start..host] == "https://")
      && host < m.end <= |s|
      && AllIn(s[host..m.end], Host)
      && (m.end == |s| || !InClass(s[m.end], Host))
  {
    var r := SearchUrlFrom(s, 0);
    assert r.Some? ==> ContainsUrl(s) by {
      if r.Some? { assert UrlAt(s, r.value.start); }
    }
    r
  }

  function UrlMessage(attribute: string, value: string): string {
    attribute + " should be a valid url, received " + value + "."
  }

  /**
   * `validate_url`: an absent value passes; a present one passes iff the pattern
   * occurs somewhere in it; otherwise the error names the attribute and the value.
   */
  function ValidateUrl(attribute: string, value: Option<string>): (r: Outcome<ValueError>)
    ensures value.None? ==> r.Pass?
    ensures value.Some? ==> (r.Pass? <==> ContainsUrl(value.value))
    ensures r.Fail? ==> value.Some? && r.error == ValueError(UrlMessage(attribute, value.value))
  {
    match value
    case None => Pass
    case Some(v) => if SearchUrl(v).Some? then Pass else Fail(ValueError(UrlMessage(attribute, v)))
  }

  // ---------------------------------------------------------------------------
  // E-mail: re.search(r"^[a-zA-Z0-9_.+-]+@[a-zA-Z0-9-]+\.[a-zA-Z0-9-.]+$", value)
  // ---------------------------------------------------------------------------

  /** `s == L + "@" + D + "." + T` with `at == |L|` and `dot == |L| + 1 + |D|`. */
  predicate IsEmailSplit(s: string, at: nat, dot: nat) {
    && 0 < at && at + 1 < dot && dot + 1 < |s|
    && s[at] == '@' && s[dot] == '.'
    && AllIn(s[..at], Local) && AllIn(s[at + 1..dot], Domain) && AllIn(s[dot + 1..], Tld)
  }

  /** The whole string matches `[a-zA-Z0-9_.+-]+@[a-zA-Z0-9-]+\.[a-zA-Z0-9-.]+`. */
  ghost predicate EmailShape(s: string) {
    exists at: nat, dot: nat :: IsEmailSplit(s, at, dot)
  }

  /**
   * What the e-mail check accepts: Python's `$` also matches just before one
   * final newline, so the shape may be followed by a single `"\n"`.
   */
  ghost predicate AcceptedEmail(s: string) {
    EmailShape(s) || (|s| > 0 && s[|s| - 1] == '\n' && EmailShape(s[..|s| - 1]))
  }

  /** The first position at or after `from` that holds `c`. */
  function IndexOf(s: string, c: char, from: nat): (r: Option<nat>)
    requires from <= |s|
    ensures r.Some? ==> from <= r.value < |s| && s[r.value] == c
    ensures r.Some? ==> forall j :: from <= j < r.value ==> s[j] != c
    ensures r.None? ==> forall j :: from <= j < |s| ==> s[j] != c
    decreases |s| - from
  {
    if from == |s| then None
    else if s[from] == c then Some(from)
    else IndexOf(s, c, from + 1)
  }

  /**
   * The matcher for the part between `^` and `$`: the `@` must be the first one,
   * since no class before it contains `@`, and the separating dot must be the
   * first one after it, since the domain class contains no dot.
   */
  function MatchEmailBody(s: string): bool {
    match IndexOf(s, '@', 0)
    case None => false
    case Some(at) =>
      at > 0 && AllIn(s[..at], Local) &&
      match IndexOf(s, '.', at + 1)
      case None => false
      case Some(dot) =>
        at + 1 < dot && dot + 1 < |s| && AllIn(s[at + 1..dot], Domain) && AllIn(s[dot + 1..], Tld)
  }

  lemma MatchEmailBodyCorrect(s: string)
    ensures MatchEmailBody(s) <==> EmailShape(s)
  {
    if MatchEmailBody(s) {
      var at := IndexOf(s, '@', 0).value;
      var dot := IndexOf(s, '.', at + 1).value;
      assert IsEmailSplit(s, at, dot);
    }
    if EmailShape(s) {
      var at': nat, dot': nat :| IsEmailSplit(s, at', dot');
      NotInRun(s, 0, at', Local, '@');
      IndexOfFirst(s, '@', 0, at');
      NotInRun(s, at' + 1, dot', Domain, '.');
      IndexOfFirst(s, '.', at' + 1, dot');
    }
  }

  /** A character outside a class does not occur in a run of that class. */
  lemma NotInRun(s: string, i: nat, j: nat, k: CharClass, c: char)
    requires i <= j <= |s| && AllIn(s[i..j], k) && !InClass(c, k)
    ensures forall p :: i <= p < j ==> s[p] != c
  {
    forall p | i <= p < j ensures s[p] != c {
      assert s[i..j][p - i] == s[p];
    }
  }

  /** `IndexOf` finds the first occurrence. */
  lemma {:induction false} IndexOfFirst(s: string, c: char, from: nat, k: nat)
    requires from <= k < |s| && s[k] == c
    requires forall p :: from <= p < k ==> s[p] != c
    ensures IndexOf(s, c, from) == Some(k)
    decreases k - from
  {
    if from < k {
      IndexOfFirst(s, c, from + 1, k);
    }
  }

  /** `re.search` with the e-mail pattern, `$` included. */
  function MatchEmail(s: string): (b: bool)
    ensures b <==> AcceptedEmail(s)
  {
    MatchEmailBodyCorrect(s);
    if |s| > 0 && s[|s| - 1] == '\n' then
      MatchEmailBodyCorrect(s[..|s| - 1]);
      MatchEmailBody(s) || MatchEmailBody(s[..|s| - 1])
    else MatchEmailBody(s)
  }

  function EmailMessage(attribute: string, value: string): string {
    attribute + " should be a valid email, received " + value + "."
  }

  /**
   * `validate_email`: an absent value passes; a present one passes iff it has the
   * e-mail shape (optionally followed by one newline); otherwise the error names
   * the attribute and the value.
   */
  function ValidateEmail(attribute: string, value: Option<string>): (r: Outcome<ValueError>)
    ensures value.None? ==> r.Pass?
    ensures value.Some? ==> (r.Pass? <==> AcceptedEmail(value.value))
    ensures r.Fail? ==> value.Some? && r.error == ValueError(EmailMessage(attribute, value.value))
  {
    match value
    case None => Pass
    case Some(v) => if MatchEmail(v) then Pass else Fail(ValueError(EmailMessage(attribute, v)))
  }

  // ---------------------------------------------------------------------------
  // Properties of the two validators
  // ---------------------------------------------------------------------------

  /** The URL search is unanchored: text around a matching string does not undo the match. */
  lemma UrlInContext(prefix: string, s: string, suffix: string)
    requires ContainsUrl(s)
    ensures ContainsUrl(prefix + s + suffix)
  {
    var k: nat :| k < |s| && UrlAt(s, k);
    var t := prefix + s + suffix;
    var k' := |prefix| + k;
    if SecureUrlAt(s, k) {
      assert t[k'..k' + 8] == s[k..k + 8];
      assert t[k' + 8] == s[k + 8];
    } else {
      assert t[k'..k' + 7] == s[k..k + 7];
      assert t[k' + 7] == s[k + 7];
    }
    assert UrlAt(t, k');
  }

  /**
   * The hyphen is not a host character (`|-|` is the range from `|` to `|`): a
   * hyphen right after the scheme is refused, one later in the host is not.
   */
  lemma UrlHostHyphen(attribute: string)
    ensures ValidateUrl(attribute, Some("http://-x")).Fail?
    ensures ValidateUrl(attribute, Some("http://a-x")).Pass?
  {
    var bad := "http://-x";
    forall k: nat | k < |bad| ensures !UrlAt(bad, k) {
      if k == 0 {
        assert !InClass(bad[7], Host);
      } else {
        assert !(k + 7 < |bad| && bad[k..k + 7] == "http://") by {
          if k + 7 < |bad| { assert bad[k..k + 7][0] != 'h'; }
        }
      }
    }
    var good := "http://a-x";
    assert good[0..7] == "http://";
    assert UrlAt(good, 0);
  }

  /** A string without a scheme is refused, and the error names the attribute and the value. */
  lemma UrlRejectsPlainText(attribute: string)
    ensures ValidateUrl(attribute, Some("not-a-url"))
         == Fail(ValueError(UrlMessage(attribute, "not-a-url")))
  {
    var s := "not-a-url";
    forall k: nat | k < |s| ensures !UrlAt(s, k) {
      assert !(k + 7 < |s| && s[k..k + 7] == "http://") by {
        if k + 7 < |s| { assert s[k..k + 7][0] != 'h'; }
      }
    }
  }

  lemma UrlAcceptsExample(attribute: string)
    ensures ValidateUrl(attribute, Some("https://example.com/x")).Pass?
  {
    var s := "https://example.com/x";
    assert s[0..8] == "https://";
    assert UrlAt(s, 0);
  }

  /** An accepted e-mail address holds exactly one `@`, and a dot after it. */
  lemma EmailSingleAt(s: string)
    requires EmailShape(s)
    ensures exists at :: 0 <= at < |s| && s[at] == '@'
    ensures forall i, j :: 0 <= i < j < |s| && s[i] == '@' ==> s[j] != '@'
    ensures forall i :: 0 <= i < |s| && s[i] == '@' ==> exists d :: i < d < |s| && s[d] == '.'
  {
    var at: nat, dot: nat :| IsEmailSplit(s, at, dot);
    assert s[at] == '@';
    assert s[dot] == '.';
  }

  /** Python's `$` quirk: `s + "\n"` is accepted exactly when `s` has the e-mail shape. */
  lemma EmailTrailingNewline(attribute: string, s: string)
    ensures ValidateEmail(attribute, Some(s + "\n")).Pass? <==> EmailShape(s)
  {
    var t := s + "\n";
    assert t[..|t| - 1] == s;
    NoEmailEndsWithNewline(t);
  }

  /** No top-level class of the pattern holds a newline, so a shape never ends with one. */
  lemma NoEmailEndsWithNewline(t: string)
    requires |t| > 0 && t[|t| - 1] == '\n'
    ensures !EmailShape(t)
  {
    forall at: nat, dot: nat ensures !IsEmailSplit(t, at, dot) {
      if dot + 1 < |t| {
        NewlineNotTld(t[dot + 1..]);
      }
    }
  }

  lemma NewlineNotTld(u: string)
    requires |u| > 0 && u[|u| - 1] == '\n'
    ensures !AllIn(u, Tld)
  {
    assert !InClass(u[|u| - 1], Tld);
  }

  lemma EmailAcceptsExample(attribute: string)
    ensures ValidateEmail(attribute, Some("a.b+c@example.co")).Pass?
  {
    var good := "a.b+c@example.co";
    assert IsEmailSplit(good, 5, 13) by {
      assert good[..5] == "a.b+c";
      assert good[6..13] == "example";
      assert good[14..] == "co";
    }
  }

  lemma EmailRejectsPlainText(attribute: string)
    ensures ValidateEmail(attribute, Some("not-an-email"))
         == Fail(ValueError(EmailMessage(attribute, "not-an-email")))
  {
    var bad := "not-an-email";
    assert forall i | 0 <= i < |bad| :: bad[i] != '@';
    assert bad[|bad| - 1] != '\n';
  }
}
