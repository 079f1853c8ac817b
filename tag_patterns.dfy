/**
 * The two tag patterns that `JavadocTagsCheck.init` registers, written out by hand.
 * Each pattern has a computable matcher, used by the check, and a declarative
 * description of the language the regular expression denotes under `Matcher.matches()`
 * (the whole text must match); a lemma per pattern proves the two agree on every string.
 */
module TagPatterns {
  import opened Text

  /** The compiled patterns of the tag table. */
  datatype Pattern = AuthorPattern | VersionPattern

  /** What `Pattern.toString()` gives: the regular expression's source text. */
  function Source(p: Pattern): string {
    match p
    case AuthorPattern =>
      "^([A-Z](\\.|[a-z]+) ){2,}\\([A-Za-z0-9._%+-]+@[A-Za-z0-9.-]+\\.[A-Za-z]{2,4}\\)$"
    case VersionPattern =>
      "^\\$Id.*\\$$"
  }

  /** `pattern.matcher(text).matches()`. */
  predicate Matches(p: Pattern, text: string) {
    match p
    case AuthorPattern => MatchesAuthor(text)
    case VersionPattern => MatchesVersion(text)
  }

  // ---------------------------------------------------------------------------
  // version: ^\$Id.*\$$
  // ---------------------------------------------------------------------------

  /** The characters that `.` does not match when no flag is set. */
  predicate IsLineTerminator(c: char) {
    c == '\n' || c == '\r' || c == '\U{0085}' || c == '\U{2028}' || c == '\U{2029}'
  }

  predicate NoLineTerminator(s: string) {
    forall i :: 0 <= i < |s| ==> !IsLineTerminator(s[i])
  }

  /** The matcher for the version pattern. */
  predicate MatchesVersion(s: string) {
    |s| >= 4 && s[..3] == "$Id" && s[|s| - 1] == '$' &&
    forall i :: 3 <= i < |s| - 1 ==> !IsLineTerminator(s[i])
  }

  function VersionText(body: string): string {
    "$Id" + body + "$"
  }

  /** The language of `^\$Id.*\$$`: `$Id`, what `.*` matches, then `$`. */
  ghost predicate InVersionLanguage(s: string) {
    exists body :: NoLineTerminator(body) && s == VersionText(body)
  }

  lemma VersionMatchesIff(s: string)
    ensures MatchesVersion(s) <==> InVersionLanguage(s)
  {
    if MatchesVersion(s) {
      var body := s[3..|s| - 1];
      assert s == s[..3] + body + [s[|s| - 1]];
      assert s == VersionText(body);
      forall i | 0 <= i < |body| ensures !IsLineTerminator(body[i]) {
        assert body[i] == s[i + 3];
      }
    }
    if InVersionLanguage(s) {
      var body :| NoLineTerminator(body) && s == VersionText(body);
      assert s[..3] == "$Id";
      forall i | 3 <= i < |s| - 1 ensures !IsLineTerminator(s[i]) {
        assert s[i] == body[i - 3];
      }
    }
  }

  // ---------------------------------------------------------------------------
  // author: ^([A-Z](\.|[a-z]+) ){2,}\([A-Za-z0-9._%+-]+@[A-Za-z0-9.-]+\.[A-Za-z]{2,4}\)$
  // ---------------------------------------------------------------------------

  predicate IsUpper(c: char) { 'A' <= c <= 'Z' }
  predicate IsLower(c: char) { 'a' <= c <= 'z' }
  predicate IsLetter(c: char) { IsUpper(c) || IsLower(c) }
  predicate IsDigit(c: char) { '0' <= c <= '9' }

  /** One repetition of `[A-Z](\.|[a-z]+) `. */
  predicate IsNameWord(w: string) {
    |w| >= 3 && IsUpper(w[0]) && w[|w| - 1] == ' ' &&
    (w[1..|w| - 1] == "." || forall i :: 1 <= i < |w| - 1 ==> IsLower(w[i]))
  }

  predicate AllNameWords(names: seq<string>) {
    forall i :: 0 <= i < |names| ==> IsNameWord(names[i])
  }

  /** `[A-Za-z0-9._%+-]+` */
  predicate IsLocalPart(s: string) {
    |s| >= 1 && forall i :: 0 <= i < |s| ==> IsLetter(s[i]) || IsDigit(s[i]) || s[i] in "._%+-"
  }

  /** `[A-Za-z0-9.-]+` */
  predicate IsDomainPart(s: string) {
    |s| >= 1 && forall i :: 0 <= i < |s| ==> IsLetter(s[i]) || IsDigit(s[i]) || s[i] == '.' || s[i] == '-'
  }

  /** `[A-Za-z]{2,4}` */
  predicate IsTld(s: string) {
    2 <= |s| <= 4 && forall i :: 0 <= i < |s| ==> IsLetter(s[i])
  }

  function Concat(words: seq<string>): string {
    if words == [] then [] else words[0] + Concat(words[1..])
  }

  function HostText(domain: string, tld: string): string {
    domain + "." + tld
  }

  function EmailText(local: string, host: string): string {
    "(" + local + "@" + host + ")"
  }

  function AuthorText(names: seq<string>, email: string): string {
    Concat(names) + email
  }

  /** `[A-Za-z0-9.-]+\.[A-Za-z]{2,4}` */
  ghost predicate InHostLanguage(h: string) {
    exists domain, tld :: IsDomainPart(domain) && IsTld(tld) && h == HostText(domain, tld)
  }

  /** `\([A-Za-z0-9._%+-]+@` host `\)` */
  ghost predicate InEmailLanguage(e: string) {
    exists local, host :: IsLocalPart(local) && InHostLanguage(host) && e == EmailText(local, host)
  }

  /** The whole author pattern: two or more name words, then the e-mail in parentheses. */
  ghost predicate InAuthorLanguage(s: string) {
    exists names, email ::
      |names| >= 2 && AllNameWords(names) && InEmailLanguage(email) && s == AuthorText(names, email)
  }

  /** How many name words `n` splits into, or -1 when it is not a run of name words. */
  function NameCount(n: string): int
    decreases |n|
  {
    if n == [] then 0
    else
      var sp := IndexOf(n, ' ', 0);
      if sp >= 0 && IsNameWord(n[..sp + 1]) then
        var k := NameCount(n[sp + 1..]);
        if k < 0 then -1 else k + 1
      else -1
  }

  /** The matcher for the host part: the tld follows the last period. */
  predicate MatchesHost(h: string) {
    var dot := LastIndexOf(h, '.');
    dot >= 0 && IsDomainPart(h[..dot]) && IsTld(h[dot + 1..])
  }

  /** The matcher for the parenthesised e-mail: the local part ends at the first `@`. */
  predicate MatchesEmail(e: string) {
    |e| >= 2 && e[0] == '(' && e[|e| - 1] == ')' &&
    var inner := e[1..|e| - 1];
    var at := IndexOf(inner, '@', 0);
    at >= 0 && IsLocalPart(inner[..at]) && MatchesHost(inner[at + 1..])
  }

  /** The matcher for the author pattern: the names end at the first `(`. */
  predicate MatchesAuthor(s: string) {
    var open := IndexOf(s, '(', 0);
    open >= 0 && NameCount(s[..open]) >= 2 && MatchesEmail(s[open..])
  }

  lemma HostMatchesSound(h: string)
    requires MatchesHost(h)
    ensures InHostLanguage(h)
  {
    var dot := LastIndexOf(h, '.');
    assert h == HostText(h[..dot], h[dot + 1..]);
  }

  lemma HostMatchesComplete(domain: string, tld: string)
    requires IsDomainPart(domain) && IsTld(tld)
    ensures MatchesHost(HostText(domain, tld))
  {
    var h := HostText(domain, tld);
    assert h[|domain|] == '.';
    forall k | |domain| < k < |h| ensures h[k] != '.' {
      assert h[k] == tld[k - |domain| - 1];
    }
    var dot := LastIndexOf(h, '.');
    LastIndexOfLast(h, '.');
    assert dot == |domain|;
    assert h[..dot] == domain;
    assert h[dot + 1..] == tld;
  }

  lemma HostMatchesIff(h: string)
    ensures MatchesHost(h) <==> InHostLanguage(h)
  {
    if MatchesHost(h) {
      HostMatchesSound(h);
    }
    if InHostLanguage(h) {
      var domain, tld :| IsDomainPart(domain) && IsTld(tld) && h == HostText(domain, tld);
      HostMatchesComplete(domain, tld);
    }
  }

  /** A parenthesised text with an `@` inside is the e-mail text of the parts around the `@`. */
  lemma EmailSplit(e: string, at: int)
    requires |e| >= 2 && e[0] == '(' && e[|e| - 1] == ')'
    requires 0 <= at < |e| - 2 && e[at + 1] == '@'
    ensures e == EmailText(e[1..|e| - 1][..at], e[1..|e| - 1][at + 1..])
  {
    var inner := e[1..|e| - 1];
    assert inner == inner[..at] + "@" + inner[at + 1..];
    assert e == "(" + inner + ")";
  }

  lemma EmailMatchesSound(e: string)
    requires MatchesEmail(e)
    ensures InEmailLanguage(e)
  {
    var inner := e[1..|e| - 1];
    var at := IndexOf(inner, '@', 0);
    var local, host := inner[..at], inner[at + 1..];
    HostMatchesSound(host);
    EmailSplit(e, at);
    assert IsLocalPart(local) && InHostLanguage(host) && e == EmailText(local, host);
  }

  lemma EmailMatchesComplete(local: string, host: string)
    requires IsLocalPart(local) && MatchesHost(host)
    ensures MatchesEmail(EmailText(local, host))
  {
    var e := EmailText(local, host);
    var inner := e[1..|e| - 1];
    assert inner == local + "@" + host;
    assert inner[|local|] == '@';
    forall k | 0 <= k < |local| ensures inner[k] != '@' {
      assert inner[k] == local[k];
    }
    var at := IndexOf(inner, '@', 0);
    IndexOfFromFirst(inner, '@', 0);
    assert at == |local|;
    assert inner[..at] == local;
    assert inner[at + 1..] == host;
  }

  lemma EmailMatchesIff(e: string)
    ensures MatchesEmail(e) <==> InEmailLanguage(e)
  {
    if MatchesEmail(e) {
      EmailMatchesSound(e);
    }
    if InEmailLanguage(e) {
      var local, host :| IsLocalPart(local) && InHostLanguage(host) && e == EmailText(local, host);
      HostMatchesIff(host);
      EmailMatchesComplete(local, host);
    }
  }

  /** No character of a run of name words is `(`. */
  lemma {:induction false} ConcatHasNoParen(names: seq<string>)
    requires AllNameWords(names)
    ensures forall k :: 0 <= k < |Concat(names)| ==> Concat(names)[k] != '('
  {
    if names != [] {
      ConcatHasNoParen(names[1..]);
      var w, rest := names[0], Concat(names[1..]);
      assert Concat(names) == w + rest;
      forall k | 0 <= k < |Concat(names)| ensures Concat(names)[k] != '(' {
        if k < |w| {
          assert Concat(names)[k] == w[k];
        } else {
          assert Concat(names)[k] == rest[k - |w|];
        }
      }
    }
  }

  /** A name word has exactly one space, its last character. */
  lemma NameWordSpace(w: string, rest: string)
    requires IsNameWord(w)
    ensures IndexOf(w + rest, ' ', 0) == |w| - 1
  {
    var n := w + rest;
    IndexOfFromFirst(n, ' ', 0);
    assert n[|w| - 1] == ' ';
    forall k | 0 <= k < |w| - 1 ensures n[k] != ' ' {
      assert n[k] == w[k];
      if k > 0 && w[1..|w| - 1] == "." {
        assert w[k] == w[1..|w| - 1][k - 1];
      }
    }
  }

  /** A run of name words is counted word by word. */
  lemma {:induction false} NameCountOfConcat(names: seq<string>)
    requires AllNameWords(names)
    ensures NameCount(Concat(names)) == |names|
  {
    if names != [] {
      var w, rest := names[0], Concat(names[1..]);
      var n := Concat(names);
      assert n == w + rest;
      NameWordSpace(w, rest);
      assert n[..|w|] == w;
      assert n[|w|..] == rest;
      NameCountOfConcat(names[1..]);
    }
  }

  /** A successful count starts with a name word that ends at the first space, then counts the rest. */
  lemma NameCountStep(n: string)
    requires n != [] && NameCount(n) >= 0
    ensures 0 <= IndexOf(n, ' ', 0) < |n|
    ensures IsNameWord(n[..IndexOf(n, ' ', 0) + 1])
    ensures NameCount(n[IndexOf(n, ' ', 0) + 1..]) == NameCount(n) - 1
  {
  }

  /** Putting one more word in front of a run of words. */
  lemma ConcatCons(w: string, tail: seq<string>)
    ensures Concat([w] + tail) == w + Concat(tail)
  {
    assert ([w] + tail)[0] == w && ([w] + tail)[1..] == tail;
  }

  /** The name words a successful `NameCount` has found. */
  ghost function NameSplit(n: string): (names: seq<string>)
    requires NameCount(n) >= 0
    ensures AllNameWords(names) && Concat(names) == n && |names| == NameCount(n)
    decreases |n|
  {
    if n == [] then []
    else
      NameCountStep(n);
      var sp := IndexOf(n, ' ', 0);
      var w, rest := n[..sp + 1], n[sp + 1..];
      var tail := NameSplit(rest);
      ConcatCons(w, tail);
      SplitJoin(n, sp + 1);
      assert forall i :: 0 < i < |[w] + tail| ==> ([w] + tail)[i] == tail[i - 1];
      [w] + tail
  }

  /** Names before `open` and an e-mail from `open` on make an author text. */
  lemma AuthorSoundAt(s: string, open: int)
    requires 0 <= open <= |s| && NameCount(s[..open]) >= 2 && MatchesEmail(s[open..])
    ensures InAuthorLanguage(s)
  {
    var names, email := NameSplit(s[..open]), s[open..];
    assert InEmailLanguage(email) by {
      EmailMatchesSound(email);
    }
    SplitJoin(s, open);
    assert |names| >= 2 && AllNameWords(names) && s == AuthorText(names, email);
  }

  lemma AuthorMatchesSound(s: string)
    requires MatchesAuthor(s)
    ensures InAuthorLanguage(s)
  {
    AuthorSoundAt(s, IndexOf(s, '(', 0));
  }

  lemma AuthorMatchesComplete(names: seq<string>, email: string)
    requires |names| >= 2 && AllNameWords(names) && MatchesEmail(email)
    ensures MatchesAuthor(AuthorText(names, email))
  {
    var s := AuthorText(names, email);
    var n := Concat(names);
    ConcatHasNoParen(names);
    assert email[0] == '(';
    assert s[|n|] == '(';
    forall k | 0 <= k < |n| ensures s[k] != '(' {
      assert s[k] == n[k];
    }
    var open := IndexOf(s, '(', 0);
    IndexOfFromFirst(s, '(', 0);
    assert open == |n|;
    assert s[..open] == n;
    assert s[open..] == email;
    NameCountOfConcat(names);
  }

  lemma AuthorMatchesIff(s: string)
    ensures MatchesAuthor(s) <==> InAuthorLanguage(s)
  {
    if MatchesAuthor(s) {
      AuthorMatchesSound(s);
    }
    if InAuthorLanguage(s) {
      var names, email :|
        |names| >= 2 && AllNameWords(names) && InEmailLanguage(email) && s == AuthorText(names, email);
      EmailMatchesIff(email);
      AuthorMatchesComplete(names, email);
    }
  }
}
