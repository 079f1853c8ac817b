/** Concrete runs of the rule, worked out on the model. */
module JavadocTagsExamples {
  import opened Text
  import opened TagPatterns
  import opened JavadocTags

  /** The two name words of the sample author. */
  function SampleNames(): seq<string> {
    ["A. ", "B. "]
  }

  /** The sample author text, `A. B. (ab@x.com)`. */
  function SampleAuthor(): string {
    AuthorText(SampleNames(), EmailText("ab", HostText("x", "com")))
  }

  /** The sample version text, `$Id$`. */
  function SampleVersion(): string {
    VersionText("")
  }

  /** A class with a complete header comment. */
  function WellDocumented(): seq<string> {
    ["/**", Prefix("version") + SampleVersion(), Prefix("author") + SampleAuthor(), " */", "class X {"]
  }

  /** A class whose comment has no content lines at all. */
  function EmptyComment(): seq<string> {
    ["/**", " */", "class X {"]
  }

  /** The sample name words are name words. */
  lemma SampleNamesAreNameWords()
    ensures AllNameWords(SampleNames())
  {
    assert "A. "[1..2] == ".";
    assert "B. "[1..2] == ".";
  }

  /** The sample e-mail is accepted by the e-mail part of the author pattern. */
  lemma SampleEmailAccepted()
    ensures MatchesEmail(EmailText("ab", HostText("x", "com")))
  {
    HostMatchesComplete("x", "com");
    EmailMatchesComplete("ab", HostText("x", "com"));
  }

  /** The sample author text is accepted by the author pattern. */
  lemma SampleAuthorAccepted()
    ensures Matches(AuthorPattern, SampleAuthor())
  {
    SampleNamesAreNameWords();
    SampleEmailAccepted();
    AuthorMatchesComplete(SampleNames(), EmailText("ab", HostText("x", "com")));
  }

  /** An author text without the parenthesised e-mail is refused. */
  lemma AuthorExampleRefused()
    ensures !Matches(AuthorPattern, "Jane Doe jane@x.com")
  {
    assert IndexOf("Jane Doe jane@x.com", '(', 0) == -1;
  }

  /** Version texts: a keyword expansion is accepted, an unterminated one is not. */
  lemma VersionExamples()
    ensures Matches(VersionPattern, SampleVersion())
    ensures Matches(VersionPattern, "$Id: X.java 12 $")
    ensures !Matches(VersionPattern, "$Id")
  {
  }

  /** A line with the expected prefix mentions its tag. */
  lemma PrefixedLineMentions(tag: string, text: string)
    ensures Contains(Prefix(tag) + text, Needle(tag))
  {
    var line := Prefix(tag) + text;
    assert line[3..3 + |Needle(tag)|] == Needle(tag);
    OccursAtContains(line, Needle(tag), 3);
  }

  /** A line with the expected prefix neither opens nor closes a comment: its trimmed text starts with `* `. */
  lemma TrimPrefixedLine(tag: string, text: string)
    ensures Trim(Prefix(tag) + text) != CommentOpen && Trim(Prefix(tag) + text) != CommentClose
  {
    var t := "* @" + tag + " " + text;
    assert Prefix(tag) + text == " " + t;
    TrimStartOfPadded(" ", t);
    TrimEndShape(t);
    var r := Trim(Prefix(tag) + text);
    assert r == t[..|r|];
    if |r| >= 2 {
      assert r[0] == '*' && r[1] == ' ';
    }
  }

  /** The tag lines of `WellDocumented` neither open nor close a comment. */
  lemma WellDocumentedBodyTrims(lines: seq<string>)
    requires lines == WellDocumented()
    ensures Trim(lines[1]) != CommentOpen && Trim(lines[1]) != CommentClose
    ensures Trim(lines[2]) != CommentOpen && Trim(lines[2]) != CommentClose
  {
    TrimPrefixedLine("version", SampleVersion());
    TrimPrefixedLine("author", SampleAuthor());
  }

  /** Only line 0 of `WellDocumented` opens and only line 3 closes a comment. */
  lemma WellDocumentedTrims(lines: seq<string>)
    requires lines == WellDocumented()
    ensures Trim(lines[0]) == CommentOpen && Trim(lines[3]) == CommentClose
    ensures Trim(lines[1]) != CommentOpen && Trim(lines[1]) != CommentClose
    ensures Trim(lines[2]) != CommentOpen && Trim(lines[2]) != CommentClose
    ensures Trim(lines[3]) != CommentOpen && Trim(lines[0]) != CommentClose
    ensures Trim(lines[4]) != CommentOpen && Trim(lines[4]) != CommentClose
  {
    WellDocumentedBodyTrims(lines);
    assert Trim(lines[0]) == CommentOpen by { TrimBareLine("/**"); }
    assert Trim(lines[3]) == CommentClose by {
      TrimOfPadded(" ", "*/", "");
      assert " " + "*/" + "" == " */";
    }
    assert Trim(lines[4]) == "class X {" by { TrimBareLine("class X {"); }
  }

  /** Seen from the class line, the comment of `WellDocumented` spans its lines 0 to 3. */
  lemma WellDocumentedComment()
    ensures FindUp(WellDocumented(), 4, CommentOpen) == 0
    ensures FindUp(WellDocumented(), 4, CommentClose) == 3
    ensures CommentLocated(WellDocumented(), 5)
  {
    WellDocumentedTrims(WellDocumented());
    FindUpIsNearest(WellDocumented(), 4, CommentOpen);
    FindUpIsNearest(WellDocumented(), 4, CommentClose);
  }

  /** A tag whose first mention is well formed and whose text matches draws nothing. */
  lemma TagClean(lines: seq<string>, start: int, end: int, tag: string, pattern: Pattern, p: int, text: string)
    requires 0 <= start && end < |lines|
    requires FirstTagLine(lines, start, end, tag, p) && ' ' !in tag
    requires lines[p] == Prefix(tag) + text && Matches(pattern, text)
    ensures TagDiagnostics(lines, start, end, tag, pattern) == []
  {
    assert lines[p][..|Prefix(tag)|] == Prefix(tag);
    TagTextAfterPrefix(lines[p], tag);
    assert lines[p][|Prefix(tag)|..] == text;
    TagWellFormed(lines, start, end, tag, pattern, p);
  }

  /** The version line does not mention `@author `. */
  lemma VersionLineLacksAuthor()
    ensures !Contains(Prefix("version") + SampleVersion(), Needle("author"))
  {
    var line, sub := Prefix("version") + SampleVersion(), Needle("author");
    assert line == " * @version $Id$" && sub == "@author ";
    forall k | 0 <= k && k + 8 <= |line| ensures line[k] != '@' || line[k + 1] != 'a' {
    }
    forall k ensures !OccursAt(line, sub, k) {
      if 0 <= k && k + 8 <= |line| {
        assert line[k..k + 8][0] == line[k] && line[k..k + 8][1] == line[k + 1];
      }
    }
    ContainsIff(line, sub);
  }

  /** The version line of `WellDocumented` is the first mention, well formed and matching. */
  lemma WellDocumentedVersion()
    ensures TagDiagnostics(WellDocumented(), 0, 3, "version", VersionPattern) == []
  {
    var lines := WellDocumented();
    PrefixedLineMentions("version", SampleVersion());
    TooShortToContain(lines[0], Needle("version"));
    assert FirstTagLine(lines, 0, 3, "version", 1);
    VersionExamples();
    TagClean(lines, 0, 3, "version", VersionPattern, 1, SampleVersion());
  }

  /** Line 2 of `WellDocumented` is the first to mention `@author `. */
  lemma AuthorLineFirst(lines: seq<string>)
    requires lines == WellDocumented()
    ensures FirstTagLine(lines, 0, 3, "author", 2)
  {
    PrefixedLineMentions("author", SampleAuthor());
    TooShortToContain(lines[0], Needle("author"));
    VersionLineLacksAuthor();
  }

  /** The author line of `WellDocumented` is the first mention, well formed and matching. */
  lemma WellDocumentedAuthor()
    ensures TagDiagnostics(WellDocumented(), 0, 3, "author", AuthorPattern) == []
  {
    var lines := WellDocumented();
    AuthorLineFirst(lines);
    SampleAuthorAccepted();
    TagClean(lines, 0, 3, "author", AuthorPattern, 2, SampleAuthor());
  }

  /** A well-formed comment right above a top-level class draws no diagnostic, whatever the walk order. */
  lemma WellDocumentedIsClean(order: seq<string>)
    requires Enumerates(order, DefaultTags().Keys)
    ensures VisitDiagnostics(WellDocumented(), 5, false, DefaultTags(), order) == []
  {
    WellDocumentedComment();
    WellDocumentedVersion();
    WellDocumentedAuthor();
    TagsDiagnosticsClean(WellDocumented(), 0, 3, DefaultTags(), order);
  }

  /** Seen from the class line, the empty comment spans its lines 0 and 1. */
  lemma EmptyCommentLocated()
    ensures FindUp(EmptyComment(), 2, CommentOpen) == 0
    ensures FindUp(EmptyComment(), 2, CommentClose) == 1
    ensures CommentLocated(EmptyComment(), 3)
  {
    var lines := EmptyComment();
    assert Trim(lines[0]) == CommentOpen by { TrimBareLine("/**"); }
    assert Trim(lines[1]) == CommentClose by {
      TrimOfPadded(" ", "*/", "");
      assert " " + "*/" + "" == " */";
    }
    assert Trim(lines[2]) == "class X {" by { TrimBareLine("class X {"); }
    FindUpIsNearest(lines, 2, CommentOpen);
    FindUpIsNearest(lines, 2, CommentClose);
  }

  /** Neither line of the empty comment mentions a tag, so each tag is reported missing at line 1. */
  lemma EmptyCommentTag(tag: string, pattern: Pattern)
    requires |tag| >= 2
    ensures TagDiagnostics(EmptyComment(), 0, 1, tag, pattern) == [Diagnostic(1, MissingTag(tag))]
  {
    var lines := EmptyComment();
    TooShortToContain(lines[0], Needle(tag));
    TooShortToContain(lines[1], Needle(tag));
    TagMissing(lines, 0, 1, tag, pattern);
  }

  /** Walking the default tags in one order over the empty comment. */
  lemma EmptyCommentWalk(walk: seq<string>)
    requires walk == ["author", "version"]
    ensures TagsDiagnostics(EmptyComment(), 0, 1, DefaultTags(), walk) ==
            [Diagnostic(1, MissingTag("author")), Diagnostic(1, MissingTag("version"))]
  {
    var lines, tags := EmptyComment(), DefaultTags();
    assert tags["author"] == AuthorPattern && tags["version"] == VersionPattern;
    EmptyCommentTag("author", AuthorPattern);
    EmptyCommentTag("version", VersionPattern);
    assert walk[1..] == ["version"] && walk[1..][1..] == [];
    assert TagsDiagnostics(lines, 0, 1, tags, walk[1..]) ==
           TagDiagnostics(lines, 0, 1, "version", VersionPattern) + TagsDiagnostics(lines, 0, 1, tags, []);
    assert TagsDiagnostics(lines, 0, 1, tags, walk) ==
           TagDiagnostics(lines, 0, 1, "author", AuthorPattern) + TagsDiagnostics(lines, 0, 1, tags, walk[1..]);
  }

  /**
   * An empty comment is still located (its closing line is below its opening line), so no
   * missing-comment report is drawn: each tag of the table is reported missing at line 1.
   */
  lemma EmptyCommentReportsMissingTags(order: seq<string>)
    requires Enumerates(order, DefaultTags().Keys)
    ensures multiset(VisitDiagnostics(EmptyComment(), 3, false, DefaultTags(), order)) ==
            multiset{Diagnostic(1, MissingTag("author")), Diagnostic(1, MissingTag("version"))}
  {
    var lines, tags := EmptyComment(), DefaultTags();
    EmptyCommentLocated();
    var walk := ["author", "version"];
    assert Enumerates(walk, tags.Keys);
    VisitOrderIndependent(lines, 3, false, tags, order, walk);
    EmptyCommentWalk(walk);
  }

  /** A comment opening on line index 2 whose version line lacks the leading space. */
  function Misaligned(): seq<string> {
    ["package p;", "", "/**", Prefix("version")[1..] + SampleVersion(), " */", "class X {"]
  }

  /**
   * A mention without the expected prefix draws the layout complaint and then the missing-tag
   * report. The complaint carries `start + pos + 1` with `pos` already an index into the whole
   * file, so here it names line 6, the class line, while the offending text is on line 4.
   */
  lemma MisalignedVersionReports()
    ensures TagDiagnostics(Misaligned(), 2, 4, "version", VersionPattern) ==
            [Diagnostic(6, BadPrefix("version", Prefix("version"))), Diagnostic(3, MissingTag("version"))]
  {
    var lines := Misaligned();
    var line := lines[3];
    assert line[2..2 + |Needle("version")|] == Needle("version");
    OccursAtContains(line, Needle("version"), 2);
    TooShortToContain(lines[2], Needle("version"));
    assert line[0] != Prefix("version")[0];
    assert FirstTagLine(lines, 2, 4, "version", 3);
    TagMalformed(lines, 2, 4, "version", VersionPattern, 3);
  }
}
