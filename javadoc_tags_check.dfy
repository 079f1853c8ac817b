/**
 * The checkstyle rule `JavadocTagsCheck`. For a top-level class or interface it looks
 * upward from the declaration for the Javadoc comment's opening and closing lines, then, for
 * each tag of its table (`author`, `version`), finds the first comment line mentioning
 * `@tag `, checks that line's layout and checks the tag's text against the tag's pattern.
 *
 * Line indexes into `lines` are 0-based; the line numbers carried by diagnostics are
 * whatever the rule passes to `log`, reproduced exactly.
 */
module JavadocTags {
  import opened Text
  import opened TagPatterns

  /** The message templates the rule logs, each with its arguments. */
  datatype Message =
    | CommentNotFound                              // Problem finding class/interface comment
    | MissingTag(tag: string)                      // Missing '@{0}' tag in class/interface comment
    | BadPrefix(tag: string, prefix: string)       // Line with '@{0}' does not start with a '{1}'
    | TextMismatch(text: string, pattern: string)  // Tag text '{0}' does not match the pattern '{1}'

  /** One call of the base class's `log(line, message, args...)`. */
  datatype Diagnostic = Diagnostic(line: int, message: Message)

  const CommentOpen: string := "/**"
  const CommentClose: string := "*/"

  // ---------------------------------------------------------------------------
  // Comment locator
  // ---------------------------------------------------------------------------

  /** Scanning upward from index `pos`: the first line whose trimmed text is `text`, or -1. */
  function FindUp(lines: seq<string>, pos: int, text: string): (r: int)
    requires pos < |lines|
    ensures r == -1 || (0 <= r <= pos && Trim(lines[r]) == text)
    decreases pos + 1
  {
    if pos < 0 then -1
    else if Trim(lines[pos]) == text then pos
    else FindUp(lines, pos - 1, text)
  }

  /** `FindUp` finds the nearest matching line, and -1 means that no line at or above `pos` matches. */
  lemma {:induction false} FindUpIsNearest(lines: seq<string>, pos: int, text: string)
    requires pos < |lines|
    ensures forall k :: FindUp(lines, pos, text) < k <= pos ==> Trim(lines[k]) != text
    ensures FindUp(lines, pos, text) == -1 <==> forall k :: 0 <= k <= pos ==> Trim(lines[k]) != text
    decreases pos + 1
  {
    if pos >= 0 && Trim(lines[pos]) != text {
      FindUpIsNearest(lines, pos - 1, text);
    }
  }

  /** `findTrimmedTextUp`: walks up from index `start - 1`, the 1-based line `start` itself. */
  method FindTrimmedTextUp(lines: seq<string>, start: int, text: string) returns (found: int)
    requires start <= |lines|
    ensures found == FindUp(lines, start - 1, text)
    ensures found == -1 || (0 <= found < start && Trim(lines[found]) == text)
    ensures forall k :: found < k < start ==> Trim(lines[k]) != text
  {
    found := -1;
    var pos := start - 1;
    while pos >= 0
      invariant pos < start && (-1 <= pos || pos == start - 1)
      invariant FindUp(lines, pos, text) == FindUp(lines, start - 1, text)
      invariant forall k :: pos < k < start ==> Trim(lines[k]) != text
    {
      if Trim(lines[pos]) == text {
        found := pos;
        break;
      }
      pos := pos - 1;
    }
  }

  /** `findCommentStart`: the nearest line at or above the declaration that trims to `CommentOpen`. */
  method FindCommentStart(lines: seq<string>, start: int) returns (r: int)
    requires start <= |lines|
    ensures r == FindUp(lines, start - 1, CommentOpen)
  {
    r := FindTrimmedTextUp(lines, start, CommentOpen);
  }

  /** `findCommentEnd`: the nearest line at or above the declaration that trims to `CommentClose`. */
  method FindCommentEnd(lines: seq<string>, start: int) returns (r: int)
    requires start <= |lines|
    ensures r == FindUp(lines, start - 1, CommentClose)
  {
    r := FindTrimmedTextUp(lines, start, CommentClose);
  }

  // ---------------------------------------------------------------------------
  // Tag extractor
  // ---------------------------------------------------------------------------

  /** What a comment line must contain to mention the tag. */
  function Needle(tag: string): string {
    "@" + tag + " "
  }

  /** What a line mentioning the tag must start with. */
  function Prefix(tag: string): string {
    " * @" + tag + " "
  }

  /** What the scan of `findTagLineNum` stops on. */
  datatype TagLine = Found(pos: int) | Malformed(pos: int) | Absent {
    /** The value `findTagLineNum` returns. */
    function Index(): int {
      if Found? then pos else -1
    }
  }

  /** Scanning forward from index `pos` up to `end`: the first line mentioning the tag, and its layout. */
  function SearchTag(lines: seq<string>, pos: int, end: int, tag: string): (r: TagLine)
    requires 0 <= pos && end < |lines|
    ensures !r.Absent? ==> pos <= r.pos <= end
    decreases end - pos + 1
  {
    if pos > end then Absent
    else if Contains(lines[pos], Needle(tag)) then
      if StartsWith(lines[pos], Prefix(tag)) then Found(pos) else Malformed(pos)
    else SearchTag(lines, pos + 1, end, tag)
  }

  /** Line `p` is the first line of `start..end` that mentions the tag. */
  predicate FirstTagLine(lines: seq<string>, start: int, end: int, tag: string, p: int) {
    0 <= start <= p <= end < |lines| && Contains(lines[p], Needle(tag)) &&
    forall k :: start <= k < p ==> !Contains(lines[k], Needle(tag))
  }

  /**
   * `SearchTag` stops at the first line mentioning the tag, whether or not a later line is
   * well formed; it reports `Absent` exactly when no line of the range mentions the tag.
   */
  lemma {:induction false} SearchTagIsFirst(lines: seq<string>, pos: int, end: int, tag: string)
    requires 0 <= pos && end < |lines|
    ensures SearchTag(lines, pos, end, tag).Absent? <==>
              forall k :: pos <= k <= end ==> !Contains(lines[k], Needle(tag))
    ensures !SearchTag(lines, pos, end, tag).Absent? ==>
              FirstTagLine(lines, pos, end, tag, SearchTag(lines, pos, end, tag).pos)
    ensures SearchTag(lines, pos, end, tag).Found? ==>
              StartsWith(lines[SearchTag(lines, pos, end, tag).pos], Prefix(tag))
    ensures SearchTag(lines, pos, end, tag).Malformed? ==>
              !StartsWith(lines[SearchTag(lines, pos, end, tag).pos], Prefix(tag))
    decreases end - pos + 1
  {
    if pos <= end && !Contains(lines[pos], Needle(tag)) {
      SearchTagIsFirst(lines, pos + 1, end, tag);
    }
  }

  /** `getTagText`: the text after the first space that follows the first `@`. */
  function GetTagText(line: string): (r: string)
    ensures |r| <= |line| && r == line[|line| - |r|..]
  {
    line[IndexOf(line, ' ', IndexOf(line, '@', 0)) + 1..]
  }

  /**
   * Where `getTagText` cuts: one past the first space at or after the first `@`, searching
   * from the start of the line when it has no `@`.
   */
  lemma GetTagTextCut(line: string, at: int, sp: int)
    requires FirstFrom(line, '@', 0, at) || (at == 0 && '@' !in line)
    requires FirstFrom(line, ' ', at, sp)
    ensures GetTagText(line) == line[sp + 1..]
  {
    GetTagTextFrom(line, at);
    IndexOfFromIsFirst(line, ' ', at, sp);
  }

  /** With no such space, `getTagText` gives back the whole line. */
  lemma GetTagTextWhole(line: string, at: int)
    requires FirstFrom(line, '@', 0, at) || (at == 0 && '@' !in line)
    requires forall k :: at <= k < |line| ==> line[k] != ' '
    ensures GetTagText(line) == line
  {
    GetTagTextFrom(line, at);
    IndexOfFromNone(line, ' ', at);
  }

  /** The space search of `getTagText` starts at the first `@`, or at 0 when there is none. */
  lemma GetTagTextFrom(line: string, at: int)
    requires FirstFrom(line, '@', 0, at) || (at == 0 && '@' !in line)
    ensures 0 <= at && IndexOf(line, ' ', IndexOf(line, '@', 0)) == IndexOfFrom(line, ' ', at)
  {
    if '@' in line {
      IndexOfFromIsFirst(line, '@', 0, at);
    } else {
      IndexOfFromNone(line, '@', 0);
    }
  }

  /** On a line with the expected prefix and a tag without spaces, the text is what follows the prefix. */
  lemma TagTextAfterPrefix(line: string, tag: string)
    requires ' ' !in tag
    requires StartsWith(line, Prefix(tag))
    ensures GetTagText(line) == line[|Prefix(tag)|..]
  {
    var n := |tag|;
    assert line[..n + 5] == Prefix(tag);
    assert line[0] == ' ' && line[1] == '*' && line[2] == ' ' && line[3] == '@';
    IndexOfFromFirst(line, '@', 0);
    assert IndexOf(line, '@', 0) == 3;
    forall k | 4 <= k < 4 + n ensures line[k] != ' ' {
      assert line[k] == tag[k - 4];
    }
    assert line[4 + n] == ' ';
    IndexOfFromFirst(line, ' ', 3);
    assert IndexOf(line, ' ', 3) == 4 + n;
  }

  // ---------------------------------------------------------------------------
  // Tag validator
  // ---------------------------------------------------------------------------

  /** What `findTagLineNum` logs: one layout complaint when the first mention is malformed. */
  function PrefixDiagnostics(lines: seq<string>, start: int, end: int, tag: string): seq<Diagnostic>
    requires 0 <= start && end < |lines|
  {
    match SearchTag(lines, start, end, tag)
    case Malformed(pos) => [Diagnostic(start + pos + 1, BadPrefix(tag, Prefix(tag)))]
    case _ => []
  }

  /**
   * What `matchTagFormat` logs for one tag of the comment on lines `start..end`: the layout
   * complaint of `findTagLineNum` if any, then its own report.
   */
  function TagDiagnostics(lines: seq<string>, start: int, end: int, tag: string, pattern: Pattern): seq<Diagnostic>
    requires 0 <= start && end < |lines|
  {
    match SearchTag(lines, start, end, tag)
    case Absent => [Diagnostic(start + 1, MissingTag(tag))]
    case Malformed(pos) => [Diagnostic(start + pos + 1, BadPrefix(tag, Prefix(tag))), Diagnostic(start + 1, MissingTag(tag))]
    case Found(pos) =>
      var text := GetTagText(lines[pos]);
      if Matches(pattern, text) then [] else [Diagnostic(pos + 1, TextMismatch(text, Source(pattern)))]
  }

  /** When `findTagLineNum` returns -1, `matchTagFormat` adds the missing-tag report to what it logged. */
  lemma TagDiagnosticsMissing(lines: seq<string>, start: int, end: int, tag: string, pattern: Pattern)
    requires 0 <= start && end < |lines|
    requires SearchTag(lines, start, end, tag).Index() == -1
    ensures TagDiagnostics(lines, start, end, tag, pattern) ==
            PrefixDiagnostics(lines, start, end, tag) + [Diagnostic(start + 1, MissingTag(tag))]
  {
  }

  /** When `findTagLineNum` returns a line, it logged nothing and `matchTagFormat` checks that line's text. */
  lemma TagDiagnosticsFound(lines: seq<string>, start: int, end: int, tag: string, pattern: Pattern, p: int)
    requires 0 <= start && end < |lines|
    requires SearchTag(lines, start, end, tag).Index() == p && p != -1
    ensures 0 <= p < |lines| && PrefixDiagnostics(lines, start, end, tag) == []
    ensures TagDiagnostics(lines, start, end, tag, pattern) ==
            if Matches(pattern, GetTagText(lines[p])) then []
            else [Diagnostic(p + 1, TextMismatch(GetTagText(lines[p]), Source(pattern)))]
  {
    assert SearchTag(lines, start, end, tag) == Found(p);
  }

  /** Concatenation is associative. */
  lemma AppendAssoc<T>(a: seq<T>, b: seq<T>, c: seq<T>)
    ensures a + b + c == a + (b + c)
  {
  }

  /** Whatever line is first to mention the tag is the one `SearchTag` stops on. */
  lemma SearchTagFindsFirst(lines: seq<string>, start: int, end: int, tag: string, p: int)
    requires 0 <= start && end < |lines|
    requires FirstTagLine(lines, start, end, tag, p)
    ensures SearchTag(lines, start, end, tag) == if StartsWith(lines[p], Prefix(tag)) then Found(p) else Malformed(p)
  {
    SearchTagIsFirst(lines, start, end, tag);
    assert Contains(lines[p], Needle(tag));
  }

  /** A tag that no line of the comment mentions is reported missing, at the line after the comment start. */
  lemma TagMissing(lines: seq<string>, start: int, end: int, tag: string, pattern: Pattern)
    requires 0 <= start && end < |lines|
    requires forall k :: start <= k <= end ==> !Contains(lines[k], Needle(tag))
    ensures TagDiagnostics(lines, start, end, tag, pattern) == [Diagnostic(start + 1, MissingTag(tag))]
  {
    SearchTagIsFirst(lines, start, end, tag);
  }

  /**
   * A first mention without the expected prefix draws two reports: the layout complaint at
   * `start + p + 1`, then the tag is reported missing; no later line is looked at.
   */
  lemma TagMalformed(lines: seq<string>, start: int, end: int, tag: string, pattern: Pattern, p: int)
    requires 0 <= start && end < |lines|
    requires FirstTagLine(lines, start, end, tag, p) && !StartsWith(lines[p], Prefix(tag))
    ensures TagDiagnostics(lines, start, end, tag, pattern) ==
              [Diagnostic(start + p + 1, BadPrefix(tag, Prefix(tag))), Diagnostic(start + 1, MissingTag(tag))]
  {
    SearchTagFindsFirst(lines, start, end, tag, p);
  }

  /**
   * A well-formed first mention draws nothing when its text matches the tag's pattern, and
   * otherwise one report at its own 1-based line carrying the text and the pattern's source.
   */
  lemma TagWellFormed(lines: seq<string>, start: int, end: int, tag: string, pattern: Pattern, p: int)
    requires 0 <= start && end < |lines|
    requires FirstTagLine(lines, start, end, tag, p) && StartsWith(lines[p], Prefix(tag))
    ensures TagDiagnostics(lines, start, end, tag, pattern) ==
              if Matches(pattern, GetTagText(lines[p])) then []
              else [Diagnostic(p + 1, TextMismatch(GetTagText(lines[p]), Source(pattern)))]
  {
    SearchTagFindsFirst(lines, start, end, tag, p);
    TagDiagnosticsFound(lines, start, end, tag, pattern, p);
  }

  /** The diagnostics of checking the tags of `order`, one tag after the other. */
  function TagsDiagnostics(lines: seq<string>, start: int, end: int, tags: map<string, Pattern>,
                           order: seq<string>): seq<Diagnostic>
    requires 0 <= start && end < |lines|
    requires forall t :: t in order ==> t in tags
  {
    if order == [] then []
    else TagDiagnostics(lines, start, end, order[0], tags[order[0]]) +
         TagsDiagnostics(lines, start, end, tags, order[1..])
  }

  lemma {:induction false} TagsDiagnosticsConcat(lines: seq<string>, start: int, end: int,
                                                 tags: map<string, Pattern>, a: seq<string>, b: seq<string>)
    requires 0 <= start && end < |lines|
    requires forall t :: t in a + b ==> t in tags
    ensures TagsDiagnostics(lines, start, end, tags, a + b) ==
            TagsDiagnostics(lines, start, end, tags, a) + TagsDiagnostics(lines, start, end, tags, b)
    decreases |a|
  {
    if a == [] {
      assert a + b == b;
    } else {
      assert (a + b)[0] == a[0] && (a + b)[1..] == a[1..] + b;
      TagsDiagnosticsConcat(lines, start, end, tags, a[1..], b);
    }
  }

  /**
   * The tags may be checked in any order: any two orders listing the same tags give the
   * same diagnostics, up to their order.
   */
  lemma {:induction false} TagsDiagnosticsPermutation(lines: seq<string>, start: int, end: int,
                                                      tags: map<string, Pattern>, o1: seq<string>, o2: seq<string>)
    requires 0 <= start && end < |lines|
    requires forall t :: t in o1 ==> t in tags
    requires forall t :: t in o2 ==> t in tags
    requires multiset(o1) == multiset(o2)
    ensures multiset(TagsDiagnostics(lines, start, end, tags, o1)) ==
            multiset(TagsDiagnostics(lines, start, end, tags, o2))
    decreases |o1|
  {
    if o1 != [] {
      var t := o1[0];
      assert t in multiset(o2);
      var i :| 0 <= i < |o2| && o2[i] == t;
      var left, right := o2[..i], o2[i + 1..];
      MultisetRemoveOne(o1, o2, i);
      assert forall u :: u in left + right ==> u in o2;
      TagsDiagnosticsPermutation(lines, start, end, tags, o1[1..], left + right);
      TagsDiagnosticsExtract(lines, start, end, tags, left, t, right);
      assert TagsDiagnostics(lines, start, end, tags, o1) ==
             TagDiagnostics(lines, start, end, t, tags[t]) + TagsDiagnostics(lines, start, end, tags, o1[1..]);
    }
  }

  /** Checking one tag in the middle of an order contributes its diagnostics, up to their position. */
  lemma TagsDiagnosticsExtract(lines: seq<string>, start: int, end: int, tags: map<string, Pattern>,
                               left: seq<string>, t: string, right: seq<string>)
    requires 0 <= start && end < |lines|
    requires forall u :: u in left + ([t] + right) ==> u in tags
    ensures forall u :: u in left + right ==> u in tags
    ensures multiset(TagsDiagnostics(lines, start, end, tags, left + ([t] + right))) ==
            multiset(TagDiagnostics(lines, start, end, t, tags[t])) +
            multiset(TagsDiagnostics(lines, start, end, tags, left + right))
  {
    assert forall u :: u in left + right ==> u in left + ([t] + right);
    TagsDiagnosticsConcat(lines, start, end, tags, left, right);
    TagsDiagnosticsConcat(lines, start, end, tags, left, [t] + right);
    assert ([t] + right)[0] == t && ([t] + right)[1..] == right;
  }

  /** Taking the first element off one of two equal multisets and any copy of it off the other. */
  lemma MultisetRemoveOne(o1: seq<string>, o2: seq<string>, i: int)
    requires multiset(o1) == multiset(o2) && o1 != []
    requires 0 <= i < |o2| && o2[i] == o1[0]
    ensures multiset(o1[1..]) == multiset(o2[..i] + o2[i + 1..])
    ensures o2 == o2[..i] + ([o2[i]] + o2[i + 1..])
  {
    var t, rest := o1[0], o2[..i] + o2[i + 1..];
    assert o1 == [t] + o1[1..];
    assert o2 == o2[..i] + [t] + o2[i + 1..];
    assert multiset(o1) == multiset{t} + multiset(o1[1..]);
    assert multiset(o2) == multiset(o2[..i]) + multiset{t} + multiset(o2[i + 1..]);
    assert multiset(rest) == multiset(o2[..i]) + multiset(o2[i + 1..]);
    forall x ensures multiset(o1[1..])[x] == multiset(rest)[x] {
      assert multiset(o1)[x] == multiset{t}[x] + multiset(o1[1..])[x];
      assert multiset(o2)[x] == multiset{t}[x] + multiset(rest)[x];
    }
  }

  /** The tag checks never report a missing comment. */
  lemma {:induction false} TagsDiagnosticsNoCommentComplaint(lines: seq<string>, start: int, end: int,
                                                      tags: map<string, Pattern>, order: seq<string>)
    requires 0 <= start && end < |lines|
    requires forall t :: t in order ==> t in tags
    ensures forall d :: d in TagsDiagnostics(lines, start, end, tags, order) ==> !d.message.CommentNotFound?
    decreases |order|
  {
    if order != [] {
      TagsDiagnosticsNoCommentComplaint(lines, start, end, tags, order[1..]);
    }
  }

  /** Checking one more tag after a walk adds that tag's diagnostics at the end. */
  lemma TagsDiagnosticsAppend(lines: seq<string>, start: int, end: int, tags: map<string, Pattern>,
                              order: seq<string>, t: string)
    requires 0 <= start && end < |lines|
    requires forall u :: u in order ==> u in tags
    requires t in tags
    ensures forall u :: u in order + [t] ==> u in tags
    ensures TagsDiagnostics(lines, start, end, tags, order + [t]) ==
            TagsDiagnostics(lines, start, end, tags, order) + TagDiagnostics(lines, start, end, t, tags[t])
  {
    TagsDiagnosticsConcat(lines, start, end, tags, order, [t]);
    TagsDiagnosticsSingle(lines, start, end, tags, t);
  }

  /** A log holding the diagnostics of a walk, extended by one more tag's, holds those of the longer walk. */
  lemma LogStep(log: seq<Diagnostic>, lines: seq<string>, start: int, end: int, tags: map<string, Pattern>,
                order: seq<string>, t: string)
    requires 0 <= start && end < |lines|
    requires forall u :: u in order ==> u in tags
    requires t in tags
    ensures forall u :: u in order + [t] ==> u in tags
    ensures log + TagsDiagnostics(lines, start, end, tags, order) + TagDiagnostics(lines, start, end, t, tags[t]) ==
            log + TagsDiagnostics(lines, start, end, tags, order + [t])
  {
    TagsDiagnosticsAppend(lines, start, end, tags, order, t);
    AppendAssoc(log, TagsDiagnostics(lines, start, end, tags, order), TagDiagnostics(lines, start, end, t, tags[t]));
  }

  /** Walking a single tag gives that tag's diagnostics. */
  lemma TagsDiagnosticsSingle(lines: seq<string>, start: int, end: int, tags: map<string, Pattern>, t: string)
    requires 0 <= start && end < |lines| && t in tags
    ensures TagsDiagnostics(lines, start, end, tags, [t]) == TagDiagnostics(lines, start, end, t, tags[t])
  {
    assert [t][1..] == [];
  }

  /** When every tag of the walk is clean, the walk logs nothing. */
  lemma {:induction false} TagsDiagnosticsClean(lines: seq<string>, start: int, end: int,
                                                tags: map<string, Pattern>, order: seq<string>)
    requires 0 <= start && end < |lines|
    requires forall t :: t in order ==> t in tags
    requires forall t :: t in order ==> TagDiagnostics(lines, start, end, t, tags[t]) == []
    ensures TagsDiagnostics(lines, start, end, tags, order) == []
    decreases |order|
  {
    if order != [] {
      assert order[0] in order;
      TagsDiagnosticsClean(lines, start, end, tags, order[1..]);
    }
  }

  /** No element of `s` occurs twice. */
  predicate Distinct(s: seq<string>) {
    forall i, j :: 0 <= i < j < |s| ==> s[i] != s[j]
  }

  /** `order` lists every key of `keys` exactly once: one order in which a key set can be walked. */
  predicate Enumerates(order: seq<string>, keys: set<string>) {
    Distinct(order) && (forall t :: t in order ==> t in keys) && (forall t :: t in keys ==> t in order)
  }

  /** Visiting one more key extends a walk. */
  lemma EnumeratesAppend(order: seq<string>, keys: set<string>, t: string)
    requires Enumerates(order, keys) && t !in keys
    ensures Enumerates(order + [t], keys + {t})
  {
    var o := order + [t];
    forall i, j | 0 <= i < j < |o| ensures o[i] != o[j] {
      if j == |order| {
        assert o[i] == order[i] && order[i] in keys;
      }
    }
  }

  /** A sequence without repeats holds each of its elements exactly once. */
  lemma {:induction false} DistinctOnce(o: seq<string>, x: string)
    requires Distinct(o)
    ensures multiset(o)[x] == if x in o then 1 else 0
  {
    if o != [] {
      assert Distinct(o[1..]) by {
        forall i, j | 0 <= i < j < |o[1..]| ensures o[1..][i] != o[1..][j] {
          assert o[1..][i] == o[i + 1] && o[1..][j] == o[j + 1];
        }
      }
      DistinctOnce(o[1..], x);
      assert o == [o[0]] + o[1..];
      assert multiset(o) == multiset{o[0]} + multiset(o[1..]);
      assert o[0] !in o[1..] by {
        forall j | 0 <= j < |o[1..]| ensures o[1..][j] != o[0] {
          assert o[1..][j] == o[j + 1];
        }
      }
    }
  }

  /** Any two walks of the same key set list the same keys, each as often. */
  lemma EnumerationsArePermutations(o1: seq<string>, o2: seq<string>, keys: set<string>)
    requires Enumerates(o1, keys) && Enumerates(o2, keys)
    ensures multiset(o1) == multiset(o2)
  {
    forall x ensures multiset(o1)[x] == multiset(o2)[x] {
      DistinctOnce(o1, x);
      DistinctOnce(o2, x);
    }
  }

  // ---------------------------------------------------------------------------
  // The visit of one declaration
  // ---------------------------------------------------------------------------

  /** The comment at or above the 1-based line `lineNo` was found: an opening line, and a closing line below it. */
  predicate CommentLocated(lines: seq<string>, lineNo: int)
    requires lineNo <= |lines|
  {
    var commentStart := FindUp(lines, lineNo - 1, CommentOpen);
    var commentEnd := FindUp(lines, lineNo - 1, CommentClose);
    commentEnd > commentStart && commentStart >= 0
  }

  /** What `visitToken` logs for a declaration on the 1-based line `lineNo`, checking the tags in `order`. */
  function VisitDiagnostics(lines: seq<string>, lineNo: int, hasParent: bool,
                            tags: map<string, Pattern>, order: seq<string>): seq<Diagnostic>
    requires lineNo <= |lines|
    requires forall t :: t in order ==> t in tags
  {
    if hasParent then []
    else if CommentLocated(lines, lineNo) then
      TagsDiagnostics(lines, FindUp(lines, lineNo - 1, CommentOpen), FindUp(lines, lineNo - 1, CommentClose),
                      tags, order)
    else [Diagnostic(0, CommentNotFound)]
  }

  /**
   * A nested declaration is not checked; a top-level one whose comment cannot be located
   * draws exactly one complaint, at line 0, and no tag is checked; otherwise the complaint
   * never appears.
   */
  lemma VisitCommentNotFound(lines: seq<string>, lineNo: int, hasParent: bool,
                             tags: map<string, Pattern>, order: seq<string>)
    requires lineNo <= |lines|
    requires forall t :: t in order ==> t in tags
    ensures hasParent ==> VisitDiagnostics(lines, lineNo, hasParent, tags, order) == []
    ensures Diagnostic(0, CommentNotFound) in VisitDiagnostics(lines, lineNo, hasParent, tags, order) <==>
              !hasParent && !CommentLocated(lines, lineNo)
    ensures !hasParent && !CommentLocated(lines, lineNo) ==>
              VisitDiagnostics(lines, lineNo, hasParent, tags, order) == [Diagnostic(0, CommentNotFound)]
  {
    if !hasParent && CommentLocated(lines, lineNo) {
      TagsDiagnosticsNoCommentComplaint(lines, FindUp(lines, lineNo - 1, CommentOpen),
                                 FindUp(lines, lineNo - 1, CommentClose), tags, order);
    }
  }

  /** The diagnostics of a visit do not depend on the order in which the tag table is walked. */
  lemma VisitOrderIndependent(lines: seq<string>, lineNo: int, hasParent: bool,
                              tags: map<string, Pattern>, o1: seq<string>, o2: seq<string>)
    requires lineNo <= |lines|
    requires Enumerates(o1, tags.Keys) && Enumerates(o2, tags.Keys)
    ensures multiset(VisitDiagnostics(lines, lineNo, hasParent, tags, o1)) ==
            multiset(VisitDiagnostics(lines, lineNo, hasParent, tags, o2))
  {
    if !hasParent && CommentLocated(lines, lineNo) {
      EnumerationsArePermutations(o1, o2, tags.Keys);
      TagsDiagnosticsPermutation(lines, FindUp(lines, lineNo - 1, CommentOpen),
                                 FindUp(lines, lineNo - 1, CommentClose), tags, o1, o2);
    }
  }

  // ---------------------------------------------------------------------------
  // The rule object
  // ---------------------------------------------------------------------------

  /** The tag table that `init` builds. */
  function DefaultTags(): (tags: map<string, Pattern>)
    ensures tags.Keys == {"author", "version"}
  {
    map["author" := AuthorPattern, "version" := VersionPattern]
  }

  class JavadocTagsCheck {
    /** The tag table: each tag name and the pattern its text must match. */
    var tags: map<string, Pattern>
    /** Everything logged so far, oldest first. */
    var log: seq<Diagnostic>

    constructor ()
      ensures tags == map[] && log == []
    {
      tags := map[];
      log := [];
    }

    /** `init`: registers the author and version patterns. */
    method Init()
      modifies this`tags
      ensures tags == old(tags)["author" := AuthorPattern]["version" := VersionPattern]
      ensures old(tags) == map[] ==> tags == DefaultTags()
    {
      tags := tags["author" := AuthorPattern];
      tags := tags["version" := VersionPattern];
    }

    /**
     * `visitToken` for a class or interface declaration on the 1-based line `lineNo`.
     * The tag table is walked in an unspecified order; `order` is the order taken.
     */
    method VisitToken(lines: seq<string>, lineNo: int, hasParent: bool) returns (ghost order: seq<string>)
      requires lineNo <= |lines|
      modifies this`log
      ensures forall t :: t in order ==> t in tags
      ensures !hasParent && CommentLocated(lines, lineNo) ==> Enumerates(order, tags.Keys)
      ensures log == old(log) + VisitDiagnostics(lines, lineNo, hasParent, tags, order)
    {
      order := [];
      if !hasParent {
        var commentStart := FindCommentStart(lines, lineNo);
        var commentEnd := FindCommentEnd(lines, lineNo);
        if commentEnd > commentStart && commentStart >= 0 {
          order := MatchAllTags(lines, commentStart, commentEnd);
        } else {
          log := log + [Diagnostic(0, CommentNotFound)];
        }
      }
    }

    /** The loop of `visitToken` over the tag table, which visits each tag once, in an unspecified order. */
    method MatchAllTags(lines: seq<string>, start: int, end: int) returns (ghost order: seq<string>)
      requires 0 <= start && end < |lines|
      modifies this`log
      ensures forall t :: t in order ==> t in tags
      ensures Enumerates(order, tags.Keys)
      ensures log == old(log) + TagsDiagnostics(lines, start, end, tags, order)
    {
      order := [];
      var remaining := tags.Keys;
      while remaining != {}
        invariant remaining <= tags.Keys
        invariant Enumerates(order, tags.Keys - remaining)
        invariant log == old(log) + TagsDiagnostics(lines, start, end, tags, order)
        decreases |remaining|
      {
        var tag :| tag in remaining;
        MatchTagFormat(lines, start, end, tag);
        LogStep(old(log), lines, start, end, tags, order, tag);
        EnumeratesAppend(order, tags.Keys - remaining, tag);
        assert (tags.Keys - remaining) + {tag} == tags.Keys - (remaining - {tag});
        order := order + [tag];
        remaining := remaining - {tag};
      }
      assert tags.Keys - remaining == tags.Keys;
    }

    /** `matchTagFormat`: checks one tag of the comment on lines `start..end`. */
    method MatchTagFormat(lines: seq<string>, start: int, end: int, tag: string)
      requires 0 <= start && end < |lines|
      requires tag in tags
      modifies this`log
      ensures log == old(log) + TagDiagnostics(lines, start, end, tag, tags[tag])
    {
      ghost var before := log;
      var line := FindTagLineNum(lines, start, end, tag);
      if line == -1 {
        log := log + [Diagnostic(start + 1, MissingTag(tag))];
        TagDiagnosticsMissing(lines, start, end, tag, tags[tag]);
        return;
      }
      TagDiagnosticsFound(lines, start, end, tag, tags[tag], line);
      assert log == before;
      var text := GetTagText(lines[line]);
      if !Matches(tags[tag], text) {
        log := log + [Diagnostic(line + 1, TextMismatch(text, Source(tags[tag])))];
      }
    }

    /** `findTagLineNum`: the first line of `start..end` mentioning the tag, if it is well formed. */
    method FindTagLineNum(lines: seq<string>, start: int, end: int, tag: string) returns (found: int)
      requires 0 <= start && end < |lines|
      modifies this`log
      ensures found == SearchTag(lines, start, end, tag).Index()
      ensures log == old(log) + PrefixDiagnostics(lines, start, end, tag)
    {
      var prefix := Prefix(tag);
      found := -1;
      var pos := start;
      while pos <= end
        invariant start <= pos
        invariant SearchTag(lines, pos, end, tag) == SearchTag(lines, start, end, tag)
        invariant found == -1 && log == old(log)
      {
        var line := lines[pos];
        if Contains(line, Needle(tag)) {
          if !StartsWith(line, prefix) {
            log := log + [Diagnostic(start + pos + 1, BadPrefix(tag, prefix))];
            found := -1;
            break;
          }
          found := pos;
          break;
        }
        pos := pos + 1;
      }
    }
  }
}
