# JavadocTagsCheck, modelled in Dafny

This project models the checkstyle rule `JavadocTagsCheck` of qulice. The rule runs once for each
class or interface declaration. For a top-level declaration it does the following:

- It walks upward from the declaration's line to find the Javadoc comment. The opening line is the
  nearest line that trims to `/**`; the closing line is the nearest line that trims to `*/`.
- It gives up with one complaint at line 0 unless both lines are found and the closing line lies
  below the opening line.
- Otherwise it checks every tag of its table (`author` and `version`) in turn:
  - It finds the first comment line that contains `@tag `.
  - That line must start with ` * @tag `. If it does not, the rule complains about the layout,
    then reports the tag as missing.
  - If no line mentions the tag, the tag is reported missing.
  - Otherwise the text after the tag must match the tag's regular expression.

The model has four modules:

- `Text` (`text.dfy`) holds the `java.lang.String` operations the rule calls: `trim`,
  `contains`, `startsWith` and `indexOf`, over `seq<char>`. It also holds `lastIndexOf`, which
  the rule does not call; the model's matcher for the e-mail host uses it.
- `TagPatterns` (`tag_patterns.dfy`) holds the two regular expressions of the tag table.
  Each one is written twice:
  - as a matcher that computes the answer;
  - as a declarative description of the language the expression denotes under
    `Matcher.matches()`.

  An if-and-only-if lemma connects the two for every string.
- `JavadocTags` (`javadoc_tags_check.dfy`) holds the rule itself:
  - The class `JavadocTagsCheck` has the tag table `tags` and the diagnostics `log` as fields.
  - Its methods mirror `init`, `visitToken`, `matchTagFormat` and `findTagLineNum`. The loops
    keep their loop form.
  - Each method is proved against a specification function: `SearchTag`, `PrefixDiagnostics`,
    `TagDiagnostics`, `TagsDiagnostics` and `VisitDiagnostics`.
  - Lemmas about those functions state what each outcome of a visit is.
- `JavadocTagsExamples` (`examples.dfy`) works out concrete files on the model:
  - a well-documented class draws nothing;
  - an empty comment draws two missing-tag reports;
  - a misaligned tag line draws the layout complaint at the class's own line, two lines below
    the offending one.

Line indexes into the file's lines are 0-based, as in the rule. A diagnostic carries exactly the
line number the rule passes to `log`.

Three behaviours of the code that a reader might not expect:

- A comment that cannot be located is reported at line 0 (`log(0, ...)`), not at the declaration's
  line. See `VisitCommentNotFound`.
- A first tag mention without the expected prefix is reported at `start + pos + 1`, not at the
  comment's opening line. `pos` is already an index into the whole file, so this counts `start`
  twice. See `MisalignedVersionReports`.
- A comment whose `/**` and `*/` lines are adjacent is still located, because its end is greater
  than its start. It draws one missing-tag report per tag at the opening line, not a
  missing-comment report. See `EmptyCommentReportsMissingTags`.

## Model

| member | source | states |
|---|---|---|
| Text.TrimOfPadded | qulice/qulice-checkstyle/src/main/java/com/qulice/checkstyle/JavadocTagsCheck.java:203 | trimming any white-space padding around a text with non-white ends gives back exactly that text |
| Text.ContainsIff | qulice/qulice-checkstyle/src/main/java/com/qulice/checkstyle/JavadocTagsCheck.java:154 | `line.contains(sub)` holds exactly when `sub` occurs at some index of the line |
| Text.IndexOfFromFirst | qulice/qulice-checkstyle/src/main/java/com/qulice/checkstyle/JavadocTagsCheck.java:135 | `indexOf(c, from)` returns the first index at or after `from` holding `c`; -1 means no such index |
| TagPatterns.VersionMatchesIff | qulice/qulice-checkstyle/src/main/java/com/qulice/checkstyle/JavadocTagsCheck.java:64 | the version matcher accepts exactly `$Id`, then any text without a line terminator, then `$` |
| TagPatterns.HostMatchesIff | qulice/qulice-checkstyle/src/main/java/com/qulice/checkstyle/JavadocTagsCheck.java:62 | the host matcher accepts exactly `[A-Za-z0-9.-]+` `.` `[A-Za-z]{2,4}` |
| TagPatterns.EmailMatchesIff | qulice/qulice-checkstyle/src/main/java/com/qulice/checkstyle/JavadocTagsCheck.java:62 | the e-mail matcher accepts exactly `(` local-part `@` host `)` |
| TagPatterns.AuthorMatchesSound | qulice/qulice-checkstyle/src/main/java/com/qulice/checkstyle/JavadocTagsCheck.java:62 | whatever the author matcher accepts is two or more name words followed by a parenthesised e-mail |
| TagPatterns.AuthorMatchesComplete | qulice/qulice-checkstyle/src/main/java/com/qulice/checkstyle/JavadocTagsCheck.java:62 | every run of two or more name words followed by an accepted e-mail is accepted |
| TagPatterns.AuthorMatchesIff | qulice/qulice-checkstyle/src/main/java/com/qulice/checkstyle/JavadocTagsCheck.java:62 | the author matcher accepts exactly the language of the author expression |
| TagPatterns.NameCountOfConcat | qulice/qulice-checkstyle/src/main/java/com/qulice/checkstyle/JavadocTagsCheck.java:62 | the name-word splitter counts every word of a run of name words: a capital, then a period or lower-case letters, then a space |
| JavadocTags.FindUpIsNearest | qulice/qulice-checkstyle/src/main/java/com/qulice/checkstyle/JavadocTagsCheck.java:199-209 | no line between the start and the result trims to the text; -1 exactly when no line at or above the start does |
| JavadocTags.FindTrimmedTextUp | qulice/qulice-checkstyle/src/main/java/com/qulice/checkstyle/JavadocTagsCheck.java:199-209 | the loop starts at index `start - 1`, the declaration's own line, and returns the nearest matching line at or above the declaration's line, or -1 |
| JavadocTags.FindCommentStart | qulice/qulice-checkstyle/src/main/java/com/qulice/checkstyle/JavadocTagsCheck.java:178-180 | the nearest line at or above the declaration's line that trims to `/**` |
| JavadocTags.FindCommentEnd | qulice/qulice-checkstyle/src/main/java/com/qulice/checkstyle/JavadocTagsCheck.java:188-190 | the nearest line at or above the declaration's line that trims to `*/` |
| JavadocTags.SearchTagIsFirst | qulice/qulice-checkstyle/src/main/java/com/qulice/checkstyle/JavadocTagsCheck.java:152-168 | the scan stops at the first line containing `@tag `, reports it well formed exactly when it starts with ` * @tag `, and is absent exactly when no line of the range mentions the tag |
| JavadocTags.SearchTagFindsFirst | qulice/qulice-checkstyle/src/main/java/com/qulice/checkstyle/JavadocTagsCheck.java:152-168 | whichever line is first to mention the tag is the one the scan returns, whether or not a later line is well formed |
| JavadocTags.GetTagText | qulice/qulice-checkstyle/src/main/java/com/qulice/checkstyle/JavadocTagsCheck.java:133-137 | the tag text is a suffix of the line |
| JavadocTags.GetTagTextCut | qulice/qulice-checkstyle/src/main/java/com/qulice/checkstyle/JavadocTagsCheck.java:133-137 | the text starts one past the first space at or after the first `@`, searching from the start of the line when it has no `@` |
| JavadocTags.GetTagTextWhole | qulice/qulice-checkstyle/src/main/java/com/qulice/checkstyle/JavadocTagsCheck.java:133-137 | with no space at or after the first `@`, the text is the whole line |
| Text.IndexOfFromIsFirst | qulice/qulice-checkstyle/src/main/java/com/qulice/checkstyle/JavadocTagsCheck.java:135 | `indexOf(c, from)` returns the first index at or after `from` holding `c` whenever there is one |
| Text.IndexOfFromNone | qulice/qulice-checkstyle/src/main/java/com/qulice/checkstyle/JavadocTagsCheck.java:135 | `indexOf(c, from)` returns -1 whenever no index at or after `from` holds `c` |
| JavadocTags.TagTextAfterPrefix | qulice/qulice-checkstyle/src/main/java/com/qulice/checkstyle/JavadocTagsCheck.java:133-137 | on a line starting with ` * @tag ` and a tag without spaces, the text is everything after that prefix |
| JavadocTags.TagDiagnosticsMissing | qulice/qulice-checkstyle/src/main/java/com/qulice/checkstyle/JavadocTagsCheck.java:108-116 | when the line finder returns -1, the tag's diagnostics are what the finder logged followed by the missing-tag report at `start + 1` |
| JavadocTags.TagDiagnosticsFound | qulice/qulice-checkstyle/src/main/java/com/qulice/checkstyle/JavadocTagsCheck.java:117-125 | when the line finder returns a line, it logged nothing, and the only possible report is the text mismatch at that line plus one |
| JavadocTags.TagMissing | qulice/qulice-checkstyle/src/main/java/com/qulice/checkstyle/JavadocTagsCheck.java:108-116 | a tag that no comment line mentions draws exactly one missing-tag report, at `start + 1` |
| JavadocTags.TagMalformed | qulice/qulice-checkstyle/src/main/java/com/qulice/checkstyle/JavadocTagsCheck.java:155-163 | a badly laid out first mention draws the prefix complaint at `start + pos + 1`, then the missing-tag report at `start + 1`, and nothing else |
| JavadocTags.TagWellFormed | qulice/qulice-checkstyle/src/main/java/com/qulice/checkstyle/JavadocTagsCheck.java:117-125 | a well-formed first mention draws nothing when its text matches the pattern, otherwise one report at its 1-based line with the text and the pattern's source |
| JavadocTags.TagsDiagnosticsConcat | qulice/qulice-checkstyle/src/main/java/com/qulice/checkstyle/JavadocTagsCheck.java:89-91 | checking the tags of two orders one after the other logs the two logs one after the other |
| JavadocTags.TagsDiagnosticsAppend | qulice/qulice-checkstyle/src/main/java/com/qulice/checkstyle/JavadocTagsCheck.java:89-91 | one more loop iteration appends that tag's diagnostics to the log |
| JavadocTags.TagsDiagnosticsSingle | qulice/qulice-checkstyle/src/main/java/com/qulice/checkstyle/JavadocTagsCheck.java:89-91 | one loop iteration logs exactly that tag's diagnostics |
| JavadocTags.TagsDiagnosticsExtract | qulice/qulice-checkstyle/src/main/java/com/qulice/checkstyle/JavadocTagsCheck.java:89-91 | a tag checked in the middle of an order contributes its diagnostics, as a multiset |
| JavadocTags.TagsDiagnosticsPermutation | qulice/qulice-checkstyle/src/main/java/com/qulice/checkstyle/JavadocTagsCheck.java:89-91 | any two orders listing the same tags equally often log the same diagnostics, up to their order |
| JavadocTags.TagsDiagnosticsNoCommentComplaint | qulice/qulice-checkstyle/src/main/java/com/qulice/checkstyle/JavadocTagsCheck.java:89-91 | the tag checks never log the missing-comment complaint |
| JavadocTags.EnumeratesAppend | qulice/qulice-checkstyle/src/main/java/com/qulice/checkstyle/JavadocTagsCheck.java:89 | visiting a key not yet visited extends a walk of the key set by that key |
| JavadocTags.DistinctOnce | qulice/qulice-checkstyle/src/main/java/com/qulice/checkstyle/JavadocTagsCheck.java:89 | a walk holds each of its keys exactly once and nothing else |
| JavadocTags.EnumerationsArePermutations | qulice/qulice-checkstyle/src/main/java/com/qulice/checkstyle/JavadocTagsCheck.java:89 | any two walks of the key set of `tags` are permutations of each other |
| JavadocTags.VisitCommentNotFound | qulice/qulice-checkstyle/src/main/java/com/qulice/checkstyle/JavadocTagsCheck.java:83-95 | a nested declaration logs nothing; the missing-comment complaint at line 0 appears exactly when a top-level comment is not located, and it is then the only diagnostic |
| JavadocTags.VisitOrderIndependent | qulice/qulice-checkstyle/src/main/java/com/qulice/checkstyle/JavadocTagsCheck.java:89-91 | the diagnostics of a visit are the same multiset whatever order the tag table is walked in |
| JavadocTags.DefaultTags | qulice/qulice-checkstyle/src/main/java/com/qulice/checkstyle/JavadocTagsCheck.java:58-65 | the tag table has exactly the keys `author` and `version` |
| JavadocTags.JavadocTagsCheck.constructor | qulice/qulice-checkstyle/src/main/java/com/qulice/checkstyle/JavadocTagsCheck.java:52 | a new rule has an empty tag table and has logged nothing |
| JavadocTags.JavadocTagsCheck.Init | qulice/qulice-checkstyle/src/main/java/com/qulice/checkstyle/JavadocTagsCheck.java:58-65 | `init` puts the author and the version pattern into the table, and on a fresh rule the table is then exactly the default table |
| JavadocTags.JavadocTagsCheck.VisitToken | qulice/qulice-checkstyle/src/main/java/com/qulice/checkstyle/JavadocTagsCheck.java:82-96 | the log grows by exactly the visit's diagnostics, and the tags are visited in a walk of the whole table whenever the comment is located |
| JavadocTags.JavadocTagsCheck.MatchAllTags | qulice/qulice-checkstyle/src/main/java/com/qulice/checkstyle/JavadocTagsCheck.java:89-91 | the loop visits every key of the table exactly once, in some order, and the log grows by the diagnostics of that order |
| JavadocTags.JavadocTagsCheck.MatchTagFormat | qulice/qulice-checkstyle/src/main/java/com/qulice/checkstyle/JavadocTagsCheck.java:106-126 | the log grows by exactly the tag's diagnostics: layout complaint and missing tag, missing tag, text mismatch, or nothing |
| JavadocTags.JavadocTagsCheck.FindTagLineNum | qulice/qulice-checkstyle/src/main/java/com/qulice/checkstyle/JavadocTagsCheck.java:148-170 | returns the first line mentioning the tag when it is well formed and -1 otherwise, logging the layout complaint at `start + pos + 1` only for a malformed first mention |
| JavadocTagsExamples.SampleAuthorAccepted | qulice/qulice-checkstyle/src/main/java/com/qulice/checkstyle/JavadocTagsCheck.java:62 | `A. B. (ab@x.com)` matches the author pattern |
| JavadocTagsExamples.AuthorExampleRefused | qulice/qulice-checkstyle/src/main/java/com/qulice/checkstyle/JavadocTagsCheck.java:62 | an author text without the parenthesised e-mail does not match |
| JavadocTagsExamples.VersionExamples | qulice/qulice-checkstyle/src/main/java/com/qulice/checkstyle/JavadocTagsCheck.java:64 | `$Id$` and an expanded `$Id: ... $` match the version pattern; an unterminated `$Id` does not |
| JavadocTagsExamples.WellDocumentedComment | qulice/qulice-checkstyle/src/main/java/com/qulice/checkstyle/JavadocTagsCheck.java:86-88 | the comment right above a class is located from the class line |
| JavadocTagsExamples.WellDocumentedIsClean | qulice/qulice-checkstyle/src/main/java/com/qulice/checkstyle/JavadocTagsCheck.java:82-96 | a class with a well-formed author and version comment draws no diagnostic, in any walk order of the default table |
| JavadocTagsExamples.EmptyCommentLocated | qulice/qulice-checkstyle/src/main/java/com/qulice/checkstyle/JavadocTagsCheck.java:88 | a comment whose `/**` and `*/` lines are adjacent passes the location test |
| JavadocTagsExamples.EmptyCommentReportsMissingTags | qulice/qulice-checkstyle/src/main/java/com/qulice/checkstyle/JavadocTagsCheck.java:86-94 | such an empty comment draws one missing-tag report per default tag at line 1, and no missing-comment complaint |
| JavadocTagsExamples.MisalignedVersionReports | qulice/qulice-checkstyle/src/main/java/com/qulice/checkstyle/JavadocTagsCheck.java:155-163 | a version line without its leading space, in a comment opening at index 2, draws the layout complaint at line 6 and the missing-tag report at line 3 |

## Left out

- The Checkstyle framework is not part of this model: the `Check` base class, `DetailAST`, `TokenTypes` and `getDefaultTokens`. `visitToken` takes the file's lines, the declaration's 1-based line number and whether it has a parent as parameters.
- `log` is modelled as appending a `Diagnostic` to a sequence: the line number and the message template with its arguments. The `MessageFormat` rendering of the text is left out.
- The regular-expression engine is left out. Each of the two patterns is a hand-written matcher, proved equal to a description of the expression's language.
- `HashMap` iteration order is unspecified. `VisitToken` and `MatchAllTags` return the order taken as a ghost value. Every order gives the same diagnostics up to their order (`VisitOrderIndependent`).
- Java's 32-bit `int` is modelled by unbounded integers. `start + pos + 1` wraps once `start + pos >= 2^31 - 1`. Since `start <= pos`, that needs a tag line at index `pos >= 2^30`. Such files are outside the model.
- A Dafny `char` is a Unicode scalar value, while a Java `String` is a sequence of UTF-16 code units. A supplementary character is one `char` here but two code units in Java, and an unpaired surrogate cannot be represented here. The rule only compares, searches for and cuts at ASCII characters, and it logs line numbers, never column offsets, so no diagnostic depends on this.
- Out-of-range array accesses, which would throw in Java, are excluded by preconditions. `visitToken` is only called with a line number within the file, and the comment range found always lies within it.
