/**
 * `lib/cz-custom-version.js`: the commitizen prompter that asks for the parts of a
 * conventional commit, assembles the message and may add a block to `Version.mdx`.
 * Every `\\n` in that file is the two characters backslash and `n`, never a newline.
 */
module CommitPrompt {
  import opened Wrappers
  import opened JsString
  import opened VersionMdx

  /** The separator the file writes everywhere: a backslash and the letter `n`. */
  const Sep := "\\n"

  /** The type choices of the first question. */
  const Types := ["feat", "fix", "docs", "style", "refactor", "perf", "test", "chore", "revert"]

  /** The listed scopes; `custom` and `none` are added to them as choices. */
  const Scopes := ["Button", "Header", "Page", "CategoryTile", "storybook", "deps", "config"]

  const ScopeChoices := Scopes + ["custom", "none"]

  /** The `filter` of the scope question: `none` becomes the empty scope. */
  function FilterScope(value: string): string {
    if value == "none" then "" else value
  }

  /** Of the offered scopes, exactly `none` is filtered to the empty scope; the others pass unchanged. */
  lemma FilteredScopes(value: string)
    requires value in ScopeChoices
    ensures FilterScope(value) == "" <==> value == "none"
    ensures value != "none" ==> FilterScope(value) == value && FilterScope(value) in Scopes + ["custom"]
  {
  }

  /** The `when` of the custom-scope question. */
  predicate AsksCustomScope(scope: string) {
    scope == "custom"
  }

  /** The `when` of the breaking-changes question: `['feat', 'fix'].includes(answers.type)`. */
  predicate AsksBreaking(kind: string) {
    kind in ["feat", "fix"]
  }

  /** Of the offered types, the breaking question is asked for `feat` and `fix` only. */
  lemma BreakingAskedFor(kind: string)
    requires kind in Types
    ensures AsksBreaking(kind) <==> kind == "feat" || kind == "fix"
  {
  }

  /** What a `validate` function returns: true, or the message to show. */
  datatype Validation = Accepted | Rejected(message: string)

  /** The `validate` of the subject question. */
  function ValidateSubject(value: string): (r: Validation)
    ensures r.Accepted? <==> |value| > 0
    ensures r.Rejected? ==> r.message == "Subject is required"
  {
    if |value| > 0 then Accepted else Rejected("Subject is required")
  }

  /**
   * The answers object. A question skipped by its `when` leaves its answer undefined
   * (None); input questions answer with a string, possibly empty.
   */
  datatype Answers = Answers(
    kind: string, scope: string, customScope: Option<string>, subject: string, body: string,
    versionContent: string, breaking: Option<string>, footer: string, confirmCommit: bool)

  /** Answers as the prompt can produce them. */
  predicate Prompted(a: Answers) {
    a.kind in Types
    && (exists v :: v in ScopeChoices && a.scope == FilterScope(v))
    && (a.customScope.Some? <==> AsksCustomScope(a.scope))
    && ValidateSubject(a.subject).Accepted?
    && (a.breaking.Some? <==> AsksBreaking(a.kind))
  }

  /** `x || y` for an answer that may be undefined. */
  function OrElse(x: Option<string>, y: string): (r: string)
    ensures x.Some? && x.value != "" ==> r == x.value
    ensures x.None? || x.value == "" ==> r == y
  {
    if x.Some? && x.value != "" then x.value else y
  }

  /** `answers.customScope || answers.scope`. */
  function EffectiveScope(a: Answers): string {
    OrElse(a.customScope, a.scope)
  }

  /** `scope ? `(${scope})` : ''`. */
  function ScopeText(scope: string): (r: string)
    ensures r == "" <==> scope == ""
  {
    if scope != "" then "(" + scope + ")" else ""
  }

  /** A segment preceded by two separators, or nothing for an empty answer. */
  function Segment(text: string): (r: string)
    ensures text == "" ==> r == ""
    ensures text != "" ==> r == Sep + Sep + text
  {
    if text != "" then Sep + Sep + text else ""
  }

  /** The breaking-change segment; nothing when the question was skipped or left empty. */
  function BreakingText(breaking: Option<string>): (r: string)
    ensures breaking.None? || breaking.value == "" ==> r == ""
    ensures breaking.Some? && breaking.value != "" ==> r == Segment("BREAKING CHANGE: " + breaking.value)
  {
    if breaking.Some? && breaking.value != "" then Sep + Sep + "BREAKING CHANGE: " + breaking.value else ""
  }

  /**
   * `s.replace(/\\|/g, '\\n')`. The pattern is a backslash or the empty string, and a
   * global replace tries it at every position: a backslash is replaced by the
   * separator, the separator is inserted before every other character, and the
   * empty match at the end appends one more. `|` is not treated specially.
   */
  function Escape(s: string): (r: string)
    ensures |r| >= 2 && r[..2] == Sep
    decreases |s|
  {
    if s == [] then Sep else Sep + (Piece(s[0]) + Escape(s[1..]))
  }

  /** What the replacement leaves of a character after the separator: nothing for a backslash, itself otherwise. */
  function Piece(c: char): string {
    if c == '\\' then "" else [c]
  }

  /** Reads an escaped string back: the separator alone is the end, a separator before a character stands for that character. */
  function Unescape(t: string): Option<string>
    decreases |t|
  {
    if !StartsWith(t, Sep) then None
    else if |t| == 2 then Some("")
    else if t[2] == '\\' then
      match Unescape(t[2..])
      case None => None
      case Some(u) => Some(['\\'] + u)
    else
      match Unescape(t[3..])
      case None => None
      case Some(u) => Some([t[2]] + u)
  }

  /** The replacement loses nothing: the original text can be read back from it. */
  lemma {:induction false} EscapeRoundTrip(s: string)
    ensures Unescape(Escape(s)) == Some(s)
    decreases |s|
  {
    if s != [] {
      var rest := Escape(s[1..]);
      EscapeRoundTrip(s[1..]);
      if s[0] == '\\' {
        var t := Sep + rest;
        assert Escape(s) == t;
        assert t[2..] == rest;
        assert t[2] == '\\';
        assert ['\\'] + s[1..] == s;
      } else {
        var t := Sep + ([s[0]] + rest);
        assert Escape(s) == t;
        assert t[2] == s[0];
        assert t[3..] == rest;
        assert [s[0]] + s[1..] == s;
      }
    }
  }

  /** Every `|` is kept as it is: none is turned into a separator, whatever the comment at line 140 says. */
  lemma {:induction false} EscapeKeepsPipes(s: string)
    ensures CharCount(Escape(s), '|') == CharCount(s, '|')
    decreases |s|
  {
    if s != [] {
      EscapeKeepsPipes(s[1..]);
      PipeStep(s[0], Escape(s[1..]), s[1..]);
      assert s == [s[0]] + s[1..];
    }
  }

  /** One character's share of the replacement has as many `|` as the character itself. */
  lemma PipeStep(c: char, rest: string, tail: string)
    requires CharCount(rest, '|') == CharCount(tail, '|')
    ensures CharCount(Sep + (Piece(c) + rest), '|') == CharCount([c] + tail, '|')
  {
    CharCountAppend(Sep, Piece(c) + rest, '|');
    CharCountAppend(Piece(c), rest, '|');
    CharCountAppend([c], tail, '|');
    assert CharCount(Sep, '|') == 0;
    assert CharCount(Piece(c), '|') == CharCount([c], '|');
  }

  /** The replacement adds only backslashes and `n`s. */
  lemma {:induction false} EscapeChars(s: string, c: char)
    requires c in Escape(s) && c != '\\' && c != 'n'
    ensures c in s
    decreases |s|
  {
    if s != [] {
      var rest := Escape(s[1..]);
      if c in rest {
        EscapeChars(s[1..], c);
      } else {
        assert s[0] == c;
      }
    }
  }

  /** The label of the Version.mdx section of the body. */
  const ContentLabel := "Version.mdx:" + Sep

  /**
   * The body: the answer, then the escaped Version.mdx content when one was given,
   * two separators apart when the answer is not empty.
   */
  function MessageBody(a: Answers): (r: string)
    ensures a.versionContent == "" ==> r == a.body
    ensures a.versionContent != "" ==> EndsWith(r, ContentLabel + Escape(a.versionContent))
    ensures a.versionContent != "" ==> (StartsWith(r, a.body + Sep + Sep) <==> a.body != "")
    ensures a.versionContent != "" ==>
      |r| == (if a.body != "" then |a.body| + 2 * |Sep| else 0) + |ContentLabel| + |Escape(a.versionContent)|
  {
    if a.versionContent != "" then
      var escaped := Escape(a.versionContent);
      var section := ContentLabel + escaped;
      if a.body != "" then
        assert (a.body + Sep + Sep + section)[..|a.body + Sep + Sep|] == a.body + Sep + Sep;
        a.body + Sep + Sep + section
      else
        assert section[0] == 'V';
        section
    else a.body
  }

  /**
   * The content is not lost in the message: the message is the one without it, with a
   * labelled segment after the body answer whose text reads back to the content.
   */
  lemma ContentReadBack(a: Answers)
    requires a.versionContent != ""
    ensures exists q :: (Unescape(q) == Some(a.versionContent)
      && CommitMessage(a) == Header(a) + Segment(a.body) + Segment(ContentLabel + q)
                             + BreakingText(a.breaking) + Segment(a.footer))
  {
    var q := Escape(a.versionContent);
    EscapeRoundTrip(a.versionContent);
    BodySegments(a);
    Assoc(Header(a), Segment(a.body), Segment(ContentLabel + q));
  }

  /** With content, the body's segment is the answer's segment, then the labelled content's. */
  lemma BodySegments(a: Answers)
    requires a.versionContent != ""
    ensures Segment(MessageBody(a)) == Segment(a.body) + Segment(ContentLabel + Escape(a.versionContent))
  {
    var section := ContentLabel + Escape(a.versionContent);
    if a.body != "" {
      assert MessageBody(a) == a.body + Sep + Sep + section;
    } else {
      assert MessageBody(a) == section;
    }
  }

  /** The first line of the message, `type(scope): subject`. */
  function Header(a: Answers): string {
    a.kind + ScopeText(EffectiveScope(a)) + ": " + a.subject
  }

  /** `commitMessage`. */
  function CommitMessage(a: Answers): string {
    Header(a) + Segment(MessageBody(a)) + BreakingText(a.breaking) + Segment(a.footer)
  }

  /**
   * The message starts with the header; with no body, breaking change, footer or
   * Version.mdx content it is the header alone.
   */
  lemma MessageStartsWithHeader(a: Answers)
    ensures StartsWith(CommitMessage(a), Header(a))
    ensures a.body == "" && a.versionContent == "" && BreakingText(a.breaking) == "" && a.footer == ""
      ==> CommitMessage(a) == Header(a)
  {
    var h, s1, b, s2 := Header(a), Segment(MessageBody(a)), BreakingText(a.breaking), Segment(a.footer);
    Assoc(h, s1, b);
    Assoc(h, s1 + b, s2);
    StartsWithConcat(h, s1 + b + s2);
  }

  /** For a prompted type other than `feat` and `fix` the breaking question is skipped, so no breaking segment is written. */
  lemma NoBreakingForOtherTypes(a: Answers)
    requires Prompted(a) && a.kind != "feat" && a.kind != "fix"
    ensures BreakingText(a.breaking) == ""
  {
  }

  /** The custom scope, when asked and answered, replaces `custom`; otherwise the chosen scope is used. */
  lemma ScopeOfPrompt(a: Answers)
    requires Prompted(a)
    ensures a.scope != "custom" ==> EffectiveScope(a) == a.scope
    ensures a.scope == "custom" && a.customScope.value != "" ==> EffectiveScope(a) == a.customScope.value
    ensures a.scope == "custom" && a.customScope.value == "" ==> Header(a) == a.kind + "(custom): " + a.subject
  {
  }

  /**
   * The separators are literal backslash-`n` pairs, so the message never holds a
   * newline that the answers did not already hold: it is one line.
   */
  lemma MessageIsOneLine(a: Answers)
    requires '\n' !in a.kind && '\n' !in a.scope && '\n' !in a.subject && '\n' !in a.body
    requires '\n' !in a.versionContent && '\n' !in a.footer
    requires a.customScope.Some? ==> '\n' !in a.customScope.value
    requires a.breaking.Some? ==> '\n' !in a.breaking.value
    ensures '\n' !in CommitMessage(a)
  {
    HeaderIsOneLine(a);
    BodyIsOneLine(a);
    SegmentIsOneLine(MessageBody(a));
    SegmentIsOneLine(a.footer);
    assert '\n' !in BreakingText(a.breaking) by {
      if a.breaking.Some? && a.breaking.value != "" {
        SegmentIsOneLine("BREAKING CHANGE: " + a.breaking.value);
      }
    }
  }

  /** The header holds no newline when the answers it is made of hold none. */
  lemma HeaderIsOneLine(a: Answers)
    requires '\n' !in a.kind && '\n' !in a.scope && '\n' !in a.subject
    requires a.customScope.Some? ==> '\n' !in a.customScope.value
    ensures '\n' !in Header(a)
  {
    assert '\n' !in EffectiveScope(a);
    assert '\n' !in ScopeText(EffectiveScope(a));
  }

  /** The body holds no newline when the body answer and the Version.mdx content hold none. */
  lemma BodyIsOneLine(a: Answers)
    requires '\n' !in a.body && '\n' !in a.versionContent
    ensures '\n' !in MessageBody(a)
  {
    if '\n' in Escape(a.versionContent) {
      EscapeChars(a.versionContent, '\n');
    }
    assert '\n' !in Sep;
  }

  /** The separators of a segment are not newlines. */
  lemma SegmentIsOneLine(text: string)
    requires '\n' !in text
    ensures '\n' !in Segment(text)
  {
    assert '\n' !in Sep;
  }

  /** The question text of the confirmation, `Are you sure ...` and a preview of the message. */
  const ConfirmTitle := "Are you sure you want to proceed with the commit above?"

  function ConfirmMessage(a: Answers): string {
    ConfirmTitle + Sep + Sep + Header(a) + Segment(a.body) + BreakingText(a.breaking) + Segment(a.footer)
  }

  /**
   * The preview is the message that will be committed, except that it leaves out
   * the Version.mdx content.
   */
  lemma PreviewMatchesMessage(a: Answers)
    ensures ConfirmMessage(a) == ConfirmTitle + Sep + Sep + CommitMessage(a.(versionContent := ""))
    ensures a.versionContent == "" ==> ConfirmMessage(a) == ConfirmTitle + Sep + Sep + CommitMessage(a)
  {
    var b := a.(versionContent := "");
    assert Header(b) == Header(a);
    assert MessageBody(b) == a.body;
  }

  /** `.map(line => line.trim()).filter(line => line.length > 0)`. */
  function TrimmedLines(lines: seq<string>): (r: seq<string>)
    ensures forall i :: 0 <= i < |r| ==> r[i] != ""
    decreases |lines|
  {
    if lines == [] then []
    else
      var t := Trim(lines[0]);
      (if |t| > 0 then [t] else []) + TrimmedLines(lines[1..])
  }

  /** Lines 139-144, the content formatted for Version.mdx. */
  function FormatVersionContent(content: string): string {
    Join(TrimmedLines(Split(Escape(content), Sep)), Sep)
  }

  function Pieces(s: string): seq<string>
    decreases |s|
  {
    if s == [] then [] else [Piece(s[0])] + Pieces(s[1..])
  }

  /** The characters that survive the formatting, each on its own, in order. */
  function Visible(s: string): seq<string>
    decreases |s|
  {
    if s == [] then []
    else (if s[0] == '\\' || IsWhiteSpace(s[0]) then [] else [[s[0]]]) + Visible(s[1..])
  }

  /** Each surviving piece is one character of the text, neither white space nor a backslash. */
  lemma {:induction false} VisibleChar(s: string, i: nat)
    requires i < |Visible(s)|
    ensures |Visible(s)[i]| == 1 && Visible(s)[i][0] in s
    ensures Visible(s)[i][0] != '\\' && !IsWhiteSpace(Visible(s)[i][0])
    decreases |s|
  {
    var head := if s[0] == '\\' || IsWhiteSpace(s[0]) then [] else [[s[0]]];
    if i >= |head| {
      VisibleChar(s[1..], i - |head|);
      assert Visible(s)[i] == Visible(s[1..])[i - |head|];
    }
  }

  /** A piece never holds the start of a separator, so the split cuts right after it. */
  lemma SplitAfterPiece(c: char, tail: string)
    ensures Split(Piece(c) + Sep + tail, Sep) == [Piece(c)] + Split(tail, Sep)
  {
    NoOccurrenceBefore(Piece(c), Sep + tail, Sep);
    Assoc(Piece(c), Sep, tail);
    SplitFirst(Piece(c), Sep, tail);
  }

  /** A leading separator splits off an empty piece. */
  lemma SplitAfterSep(tail: string)
    ensures Split(Sep + tail, Sep) == [""] + Split(tail, Sep)
  {
    SplitFirst("", Sep, tail);
    assert "" + Sep + tail == Sep + tail;
  }

  /** Splitting the escaped text at the separators gives one piece per character, between two empty ones. */
  lemma {:induction false} SplitEscape(s: string)
    ensures Split(Escape(s), Sep) == [""] + Pieces(s) + [""]
    decreases |s|
  {
    if s == [] {
      SplitAfterSep("");
      assert Sep + "" == Sep;
      SplitNone("", Sep);
    } else {
      SplitEscape(s[1..]);
      SplitEscapeStep(s);
    }
  }

  /** One character more in front adds its piece after the leading empty one. */
  lemma SplitEscapeStep(s: string)
    requires s != [] && Split(Escape(s[1..]), Sep) == [""] + Pieces(s[1..]) + [""]
    ensures Split(Escape(s), Sep) == [""] + Pieces(s) + [""]
  {
    SplitEscapeTail(s[1..]);
    SplitEscapeFront(s);
    assert Pieces(s) == [Piece(s[0])] + Pieces(s[1..]);
    Regroup(Piece(s[0]), Pieces(s[1..]));
  }

  /** Regrouping the pieces of a split. */
  lemma Regroup(p: string, ps: seq<string>)
    ensures [""] + ([p] + (ps + [""])) == [""] + ([p] + ps) + [""]
  {
  }

  /** Past its leading separator, an escaped text splits into its pieces and a last empty one. */
  lemma SplitEscapeTail(r: string)
    requires Split(Escape(r), Sep) == [""] + Pieces(r) + [""]
    ensures Split(Escape(r)[2..], Sep) == Pieces(r) + [""]
  {
    var tail := Escape(r)[2..];
    assert Escape(r) == Sep + tail;
    SplitAfterSep(tail);
    var sp := Split(tail, Sep);
    assert ([""] + sp)[1..] == sp;
    assert ([""] + Pieces(r) + [""])[1..] == Pieces(r) + [""];
  }

  /** The split of an escaped text: the empty piece, the first character's piece, then the rest's split. */
  lemma SplitEscapeFront(s: string)
    requires s != []
    ensures Split(Escape(s), Sep) == [""] + ([Piece(s[0])] + Split(Escape(s[1..])[2..], Sep))
  {
    var rest := Escape(s[1..]);
    var tail := rest[2..];
    assert rest == Sep + tail;
    SplitAfterSep(Piece(s[0]) + rest);
    assert Piece(s[0]) + rest == Piece(s[0]) + Sep + tail;
    SplitAfterPiece(s[0], tail);
  }

  /** A one-character string trims to itself unless it is white space. */
  lemma TrimOne(c: char)
    ensures Trim([c]) == if IsWhiteSpace(c) then "" else [c]
  {
  }

  /** What trimming leaves of a piece. */
  lemma TrimPiece(c: char)
    ensures Trim(Piece(c)) == if c == '\\' || IsWhiteSpace(c) then "" else [c]
  {
    if c != '\\' {
      TrimOne(c);
    }
  }

  /** The trimmed non-empty pieces are the visible characters. */
  lemma {:induction false} TrimmedPieces(s: string)
    ensures TrimmedLines(Pieces(s)) == Visible(s)
    decreases |s|
  {
    if s != [] {
      TrimmedPieces(s[1..]);
      TrimPiece(s[0]);
      var ps := Pieces(s);
      assert ps[0] == Piece(s[0]) && ps[1..] == Pieces(s[1..]);
    }
  }

  /** An empty line at the end is filtered out. */
  lemma {:induction false} TrimmedLastEmpty(lines: seq<string>)
    ensures TrimmedLines(lines + [""]) == TrimmedLines(lines)
    decreases |lines|
  {
    if lines == [] {
      assert [""][1..] == [];
    } else {
      assert (lines + [""])[1..] == lines[1..] + [""];
      TrimmedLastEmpty(lines[1..]);
    }
  }

  /**
   * What the formatting really produces: the characters of the content that are
   * neither white space nor a backslash, one by one, joined by separators. Lines
   * written with `|` are not split at it; every character becomes its own line.
   */
  lemma FormattedIsCharacters(content: string)
    ensures FormatVersionContent(content) == Join(Visible(content), Sep)
  {
    SplitEscape(content);
    var ps := Pieces(content);
    assert ([""] + ps + [""])[1..] == ps + [""];
    assert TrimmedLines([""] + ps + [""]) == TrimmedLines(ps + [""]);
    TrimmedLastEmpty(ps);
    TrimmedPieces(content);
  }

  /** For instance `a|b` is formatted as `a`, separator, `|`, separator, `b`. */
  lemma PipeNotSplit()
    ensures FormatVersionContent("a|b") == "a" + Sep + "|" + Sep + "b"
  {
    FormattedIsCharacters("a|b");
    assert Visible("b") == ["b"];
    assert Visible("|b") == ["|", "b"];
    assert Visible("a|b") == ["a", "|", "b"];
    JoinCons("a", ["|", "b"], Sep);
    JoinCons("|", ["b"], Sep);
  }

  /** A joined list holds only characters of its parts and of the separator. */
  lemma {:induction false} JoinChars(parts: seq<string>, sep: string, c: char)
    requires c in Join(parts, sep)
    ensures c in sep || exists i :: 0 <= i < |parts| && c in parts[i]
    decreases |parts|
  {
    if |parts| > 1 {
      var rest := Join(parts[1..], sep);
      if c in rest {
        JoinChars(parts[1..], sep, c);
        if !(c in sep) {
          var i :| 0 <= i < |parts[1..]| && c in parts[1..][i];
          assert c in parts[i + 1];
        }
      }
    }
  }

  /** The formatted content holds no white space, so in particular no newline. */
  lemma FormattedHasNoSpace(content: string, c: char)
    requires c in FormatVersionContent(content)
    ensures !IsWhiteSpace(c) && (c in content || c in Sep)
  {
    FormattedIsCharacters(content);
    JoinChars(Visible(content), Sep, c);
    if c !in Sep {
      var i :| 0 <= i < |Visible(content)| && c in Visible(content)[i];
      VisibleChar(content, i);
    }
  }

  /** `newEntry`: the `Version (Upcoming)` block, also written with separators rather than newlines. */
  function NewEntry(formatted: string): string {
    EntryHead + (formatted + Sep)
  }

  /** The fixed start of `newEntry`: the heading of the upcoming version and its release date. */
  const EntryHead := Sep + Sep + "### Version (Upcoming)" + Sep + Sep + "#### Released on: tbd" + Sep + Sep

  /** The entry adds only separators and its own fixed text to the formatted content. */
  lemma NewEntryChars(f: string)
    ensures '$' !in f ==> '$' !in NewEntry(f)
    ensures '\n' !in f ==> '\n' !in NewEntry(f)
  {
    EntryHeadChars();
  }

  /** The fixed start holds neither `$` nor a newline. */
  lemma EntryHeadChars()
    ensures '$' !in EntryHead && '\n' !in EntryHead
  {
    var v, d := "### Version (Upcoming)", "#### Released on: tbd";
    assert '$' !in Sep && '\n' !in Sep;
    assert '$' !in v && '\n' !in v;
    assert '$' !in d && '\n' !in d;
  }

  /** `updateVersionMdx`: the new document, or None when `Version.mdx` does not exist. */
  function UpdateVersionMdx(content: string, existing: Option<string>): (r: Option<string>)
    ensures r.None? <==> existing.None?
    ensures existing.Some? && !Contains(existing.value, Marker) ==> r == existing
  {
    match existing
    case None => None
    case Some(doc) => Some(ReplaceFirst(doc, Marker, Marker + NewEntry(FormatVersionContent(content))))
  }

  /**
   * With a marker, the entry goes right after the first marker, whatever the content:
   * every `$` the entry can hold is followed by the backslash of a separator, which
   * GetSubstitution does not expand.
   */
  lemma UpdateSplice(content: string, doc: string)
    requires Contains(doc, Marker)
    ensures var i := IndexOf(doc, Marker);
      var entry := NewEntry(FormatVersionContent(content));
      UpdateVersionMdx(content, Some(doc)) == Some(doc[..i] + Marker + entry + doc[i + |Marker|..])
  {
    var f := FormatVersionContent(content);
    EntryInert(content);
    EntrySplice(doc, NewEntry(f));
  }

  /** No `$` of the entry is expanded. */
  lemma EntryInert(content: string)
    ensures DollarsInert(NewEntry(FormatVersionContent(content)))
  {
    var vs := Visible(content);
    FormattedIsCharacters(content);
    forall i | 0 <= i < |vs| ensures |vs[i]| == 1 {
      VisibleChar(content, i);
    }
    FormattedInert(vs);
    EntryHeadChars();
    InertAfterPlain(EntryHead, FormatVersionContent(content) + Sep);
  }

  /** One-character lines joined by separators, with a separator at the end: every `$` is followed by a backslash. */
  lemma {:induction false} FormattedInert(vs: seq<string>)
    requires forall i :: 0 <= i < |vs| ==> |vs[i]| == 1
    ensures DollarsInert(Join(vs, Sep) + Sep)
    decreases |vs|
  {
    if vs == [] {
      assert Join(vs, Sep) + Sep == Sep;
    } else if |vs| == 1 {
      InertBeforeSep(vs[0], "");
      assert Join(vs, Sep) + Sep == vs[0] + Sep + "";
    } else {
      FormattedInert(vs[1..]);
      InertBeforeSep(vs[0], Join(vs[1..], Sep) + Sep);
      assert Join(vs, Sep) + Sep == vs[0] + Sep + (Join(vs[1..], Sep) + Sep);
    }
  }

  /** A character followed by a separator is inert, and so is what follows. */
  lemma InertBeforeSep(c: string, rest: string)
    requires |c| == 1 && DollarsInert(rest)
    ensures DollarsInert(c + Sep + rest)
  {
    var t := c + Sep + rest;
    forall i | 0 <= i < |t| && t[i] == '$' ensures i + 1 < |t| && t[i + 1] !in "$&`'" {
      if i >= 3 {
        assert t[i] == rest[i - 3];
      } else {
        assert i == 0 && t[1] == '\\';
      }
    }
  }

  /** A `$`-free text before an inert one keeps it inert. */
  lemma InertAfterPlain(head: string, t: string)
    requires '$' !in head && DollarsInert(t)
    ensures DollarsInert(head + t)
  {
    var whole := head + t;
    forall i | 0 <= i < |head| ensures whole[i] != '$' {
      assert whole[i] == head[i];
    }
    forall i | |head| <= i < |whole| ensures whole[i] == '$' ==> i + 1 < |whole| && whole[i + 1] !in "$&`'" {
      assert whole[i] == t[i - |head|];
      assert i + 1 < |whole| ==> whole[i + 1] == t[i + 1 - |head|];
    }
  }

  /** `doc.replace(marker, marker + entry)` for an entry whose `$`s are inert. */
  lemma EntrySplice(doc: string, entry: string)
    requires Contains(doc, Marker) && DollarsInert(entry)
    ensures var i := IndexOf(doc, Marker);
      ReplaceFirst(doc, Marker, Marker + entry) == doc[..i] + Marker + entry + doc[i + |Marker|..]
  {
    assert '$' !in Marker;
    var i := IndexOf(doc, Marker);
    var before, after := doc[..i], doc[i + |Marker|..];
    ReplaceSplice(doc, Marker, Marker + entry);
    SubstitutePrefix(Marker, entry, Marker, before, after);
    SubstituteInert(entry, Marker, before, after);
    Assoc(before, Marker, entry);
  }

  /**
   * The entry is written with separators and the formatted content holds no white
   * space, so the whole entry lands on the marker's own line.
   */
  lemma EntryIsOneLine(content: string)
    ensures '\n' !in NewEntry(FormatVersionContent(content))
  {
    var f := FormatVersionContent(content);
    if '\n' in f {
      FormattedHasNoSpace(content, '\n');
    }
    NewEntryChars(f);
  }

  /** What the `.then` callback does. */
  datatype Outcome = Cancelled | Committed(message: string, versionMdx: Option<string>)

  /**
   * Lines 93-122: nothing without confirmation; otherwise `Version.mdx` is updated
   * when content was given and the file exists, and the message is committed.
   */
  function Prompter(a: Answers, existing: Option<string>): (r: Outcome)
    ensures r.Cancelled? <==> !a.confirmCommit
    ensures r.Committed? ==> r.message == CommitMessage(a)
    ensures r.Committed? ==> (r.versionMdx.Some? <==> a.versionContent != "" && existing.Some?)
  {
    if !a.confirmCommit then Cancelled
    else
      var written := if a.versionContent != "" then UpdateVersionMdx(a.versionContent, existing) else None;
      Committed(CommitMessage(a), written)
  }
}
