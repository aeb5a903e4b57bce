/**
 * How `plugins/semantic-release-fragments.js` reads a commit: the conventional-commit
 * pattern `^(\w+)(\([^)]+\))?(!)?:\s*(.+)$` (no `m` flag, so `^` and `$` are the ends of
 * the whole message and `.` stops at line terminators), the category it files a commit
 * under, and the `git log` text it takes commits from.
 */
module ConventionalCommit {
  import opened Wrappers
  import opened JsString

  /**
   * One way of matching the pattern: its four groups, plus `gap`, the text that
   * `\s*` consumed between the colon and the subject.
   */
  datatype Header = Header(kind: string, scope: Option<string>, bang: bool, gap: string, subject: string)

  /** Group 2 as written: the scope with its parentheses, or nothing. */
  function ScopeText(scope: Option<string>): string {
    match scope
    case None => ""
    case Some(s) => "(" + s + ")"
  }

  function BangText(bang: bool): string {
    if bang then "!" else ""
  }

  /** `(!)?:` followed by `after`. */
  function ColonText(bang: bool, after: string): string {
    BangText(bang) + (":" + after)
  }

  /** The text a match spells after the scope group. */
  function AfterScopeText(bang: bool, gap: string, subject: string): string {
    ColonText(bang, gap + subject)
  }

  /** The text a match spells. */
  function HeaderText(h: Header): string {
    h.kind + (ScopeText(h.scope) + AfterScopeText(h.bang, h.gap, h.subject))
  }

  /** `\w+` */
  predicate IsWord(s: string) {
    s != [] && forall i :: 0 <= i < |s| ==> IsWordChar(s[i])
  }

  /** `[^)]+` */
  predicate IsScope(s: string) {
    s != [] && ')' !in s
  }

  /** Each part of `h` is something its part of the pattern matches. */
  predicate WellFormed(h: Header) {
    IsWord(h.kind)
    && (h.scope.Some? ==> IsScope(h.scope.value))
    && IsBlank(h.gap)
    && h.subject != [] && SingleLine(h.subject)
  }

  /** The pattern matches `message` with the groups of `h`. */
  predicate Spells(message: string, h: Header) {
    WellFormed(h) && HeaderText(h) == message
  }

  /** Length of the longest `\w` prefix. */
  function WordRun(s: string): (n: nat)
    ensures n <= |s| && forall i :: 0 <= i < n ==> IsWordChar(s[i])
    ensures n < |s| ==> !IsWordChar(s[n])
    decreases |s|
  {
    if s != [] && IsWordChar(s[0]) then 1 + WordRun(s[1..]) else 0
  }

  /**
   * `\s*(.+)$` on the text after the colon. Backtracking hands `\s*` the longest
   * white-space run after which `.+` still reaches the end without a line terminator.
   */
  function MatchRest(s: string): (r: Option<(string, string)>)
    ensures r.Some? ==>
      (r.value.0 + r.value.1 == s && IsBlank(r.value.0) && r.value.1 != [] && SingleLine(r.value.1))
  {
    var w := LeadingSpace(s);
    if w < |s| then
      if SingleLine(s[w..]) then Some((s[..w], s[w..])) else None
    else if s != [] && !IsLineTerminator(s[|s| - 1]) then
      assert IsBlank(s[..|s| - 1]) by { assert s[..|s| - 1] == s[..w][..|s| - 1]; }
      Some((s[..|s| - 1], s[|s| - 1..]))
    else None
  }

  /** The groups of a match whose text after the colon is `after`, if `\s*(.+)$` matches it. */
  function Completed(kind: string, scope: Option<string>, bang: bool, after: string): (r: Option<Header>)
    ensures r.Some? ==>
      (r.value.kind == kind && r.value.scope == scope && r.value.bang == bang
       && r.value.gap + r.value.subject == after && IsBlank(r.value.gap)
       && r.value.subject != [] && SingleLine(r.value.subject))
    ensures r.None? <==> MatchRest(after).None?
  {
    var rest := MatchRest(after);
    if rest.None? then None else Some(Header(kind, scope, bang, rest.value.0, rest.value.1))
  }

  /** The part of the pattern after the scope group: `(!)?:` and then `\s*(.+)$`. */
  function MatchAfterScope(kind: string, scope: Option<string>, s: string): (r: Option<Header>)
    ensures r.Some? ==>
      (r.value.kind == kind && r.value.scope == scope
       && IsBlank(r.value.gap) && r.value.subject != [] && SingleLine(r.value.subject)
       && AfterScopeText(r.value.bang, r.value.gap, r.value.subject) == s)
  {
    var bang := s != [] && s[0] == '!';
    var t := if bang then s[1..] else s;
    assert s == BangText(bang) + t;
    if t == [] || t[0] != ':' then None
    else
      assert t == ":" + t[1..];
      Completed(kind, scope, bang, t[1..])
  }

  /**
   * The whole pattern. Returns the match the backtracking engine finds, or None
   * when the message does not match.
   */
  function MatchHeader(m: string): (r: Option<Header>)
    ensures r.Some? ==> Spells(m, r.value)
  {
    var t := WordRun(m);
    if t == 0 then None
    else
      var kind, rest := m[..t], m[t..];
      assert m == kind + rest;
      assert IsWord(kind) by {
        forall i | 0 <= i < t ensures IsWordChar(kind[i]) { assert kind[i] == m[i]; }
      }
      MatchScoped(kind, rest)
  }

  /** The pattern after `(\w+)`: the optional scope group `(\([^)]+\))?`, then the rest. */
  function MatchScoped(kind: string, rest: string): (r: Option<Header>)
    ensures r.Some? ==>
      (r.value.kind == kind && (r.value.scope.Some? ==> IsScope(r.value.scope.value))
       && IsBlank(r.value.gap) && r.value.subject != [] && SingleLine(r.value.subject)
       && ScopeText(r.value.scope) + AfterScopeText(r.value.bang, r.value.gap, r.value.subject) == rest)
  {
    if rest != [] && rest[0] == '(' then
      var close := IndexOf(rest, ")");
      if close < 2 then None
      else
        ScopeUpToClose(rest, close);
        MatchAfterScope(kind, Some(rest[1..close]), rest[close + 1..])
    else
      MatchAfterScope(kind, None, rest)
  }

  /** `\([^)]+\)` at the start of `rest` ends at the first `)`. */
  lemma ScopeUpToClose(rest: string, close: int)
    requires rest != [] && rest[0] == '(' && close == IndexOf(rest, ")") && close >= 2
    ensures IsScope(rest[1..close])
    ensures rest == ScopeText(Some(rest[1..close])) + rest[close + 1..]
  {
    var scope := rest[1..close];
    forall k | 0 <= k < |scope| ensures scope[k] != ')' {
      OccursAtChar(rest, ')', k + 1);
    }
    OccursAtChar(rest, ')', close);
    assert rest == [rest[0]] + scope + [rest[close]] + rest[close + 1..];
  }

  /** The first `\w`-free position after a word is where the word run stops. */
  lemma WordRunStops(s: string, n: nat)
    requires n < |s| && !IsWordChar(s[n])
    requires forall i :: 0 <= i < n ==> IsWordChar(s[i])
    ensures WordRun(s) == n
  {
  }

  /** After the scope group, `(!)?:` is fixed by the text. */
  lemma AfterScopeUpToColon(kind: string, scope: Option<string>, bang: bool, after: string)
    ensures MatchAfterScope(kind, scope, ColonText(bang, after)) == Completed(kind, scope, bang, after)
  {
    var s := ColonText(bang, after);
    var t := ":" + after;
    assert t[1..] == after;
    if bang {
      assert s == "!" + t;
      assert s[0] == '!' && s[1..] == t;
    } else {
      assert s == t;
      assert s[0] == ':';
    }
  }

  /** A parenthesised scope ends at its own `)`, which is the first one. */
  lemma ScopeCloses(sc: string, tail: string)
    requires IsScope(sc)
    ensures var rest := ScopeText(Some(sc)) + tail;
      IndexOf(rest, ")") == |sc| + 1 && rest[1..|sc| + 1] == sc && rest[|sc| + 2..] == tail
  {
    var rest := ScopeText(Some(sc)) + tail;
    var close := |sc| + 1;
    assert rest == "(" + sc + ")" + tail;
    assert rest[close] == ')';
    OccursAtChar(rest, ')', close);
    forall j | 0 <= j < close ensures !OccursAt(rest, ")", j) {
      OccursAtChar(rest, ')', j);
      if j > 0 {
        assert rest[j] == sc[j - 1];
        assert sc[j - 1] in sc;
      }
    }
    FirstOccurrence(rest, ")", close);
    assert rest[1..close] == sc;
    assert rest[close + 1..] == tail;
  }

  /**
   * Up to the colon the match is fixed: a message that starts with a word, an
   * optional parenthesised scope, an optional `!` and a colon is matched exactly
   * when the text after the colon matches `\s*(.+)$`, with those groups.
   */
  lemma MatchUpToColon(kind: string, scope: Option<string>, bang: bool, after: string)
    requires IsWord(kind) && (scope.Some? ==> IsScope(scope.value))
    ensures MatchHeader(kind + (ScopeText(scope) + ColonText(bang, after)))
         == Completed(kind, scope, bang, after)
  {
    var tail := ColonText(bang, after);
    var rest := ScopeText(scope) + tail;
    assert rest != [] && rest[0] in "(!:" by {
      if scope.Some? { assert rest[0] == '('; }
      else if bang { assert rest[0] == tail[0] == '!'; }
      else { assert rest[0] == tail[0] == ':'; }
    }
    WordThenRest(kind, rest);
    ScopedUpToColon(kind, scope, bang, after);
  }

  /** `(\w+)` takes the whole word when the next character is not a word character. */
  lemma WordThenRest(kind: string, rest: string)
    requires IsWord(kind) && rest != [] && !IsWordChar(rest[0])
    ensures MatchHeader(kind + rest) == MatchScoped(kind, rest)
  {
    var m := kind + rest;
    assert m[|kind|] == rest[0];
    assert forall i :: 0 <= i < |kind| ==> m[i] == kind[i];
    WordRunStops(m, |kind|);
    assert m[..|kind|] == kind && m[|kind|..] == rest;
  }

  /** After the type, the scope group and `(!)?:` are fixed by the text. */
  lemma ScopedUpToColon(kind: string, scope: Option<string>, bang: bool, after: string)
    requires scope.Some? ==> IsScope(scope.value)
    ensures MatchScoped(kind, ScopeText(scope) + ColonText(bang, after)) == Completed(kind, scope, bang, after)
  {
    if scope.Some? {
      ScopedSomeUpToColon(kind, scope.value, bang, after);
    } else {
      ScopedNoneUpToColon(kind, bang, after);
    }
  }

  /** Without a scope group, the text goes straight to `(!)?:`. */
  lemma ScopedNoneUpToColon(kind: string, bang: bool, after: string)
    ensures MatchScoped(kind, ScopeText(None) + ColonText(bang, after)) == Completed(kind, None, bang, after)
  {
    var tail := ColonText(bang, after);
    AfterScopeUpToColon(kind, None, bang, after);
    assert ScopeText(None) + tail == tail;
    assert tail[0] != '(' by {
      if bang { assert tail[0] == '!'; } else { assert tail[0] == ':'; }
    }
  }

  /** A scope group ends at its own `)`, and `(!)?:` follows it. */
  lemma ScopedSomeUpToColon(kind: string, sc: string, bang: bool, after: string)
    requires IsScope(sc)
    ensures MatchScoped(kind, ScopeText(Some(sc)) + ColonText(bang, after)) == Completed(kind, Some(sc), bang, after)
  {
    var tail := ColonText(bang, after);
    AfterScopeUpToColon(kind, Some(sc), bang, after);
    ScopeCloses(sc, tail);
    var rest := ScopeText(Some(sc)) + tail;
    assert rest[0] == '(';
  }

  /** `\s*` takes at least as much as any other way of matching leaves it. */
  lemma MatchRestLongestGap(s: string, gap: string, subject: string)
    requires s == gap + subject && IsBlank(gap) && subject != [] && SingleLine(subject)
    ensures MatchRest(s).Some? && |MatchRest(s).value.0| >= |gap|
  {
    var w := LeadingSpace(s);
    if w < |s| {
      assert forall i :: 0 <= i < |s| - w ==> s[w..][i] == subject[w - |gap| + i];
    } else {
      assert s[|s| - 1] == subject[|subject| - 1];
    }
  }

  /**
   * Completeness: whenever the pattern can match `m` at all, MatchHeader finds a
   * match with the same type, scope and `!`, and its `\s*` is the longest possible,
   * as backtracking with a greedy `\s*` chooses.
   */
  lemma MatchHeaderComplete(m: string, h: Header)
    requires Spells(m, h)
    ensures MatchHeader(m).Some?
    ensures var g := MatchHeader(m).value;
      g.kind == h.kind && g.scope == h.scope && g.bang == h.bang && |g.gap| >= |h.gap|
  {
    MatchUpToColon(h.kind, h.scope, h.bang, h.gap + h.subject);
    MatchRestLongestGap(h.gap + h.subject, h.gap, h.subject);
  }

  /** What `parseCommit` returns. */
  datatype ParsedCommit = ParsedCommit(kind: string, scope: Option<string>, breaking: bool, subject: string, body: string)

  /** `parseCommit(commitMessage)`. */
  function ParseCommit(message: string): (p: ParsedCommit)
    ensures '\n' !in p.subject
    ensures p.scope.Some? ==> IsScope(p.scope.value)
    ensures p.breaking ==> MatchHeader(message).Some?
  {
    var lines := Split(message, "\n");
    var body := Trim(Join(lines[1..], "\n"));
    match MatchHeader(message)
    case None =>
      ContainsChar(lines[0], '\n');
      ParsedCommit("other", None, false, lines[0], body)
    case Some(h) =>
      SingleLineNoNewline(h.subject);
      ParsedCommit(h.kind, h.scope, h.bang || Contains(message, "BREAKING CHANGE:"), h.subject, body)
  }

  /**
   * A single-line `type(scope)!: subject` (scope and `!` optional) comes apart as it
   * was put together: its type, its scope without parentheses, its subject, an empty
   * body, and `breaking` set by the `!` or by the token `BREAKING CHANGE:` in it.
   */
  lemma ParseSpelledHeader(kind: string, scope: Option<string>, bang: bool, subject: string)
    requires IsWord(kind)
    requires scope.Some? ==> IsScope(scope.value) && '\n' !in scope.value
    requires subject != [] && SingleLine(subject) && !IsWhiteSpace(subject[0])
    ensures var m := HeaderText(Header(kind, scope, bang, " ", subject));
      ParseCommit(m) == ParsedCommit(kind, scope, bang || Contains(m, "BREAKING CHANGE:"), subject, "")
  {
    SpelledMatches(kind, scope, bang, subject);
    SpelledOneLine(kind, scope, bang, subject);
    ParseSpelled(kind, scope, bang, subject);
  }

  /** A header with a one-space gap is one line when its scope and subject are. */
  lemma SpelledOneLine(kind: string, scope: Option<string>, bang: bool, subject: string)
    requires IsWord(kind)
    requires scope.Some? ==> IsScope(scope.value) && '\n' !in scope.value
    requires subject != [] && SingleLine(subject)
    ensures '\n' !in HeaderText(Header(kind, scope, bang, " ", subject))
  {
    HeaderOneLine(Header(kind, scope, bang, " ", subject));
  }

  /** The parse of a one-line header that matches with its own groups. */
  lemma ParseSpelled(kind: string, scope: Option<string>, bang: bool, subject: string)
    requires MatchHeader(HeaderText(Header(kind, scope, bang, " ", subject))) == Some(Header(kind, scope, bang, " ", subject))
    requires '\n' !in HeaderText(Header(kind, scope, bang, " ", subject))
    ensures var m := HeaderText(Header(kind, scope, bang, " ", subject));
      ParseCommit(m) == ParsedCommit(kind, scope, bang || Contains(m, "BREAKING CHANGE:"), subject, "")
  {
    var h := Header(kind, scope, bang, " ", subject);
    ParseOneLine(HeaderText(h), h);
  }

  /** A matched message without a newline is parsed into the groups of its match and an empty body. */
  lemma ParseOneLine(m: string, h: Header)
    requires MatchHeader(m) == Some(h) && '\n' !in m
    ensures ParseCommit(m) == ParsedCommit(h.kind, h.scope, h.bang || Contains(m, "BREAKING CHANGE:"), h.subject, "")
  {
    ContainsChar(m, '\n');
    SplitNone(m, "\n");
    assert Split(m, "\n")[1..] == [];
  }

  /** A header with a one-space gap before a subject that starts visibly is matched with exactly its own groups. */
  lemma SpelledMatches(kind: string, scope: Option<string>, bang: bool, subject: string)
    requires IsWord(kind) && (scope.Some? ==> IsScope(scope.value))
    requires subject != [] && SingleLine(subject) && !IsWhiteSpace(subject[0])
    ensures MatchHeader(HeaderText(Header(kind, scope, bang, " ", subject))) == Some(Header(kind, scope, bang, " ", subject))
  {
    MatchUpToColon(kind, scope, bang, " " + subject);
    var s := " " + subject;
    assert LeadingSpace(s) == 1 by { assert s[1] == subject[0]; assert s[..1] == " "; }
    assert s[1..] == subject;
  }

  /**
   * A message the pattern cannot match falls back to type `other`, no scope,
   * not breaking, and its first line as subject.
   */
  lemma UnmatchedIsOther(m: string)
    requires forall h :: !Spells(m, h)
    ensures var p := ParseCommit(m);
      p.kind == "other" && p.scope.None? && !p.breaking && p.subject == Split(m, "\n")[0]
  {
  }

  /** For a matched message, `breaking` is the `!` marker or the token anywhere in the message. */
  lemma MatchedBreaking(m: string, h: Header)
    requires Spells(m, h)
    ensures ParseCommit(m).breaking <==> h.bang || Contains(m, "BREAKING CHANGE:")
  {
    MatchHeaderComplete(m, h);
  }

  /** A single-line text holds no newline. */
  lemma SingleLineNoNewline(s: string)
    requires SingleLine(s)
    ensures '\n' !in s
  {
  }

  /** A header whose `\s*` stays on the line is a single line. */
  lemma HeaderOneLine(h: Header)
    requires WellFormed(h) && SingleLine(h.gap)
    requires h.scope.Some? ==> '\n' !in h.scope.value
    ensures '\n' !in HeaderText(h)
  {
    SingleLineNoNewline(h.kind);
    SingleLineNoNewline(h.gap);
    SingleLineNoNewline(h.subject);
  }

  /** `.+` cannot reach past a newline that follows visible text. */
  lemma RestStopsAtNewline(gap: string, subject: string, body: string)
    requires IsBlank(gap) && !IsBlank(subject)
    ensures MatchRest(gap + subject + "\n" + body).None?
  {
    var after := gap + subject + "\n" + body;
    var k :| 0 <= k < |subject| && !IsWhiteSpace(subject[k]);
    var w := LeadingSpace(after);
    assert after[|gap| + k] == subject[k];
    assert w <= |gap| + k;
    assert after[w..][|gap| + |subject| - w] == '\n';
  }

  /** The pattern cannot match a header followed by a newline and more text. */
  lemma HeaderThenBodyUnmatched(h: Header, body: string)
    requires WellFormed(h) && !IsBlank(h.subject)
    ensures MatchHeader(HeaderText(h) + "\n" + body).None?
  {
    var y := "\n" + body;
    var after := (h.gap + h.subject) + y;
    MatchUpToColon(h.kind, h.scope, h.bang, after);
    var colon := ColonText(h.bang, h.gap + h.subject);
    calc {
      HeaderText(h) + "\n" + body;
      { Assoc(HeaderText(h), "\n", body); }
      (h.kind + (ScopeText(h.scope) + colon)) + y;
      { Assoc(h.kind, ScopeText(h.scope) + colon, y); Assoc(ScopeText(h.scope), colon, y); }
      h.kind + (ScopeText(h.scope) + (colon + y));
      { Assoc(BangText(h.bang), ":" + (h.gap + h.subject), y); Assoc(":", h.gap + h.subject, y); }
      h.kind + (ScopeText(h.scope) + ColonText(h.bang, after));
    }
    Assoc(h.gap, h.subject, "\n");
    Assoc(h.gap + h.subject, "\n", body);
    RestStopsAtNewline(h.gap, h.subject, body);
  }

  /** A match's text starts with its type and ends with its subject. */
  lemma HeaderEnds(h: Header)
    requires WellFormed(h)
    ensures var t := HeaderText(h); |t| > 0 && t[0] == h.kind[0] && t[|t| - 1] == h.subject[|h.subject| - 1]
  {
    var rest := ScopeText(h.scope) + AfterScopeText(h.bang, h.gap, h.subject);
    var after := h.gap + h.subject;
    assert after[|after| - 1] == h.subject[|h.subject| - 1];
    var colon := ":" + after;
    assert colon[|colon| - 1] == after[|after| - 1];
    var bang := BangText(h.bang) + colon;
    assert bang[|bang| - 1] == colon[|colon| - 1];
    assert rest[|rest| - 1] == bang[|bang| - 1];
    var t := h.kind + rest;
    assert t[|t| - 1] == rest[|rest| - 1];
  }

  /** The first line of a header followed by a newline is the header. */
  lemma FirstLineIsHeader(line: string, body: string)
    requires '\n' !in line
    ensures Split(line + "\n" + body, "\n")[0] == line
  {
    var m := line + "\n" + body;
    forall j | 0 <= j < |line| ensures !OccursAt(m, "\n", j) {
      OccursAtChar(m, '\n', j);
      assert m[j] == line[j];
    }
    SplitFirst(line, "\n", body);
  }

  /**
   * A header followed by a newline and a body is never matched when its subject
   * has any visible character: `.+` cannot cross the newline and `$` is the end of
   * the whole message. Such a commit is filed as `other` with the header as subject.
   */
  lemma BodyForcesFallback(h: Header, body: string)
    requires WellFormed(h) && SingleLine(h.gap) && !IsBlank(h.subject)
    requires h.scope.Some? ==> '\n' !in h.scope.value
    ensures forall g :: !Spells(HeaderText(h) + "\n" + body, g)
    ensures var p := ParseCommit(HeaderText(h) + "\n" + body);
      p.kind == "other" && !p.breaking && p.subject == HeaderText(h)
  {
    var m := HeaderText(h) + "\n" + body;
    HeaderThenBodyUnmatched(h, body);
    forall g | Spells(m, g) ensures false {
      MatchHeaderComplete(m, g);
    }
    HeaderOneLine(h);
    FirstLineIsHeader(HeaderText(h), body);
  }

  /** The changelog categories, in the order the plugin renders them. */
  datatype Category = BreakingChanges | Features | Bugfixes | Improvements | Other

  /** The category's key in `changelogData`, used as its heading. */
  function Title(c: Category): string {
    match c
    case BreakingChanges => "Breaking Changes"
    case Features => "Features"
    case Bugfixes => "Bugfixes"
    case Improvements => "Improvements"
    case Other => "Other"
  }

  /** The key order of the `changelogData` object literal. */
  const RenderOrder: seq<Category> := [BreakingChanges, Features, Bugfixes, Improvements, Other]

  /** The types `getCategory` files under Improvements. */
  const ImprovementKinds: set<string> := {"perf", "refactor", "style", "docs", "test", "chore"}

  /**
   * `getCategory(parsedCommit)`: a breaking commit is a Breaking Change whatever
   * its type; otherwise the type decides, and every unlisted type is Other.
   */
  function CategoryOf(p: ParsedCommit): (c: Category)
    ensures c == BreakingChanges <==> p.breaking
    ensures c == Features <==> !p.breaking && p.kind == "feat"
    ensures c == Bugfixes <==> !p.breaking && p.kind == "fix"
    ensures c == Improvements <==> !p.breaking && p.kind in ImprovementKinds
    ensures c == Other <==> !p.breaking && p.kind != "feat" && p.kind != "fix" && p.kind !in ImprovementKinds
  {
    if p.breaking then BreakingChanges
    else if p.kind == "feat" then Features
    else if p.kind == "fix" then Bugfixes
    else if p.kind in ImprovementKinds then Improvements
    else Other
  }

  /** The fallback type `other` of a non-breaking commit is filed under Other. */
  lemma FallbackKindIsOther(p: ParsedCommit)
    requires p.kind == "other" && !p.breaking
    ensures CategoryOf(p) == Other
  {
    assert p.kind != "feat" && p.kind != "fix" by { assert p.kind[0] == 'o'; }
    assert p.kind !in ImprovementKinds by { assert p.kind[1] == 't'; }
  }

  /**
   * The token `BREAKING CHANGE:` only counts inside a matched message; a message
   * the pattern rejects is filed under Other whatever it contains.
   */
  lemma BreakingTokenNeedsMatch(m: string)
    ensures (exists h :: Spells(m, h)) && Contains(m, "BREAKING CHANGE:")
            ==> CategoryOf(ParseCommit(m)) == BreakingChanges
    ensures (forall h :: !Spells(m, h)) ==> CategoryOf(ParseCommit(m)) == Other
  {
    if h :| Spells(m, h) {
      MatchedBreaking(m, h);
    } else {
      UnmatchedIsOther(m);
      FallbackKindIsOther(ParseCommit(m));
    }
  }
}
