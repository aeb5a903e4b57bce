/**
 * `scripts/update-version-mdx-git.js`: a release block built straight from the text
 * of `git log --pretty=format:"%H|%s|%b|||"`, keeping only the commits whose subject
 * is a `feat`, `fix` or `BREAKING CHANGE` conventional-commit header.
 */
module GitLogChangelog {
  import opened Wrappers
  import opened JsString
  import opened VersionMdx

  /** What ends every record of the log format. */
  const RecordEnd := "|||"

  /** `gitLog.split('|||').filter(commit => commit.trim())`. */
  function Records(log: string): (rs: seq<string>)
    ensures forall i :: 0 <= i < |rs| ==> !IsBlank(rs[i]) && !Contains(rs[i], RecordEnd)
  {
    var pieces := Split(log, RecordEnd);
    var rs := NonBlank(pieces);
    forall i | 0 <= i < |rs| ensures !Contains(rs[i], RecordEnd) {
      assert rs[i] in pieces;
    }
    rs
  }

  /**
   * `const [hash, subject, ...bodyParts] = commitData.split('|')` with the body
   * re-joined and trimmed; the subject is None (undefined) when the record has no `|`.
   */
  datatype Fields = Fields(hash: string, subject: Option<string>, body: string)

  function FieldsOf(record: string): (f: Fields)
    ensures f.subject.None? <==> !Contains(record, "|")
    ensures f.subject.None? ==> f == Fields(record, None, "")
  {
    var parts := Split(record, "|");
    if |parts| < 2 then Fields(parts[0], None, "")
    else Fields(parts[0], Some(parts[1]), Trim(Join(parts[2..], "|")))
  }

  /**
   * A record spelled `hash|subject|body`, with no `|` in the hash or the subject, gives
   * back those three fields, the body trimmed; the body may itself hold `|`.
   */
  lemma FieldsOfRecord(hash: string, subject: string, body: string)
    requires '|' !in hash && '|' !in subject
    ensures FieldsOf(hash + "|" + subject + "|" + body) == Fields(hash, Some(subject), Trim(body))
  {
    var tail := subject + "|" + body;
    NoOccurrenceBefore(subject, "|" + body, "|");
    Assoc(subject, "|", body);
    SplitFirst(subject, "|", body);
    NoOccurrenceBefore(hash, "|" + tail, "|");
    Assoc(hash, "|", tail);
    SplitFirst(hash, "|", tail);
    Assoc(hash + "|", subject, "|");
    Assoc(hash + "|", subject + "|", body);
    var parts := Split(hash + "|" + subject + "|" + body, "|");
    assert parts == [hash, subject] + Split(body, "|");
    assert parts[2..] == Split(body, "|");
    JoinSplit(body, "|");
  }

  /** The three commit types the subject pattern accepts. */
  datatype Kind = Feat | Fix | Breaking

  function KindText(k: Kind): string {
    match k
    case Feat => "feat"
    case Fix => "fix"
    case Breaking => "BREAKING CHANGE"
  }

  /** The groups of `/^(feat|fix|BREAKING CHANGE)(?:\(([^)]+)\))?: (.+)$/`. */
  datatype Subject = Subject(kind: Kind, scope: Option<string>, description: string)

  /** The subject a match came from. */
  function SubjectText(m: Subject): string {
    KindText(m.kind) + TailText(m.scope, m.description)
  }

  /** What follows the type in a subject: the optional `(scope)`, then `: ` and the description. */
  function TailText(scope: Option<string>, description: string): string {
    (if scope.Some? then "(" + scope.value + ")" else "") + (": " + description)
  }

  /**
   * What the pattern can capture: a non-empty scope without `)`, and a non-empty
   * description on one line (`.` stops at line terminators and `$` is the end of input).
   */
  predicate WellFormed(m: Subject) {
    (m.scope.Some? ==> m.scope.value != "" && ')' !in m.scope.value)
    && m.description != "" && SingleLine(m.description)
  }

  /** The alternative of the type group that the subject starts with. */
  function KindPrefix(s: string): (r: Option<Kind>)
    ensures r.Some? ==> StartsWith(s, KindText(r.value))
  {
    if StartsWith(s, "feat") then Some(Feat)
    else if StartsWith(s, "fix") then Some(Fix)
    else if StartsWith(s, "BREAKING CHANGE") then Some(Breaking)
    else None
  }

  /** A subject spelled with a type starts with that type alone. */
  lemma KindPrefixOf(k: Kind, rest: string)
    ensures KindPrefix(KindText(k) + rest) == Some(k)
    ensures (KindText(k) + rest)[|KindText(k)|..] == rest
  {
    var s := KindText(k) + rest;
    assert s[..|KindText(k)|] == KindText(k);
    match k
    case Feat =>
    case Fix => assert s[1] == 'i';
    case Breaking => assert s[0] == 'B';
  }

  /** `\(([^)]+)\)` at the start of `rest`: the scope, which runs to the first `)`, and what follows. */
  function ScopeGroup(rest: string): (r: Option<(string, string)>)
    ensures r.Some? ==> r.value.0 != "" && ')' !in r.value.0 && rest == "(" + r.value.0 + ")" + r.value.1
  {
    if rest == [] || rest[0] != '(' then None
    else
      var j := IndexOf(rest, ")");
      if j < 2 then None
      else
        OccursAtChar(rest, ')', j);
        assert ')' !in rest[1..j] by {
          forall i | 1 <= i < j ensures rest[i] != ')' { OccursAtChar(rest, ')', i); }
        }
        assert rest == "(" + rest[1..j] + ")" + rest[j + 1..];
        Some((rest[1..j], rest[j + 1..]))
  }

  /** A non-empty scope without `)` is matched by the group, up to its closing parenthesis. */
  lemma ScopeGroupOf(scope: string, after: string)
    requires scope != "" && ')' !in scope
    ensures ScopeGroup("(" + scope + ")" + after) == Some((scope, after))
  {
    var rest := "(" + scope + ")" + after;
    assert OccursAt(rest, ")", |scope| + 1) by { assert rest[|scope| + 1..|scope| + 2] == ")"; }
    forall i | 0 <= i < |scope| + 1 ensures !OccursAt(rest, ")", i) {
      OccursAtChar(rest, ')', i);
      if i > 0 { assert rest[i] == scope[i - 1]; }
    }
    assert rest[1..|scope| + 1] == scope;
    assert rest[|scope| + 2..] == after;
  }

  /** The `: (.+)$` tail of the pattern, after the type and the optional scope. */
  function Described(k: Kind, scope: Option<string>, after: string): (r: Option<Subject>)
    ensures r.Some? <==> StartsWith(after, ": ") && |after| > 2 && SingleLine(after[2..])
    ensures r.Some? ==> r.value.kind == k && r.value.scope == scope && after == ": " + r.value.description
  {
    if StartsWith(after, ": ") && |after| > 2 && SingleLine(after[2..]) then
      assert after == ": " + after[2..];
      Some(Subject(k, scope, after[2..]))
    else None
  }

  /**
   * `subject.match(...)`. When the subject goes on with `(` after the type, only the
   * scope group can match, so a failed group fails the whole match.
   */
  function MatchSubject(s: string): (r: Option<Subject>)
    ensures r.Some? ==> WellFormed(r.value) && SubjectText(r.value) == s
  {
    match KindPrefix(s)
    case None => None
    case Some(k) =>
      var rest := s[|KindText(k)|..];
      assert s == KindText(k) + rest;
      MatchTail(k, rest)
  }

  /** The pattern after the type group: the optional scope group, then `: (.+)$`. */
  function MatchTail(k: Kind, rest: string): (r: Option<Subject>)
    ensures r.Some? ==> WellFormed(r.value) && r.value.kind == k && TailText(r.value.scope, r.value.description) == rest
  {
    if rest != [] && rest[0] == '(' then
      match ScopeGroup(rest)
      case None => None
      case Some(g) => Described(k, Some(g.0), g.1)
    else Described(k, None, rest)
  }

  /** Every well-formed subject is matched, with exactly its own groups. */
  lemma MatchSpelled(m: Subject)
    requires WellFormed(m)
    ensures MatchSubject(SubjectText(m)) == Some(m)
  {
    KindPrefixOf(m.kind, TailText(m.scope, m.description));
    MatchTailSpelled(m);
  }

  /** The tail of a well-formed subject is matched with its own scope and description. */
  lemma MatchTailSpelled(m: Subject)
    requires WellFormed(m)
    ensures MatchTail(m.kind, TailText(m.scope, m.description)) == Some(m)
  {
    var after := ": " + m.description;
    assert after[2..] == m.description;
    var rest := TailText(m.scope, m.description);
    if m.scope.Some? {
      ScopeGroupOf(m.scope.value, after);
    } else {
      assert rest == after;
    }
  }

  /** `feat!: ...`, and any type followed by something other than `(` or `:`, is dropped. */
  lemma OtherTailsDropped(k: Kind, rest: string)
    requires rest != [] && rest[0] != '(' && rest[0] != ':'
    ensures MatchSubject(KindText(k) + rest) == None
  {
    KindPrefixOf(k, rest);
  }

  /** Exactly one space must follow the colon: `feat:x` is dropped. */
  lemma ColonSpaceRequired(k: Kind, rest: string)
    requires rest != [] && rest[0] != ' '
    ensures MatchSubject(KindText(k) + ":" + rest) == None
  {
    KindPrefixOf(k, ":" + rest);
    Assoc(KindText(k), ":", rest);
    assert (":" + rest)[1] == rest[0];
  }

  /** The `commitInfo` object pushed for a kept commit. */
  datatype CommitInfo = CommitInfo(scope: string, description: string, body: string, hash: string)

  /**
   * The scope with its first letter upper-cased, or `General`; the body, or the
   * description when the trimmed body is empty; the first seven characters of the hash.
   */
  function InfoOf(f: Fields, m: Subject): (c: CommitInfo)
    ensures m.scope.Some? && m.scope.value != "" ==>
      |c.scope| == |m.scope.value| && c.scope[0] == UpperChar(m.scope.value[0])
      && c.scope[1..] == m.scope.value[1..]
    ensures m.scope.None? ==> c.scope == "General"
    ensures c.description == m.description
    ensures f.body != "" ==> c.body == f.body
    ensures f.body == "" ==> c.body == m.description
    ensures StartsWith(f.hash, c.hash) && |c.hash| == if |f.hash| < 7 then |f.hash| else 7
  {
    CommitInfo(
      if m.scope.Some? && m.scope.value != "" then UpperFirst(m.scope.value) else "General",
      m.description,
      if f.body != "" then f.body else m.description,
      if |f.hash| < 7 then f.hash else f.hash[..7])
  }

  /** What the `forEach` callback does with one record. */
  datatype Classified = Throws | Dropped | Kept(kind: Kind, info: CommitInfo)

  function Classify(record: string): (r: Classified)
    ensures r.Throws? <==> !Contains(record, "|")
  {
    var f := FieldsOf(record);
    match f.subject
    case None => Throws
    case Some(s) =>
      match MatchSubject(s)
      case None => Dropped
      case Some(m) => Kept(m.kind, InfoOf(f, m))
  }

  /** A record `hash|subject|body` is kept exactly when its subject matches, under that subject's type. */
  lemma ClassifyRecord(hash: string, subject: string, body: string)
    requires '|' !in hash && '|' !in subject
    ensures var c := Classify(hash + "|" + subject + "|" + body);
      match MatchSubject(subject)
      case None => c == Dropped
      case Some(m) => c == Kept(m.kind, InfoOf(Fields(hash, Some(subject), Trim(body)), m))
  {
    FieldsOfRecord(hash, subject, body);
  }

  /** The callback's outcome for each record, in order. */
  function Classes(records: seq<string>): (cs: seq<Classified>)
    ensures |cs| == |records| && forall i :: 0 <= i < |records| ==> cs[i] == Classify(records[i])
  {
    seq(|records|, i requires 0 <= i < |records| => Classify(records[i]))
  }

  /** `groupedCommits`: three arrays, in the order the commits were pushed. */
  datatype Groups = Groups(features: seq<CommitInfo>, fixes: seq<CommitInfo>, breaking: seq<CommitInfo>)

  /** One `push` into the array of `k`. */
  function AddTo(g: Groups, k: Kind, c: CommitInfo): (r: Groups)
    ensures |r.features| + |r.fixes| + |r.breaking| == |g.features| + |g.fixes| + |g.breaking| + 1
  {
    match k
    case Feat => g.(features := g.features + [c])
    case Fix => g.(fixes := g.fixes + [c])
    case Breaking => g.(breaking := g.breaking + [c])
  }

  /** The groups after the callback has run on each record; None once one throws. */
  function Grouped(cs: seq<Classified>): Option<Groups>
    decreases |cs|
  {
    if cs == [] then Some(Groups([], [], []))
    else
      match Grouped(cs[..|cs| - 1])
      case None => None
      case Some(g) =>
        match cs[|cs| - 1]
        case Throws => None
        case Dropped => Some(g)
        case Kept(k, c) => Some(AddTo(g, k, c))
  }

  /** One record more: the step the `forEach` takes. */
  lemma GroupedStep(cs: seq<Classified>, i: nat)
    requires i < |cs|
    ensures Grouped(cs[..i + 1]) ==
      match Grouped(cs[..i])
      case None => None
      case Some(g) =>
        match cs[i]
        case Throws => None
        case Dropped => Some(g)
        case Kept(k, c) => Some(AddTo(g, k, c))
  {
    assert cs[..i + 1][..i] == cs[..i];
  }

  /** Once a callback has thrown, the rest of the records change nothing. */
  lemma {:induction false} ThrowPersists(cs: seq<Classified>, n: nat)
    requires n <= |cs| && Grouped(cs[..n]).None?
    ensures Grouped(cs).None?
    decreases |cs| - n
  {
    if n == |cs| {
      assert cs[..n] == cs;
    } else {
      GroupedStep(cs, n);
      ThrowPersists(cs, n + 1);
    }
  }

  /** The `forEach` throws exactly when some callback throws. */
  lemma {:induction false} GroupedThrows(cs: seq<Classified>)
    ensures Grouped(cs).None? <==> exists i :: 0 <= i < |cs| && cs[i].Throws?
    decreases |cs|
  {
    if cs != [] {
      var init := cs[..|cs| - 1];
      GroupedThrows(init);
      if exists i :: 0 <= i < |init| && init[i].Throws? {
        var i :| 0 <= i < |init| && init[i].Throws?;
        assert cs[i] == init[i];
      }
      if exists i :: 0 <= i < |cs| && cs[i].Throws? {
        var i :| 0 <= i < |cs| && cs[i].Throws?;
        if i < |init| { assert init[i] == cs[i]; }
      }
    }
  }

  /** So the script falls back exactly when some non-blank record has no `|`. */
  lemma RecordsThrow(records: seq<string>)
    ensures Grouped(Classes(records)).None? <==> exists i :: 0 <= i < |records| && !Contains(records[i], "|")
  {
    GroupedThrows(Classes(records));
  }

  /**
   * An independent reading of the groups: the commits of one kind, in log order,
   * as a filter over the callbacks' outcomes.
   */
  function OfKind(cs: seq<Classified>, k: Kind): seq<CommitInfo>
    decreases |cs|
  {
    if cs == [] then []
    else
      var c := cs[|cs| - 1];
      OfKind(cs[..|cs| - 1], k) + (if c.Kept? && c.kind == k then [c.info] else [])
  }

  /** When no callback throws, each array holds exactly the commits of its kind, in log order. */
  lemma {:induction false} GroupedFilters(cs: seq<Classified>)
    requires Grouped(cs).Some?
    ensures Grouped(cs).value == Groups(OfKind(cs, Feat), OfKind(cs, Fix), OfKind(cs, Breaking))
    decreases |cs|
  {
    if cs != [] {
      GroupedFilters(cs[..|cs| - 1]);
    }
  }

  /** A record whose subject does not match adds nothing to any group. */
  lemma DroppedRecord(cs: seq<Classified>, k: Kind)
    ensures Grouped(cs + [Dropped]) == Grouped(cs)
    ensures OfKind(cs + [Dropped], k) == OfKind(cs, k)
  {
    assert (cs + [Dropped])[..|cs|] == cs;
  }

  /** The `forEach` over the records, pushing into the three arrays. */
  method GroupCommits(records: seq<string>) returns (r: Option<Groups>)
    ensures r == Grouped(Classes(records))
  {
    ghost var cs := Classes(records);
    var features, fixes, breaking := [], [], [];
    var i := 0;
    while i < |records|
      invariant 0 <= i <= |records|
      invariant Grouped(cs[..i]) == Some(Groups(features, fixes, breaking))
    {
      GroupedStep(cs, i);
      var parts := Split(records[i], "|");
      if |parts| < 2 {
        ThrowPersists(cs, i + 1);
        return None;
      }
      var hash, subject := parts[0], parts[1];
      var body := Trim(Join(parts[2..], "|"));
      var m := MatchSubject(subject);
      if m.Some? {
        var info := InfoOf(Fields(hash, Some(subject), body), m.value);
        if m.value.kind == Feat {
          features := features + [info];
        } else if m.value.kind == Fix {
          fixes := fixes + [info];
        } else if m.value.kind == Breaking {
          breaking := breaking + [info];
        }
      }
      i := i + 1;
    }
    assert cs[..i] == cs;
    return Some(Groups(features, fixes, breaking));
  }

  /** Every `|` of `a` is followed, within `a`, by another character. */
  predicate LonePipes(a: string) {
    forall j :: 0 <= j < |a| && a[j] == '|' ==> j + 1 < |a| && a[j + 1] != '|'
  }

  /** So no `|||` starts inside `a`, whatever follows it. */
  lemma NoRecordEndIn(a: string, x: string)
    requires LonePipes(a)
    ensures forall j :: 0 <= j < |a| ==> !OccursAt(a + x, RecordEnd, j)
  {
    forall j | 0 <= j < |a| ensures !OccursAt(a + x, RecordEnd, j) {
      if OccursAt(a + x, RecordEnd, j) {
        PipesAt(a + x, j);
        assert false;
      }
    }
  }

  /** Where `|||` occurs, the first two characters are `|`. */
  lemma PipesAt(t: string, j: int)
    requires OccursAt(t, RecordEnd, j)
    ensures t[j] == '|' && t[j + 1] == '|'
  {
    assert t[j..j + 3][0] == t[j] && t[j..j + 3][1] == t[j + 1];
  }

  /** A `|` between a hash and a non-empty subject, neither holding `|`, is a lone one. */
  lemma SinglePipe(pre: string, hash: string, subject: string)
    requires LonePipes(pre) && '|' !in hash && '|' !in subject && subject != []
    ensures LonePipes(pre + hash + "|" + subject)
  {
    var a := pre + hash + "|" + subject;
    forall j | 0 <= j < |a| && a[j] == '|' ensures j + 1 < |a| && a[j + 1] != '|' {
      if j >= |pre| {
        assert j == |pre| + |hash|;
        assert a[j + 1] == subject[0];
      } else {
        assert a[j] == pre[j];
        if j + 1 < |pre| { assert a[j + 1] == pre[j + 1]; }
      }
    }
  }

  /** The split of a piece with lone pipes, `|||` and the rest starts with that piece. */
  lemma SplitAtRecordEnd(a: string, x: string)
    requires LonePipes(a)
    ensures Split(a + RecordEnd + x, RecordEnd) == [a] + Split(x, RecordEnd)
  {
    NoRecordEndIn(a, RecordEnd + x);
    Assoc(a, RecordEnd, x);
    SplitFirst(a, RecordEnd, x);
  }

  /**
   * The log of two commits whose first has an empty body. `%b` prints nothing, so
   * the first record ends in four `|`; the split takes the first three, the fourth
   * starts the next record, and a lone `|` is left at the end.
   */
  lemma EmptyBodyRecords(h1: string, s1: string, h2: string, s2: string)
    requires '|' !in h1 && '|' !in s1 && '|' !in h2 && '|' !in s2 && s1 != [] && s2 != []
    ensures Records(h1 + "|" + s1 + "||||" + "\n" + h2 + "|" + s2 + "||||")
         == [h1 + "|" + s1, "|\n" + h2 + "|" + s2, "|"]
  {
    var a := h1 + "|" + s1;
    var b := "|\n" + h2 + "|" + s2;
    SinglePipe([], h1, s1);
    assert [] + h1 + "|" + s1 == a;
    SinglePipe("|\n", h2, s2);
    EmptyBodyLog(h1, s1, h2, s2);
    TwoRecords(a, b);
    PipeNotBlank(a, |h1|);
    PipeNotBlank(b, 0);
    PipeNotBlank("|", 0);
    NonBlankThree(a, b, "|");
  }

  /** The log text, cut at its record ends. */
  lemma EmptyBodyLog(h1: string, s1: string, h2: string, s2: string)
    ensures h1 + "|" + s1 + "||||" + "\n" + h2 + "|" + s2 + "||||"
         == (h1 + "|" + s1) + RecordEnd + (("|\n" + h2 + "|" + s2) + RecordEnd + "|")
  {
  }

  /** Two pieces with lone pipes, each followed by `|||`, and a last `|`. */
  lemma TwoRecords(a: string, b: string)
    requires LonePipes(a) && LonePipes(b)
    ensures Split(a + RecordEnd + (b + RecordEnd + "|"), RecordEnd) == [a, b, "|"]
  {
    SplitAtRecordEnd(a, b + RecordEnd + "|");
    SplitAtRecordEnd(b, "|");
    SplitNone("|", RecordEnd);
  }

  /** A string holding a `|` is not blank. */
  lemma PipeNotBlank(s: string, i: nat)
    requires i < |s| && s[i] == '|'
    ensures !IsBlank(s)
  {
  }

  /** Three non-blank pieces are all kept. */
  lemma NonBlankThree(a: string, b: string, c: string)
    requires !IsBlank(a) && !IsBlank(b) && !IsBlank(c)
    ensures NonBlank([a, b, c]) == [a, b, c]
  {
    assert [a][..0] == [];
    assert NonBlank([a]) == [a];
    assert [a, b][..1] == [a];
    assert NonBlank([a, b]) == [a, b];
    assert [a, b, c][..2] == [a, b];
  }

  /**
   * The record after an empty body has an empty hash and the newline and the next
   * hash as its subject, which never matches: it is dropped whatever its subject.
   */
  lemma ShiftedRecordDropped(h2: string, s2: string)
    requires '|' !in h2 && '|' !in s2
    ensures Classify("|\n" + h2 + "|" + s2) == Dropped
  {
    FieldsOfRecord("", "\n" + h2, s2);
    assert "" + "|" + ("\n" + h2) + "|" + s2 == "|\n" + h2 + "|" + s2;
    assert KindPrefix("\n" + h2) == None by { assert ("\n" + h2)[0] == '\n'; }
  }

  /** The lone `|` left at the end has an empty subject and is dropped. */
  lemma TrailingPipeDropped()
    ensures Classify("|") == Dropped
  {
    SplitFirst("", "|", "");
    assert "" + "|" + "" == "|";
    assert KindPrefix("") == None;
  }

  /** So of two such commits only the first can reach a group. */
  lemma EmptyBodyHidesNext(h1: string, s1: string, h2: string, s2: string)
    requires '|' !in h1 && '|' !in s1 && '|' !in h2 && '|' !in s2 && s1 != [] && s2 != []
    ensures var log := h1 + "|" + s1 + "||||" + "\n" + h2 + "|" + s2 + "||||";
      Grouped(Classes(Records(log))) == Grouped([Classify(h1 + "|" + s1)])
  {
    EmptyBodyRecords(h1, s1, h2, s2);
    ShiftedRecordDropped(h2, s2);
    TrailingPipeDropped();
    ClassesThree([h1 + "|" + s1, "|\n" + h2 + "|" + s2, "|"], Classify(h1 + "|" + s1));
    TwoDropped(Classify(h1 + "|" + s1));
  }

  /** The outcomes of a kept or dropped record and two dropped ones. */
  lemma ClassesThree(rs: seq<string>, c: Classified)
    requires |rs| == 3 && Classify(rs[0]) == c && Classify(rs[1]) == Dropped && Classify(rs[2]) == Dropped
    ensures Classes(rs) == [c, Dropped, Dropped]
  {
    var cs := Classes(rs);
    assert cs[0] == c && cs[1] == Dropped && cs[2] == Dropped;
    SeqOfThree(cs, c, Dropped, Dropped);
  }

  /** A sequence of length three is the display of its elements. */
  lemma SeqOfThree<T>(s: seq<T>, a: T, b: T, c: T)
    requires |s| == 3 && s[0] == a && s[1] == b && s[2] == c
    ensures s == [a, b, c]
  {
  }

  /** Two dropped records after a first one leave the groups of the first alone. */
  lemma TwoDropped(c: Classified)
    ensures Grouped([c, Dropped, Dropped]) == Grouped([c])
  {
    DroppedRecord([c], Feat);
    DroppedRecord([c, Dropped], Feat);
    assert [c] + [Dropped] == [c, Dropped];
    assert [c, Dropped] + [Dropped] == [c, Dropped, Dropped];
  }

  /** `- **scope:**\n\t- body\n\n`, what each commit adds to its section. */
  function CommitText(c: CommitInfo): string {
    "- **" + c.scope + ":**\n\t- " + c.body + "\n\n"
  }

  /** The commits of a section, in order. */
  function CommitsText(cs: seq<CommitInfo>): string
    decreases |cs|
  {
    if cs == [] then "" else CommitsText(cs[..|cs| - 1]) + CommitText(cs[|cs| - 1])
  }

  /** One commit more adds its text. */
  lemma CommitsStep(cs: seq<CommitInfo>, k: nat)
    requires k < |cs|
    ensures CommitsText(cs[..k + 1]) == CommitsText(cs[..k]) + CommitText(cs[k])
  {
    assert cs[..k + 1][..k] == cs[..k];
  }

  /** A section: its heading and its commits, or nothing when it has no commit. */
  function GroupText(title: string, cs: seq<CommitInfo>): string {
    if cs == [] then "" else "### " + title + "\n\n" + CommitsText(cs)
  }

  /** `output`: the block header, then the FEATURES, BUG FIXES and BREAKING CHANGES sections. */
  function Output(version: string, date: string, g: Groups): string {
    BlockHeader(version, date) + GroupText("FEATURES", g.features) + GroupText("BUG FIXES", g.fixes)
      + GroupText("BREAKING CHANGES", g.breaking)
  }

  /** A section is written exactly when its group is not empty, and then starts with its heading. */
  lemma GroupTextIff(title: string, cs: seq<CommitInfo>)
    ensures GroupText(title, cs) == "" <==> cs == []
    ensures cs != [] ==> StartsWith(GroupText(title, cs), "### " + title + "\n\n")
  {
    if cs != [] {
      var t := GroupText(title, cs);
      assert t[0] == '#';
      assert t[..|"### " + title + "\n\n"|] == "### " + title + "\n\n";
    }
  }

  /** The text of a group is the texts of its commits, in their order. */
  lemma {:induction false} CommitsAppend(a: seq<CommitInfo>, b: seq<CommitInfo>)
    ensures CommitsText(a + b) == CommitsText(a) + CommitsText(b)
    decreases |b|
  {
    if b == [] {
      assert a + b == a;
    } else {
      var init := b[..|b| - 1];
      assert (a + b)[..|a + b| - 1] == a + init;
      assert (a + b)[|a + b| - 1] == b[|b| - 1];
      CommitsAppend(a, init);
      Assoc(CommitsText(a), CommitsText(init), CommitText(b[|b| - 1]));
    }
  }

  /** A lone feature with a scope and a body makes a FEATURES section of one bullet pair. */
  lemma LoneFeature(version: string, date: string, c: CommitInfo)
    ensures Output(version, date, Groups([c], [], []))
         == BlockHeader(version, date) + "### FEATURES\n\n- **" + c.scope + ":**\n\t- " + c.body + "\n\n"
  {
    assert [c][..0] == [];
    assert CommitsText([c]) == CommitText(c);
  }

  /** `output += ...` for the commits of one group. */
  method AppendGroup(output: string, title: string, cs: seq<CommitInfo>) returns (r: string)
    ensures r == output + GroupText(title, cs)
  {
    r := output;
    if |cs| > 0 {
      r := r + ("### " + title + "\n\n");
      var head := r;
      var k := 0;
      while k < |cs|
        invariant 0 <= k <= |cs|
        invariant r == head + CommitsText(cs[..k])
      {
        CommitsStep(cs, k);
        Assoc(head, CommitsText(cs[..k]), CommitText(cs[k]));
        r := r + CommitText(cs[k]);
        k := k + 1;
      }
      assert cs[..k] == cs;
      GroupTextSplit(output, title, cs);
    }
  }

  /** Appending a non-empty section is appending its heading, then its commits. */
  lemma GroupTextSplit(output: string, title: string, cs: seq<CommitInfo>)
    requires cs != []
    ensures output + GroupText(title, cs) == (output + ("### " + title + "\n\n")) + CommitsText(cs)
  {
    Assoc(output, "### " + title + "\n\n", CommitsText(cs));
  }

  /** Lines 58-79: the header and the three sections, in that order. */
  method RenderOutput(version: string, date: string, g: Groups) returns (output: string)
    ensures output == Output(version, date, g)
  {
    output := BlockHeader(version, date);
    output := AppendGroup(output, "FEATURES", g.features);
    output := AppendGroup(output, "BUG FIXES", g.fixes);
    output := AppendGroup(output, "BREAKING CHANGES", g.breaking);
  }

  /**
   * How the script ends: it skips without `NEXT_VERSION`, falls back to
   * `update-version-mdx.js` when `git` fails or a callback throws, and otherwise
   * writes the document with the block spliced in.
   */
  datatype Outcome = Skipped | Fallback | Written(document: string)

  /**
   * The script, given `NEXT_VERSION` (empty when unset), the date, the `git log`
   * output (None when `git` fails) and the current `Version.mdx` (None when missing).
   */
  function UpdateFromGit(version: string, date: string, log: Option<string>, existing: Option<string>): (r: Outcome)
    ensures r.Skipped? <==> version == ""
    ensures r.Fallback? <==> version != "" && (log.None? || Grouped(Classes(Records(log.value))).None?)
    ensures r.Written? && !Contains(existing.GetOr(""), Marker) ==> r.document == existing.GetOr("")
  {
    if version == "" then Skipped
    else if log.None? then Fallback
    else
      match Grouped(Classes(Records(log.value)))
      case None => Fallback
      case Some(g) => Written(InsertAfterMarker(existing.GetOr(""), Output(version, date, g)))
  }

  /** The script's body, step by step. */
  method RunScript(version: string, date: string, log: Option<string>, existing: Option<string>) returns (r: Outcome)
    ensures r == UpdateFromGit(version, date, log, existing)
  {
    if version == "" {
      return Skipped;
    }
    if log.None? {
      return Fallback;
    }
    var commits := Records(log.value);
    var grouped := GroupCommits(commits);
    if grouped.None? {
      return Fallback;
    }
    var output := RenderOutput(version, date, grouped.value);
    var content := if existing.Some? then existing.value else "";
    r := Written(InsertAfterMarker(content, output));
  }

  /**
   * A written document holds the block right after the first marker and keeps the
   * rest, as long as the block has no `$` (which `replace` would expand).
   */
  lemma WrittenSplice(version: string, date: string, log: string, content: string)
    requires version != "" && Grouped(Classes(Records(log))).Some? && Contains(content, Marker)
    requires '$' !in Output(version, date, Grouped(Classes(Records(log))).value)
    ensures var i := IndexOf(content, Marker);
      var block := Output(version, date, Grouped(Classes(Records(log))).value);
      UpdateFromGit(version, date, Some(log), Some(content))
        == Written(content[..i] + Marker + "\n\n" + block + content[i + |Marker|..])
  {
  }
}
