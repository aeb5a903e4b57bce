/**
 * How `getCurrentReleaseCommits` in `plugins/semantic-release-fragments.js` turns the
 * text printed by `git log --pretty=format:"%H|||%s|||%B"` into commits: every
 * non-blank line of that text is one commit, split at `|||`.
 */
module CommitLog {
  import opened Wrappers
  import opened JsString
  import opened ConventionalCommit

  /** A commit as the plugin sees it. */
  datatype Commit = Commit(hash: string, message: string)

  /**
   * One log line: the hash is the first `|||` piece, trimmed; the message is the
   * other pieces joined with newlines, trimmed (empty when there is no `|||`).
   */
  function CommitOfLine(line: string): (c: Commit)
    ensures !Contains(line, "|||") ==> c == Commit(Trim(line), "")
  {
    var parts := Split(line, "|||");
    Commit(Trim(parts[0]), Trim(Join(parts[1..], "\n")))
  }

  /**
   * The commits of the release: one per non-blank line of the log output, in order;
   * none when `git` fails.
   */
  function CommitsOfLog(log: Option<string>): (commits: seq<Commit>)
    ensures log.None? ==> commits == []
    ensures log.Some? ==>
      var lines := NonBlank(Split(log.value, "\n"));
      |commits| == |lines| && forall i :: 0 <= i < |lines| ==> commits[i] == CommitOfLine(lines[i])
  {
    match log
    case None => []
    case Some(text) =>
      var lines := NonBlank(Split(text, "\n"));
      seq(|lines|, i requires 0 <= i < |lines| => CommitOfLine(lines[i]))
  }

  /** A line `hash|||subject|||body` whose parts hold no `|` gives the hash and `subject\nbody`, trimmed. */
  lemma ThreeFields(hash: string, subject: string, body: string)
    requires '|' !in hash && '|' !in subject && '|' !in body
    ensures CommitOfLine(hash + "|||" + subject + "|||" + body)
         == Commit(Trim(hash), Trim(subject + "\n" + body))
  {
    var sep := "|||";
    var tail := subject + sep + body;
    NoOccurrenceBefore(subject, sep + body, sep);
    Assoc(subject, sep, body);
    SplitFirst(subject, sep, body);
    ContainsNoFirstChar(body, sep);
    SplitNone(body, sep);
    assert Split(tail, sep) == [subject, body];
    NoOccurrenceBefore(hash, sep + tail, sep);
    Assoc(hash, sep, tail);
    SplitFirst(hash, sep, tail);
    Assoc(hash + sep, subject, sep);
    Assoc(hash + sep, subject + sep, body);
    assert hash + sep + subject + sep + body == hash + sep + tail;
    var parts := Split(hash + sep + subject + sep + body, sep);
    assert parts == [hash, subject, body];
    assert parts[1..] == [subject, body];
    assert Join([subject, body], "\n") == subject + "\n" + Join([body], "\n");
  }

  /** A string lacking the first character of a pattern does not contain it. */
  lemma ContainsNoFirstChar(s: string, pat: string)
    requires pat != [] && pat[0] !in s
    ensures !Contains(s, pat)
  {
  }

  /** The message of `hash|||s|||s` is `s`, a newline and `s`, when `s` is not padded. */
  lemma RepeatedSubjectMessage(hash: string, s: string)
    requires s != [] && !IsWhiteSpace(s[0]) && !IsWhiteSpace(s[|s| - 1])
    requires '|' !in hash && '|' !in s
    ensures CommitOfLine(hash + "|||" + s + "|||" + s).message == s + "\n" + s
  {
    var m := s + "\n" + s;
    ThreeFields(hash, s, s);
    assert m[0] == s[0];
    assert m[|m| - 1] == s[|s| - 1];
    TrimUnpadded(m);
  }

  /**
   * With this log format a commit whose message is one conventional-commit line `s`
   * prints as `hash|||s|||s` (`%B` repeats the subject). Its message becomes `s`, a
   * newline and `s` again, which the pattern never matches: the commit is filed
   * under Other whatever its type.
   */
  lemma RepeatedSubjectIsOther(hash: string, h: Header)
    requires WellFormed(h) && SingleLine(h.gap) && !IsBlank(h.subject)
    requires !IsWhiteSpace(h.subject[|h.subject| - 1])
    requires h.scope.Some? ==> '\n' !in h.scope.value
    requires '|' !in hash && '|' !in HeaderText(h)
    ensures var s := HeaderText(h);
      var c := CommitOfLine(hash + "|||" + s + "|||" + s);
      c.message == s + "\n" + s
      && ParseCommit(c.message).kind == "other"
      && CategoryOf(ParseCommit(c.message)) == Other
  {
    var s := HeaderText(h);
    HeaderEnds(h);
    RepeatedSubjectMessage(hash, s);
    BodyForcesFallback(h, s);
    FallbackKindIsOther(ParseCommit(s + "\n" + s));
  }
}
