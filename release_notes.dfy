/**
 * `scripts/update-version-mdx.js`: the release notes semantic-release writes are
 * rewritten into the `Version.mdx` layout (one upper-cased heading per section, one
 * bold entry per component with its descriptions), labelled, and inserted after the
 * marker.
 */
module ReleaseNotes {
  import opened Wrappers
  import opened JsString
  import opened VersionMdx

  /** The separator of `split(/^### /gm)`. */
  const Hashes := "### "

  /** `### ` occurs at `i` at the start of a line (the `m` flag lets `^` match after any line terminator). */
  predicate HeadingAt(s: string, i: nat) {
    OccursAt(s, Hashes, i) && (i == 0 || IsLineTerminator(s[i - 1]))
  }

  /**
   * `s.split(/^### /gm)`, as the split algorithm of ECMA-262 runs it: the piece under
   * way starts at `p`, the search is at `q`; each match ends a piece and the next one
   * starts behind it.
   */
  function SplitHeadings(s: string, p: nat, q: nat): (pieces: seq<string>)
    requires p <= q <= |s|
    ensures |pieces| >= 1
    decreases |s| - q
  {
    if q == |s| then [s[p..]]
    else if HeadingAt(s, q) then [s[p..q]] + SplitHeadings(s, q + |Hashes|, q + |Hashes|)
    else SplitHeadings(s, p, q + 1)
  }

  /** Joining the pieces with `### ` gives back the text: the split loses nothing but the separators. */
  lemma {:induction false} JoinHeadings(s: string, p: nat, q: nat)
    requires p <= q <= |s|
    ensures Join(SplitHeadings(s, p, q), Hashes) == s[p..]
    decreases |s| - q
  {
    if q < |s| {
      if HeadingAt(s, q) {
        var rest := SplitHeadings(s, q + |Hashes|, q + |Hashes|);
        JoinHeadings(s, q + |Hashes|, q + |Hashes|);
        JoinCons(s[p..q], rest, Hashes);
        assert s[p..] == s[p..q] + s[q..q + |Hashes|] + s[q + |Hashes|..];
      } else {
        JoinHeadings(s, p, q + 1);
      }
    }
  }

  /** The first line-start `### ` at or after `q`, or the end of the text. */
  function NextHeading(s: string, q: nat): (c: nat)
    requires q <= |s|
    ensures q <= c <= |s|
    ensures c < |s| ==> HeadingAt(s, c)
    ensures forall j :: q <= j < c ==> !HeadingAt(s, j)
    decreases |s| - q
  {
    if q == |s| || HeadingAt(s, q) then q else NextHeading(s, q + 1)
  }

  /** The split cuts at the next line-start `### ` and goes on behind it. */
  lemma {:induction false} SplitAtNext(s: string, p: nat, q: nat)
    requires p <= q <= |s|
    ensures var c := NextHeading(s, q);
      SplitHeadings(s, p, q) == [s[p..c]] + (if c < |s| then SplitHeadings(s, c + |Hashes|, c + |Hashes|) else [])
    decreases |s| - q
  {
    if q == |s| {
      SplitAtEnd(s, p);
    } else if HeadingAt(s, q) {
      SplitAtHeading(s, p, q);
    } else {
      SplitPastOther(s, p, q);
      SplitAtNext(s, p, q + 1);
    }
  }

  /** At the end of the text the piece under way is the last one. */
  lemma SplitAtEnd(s: string, p: nat)
    requires p <= |s|
    ensures NextHeading(s, |s|) == |s|
    ensures SplitHeadings(s, p, |s|) == [s[p..|s|]] + []
  {
    var piece := s[p..|s|];
    assert piece == s[p..];
    assert [piece] + [] == [piece];
  }

  /** A line-start `### ` at the search position ends the piece there. */
  lemma SplitAtHeading(s: string, p: nat, q: nat)
    requires p <= q < |s| && HeadingAt(s, q)
    ensures NextHeading(s, q) == q
    ensures SplitHeadings(s, p, q) == [s[p..q]] + SplitHeadings(s, q + |Hashes|, q + |Hashes|)
  {
  }

  /** Any other position is passed over. */
  lemma SplitPastOther(s: string, p: nat, q: nat)
    requires p <= q < |s| && !HeadingAt(s, q)
    ensures NextHeading(s, q) == NextHeading(s, q + 1)
    ensures SplitHeadings(s, p, q) == SplitHeadings(s, p, q + 1)
  {
  }

  /** A piece that runs up to the next line-start `### ` holds none at a line start of its own. */
  lemma PieceHasNoHeading(s: string, p: nat, c: nat, i: nat)
    requires p <= c <= |s|
    requires forall j :: p <= j < c ==> !HeadingAt(s, j)
    requires (i == 0 && p == 0) || (0 < i <= c - p && IsLineTerminator(s[p..c][i - 1]))
    ensures !OccursAt(s[p..c], Hashes, i)
  {
    if i + |Hashes| <= c - p {
      var inPiece, inText := s[p..c][i..i + |Hashes|], s[p + i..p + i + |Hashes|];
      assert forall k :: 0 <= k < |Hashes| ==> inPiece[k] == inText[k];
      assert inPiece == inText;
      assert !HeadingAt(s, p + i);
    }
  }

  /**
   * Where `split(/^### /gm)` cuts: every piece but the last ends with a line
   * terminator, except an empty first piece when the text starts with `### `; and no
   * piece holds `### ` at the start of a line, the first one not even at its start.
   * With JoinHeadings this fixes the pieces: exactly the line-start `### `s are cut out.
   */
  lemma {:induction false} HeadingCuts(s: string, p: nat)
    requires p <= |s|
    requires p > 0 ==> !IsLineTerminator(s[p - 1])
    ensures var pieces := SplitHeadings(s, p, p);
      forall k :: 0 <= k < |pieces| - 1 ==>
        (k == 0 && p == 0 && pieces[k] == "") || (pieces[k] != "" && IsLineTerminator(pieces[k][|pieces[k]| - 1]))
    ensures var pieces := SplitHeadings(s, p, p);
      forall k, i :: 0 <= k < |pieces| && 0 < i <= |pieces[k]| && IsLineTerminator(pieces[k][i - 1])
        ==> !OccursAt(pieces[k], Hashes, i)
    ensures p == 0 ==> !StartsWith(SplitHeadings(s, p, p)[0], Hashes)
    decreases |s| - p
  {
    var c := NextHeading(s, p);
    SplitAtNext(s, p, p);
    HeadPiece(s, p);
    var head, pieces := s[p..c], SplitHeadings(s, p, p);
    if c < |s| {
      var next := c + |Hashes|;
      var rest := SplitHeadings(s, next, next);
      HeadingCuts(s, next);
      assert pieces == [head] + rest;
      forall k | 0 < k < |pieces|
        ensures pieces[k] == rest[k - 1]
      {
      }
    } else {
      assert pieces == [head];
    }
  }

  /**
   * The first piece, up to the next line-start `### `: it holds no `### ` at a line
   * start; when a cut ends it, it ends with a line terminator unless it is the empty
   * piece before a `### ` that starts the text; and the cut leaves no line terminator
   * before the next piece.
   */
  lemma HeadPiece(s: string, p: nat)
    requires p <= |s|
    requires p > 0 ==> !IsLineTerminator(s[p - 1])
    ensures var c := NextHeading(s, p); var head := s[p..c];
      (forall i :: 0 < i <= |head| && IsLineTerminator(head[i - 1]) ==> !OccursAt(head, Hashes, i))
      && (p == 0 ==> !StartsWith(head, Hashes))
      && (c < |s| ==> (p == 0 && head == "") || (head != "" && IsLineTerminator(head[|head| - 1])))
      && (c < |s| ==> !IsLineTerminator(s[c + |Hashes| - 1]))
  {
    var c := NextHeading(s, p);
    var head := s[p..c];
    forall i | 0 < i <= |head| && IsLineTerminator(head[i - 1])
      ensures !OccursAt(head, Hashes, i)
    {
      PieceHasNoHeading(s, p, c, i);
    }
    if p == 0 {
      PieceHasNoHeading(s, p, c, 0);
    }
    if c < |s| {
      var next := c + |Hashes|;
      assert s[c..next][3] == s[next - 1];
      assert c > p ==> head[|head| - 1] == s[c - 1];
    }
  }

  /** The run of characters other than `:` and `*` that starts at `from`; it ends at the returned index. */
  function NameEnd(line: string, from: nat): (n: nat)
    requires from <= |line|
    ensures from <= n <= |line|
    ensures forall i :: from <= i < n ==> line[i] != ':' && line[i] != '*'
    ensures n < |line| ==> line[n] == ':' || line[n] == '*'
    decreases |line| - from
  {
    if from < |line| && line[from] != ':' && line[from] != '*' then NameEnd(line, from + 1) else from
  }

  /** The opening of a component line. */
  const Bullet := "* **"

  /**
   * The line is `* **`, a name of at least one character other than `:` and `*` up
   * to `n`, `:**`, white space up to `k`, and a one-line rest that does not start
   * with white space.
   */
  predicate ComponentSpelling(line: string, n: nat, k: nat) {
    StartsWith(line, Bullet) && |Bullet| < n && n + 3 <= k <= |line| && line[n..n + 3] == ":**"
    && (forall i :: |Bullet| <= i < n ==> line[i] != ':' && line[i] != '*')
    && IsBlank(line[n + 3..k]) && SingleLine(line[k..]) && (k < |line| ==> !IsWhiteSpace(line[k]))
  }

  /**
   * `line.match(/^\* \*\*([^:*]+):\*\*\s*(.*)$/)`, with both groups trimmed: the name
   * runs up to the first `:` or `*` and must be followed by `:**`; the description is
   * what follows the white space after it, and may not hold a line terminator. None
   * when the pattern does not match.
   */
  function ComponentLine(line: string): (r: Option<(string, string)>)
    ensures r.Some? ==> StartsWith(line, Bullet)
    ensures r.Some? ==> ':' !in r.value.0 && '*' !in r.value.0
    ensures r.Some? ==> exists n: nat, k: nat :: (ComponentSpelling(line, n, k)
      && r.value == (Trim(line[|Bullet|..n]), Trim(line[k..])))
  {
    if |line| >= |Bullet| && line[..|Bullet|] == Bullet then
      var n := NameEnd(line, |Bullet|);
      if n > |Bullet| && n + 3 <= |line| && line[n..n + 3] == ":**" then
        var after := line[n + 3..];
        var rest := after[LeadingSpace(after)..];
        if SingleLine(rest) then
          var name := line[|Bullet|..n];
          assert ':' !in name && '*' !in name by { assert forall i :: 0 <= i < |name| ==> name[i] == line[|Bullet| + i]; }
          TrimKeepsOut(name, ':');
          TrimKeepsOut(name, '*');
          SpellingWitness(line, n, n + 3 + LeadingSpace(after));
          Some((Trim(name), Trim(rest)))
        else None
      else None
    else None
  }

  /** The match of ComponentLine is spelled out in the line. */
  lemma SpellingWitness(line: string, n: nat, k: nat)
    requires |line| >= |Bullet| && line[..|Bullet|] == Bullet
    requires n > |Bullet| && n + 3 <= |line| && line[n..n + 3] == ":**"
    requires forall i :: |Bullet| <= i < n ==> line[i] != ':' && line[i] != '*'
    requires k == n + 3 + LeadingSpace(line[n + 3..])
    requires SingleLine(line[n + 3..][LeadingSpace(line[n + 3..])..])
    ensures k <= |line| && line[k..] == line[n + 3..][LeadingSpace(line[n + 3..])..]
    ensures ComponentSpelling(line, n, k)
  {
    var after := line[n + 3..];
    var m := LeadingSpace(after);
    GapSlices(line, n + 3, m);
    assert StartsWith(line, Bullet);
  }

  /** Slicing the text after `from` at its `m`-th character is slicing the line at `from + m`. */
  lemma GapSlices(line: string, from: nat, m: nat)
    requires from + m <= |line|
    ensures line[from..from + m] == line[from..][..m] && line[from + m..] == line[from..][m..]
    ensures from + m < |line| ==> line[from + m] == line[from..][m]
  {
  }

  /**
   * A line spelled `* **name:**`, white space, then a one-line description, is a
   * component line with that name and description, both trimmed.
   */
  lemma ComponentLineSpelled(name: string, gap: string, desc: string)
    requires name != [] && ':' !in name && '*' !in name
    requires IsBlank(gap) && SingleLine(desc) && (desc != [] ==> !IsWhiteSpace(desc[0]))
    ensures ComponentLine(Bullet + name + ":**" + gap + desc) == Some((Trim(name), Trim(desc)))
  {
    var line := Bullet + name + ":**" + gap + desc;
    var n := |Bullet| + |name|;
    SpelledSlices(name, gap, desc);
    NameEndIs(line, |Bullet|, n);
    GapThenText(gap, desc);
    ComponentLineAt(line, n, desc);
  }

  /** The slices of a spelled-out component line. */
  lemma SpelledSlices(name: string, gap: string, desc: string)
    requires ':' !in name && '*' !in name
    ensures var line := Bullet + name + ":**" + gap + desc; var n := |Bullet| + |name|;
      line[..|Bullet|] == Bullet && line[|Bullet|..n] == name && line[n] == ':'
      && (forall i :: |Bullet| <= i < n ==> line[i] != ':' && line[i] != '*')
      && line[n..n + 3] == ":**" && line[n + 3..] == gap + desc
  {
    var line := Bullet + name + ":**" + gap + desc;
    var n := |Bullet| + |name|;
    assert forall i :: |Bullet| <= i < n ==> line[i] == name[i - |Bullet|];
  }

  /** The matching branch of ComponentLine, stated for the pieces it finds. */
  lemma ComponentLineAt(line: string, n: nat, rest: string)
    requires |line| >= |Bullet| && line[..|Bullet|] == Bullet && NameEnd(line, |Bullet|) == n
    requires n > |Bullet| && n + 3 <= |line| && line[n..n + 3] == ":**"
    requires line[n + 3..][LeadingSpace(line[n + 3..])..] == rest && SingleLine(rest)
    ensures ComponentLine(line) == Some((Trim(line[|Bullet|..n]), Trim(rest)))
  {
    var after := line[n + 3..];
    assert after[LeadingSpace(after)..] == rest;
  }

  /** The run ends at the first `:` or `*`. */
  lemma {:induction false} NameEndIs(line: string, from: nat, n: nat)
    requires from <= n < |line| && (line[n] == ':' || line[n] == '*')
    requires forall i :: from <= i < n ==> line[i] != ':' && line[i] != '*'
    ensures NameEnd(line, from) == n
    decreases n - from
  {
    if from < n {
      NameEndIs(line, from + 1, n);
    }
  }

  /** White space followed by a text that does not start with white space: the longest white-space prefix is the gap. */
  lemma {:induction false} GapThenText(gap: string, text: string)
    requires IsBlank(gap) && (text != [] ==> !IsWhiteSpace(text[0]))
    ensures LeadingSpace(gap + text) == |gap|
    decreases |gap|
  {
    if gap != [] {
      assert (gap + text)[1..] == gap[1..] + text;
      GapThenText(gap[1..], text);
    } else {
      assert gap + text == text;
    }
  }

  /**
   * The state of the `forEach` over a section's lines: `currentComponent` (null and
   * the empty name behave alike, as only their truthiness is used),
   * `currentDescriptions`, and the section's output so far.
   */
  datatype Machine = Machine(component: string, descriptions: seq<string>, text: string)

  /** One `\t<desc>\n` line per description. */
  function DescriptionLines(descs: seq<string>): string
    decreases |descs|
  {
    if descs == [] then ""
    else DescriptionLines(descs[..|descs| - 1]) + ("\t" + descs[|descs| - 1] + "\n")
  }

  /** What a finished component writes: its name with the first letter upper-cased, its descriptions, a blank line. */
  function ComponentBlock(component: string, descs: seq<string>): string {
    "- **" + UpperFirst(component) + ":**\n" + DescriptionLines(descs) + "\n"
  }

  /** The text with the current component written out; a component without descriptions writes nothing. */
  function Flushed(m: Machine): (r: string)
    ensures m.component == "" || m.descriptions == [] ==> r == m.text
  {
    if m.component != "" && |m.descriptions| > 0 then m.text + ComponentBlock(m.component, m.descriptions)
    else m.text
  }

  /**
   * The description a component line's inline text gives: none for an empty one; in
   * a breaking section one leading `- ` is dropped first; either way `- ` is put in front.
   */
  function Inline(desc: string, breaking: bool): (r: seq<string>)
    ensures desc == "" ==> r == []
    ensures desc != "" && breaking && StartsWith(desc, "- ") ==> r == ["- " + desc[2..]]
    ensures desc != "" && !(breaking && StartsWith(desc, "- ")) ==> r == ["- " + desc]
  {
    if desc == "" then []
    else if breaking then ["- " + (if StartsWith(desc, "- ") then desc[2..] else desc)]
    else ["- " + desc]
  }

  /** One line of a section, handled as the `forEach` callback does. */
  function StepLine(m: Machine, breaking: bool, raw: string): Machine {
    var line := Trim(raw);
    if line == "" then m
    else
      match ComponentLine(line)
      case Some((name, desc)) => Machine(name, Inline(desc, breaking), Flushed(m))
      case None =>
        if StartsWith(line, "- ") && m.component != "" then m.(descriptions := m.descriptions + [line])
        else if StartsWith(line, "  ") && m.component != "" then
          var body := Trim(line);
          if body != "" then m.(descriptions := m.descriptions + ["- " + body]) else m
        else m
  }

  /** The `forEach` over a section's lines. */
  function RunLines(m: Machine, breaking: bool, lines: seq<string>): Machine
    decreases |lines|
  {
    if lines == [] then m else StepLine(RunLines(m, breaking, lines[..|lines| - 1]), breaking, lines[|lines| - 1])
  }

  /** The heading a section title gets, upper-cased. */
  function TitleLine(title: string): string {
    "\n### " + ToUpper(title) + "\n\n"
  }

  /** What one section adds to `output`. */
  function SectionOutput(section: string): string {
    var lines := NonBlank(Split(section, "\n"));
    if lines == [] then ""
    else
      var title := Trim(lines[0]);
      var head := if title != "" then TitleLine(title) else "";
      Flushed(RunLines(Machine("", [], head), Contains(ToUpper(title), "BREAKING"), lines[1..]))
  }

  /** What the sections add to `output`, in order. */
  function NotesOutput(sections: seq<string>): string
    decreases |sections|
  {
    if sections == [] then "" else NotesOutput(sections[..|sections| - 1]) + SectionOutput(sections[|sections| - 1])
  }

  /** The sections of the scrubbed notes: the non-blank pieces between `### ` headings. */
  function Sections(notes: string): seq<string> {
    var text := Trim(notes);
    NonBlank(SplitHeadings(text, 0, 0))
  }

  /** The entry used when nothing is left of the notes. */
  const Fallback := "- Various improvements and bug fixes"

  /** The final `formattedNotes`: the trimmed output, or the generic entry when that is empty. */
  function FormattedNotes(notes: string): (r: string)
    ensures r != ""
    ensures r == Fallback || r == Trim(NotesOutput(Sections(notes)))
    ensures Trim(NotesOutput(Sections(notes))) == "" ==> r == Fallback
  {
    var out := Trim(NotesOutput(Sections(notes)));
    if out == "" then Fallback else out
  }

  /** Lines 39-127: the notes rebuilt section by section. */
  method FormatNotes(notes: string) returns (formatted: string)
    ensures formatted == FormattedNotes(notes)
  {
    var sections := Sections(notes);
    var output := "";
    var k := 0;
    while k < |sections|
      invariant 0 <= k <= |sections|
      invariant output == NotesOutput(sections[..k])
    {
      var part := FormatSection(sections[k]);
      NotesStep(sections, k);
      output := output + part;
      k := k + 1;
    }
    assert sections[..k] == sections;
    formatted := Trim(output);
    if formatted == "" {
      formatted := Fallback;
    }
  }

  /** One more section appends its output. */
  lemma NotesStep(sections: seq<string>, k: nat)
    requires k < |sections|
    ensures NotesOutput(sections[..k + 1]) == NotesOutput(sections[..k]) + SectionOutput(sections[k])
  {
    assert sections[..k + 1][..k] == sections[..k];
  }

  /** The `forEach` callback for one section. */
  method FormatSection(section: string) returns (part: string)
    ensures part == SectionOutput(section)
  {
    var lines := NonBlank(Split(section, "\n"));
    if |lines| == 0 {
      return "";
    }
    var sectionTitle := Trim(lines[0]);
    var head := "";
    if sectionTitle != "" {
      head := TitleLine(sectionTitle);
    }
    var breaking := Contains(ToUpper(sectionTitle), "BREAKING");
    var component, descriptions;
    component, descriptions, part := RunSection(head, breaking, lines[1..]);
    if component != "" && |descriptions| > 0 {
      part := WriteComponent(part, component, descriptions);
    }
  }

  /** The `forEach` over the lines after a section's title, from no component and the section's heading. */
  method RunSection(head: string, breaking: bool, content: seq<string>)
    returns (component: string, descriptions: seq<string>, text: string)
    ensures Machine(component, descriptions, text) == RunLines(Machine("", [], head), breaking, content)
  {
    component, descriptions, text := "", [], head;
    var i := 0;
    while i < |content|
      invariant 0 <= i <= |content|
      invariant Machine(component, descriptions, text) == RunLines(Machine("", [], head), breaking, content[..i])
    {
      assert content[..i + 1][..i] == content[..i];
      component, descriptions, text := ProcessLine(component, descriptions, text, breaking, content[i]);
      i := i + 1;
    }
    assert content[..i] == content;
  }

  /** The body of the line callback. */
  method ProcessLine(component: string, descriptions: seq<string>, text: string, breaking: bool, raw: string)
    returns (component': string, descriptions': seq<string>, text': string)
    ensures Machine(component', descriptions', text') == StepLine(Machine(component, descriptions, text), breaking, raw)
  {
    component', descriptions', text' := component, descriptions, text;
    var line := Trim(raw);
    if line == "" {
      return;
    }
    var componentMatch := ComponentLine(line);
    if componentMatch.Some? {
      if component != "" && |descriptions| > 0 {
        text' := WriteComponent(text, component, descriptions);
      }
      component' := componentMatch.value.0;
      descriptions' := Inline(componentMatch.value.1, breaking);
    } else if StartsWith(line, "- ") && component != "" {
      descriptions' := descriptions + [line];
    } else if StartsWith(line, "  ") && component != "" {
      var bodyText := Trim(line);
      if bodyText != "" {
        descriptions' := descriptions + ["- " + bodyText];
      }
    }
  }

  /** Writing out a finished component: its heading, one tabbed line per description, a blank line. */
  method WriteComponent(text: string, component: string, descriptions: seq<string>) returns (r: string)
    ensures r == text + ComponentBlock(component, descriptions)
  {
    var capitalizedName := UpperFirst(component);
    var head := "- **" + capitalizedName + ":**\n";
    r := text + head;
    var j := 0;
    while j < |descriptions|
      invariant 0 <= j <= |descriptions|
      invariant r == text + head + DescriptionLines(descriptions[..j])
    {
      assert descriptions[..j + 1][..j] == descriptions[..j];
      r := r + ("\t" + descriptions[j] + "\n");
      Assoc(text + head, DescriptionLines(descriptions[..j]), "\t" + descriptions[j] + "\n");
      j := j + 1;
    }
    assert descriptions[..j] == descriptions;
    r := r + "\n";
    assert text + head + DescriptionLines(descriptions) + "\n" == text + (head + DescriptionLines(descriptions) + "\n");
  }

  /**
   * A non-blank line that is neither a component line nor a `- ` line is dropped, and
   * so is every indented line: lines are trimmed first, so the indented-body branch
   * never runs.
   */
  lemma OtherLinesDropped(m: Machine, breaking: bool, raw: string)
    requires ComponentLine(Trim(raw)).None? && !StartsWith(Trim(raw), "- ")
    ensures StepLine(m, breaking, raw) == m
  {
    TrimmedNotIndented(raw);
  }

  /** A `- ` line before the section's first component line is dropped, as is anything else there. */
  lemma {:induction false} PreambleDropped(text: string, breaking: bool, lines: seq<string>)
    requires forall i :: 0 <= i < |lines| ==> ComponentLine(Trim(lines[i])).None?
    ensures RunLines(Machine("", [], text), breaking, lines) == Machine("", [], text)
    decreases |lines|
  {
    if lines != [] {
      PreambleDropped(text, breaking, lines[..|lines| - 1]);
      TrimmedNotIndented(lines[|lines| - 1]);
    }
  }

  /**
   * A component line writes out the previous component (when it has a name and
   * descriptions), then starts the new one with at most its inline description.
   */
  lemma ComponentLineStarts(m: Machine, breaking: bool, raw: string, name: string, desc: string)
    requires ComponentLine(Trim(raw)) == Some((name, desc))
    ensures StepLine(m, breaking, raw) == Machine(name, Inline(desc, breaking), Flushed(m))
    ensures |StepLine(m, breaking, raw).descriptions| <= 1
  {
  }

  /** A `- ` line under a named component is kept whole, dash included. */
  lemma DashLineKept(m: Machine, breaking: bool, raw: string)
    requires ComponentLine(Trim(raw)).None? && StartsWith(Trim(raw), "- ") && m.component != ""
    ensures StepLine(m, breaking, raw) == m.(descriptions := m.descriptions + [Trim(raw)])
  {
  }

  /** A section whose first non-blank line has a title starts with that title, upper-cased, as a heading. */
  lemma SectionStartsWithTitle(section: string)
    requires NonBlank(Split(section, "\n")) != []
    ensures var title := Trim(NonBlank(Split(section, "\n"))[0]);
      StartsWith(SectionOutput(section), TitleLine(title))
  {
    var lines := NonBlank(Split(section, "\n"));
    var title := Trim(lines[0]);
    assert title != "";
    var m := RunLines(Machine("", [], TitleLine(title)), Contains(ToUpper(title), "BREAKING"), lines[1..]);
    RunLinesExtends(Machine("", [], TitleLine(title)), Contains(ToUpper(title), "BREAKING"), lines[1..]);
    StepExtends(m, false, "");
    PrefixTrans(TitleLine(title), m.text, SectionOutput(section));
  }

  /** The lines only ever append to the text. */
  lemma {:induction false} RunLinesExtends(m: Machine, breaking: bool, lines: seq<string>)
    ensures StartsWith(RunLines(m, breaking, lines).text, m.text)
    decreases |lines|
  {
    if lines != [] {
      var before := RunLines(m, breaking, lines[..|lines| - 1]);
      RunLinesExtends(m, breaking, lines[..|lines| - 1]);
      StepExtends(before, breaking, lines[|lines| - 1]);
      PrefixTrans(m.text, before.text, RunLines(m, breaking, lines).text);
    }
  }

  /** One line only ever appends to the text. */
  lemma StepExtends(m: Machine, breaking: bool, raw: string)
    ensures StartsWith(StepLine(m, breaking, raw).text, m.text)
    ensures StartsWith(Flushed(m), m.text)
  {
    if m.component != "" && |m.descriptions| > 0 {
      assert Flushed(m)[..|m.text|] == m.text;
    }
  }

  /** A prefix of a prefix is a prefix. */
  lemma PrefixTrans(a: string, b: string, c: string)
    requires StartsWith(b, a) && StartsWith(c, b)
    ensures StartsWith(c, a)
  {
    assert c[..|a|] == c[..|b|][..|a|];
  }

  /** Blank notes leave no section, so the generic entry is used. */
  lemma BlankNotesFallback(notes: string)
    requires IsBlank(notes)
    ensures FormattedNotes(notes) == Fallback
  {
    assert SplitHeadings("", 0, 0) == [""];
  }

  /** `nextVersion.includes("-beta")`. */
  predicate IsBeta(version: string) {
    Contains(version, "-beta")
  }

  /** The version shown in the heading. */
  function VersionLabel(version: string): (r: string)
    ensures IsBeta(version) ==> r == version + " (Beta - Testing)"
    ensures !IsBeta(version) ==> r == version
  {
    if IsBeta(version) then version + " (Beta - Testing)" else version
  }

  /** The date shown under the heading. */
  function ReleaseLabel(version: string, date: string): (r: string)
    ensures IsBeta(version) ==> r == date + " (Beta Testing Release)"
    ensures !IsBeta(version) ==> r == date
  {
    if IsBeta(version) then date + " (Beta Testing Release)" else date
  }

  /** `newEntry`. */
  function NewEntry(version: string, date: string, notes: string): string {
    BlockHeader(VersionLabel(version), ReleaseLabel(version, date)) + FormattedNotes(notes) + "\n"
  }

  /**
   * The script, given `NEXT_VERSION` (empty when unset), the date, the release notes
   * after the scrubbing replacements of lines 30-35 (None when `RELEASE_NOTES` is unset
   * or empty) and the current `Version.mdx` (empty when it does not exist): the text
   * written, or None when the script exits early.
   */
  function UpdateVersionMdx(version: string, date: string, notes: Option<string>, content: string): (r: Option<string>)
    ensures r.None? <==> version == "" || notes.None?
    ensures r.Some? && !Contains(content, Marker) ==> r.value == content
  {
    if version == "" || notes.None? then None
    else Some(InsertAfterMarker(content, NewEntry(version, date, notes.value)))
  }

  /**
   * With the marker present, the entry goes right after its first occurrence behind a
   * blank line; a missing file (empty content) is written back empty.
   */
  lemma UpdateSplice(version: string, date: string, notes: string, content: string)
    requires version != "" && '$' !in NewEntry(version, date, notes)
    ensures Contains(content, Marker) ==>
      var i := IndexOf(content, Marker);
      UpdateVersionMdx(version, date, Some(notes), content)
        == Some(content[..i] + Marker + "\n\n" + NewEntry(version, date, notes) + content[i + |Marker|..])
    ensures UpdateVersionMdx(version, date, Some(notes), "") == Some("")
  {
    var e := NewEntry(version, date, notes);
    assert UpdateVersionMdx(version, date, Some(notes), content) == Some(InsertAfterMarker(content, e));
    assert UpdateVersionMdx(version, date, Some(notes), "") == Some(InsertAfterMarker("", e));
    assert !Contains("", Marker);
  }
}
