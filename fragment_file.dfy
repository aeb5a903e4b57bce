/**
 * `parseFragment` of `plugins/semantic-release-fragments.js`: a fragment file is an
 * optional `---`-delimited block of `key: value` lines followed by Markdown content.
 */
module FragmentFile {
  import opened Wrappers
  import opened JsString

  /** What `parseFragment` returns; an absent metadata key is `undefined`. */
  datatype Fragment = Fragment(component: Option<string>, summary: Option<string>, details: Option<string>, content: string)

  /** `metadata[key]`, or nothing when the key was never set. */
  function Lookup(metadata: map<string, string>, key: string): (r: Option<string>)
    ensures r.Some? <==> key in metadata
    ensures r.Some? ==> r.value == metadata[key]
  {
    if key in metadata then Some(metadata[key]) else None
  }

  /**
   * One frontmatter line: trimmed, split at every colon; the first piece is the key
   * and the others, joined back with colons, the value. A blank line, a line without
   * a colon and a line starting with a colon set nothing.
   */
  function MetaEntry(raw: string): (r: Option<(string, string)>)
    ensures r.Some? ==> r.value.0 != []
    ensures r.Some? <==> var line := Trim(raw); Contains(line, ":") && IndexOf(line, ":") > 0
  {
    var line := Trim(raw);
    if line == [] then None
    else
      SplitHead(line, ":");
      var parts := Split(line, ":");
      var key := parts[0];
      if key != [] && |parts| > 1 then
        assert !IsWhiteSpace(key[0]) by { assert line == Split(line, ":")[0] + line[|key|..] by { SplitHeadPrefix(line, ":"); } }
        Some((Trim(key), Trim(Join(parts[1..], ":"))))
      else None
  }

  /** The first piece of a split is a prefix of the string. */
  lemma SplitHeadPrefix(s: string, sep: string)
    requires sep != []
    ensures |Split(s, sep)[0]| <= |s| && s == Split(s, sep)[0] + s[|Split(s, sep)[0]|..]
  {
    SplitHead(s, sep);
  }

  /** What each line would set if it were a frontmatter line. */
  function Entries(lines: seq<string>): (e: seq<Option<(string, string)>>)
    ensures |e| == |lines| && forall i :: 0 <= i < |lines| ==> e[i] == MetaEntry(lines[i])
  {
    seq(|lines|, i requires 0 <= i < |lines| => MetaEntry(lines[i]))
  }

  /**
   * The metadata after reading the entries of frontmatter lines 1 up to `end`:
   * later keys overwrite earlier ones.
   */
  function Metadata(entries: seq<Option<(string, string)>>, end: nat): map<string, string>
    requires end <= |entries|
  {
    if end <= 1 then map[]
    else
      var m := Metadata(entries, end - 1);
      match entries[end - 1]
      case None => m
      case Some((k, v)) => m[k := v]
  }

  /** The index of the closing `---` at or after `i`, or the number of lines when there is none. */
  function Closing(lines: seq<string>, i: nat): (c: nat)
    requires i <= |lines|
    ensures i <= c <= |lines| && (c < |lines| ==> lines[c] == "---")
    decreases |lines| - i
  {
    if i == |lines| || lines[i] == "---" then i else Closing(lines, i + 1)
  }

  /** `lines.slice(start)`, which is empty when `start` is past the end. */
  function SliceFrom(lines: seq<string>, start: nat): seq<string> {
    if start <= |lines| then lines[start..] else []
  }

  /** What `parseFragment(text)` returns. */
  function FragmentOf(text: string): Fragment {
    var lines := Split(text, "\n");
    var (metadata, start) :=
      if lines[0] == "---" then
        var close := Closing(lines, 1);
        (Metadata(Entries(lines), close), close + 1)
      else (map[], 0);
    Fragment(Lookup(metadata, "component"), Lookup(metadata, "summary"), Lookup(metadata, "details"),
             Trim(Join(SliceFrom(lines, start), "\n")))
  }

  /** One pass of the loop body: the line, trimmed and split at its colons, may set a key. */
  method ReadLine(metadata: map<string, string>, raw: string) returns (updated: map<string, string>)
    ensures MetaEntry(raw).None? ==> updated == metadata
    ensures MetaEntry(raw).Some? ==> updated == metadata[MetaEntry(raw).value.0 := MetaEntry(raw).value.1]
  {
    updated := metadata;
    var line := Trim(raw);
    if line != [] {
      var parts := Split(line, ":");
      var key := parts[0];
      if key != [] && |parts| > 1 {
        updated := metadata[Trim(key) := Trim(Join(parts[1..], ":"))];
      }
    }
  }

  /**
   * The `while` loop of `parseFragment`: from line 1 up to the closing `---` (or the
   * end), each trimmed non-blank line with a key before a colon sets that key.
   */
  method ReadFrontmatter(lines: seq<string>) returns (metadata: map<string, string>, i: nat)
    requires |lines| >= 1
    ensures i == Closing(lines, 1) && metadata == Metadata(Entries(lines), i)
  {
    metadata := map[];
    i := 1;
    ghost var entries := Entries(lines);
    while i < |lines| && lines[i] != "---"
      invariant 1 <= i <= |lines|
      invariant metadata == Metadata(entries, i)
      invariant Closing(lines, i) == Closing(lines, 1)
    {
      metadata := ReadLine(metadata, lines[i]);
      i := i + 1;
    }
  }

  /** The closing line is the first `---` at or after `i`. */
  lemma {:induction false} ClosingIsFirst(lines: seq<string>, i: nat, c: nat)
    requires i <= c <= |lines| && (c < |lines| ==> lines[c] == "---")
    requires forall j :: i <= j < c ==> lines[j] != "---"
    ensures Closing(lines, i) == c
    decreases c - i
  {
    if i < c {
      ClosingIsFirst(lines, i + 1, c);
    }
  }

  /** `parseFragment(content)`. */
  method ParseFragment(text: string) returns (f: Fragment)
    ensures f == FragmentOf(text)
  {
    var lines := Split(text, "\n");
    var metadata: map<string, string> := map[];
    var contentStart := 0;
    if lines[0] == "---" {
      var i;
      metadata, i := ReadFrontmatter(lines);
      contentStart := i + 1;
    }
    var contentLines := if contentStart <= |lines| then lines[contentStart..] else [];
    f := Fragment(Lookup(metadata, "component"), Lookup(metadata, "summary"), Lookup(metadata, "details"),
                  Trim(Join(contentLines, "\n")));
  }

  /** Without a `---` first line there is no metadata and the content is the whole text, trimmed. */
  lemma NoFrontmatter(text: string)
    requires Split(text, "\n")[0] != "---"
    ensures FragmentOf(text) == Fragment(None, None, None, Trim(text))
  {
    JoinSplit(text, "\n");
  }

  /**
   * A key is split off at the first colon only: the value is everything after that
   * colon, later colons included, and both are trimmed.
   */
  lemma KeySplitsAtFirstColon(raw: string)
    requires var line := Trim(raw); Contains(line, ":") && IndexOf(line, ":") > 0
    ensures var line := Trim(raw); var i := IndexOf(line, ":");
      MetaEntry(raw) == Some((Trim(line[..i]), Trim(line[i + 1..])))
  {
    var line := Trim(raw);
    SplitHead(line, ":");
    SplitTail(line, ":");
    var i := IndexOf(line, ":");
    assert Split(line, ":") == [line[..i]] + Split(line[i + 1..], ":");
  }

  /** A line without a colon sets nothing. */
  lemma NoColonIgnored(raw: string)
    requires ':' !in raw
    ensures MetaEntry(raw).None?
  {
    var line := Trim(raw);
    TrimKeepsOut(raw, ':');
    ContainsChar(line, ':');
    SplitNone(line, ":");
  }

  /**
   * The last frontmatter line that sets a key decides its value: an earlier line with
   * the same key is overwritten.
   */
  lemma {:induction false} LastDuplicateWins(entries: seq<Option<(string, string)>>, end: nat, j: nat, key: string, value: string)
    requires 1 <= j < end <= |entries|
    requires entries[j] == Some((key, value))
    requires forall l :: j < l < end ==> entries[l].None? || entries[l].value.0 != key
    ensures key in Metadata(entries, end) && Metadata(entries, end)[key] == value
    decreases end
  {
    if end - 1 > j {
      LastDuplicateWins(entries, end - 1, j, key, value);
    }
  }

  /** Every key in the metadata was set by some frontmatter line, with the value that line gave. */
  lemma {:induction false} MetadataFromLines(entries: seq<Option<(string, string)>>, end: nat, key: string)
    requires end <= |entries| && key in Metadata(entries, end)
    ensures exists j :: 1 <= j < end && entries[j] == Some((key, Metadata(entries, end)[key]))
    decreases end
  {
    var e := entries[end - 1];
    var m := Metadata(entries, end - 1);
    if !(e.Some? && e.value.0 == key) {
      MetadataFromLines(entries, end - 1, key);
      var j :| 1 <= j < end - 1 && entries[j] == Some((key, m[key]));
    }
  }

  /** A `---` block that is never closed swallows the whole text: the content is empty. */
  lemma UnclosedIsEmpty(text: string)
    requires var lines := Split(text, "\n");
      lines[0] == "---" && forall i :: 1 <= i < |lines| ==> lines[i] != "---"
    ensures FragmentOf(text).content == ""
  {
  }

  /** With a closing `---`, the content is the text after it, trimmed. */
  lemma ClosedBlockContent(text: string, close: nat)
    requires var lines := Split(text, "\n");
      lines[0] == "---" && 1 <= close < |lines| && lines[close] == "---"
      && forall i :: 1 <= i < close ==> lines[i] != "---"
    ensures var lines := Split(text, "\n");
      FragmentOf(text).content == Trim(Join(lines[close + 1..], "\n"))
  {
    var lines := Split(text, "\n");
    ClosingIsFirst(lines, 1, close);
    assert SliceFrom(lines, close + 1) == lines[close + 1..];
  }
}
