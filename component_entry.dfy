/**
 * `generateComponentEntry` of `plugins/semantic-release-fragments.js`: the Markdown
 * bullet list written for one component of one category.
 */
module ComponentEntry {
  import opened Wrappers
  import opened JsString

  /**
   * One item pushed under a component: the commit subject, and the fragment's
   * content, summary and details (`content: null` and no summary or details for a
   * commit without fragments).
   */
  datatype Entry = Entry(subject: string, content: Option<string>, summary: Option<string>, details: Option<string>)

  /** `item?.content?.trim()` is truthy. */
  predicate HasContent(e: Entry) {
    e.content.Some? && !IsBlank(e.content.value)
  }

  /** One nested bullet, `\t- text\n`. */
  function Bullet(text: string): string {
    "\t- " + text + "\n"
  }

  /** The non-blank lines of a fragment's content. */
  function ContentLines(content: string): seq<string> {
    NonBlank(Split(content, "\n"))
  }

  /** One bullet per line, each line trimmed. */
  function Bullets(lines: seq<string>): string
    decreases |lines|
  {
    if lines == [] then ""
    else Bullets(lines[..|lines| - 1]) + Bullet(Trim(lines[|lines| - 1]))
  }

  /** What one item contributes: its content lines as bullets, or else its subject. */
  function ItemText(e: Entry): string {
    if HasContent(e) then Bullets(ContentLines(e.content.value)) else Bullet(e.subject)
  }

  /** What a list of items contributes, in order. */
  function ItemsText(items: seq<Entry>): string
    decreases |items|
  {
    if items == [] then ""
    else ItemsText(items[..|items| - 1]) + ItemText(items[|items| - 1])
  }

  /** The heading line of a component, `- **component:**\n`. */
  function Heading(component: string): string {
    "- **" + component + ":**\n"
  }

  /** What `generateComponentEntry(component, items)` returns. */
  function EntryText(component: string, items: seq<Entry>): string {
    if items == [] then "" else Heading(component) + ItemsText(items)
  }

  /** `generateComponentEntry(component, items)`, appending to `entry` item by item. */
  method GenerateComponentEntry(component: string, items: seq<Entry>) returns (entry: string)
    ensures entry == EntryText(component, items)
  {
    if |items| == 0 {
      return "";
    }
    entry := Heading(component);
    var k := 0;
    while k < |items|
      invariant 0 <= k <= |items|
      invariant entry == Heading(component) + ItemsText(items[..k])
    {
      entry := AppendItem(entry, items[k]);
      assert items[..k + 1][..k] == items[..k];
      Assoc(Heading(component), ItemsText(items[..k]), ItemText(items[k]));
      k := k + 1;
    }
    assert items[..k] == items;
  }

  /** The body of the loop over items: the content's lines as bullets, or else the subject. */
  method AppendItem(entry: string, item: Entry) returns (r: string)
    ensures r == entry + ItemText(item)
  {
    if item.content.Some? && !IsBlank(item.content.value) {
      var lines := NonBlank(Split(item.content.value, "\n"));
      r := AppendBullets(entry, lines);
    } else {
      r := entry + Bullet(item.subject);
    }
  }

  /** The loop over a content's lines: one trimmed bullet per line. */
  method AppendBullets(entry: string, lines: seq<string>) returns (r: string)
    ensures r == entry + Bullets(lines)
  {
    r := entry;
    var n := 0;
    while n < |lines|
      invariant 0 <= n <= |lines|
      invariant r == entry + Bullets(lines[..n])
    {
      r := r + Bullet(Trim(lines[n]));
      BulletsStep(lines, n);
      Assoc(entry, Bullets(lines[..n]), Bullet(Trim(lines[n])));
      n := n + 1;
    }
    assert lines[..n] == lines;
  }

  /** One more line gives one more bullet at the end. */
  lemma BulletsStep(lines: seq<string>, n: nat)
    requires n < |lines|
    ensures Bullets(lines[..n + 1]) == Bullets(lines[..n]) + Bullet(Trim(lines[n]))
  {
    assert lines[..n + 1][..n] == lines[..n];
  }

  /** The entry is empty exactly when there are no items; otherwise it starts with the heading. */
  lemma EntryEmptyIff(component: string, items: seq<Entry>)
    ensures EntryText(component, items) == "" <==> items == []
    ensures items != [] ==> StartsWith(EntryText(component, items), Heading(component))
  {
    var t := EntryText(component, items);
    if items != [] {
      assert t[0] == '-';
      assert t[..|Heading(component)|] == Heading(component);
    }
  }

  /** The items' text is the concatenation of each item's text, in order. */
  lemma {:induction false} ItemsAppend(a: seq<Entry>, b: seq<Entry>)
    ensures ItemsText(a + b) == ItemsText(a) + ItemsText(b)
    decreases |b|
  {
    if b == [] {
      assert a + b == a;
    } else {
      var init := b[..|b| - 1];
      assert (a + b)[..|a + b| - 1] == a + init;
      assert (a + b)[|a + b| - 1] == b[|b| - 1];
      ItemsAppend(a, init);
      Assoc(ItemsText(a), ItemsText(init), ItemText(b[|b| - 1]));
    }
  }

  /** An item whose content is null or blank contributes exactly one bullet with its subject. */
  lemma SubjectFallback(e: Entry)
    requires !HasContent(e)
    ensures ItemsText([e]) == "\t- " + e.subject + "\n"
  {
    assert [e][..0] == [];
  }

  /** A line count: the number of newline characters. */
  function NewlineCount(s: string): nat {
    multiset(s)['\n']
  }

  /** Lines without newlines give exactly one bullet line each. */
  lemma {:induction false} BulletsLineCount(lines: seq<string>)
    requires forall i :: 0 <= i < |lines| ==> '\n' !in lines[i]
    ensures NewlineCount(Bullets(lines)) == |lines|
    decreases |lines|
  {
    if lines != [] {
      var init, last := lines[..|lines| - 1], lines[|lines| - 1];
      BulletsLineCount(init);
      BulletOneLine(last);
      NewlineCountAppend(Bullets(init), Bullet(Trim(last)));
    }
  }

  /** The newlines of a concatenation are those of its parts. */
  lemma NewlineCountAppend(a: string, b: string)
    ensures NewlineCount(a + b) == NewlineCount(a) + NewlineCount(b)
  {
    assert multiset(a + b) == multiset(a) + multiset(b);
  }

  /** The bullet of a line without newline is one line. */
  lemma BulletOneLine(line: string)
    requires '\n' !in line
    ensures NewlineCount(Bullet(Trim(line))) == 1
  {
    TrimKeepsOut(line, '\n');
    var t := Trim(line);
    assert Bullet(t) == "\t- " + t + "\n";
    assert multiset("\t- ")['\n'] == 0;
    assert multiset(t)['\n'] == 0;
    assert multiset(Bullet(t)) == multiset("\t- ") + multiset(t) + multiset("\n");
  }

  /** An item with content contributes one bullet line per non-blank line of that content. */
  lemma ContentBulletCount(e: Entry)
    requires HasContent(e)
    ensures NewlineCount(ItemText(e)) == |ContentLines(e.content.value)|
  {
    var parts := Split(e.content.value, "\n");
    var lines := ContentLines(e.content.value);
    forall i | 0 <= i < |lines| ensures '\n' !in lines[i] {
      assert lines[i] in parts;
      var k :| 0 <= k < |parts| && parts[k] == lines[i];
      ContainsChar(parts[k], '\n');
    }
    BulletsLineCount(lines);
  }

  /** A one-line content is written as one bullet holding it trimmed. */
  lemma OneLineContent(e: Entry)
    requires HasContent(e) && '\n' !in e.content.value
    ensures ItemText(e) == "\t- " + Trim(e.content.value) + "\n"
  {
    var c := e.content.value;
    ContainsChar(c, '\n');
    SplitNone(c, "\n");
    assert NonBlank([c]) == [c] by { assert [c][..0] == []; }
    assert ContentLines(c) == [c];
    assert [c][..0] == [];
    assert Bullets([c]) == Bullet(Trim(c));
  }
}
