/**
 * The rest of `main` in `plugins/semantic-release-fragments.js`: the collected
 * `changelogData` is rendered as a Markdown release block, which is inserted into
 * `Version.mdx` after the marker, and the fragment files used are deleted.
 */
module FragmentRelease {
  import opened Wrappers
  import opened JsString
  import opened VersionMdx
  import opened ConventionalCommit
  import opened CommitLog
  import opened ComponentEntry
  import opened ChangelogData
  import opened FragmentCollect

  /** What one component adds to its category: its entry and a blank line, when the entry is not empty. */
  function ComponentText(component: string, items: seq<Entry>): string {
    var entry := EntryText(component, items);
    if entry != "" then entry + "\n" else ""
  }

  /** What the components of a category add, in key order. */
  function ComponentsText(cs: Components): string
    decreases |cs|
  {
    if cs == [] then ""
    else ComponentsText(cs[..|cs| - 1]) + ComponentText(cs[|cs| - 1].0, cs[|cs| - 1].1)
  }

  /** The bold title of a category, `**Title**`, and a blank line. */
  function SectionTitle(c: Category): string {
    "**" + Title(c) + "**\n\n"
  }

  /** A category's section; a category without keys is skipped. */
  function SectionText(c: Category, cs: Components): string {
    if cs == [] then "" else SectionTitle(c) + ComponentsText(cs)
  }

  /** The sections of the given categories, in that order. */
  function SectionsText(log: Changelog, order: seq<Category>): string
    decreases |order|
  {
    if order == [] then ""
    else SectionsText(log, order[..|order| - 1]) + SectionText(order[|order| - 1], log.Get(order[|order| - 1]))
  }

  /** `mdxContent`: the header, then the categories in the key order of `changelogData`. */
  function ReleaseBlock(version: string, date: string, log: Changelog): string {
    BlockHeader(version, date) + SectionsText(log, RenderOrder)
  }

  /** The rendering loop of `main`, which builds `mdxContent` with `+=`. */
  method RenderRelease(version: string, date: string, log: Changelog) returns (mdx: string)
    ensures mdx == ReleaseBlock(version, date, log)
  {
    mdx := BlockHeader(version, date);
    var n := 0;
    while n < |RenderOrder|
      invariant 0 <= n <= |RenderOrder|
      invariant mdx == BlockHeader(version, date) + SectionsText(log, RenderOrder[..n])
    {
      SectionsStep(log, RenderOrder, n);
      var category := RenderOrder[n];
      var components := log.Get(category);
      if |components| != 0 {
        mdx := AppendSection(mdx, category, components);
      }
      Assoc(BlockHeader(version, date), SectionsText(log, RenderOrder[..n]), SectionText(category, components));
      n := n + 1;
    }
    assert RenderOrder[..n] == RenderOrder;
  }

  /** One pass of the rendering loop for a category with keys: its title, then each component's entry. */
  method AppendSection(mdx: string, category: Category, components: Components) returns (r: string)
    requires components != []
    ensures r == mdx + SectionText(category, components)
  {
    r := mdx + SectionTitle(category);
    var j := 0;
    while j < |components|
      invariant 0 <= j <= |components|
      invariant r == mdx + SectionTitle(category) + ComponentsText(components[..j])
    {
      assert components[..j + 1][..j] == components[..j];
      var entry := GenerateComponentEntry(components[j].0, components[j].1);
      if entry != "" {
        r := r + (entry + "\n");
      }
      Assoc(mdx + SectionTitle(category), ComponentsText(components[..j]), ComponentText(components[j].0, components[j].1));
      j := j + 1;
    }
    assert components[..j] == components;
    Assoc(mdx, SectionTitle(category), ComponentsText(components));
  }

  /**
   * A category is skipped exactly when it has no component; otherwise its section
   * starts with its title, and a component contributes nothing exactly when it has no
   * items.
   */
  lemma SectionSkippedIffEmpty(c: Category, cs: Components, component: string, items: seq<Entry>)
    ensures SectionText(c, cs) == "" <==> cs == []
    ensures cs != [] ==> StartsWith(SectionText(c, cs), SectionTitle(c))
    ensures ComponentText(component, items) == "" <==> items == []
  {
    EntryEmptyIff(component, items);
    if cs != [] {
      var t := SectionText(c, cs);
      assert t[0] == '*';
      assert t[..|SectionTitle(c)|] == SectionTitle(c);
    }
  }

  /**
   * After its header (`ReleaseBlock`), the block holds the sections of Breaking Changes,
   * Features, Bugfixes, Improvements and Other, in this order.
   */
  lemma SectionsInOrder(log: Changelog)
    ensures SectionsText(log, RenderOrder)
         == SectionText(BreakingChanges, log.breaking) + SectionText(Features, log.features)
            + SectionText(Bugfixes, log.bugfixes) + SectionText(Improvements, log.improvements)
            + SectionText(Other, log.other)
  {
    var o := RenderOrder;
    SectionsOfFive(log, o);
    assert log.Get(o[0]) == log.breaking && log.Get(o[1]) == log.features;
    assert log.Get(o[2]) == log.bugfixes && log.Get(o[3]) == log.improvements;
    assert log.Get(o[4]) == log.other;
  }

  /** The sections of five categories, one after the other. */
  lemma SectionsOfFive(log: Changelog, o: seq<Category>)
    requires |o| == 5
    ensures SectionsText(log, o)
         == SectionText(o[0], log.Get(o[0])) + SectionText(o[1], log.Get(o[1]))
            + SectionText(o[2], log.Get(o[2])) + SectionText(o[3], log.Get(o[3]))
            + SectionText(o[4], log.Get(o[4]))
  {
    assert o[..0] == [];
    SectionsStep(log, o, 0);
    assert SectionsText(log, o[..1]) == SectionText(o[0], log.Get(o[0]));
    SectionsStep(log, o, 1);
    SectionsStep(log, o, 2);
    SectionsStep(log, o, 3);
    SectionsStep(log, o, 4);
    assert o[..5] == o;
  }

  /** One more category of the order adds its section at the end. */
  lemma SectionsStep(log: Changelog, order: seq<Category>, k: nat)
    requires k < |order|
    ensures SectionsText(log, order[..k + 1]) == SectionsText(log, order[..k]) + SectionText(order[k], log.Get(order[k]))
  {
    assert order[..k + 1][..k] == order[..k];
  }

  /** The components' text is each component's text in key order. */
  lemma {:induction false} ComponentsAppend(a: Components, b: Components)
    ensures ComponentsText(a + b) == ComponentsText(a) + ComponentsText(b)
    decreases |b|
  {
    if b == [] {
      assert a + b == a;
    } else {
      var init := b[..|b| - 1];
      assert (a + b)[..|a + b| - 1] == a + init;
      ComponentsAppend(a, init);
      Assoc(ComponentsText(a), ComponentsText(init), ComponentText(b[|b| - 1].0, b[|b| - 1].1));
    }
  }

  /** The number a string of decimal digits spells. */
  function DecimalValue(k: string): nat
    requires forall i :: 0 <= i < |k| ==> '0' <= k[i] <= '9'
    decreases |k|
  {
    if k == [] then 0 else DecimalValue(k[..|k| - 1]) * 10 + (k[|k| - 1] as int - '0' as int)
  }

  /**
   * A name JavaScript takes for an array index (the canonical decimal spelling of a
   * number below 2^32 - 1), and so lists before all other keys of an object, in
   * numeric order, whatever the order of insertion.
   */
  predicate IntegerLike(k: string) {
    k != [] && (forall i :: 0 <= i < |k| ==> '0' <= k[i] <= '9') && (k[0] != '0' || k == "0")
    && DecimalValue(k) < 0xFFFF_FFFF
  }

  /** The names a commit pushes under. */
  function Names(input: CommitInput): (r: set<string>)
    ensures input.fragments == [] ==> r == {ComponentOf(input.parsed)}
  {
    if |input.fragments| > 0 then
      set s | s in input.fragments :: FragmentComponent(s.fragment, ComponentOf(input.parsed))
    else {ComponentOf(input.parsed)}
  }

  /** No commit pushes under an index-like name, so every category lists its components in insertion order. */
  predicate InsertionOrdered(inputs: seq<CommitInput>) {
    forall i, k :: 0 <= i < |inputs| && k in Names(inputs[i]) ==> !IntegerLike(k)
  }

  /** The `Version.mdx` written when the file cannot be read: a title, then the marker. */
  const Skeleton := "## Version history\n\n" + Marker + "\n"

  /** How a run of `main` ends. */
  datatype Outcome =
    | Skipped                                          // no version, or no commit
    | Crashed                                          // a push threw a TypeError
    | Written(document: string, deleted: set<string>)  // the new `Version.mdx`; the fragments unlinked

  /**
   * `main`, given the next version (empty when neither `NEXT_VERSION` nor the argument
   * is set), the date, the commits of the release with their fragments, and the
   * current `Version.mdx` (None when it cannot be read).
   */
  function Release(version: string, date: string, inputs: seq<CommitInput>, existing: Option<string>): (r: Outcome)
    requires InsertionOrdered(inputs)
    ensures r == Skipped <==> version == "" || inputs == []
    ensures r == Crashed <==> version != "" && inputs != [] && AnyThrows(inputs)
    ensures r.Written? <==> version != "" && inputs != [] && !AnyThrows(inputs)
    ensures r.Written? ==> version != "" && inputs != [] && r.deleted == AllFiles(inputs)
  {
    CollectInvariant(inputs);
    if version == "" || inputs == [] then Skipped
    else
      match Collect(inputs)
      case None => Crashed
      case Some(c) =>
        Written(InsertAfterMarker(existing.GetOr(Skeleton), ReleaseBlock(version, date, c.log)), c.toDelete)
  }

  /** `main` end to end, from the output of the git commands and the files that can be read. */
  function ReleaseFromGit(version: string, date: string, log: Option<string>, diffs: map<string, string>,
                          files: map<string, string>, existing: Option<string>): (r: Outcome)
    requires InsertionOrdered(Prepare(CommitsOfLog(log), diffs, files))
    ensures log.None? ==> r == Skipped
  {
    Release(version, date, Prepare(CommitsOfLog(log), diffs, files), existing)
  }

  /**
   * When `Version.mdx` holds the marker, the block goes right after its first
   * occurrence, behind a blank line, and the rest of the document is kept.
   */
  lemma ReleaseSplice(version: string, date: string, inputs: seq<CommitInput>, doc: string)
    requires InsertionOrdered(inputs) && Contains(doc, Marker)
    requires Release(version, date, inputs, Some(doc)).Written?
    requires '$' !in ReleaseBlock(version, date, Collect(inputs).value.log)
    ensures var i := IndexOf(doc, Marker);
      Release(version, date, inputs, Some(doc)).document
        == doc[..i] + Marker + "\n\n" + ReleaseBlock(version, date, Collect(inputs).value.log) + doc[i + |Marker|..]
  {
  }

  /**
   * When `Version.mdx` has no marker, it is written back unchanged, yet the fragment
   * files are still deleted: their text is lost.
   */
  lemma NoMarkerDropsFragments(version: string, date: string, inputs: seq<CommitInput>, doc: string)
    requires InsertionOrdered(inputs) && !Contains(doc, Marker)
    requires version != "" && inputs != [] && !AnyThrows(inputs)
    ensures Release(version, date, inputs, Some(doc)) == Written(doc, AllFiles(inputs))
  {
    CollectInvariant(inputs);
  }

  /** When `Version.mdx` cannot be read, the document written is the skeleton with the block after its marker. */
  lemma MissingFileSkeleton(version: string, date: string, inputs: seq<CommitInput>)
    requires InsertionOrdered(inputs) && Release(version, date, inputs, None).Written?
    requires '$' !in ReleaseBlock(version, date, Collect(inputs).value.log)
    ensures Release(version, date, inputs, None).document
         == "## Version history\n\n" + Marker + "\n\n" + ReleaseBlock(version, date, Collect(inputs).value.log) + "\n"
  {
    SkeletonSplice(ReleaseBlock(version, date, Collect(inputs).value.log));
  }

  /** The insertion into the skeleton. */
  lemma SkeletonSplice(block: string)
    requires '$' !in block
    ensures InsertAfterMarker(Skeleton, block) == "## Version history\n\n" + Marker + "\n\n" + block + "\n"
  {
    var title := "## Version history\n\n";
    assert Skeleton == title + (Marker + "\n");
    NoOccurrenceBefore(title, Marker + "\n", Marker);
    assert OccursAt(Skeleton, Marker, |title|);
    assert IndexOf(Skeleton, Marker) == |title|;
    assert Skeleton[..|title|] == title;
    assert Skeleton[|title| + |Marker|..] == "\n";
  }

  /** A block always begins with its version header. */
  lemma BlockStartsWithHeader(version: string, date: string, log: Changelog)
    ensures StartsWith(ReleaseBlock(version, date, log), BlockHeader(version, date))
  {
    var b := ReleaseBlock(version, date, log);
    assert b[..|BlockHeader(version, date)|] == BlockHeader(version, date);
  }
}
