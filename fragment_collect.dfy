/**
 * The commit loop of `main` in `plugins/semantic-release-fragments.js`, and the
 * fragment lookup `getFragmentsFromCommit` it calls: every commit of the release adds
 * its fragments, or else its subject, to `changelogData`, and the fragment files used
 * are remembered for deletion.
 */
module FragmentCollect {
  import opened Wrappers
  import opened JsString
  import opened ConventionalCommit
  import FragmentFile
  import opened CommitLog
  import opened ComponentEntry
  import opened ChangelogData

  /** `FRAGMENT_DIR`. */
  const FragmentDir := "stories/01. Docs/fragments"

  /** A changed path that names a fragment file. */
  predicate IsFragmentPath(file: string) {
    StartsWith(file, FragmentDir) && EndsWith(file, ".mdx")
  }

  /** The changed paths kept as fragment files, in order. */
  function FragmentPaths(files: seq<string>): (r: seq<string>)
    ensures forall f :: f in r <==> f in files && IsFragmentPath(f)
    ensures forall f {:trigger multiset(r)[f]} :: multiset(r)[f] == if IsFragmentPath(f) then multiset(files)[f] else 0
    decreases |files|
  {
    if files == [] then []
    else
      var init, last := files[..|files| - 1], files[|files| - 1];
      assert files == init + [last];
      FragmentPaths(init) + (if IsFragmentPath(last) then [last] else [])
  }

  /** Filtering a concatenation filters each part: the kept paths keep their order. */
  lemma {:induction false} FragmentPathsAppend(a: seq<string>, b: seq<string>)
    ensures FragmentPaths(a + b) == FragmentPaths(a) + FragmentPaths(b)
    decreases |b|
  {
    if b == [] {
      assert a + b == a;
    } else {
      var init, last := b[..|b| - 1], b[|b| - 1];
      assert a + b == (a + init) + [last];
      assert b == init + [last];
      FragmentPathsAppend(a, init);
      FragmentPathsSnoc(a + init, last);
      FragmentPathsSnoc(init, last);
    }
  }

  /** The last path is kept when it is a fragment path. */
  lemma FragmentPathsSnoc(init: seq<string>, last: string)
    ensures FragmentPaths(init + [last]) == FragmentPaths(init) + (if IsFragmentPath(last) then [last] else [])
  {
    assert (init + [last])[..|init|] == init;
  }

  /** A fragment file with what `parseFragment` made of it. */
  datatype Sourced = Sourced(file: string, fragment: FragmentFile.Fragment)

  /**
   * The `for` loop of `getFragmentsFromCommit`: each path that can be read is parsed;
   * a path that cannot be read (absent from `files`) is skipped.
   */
  function ReadFragments(paths: seq<string>, files: map<string, string>): (r: seq<Sourced>)
    ensures forall s :: s in r ==> s.file in paths && s.file in files && s.fragment == FragmentFile.FragmentOf(files[s.file])
    ensures forall p :: p in paths && p in files ==> exists s :: s in r && s.file == p
    ensures forall p {:trigger multiset(PathsOf(r))[p]} :: multiset(PathsOf(r))[p] == if p in files then multiset(paths)[p] else 0
    decreases |paths|
  {
    if paths == [] then []
    else
      var init, last := paths[..|paths| - 1], paths[|paths| - 1];
      assert paths == init + [last];
      var before := ReadFragments(init, files);
      var read := if last in files then [Sourced(last, FragmentFile.FragmentOf(files[last]))] else [];
      PathsOfAppend(before, read);
      assert PathsOf(read) == if last in files then [last] else [];
      before + read
  }

  /** The paths of parsed fragment files, in order. */
  function PathsOf(r: seq<Sourced>): (ps: seq<string>)
    ensures |ps| == |r| && forall i :: 0 <= i < |r| ==> ps[i] == r[i].file
  {
    seq(|r|, i requires 0 <= i < |r| => r[i].file)
  }

  /** Reading a concatenation of paths reads each part: the parsed files keep the order of their paths. */
  lemma {:induction false} ReadFragmentsAppend(a: seq<string>, b: seq<string>, files: map<string, string>)
    ensures ReadFragments(a + b, files) == ReadFragments(a, files) + ReadFragments(b, files)
    decreases |b|
  {
    if b == [] {
      assert a + b == a;
    } else {
      var init, last := b[..|b| - 1], b[|b| - 1];
      assert a + b == (a + init) + [last];
      assert b == init + [last];
      ReadFragmentsAppend(a, init, files);
      ReadFragmentsSnoc(a + init, last, files);
      ReadFragmentsSnoc(init, last, files);
      SeqAssoc(ReadFragments(a, files), ReadFragments(init, files), ReadFragments([last], files));
    }
  }

  /** Concatenation of parsed files is associative. */
  lemma SeqAssoc(x: seq<Sourced>, y: seq<Sourced>, z: seq<Sourced>)
    ensures x + y + z == x + (y + z)
  {
  }

  /** The last path adds what reading it alone gives. */
  lemma ReadFragmentsSnoc(init: seq<string>, last: string, files: map<string, string>)
    ensures ReadFragments(init + [last], files) == ReadFragments(init, files) + ReadFragments([last], files)
  {
    assert (init + [last])[..|init|] == init;
    assert [last][..0] == [];
  }

  /** The paths of a concatenation are the paths of its parts. */
  lemma PathsOfAppend(x: seq<Sourced>, y: seq<Sourced>)
    ensures PathsOf(x + y) == PathsOf(x) + PathsOf(y)
  {
  }

  /**
   * `getFragmentsFromCommit(hash)`, given the output of `git diff-tree` for the commit
   * (None when the command fails) and the readable files: the parsed fragment files the
   * commit changed, each readable fragment path as often as the diff lists it. A
   * failing command gives no fragments.
   */
  function FragmentsFromCommit(diff: Option<string>, files: map<string, string>): (r: seq<Sourced>)
    ensures diff.None? ==> r == []
    ensures forall s :: s in r ==> IsFragmentPath(s.file) && s.file in files
    ensures diff.Some? ==>
      forall f {:trigger multiset(PathsOf(r))[f]} ::
        multiset(PathsOf(r))[f] == if IsFragmentPath(f) && f in files then multiset(Split(diff.value, "\n"))[f] else 0
  {
    match diff
    case None => []
    case Some(out) =>
      var lines := Split(out, "\n");
      NonBlankCount(lines);
      FragmentPathsNotBlank();
      ReadFragments(FragmentPaths(NonBlank(lines)), files)
  }

  /** A fragment path starts inside the fragment directory, so it is not blank. */
  lemma FragmentPathsNotBlank()
    ensures forall f :: IsFragmentPath(f) ==> !IsBlank(f)
  {
    forall f | IsFragmentPath(f) ensures !IsBlank(f) {
      assert f[0] == FragmentDir[0];
    }
  }

  /**
   * One commit of the release: what `parseCommit` made of its message, and the
   * fragments it changed. Parsing is pure, so parsing every message before the loop
   * instead of at the top of each pass changes nothing.
   */
  datatype CommitInput = CommitInput(parsed: ParsedCommit, fragments: seq<Sourced>)

  /**
   * The commits of the release with their fragments, given the `git diff-tree` output
   * for each hash (a hash without one is a failing command) and the readable files.
   */
  function Prepare(commits: seq<Commit>, diffs: map<string, string>, files: map<string, string>): (r: seq<CommitInput>)
    ensures |r| == |commits|
    ensures forall i :: 0 <= i < |commits| ==>
      r[i] == CommitInput(ParseCommit(commits[i].message),
                          FragmentsFromCommit(if commits[i].hash in diffs then Some(diffs[commits[i].hash]) else None, files))
  {
    seq(|commits|, i requires 0 <= i < |commits| =>
      CommitInput(ParseCommit(commits[i].message),
                  FragmentsFromCommit(if commits[i].hash in diffs then Some(diffs[commits[i].hash]) else None, files)))
  }

  /** What the loop has built so far: `changelogData` and `fragmentsToDelete`. */
  datatype Collected = Collected(log: Changelog, toDelete: set<string>)

  /** `parsedCommit.scope || "Uncategorized"`. */
  function ComponentOf(p: ParsedCommit): (k: string)
    ensures k != ""
    ensures p.scope.Some? && p.scope.value != "" ==> k == p.scope.value
  {
    if p.scope.Some? && p.scope.value != "" then p.scope.value else "Uncategorized"
  }

  /** `fragment.component || component`. */
  function FragmentComponent(f: FragmentFile.Fragment, fallback: string): (k: string)
    ensures f.component.None? || f.component.value == "" ==> k == fallback
    ensures f.component.Some? && f.component.value != "" ==> k == f.component.value
  {
    if f.component.Some? && f.component.value != "" then f.component.value else fallback
  }

  /** The entry pushed for a fragment: the commit subject with the fragment's texts. */
  function FragmentEntry(subject: string, f: FragmentFile.Fragment): Entry {
    Entry(subject, Some(f.content), f.summary, f.details)
  }

  /** The entry pushed for a commit without fragments, `{ subject, content: null }`. */
  function SubjectEntry(subject: string): Entry {
    Entry(subject, None, None, None)
  }

  /** The inner loop over a commit's fragments, as a fold; None once a push throws. */
  function AddFragments(c: Collected, cat: Category, comp: string, subject: string, fs: seq<Sourced>): Option<Collected>
    decreases |fs|
  {
    if fs == [] then Some(c)
    else
      match AddFragments(c, cat, comp, subject, fs[..|fs| - 1])
      case None => None
      case Some(d) =>
        var s := fs[|fs| - 1];
        match Push(d.log, cat, FragmentComponent(s.fragment, comp), FragmentEntry(subject, s.fragment))
        case None => None
        case Some(log) => Some(Collected(log, d.toDelete + {s.file}))
  }

  /** One pass of the commit loop. */
  function Step(c: Collected, input: CommitInput): Option<Collected> {
    var p := input.parsed;
    var cat := CategoryOf(p);
    var comp := ComponentOf(p);
    if |input.fragments| > 0 then AddFragments(c, cat, comp, p.subject, input.fragments)
    else
      match Push(c.log, cat, comp, SubjectEntry(p.subject))
      case None => None
      case Some(log) => Some(Collected(log, c.toDelete))
  }

  /** Five empty categories and no fragment to delete. */
  const Initial := Collected(EmptyChangelog, {})

  /** The whole commit loop, as a fold; None when a push throws. */
  function Collect(inputs: seq<CommitInput>): Option<Collected>
    decreases |inputs|
  {
    if inputs == [] then Some(Initial)
    else
      match Collect(inputs[..|inputs| - 1])
      case None => None
      case Some(c) => Step(c, inputs[|inputs| - 1])
  }

  /** The commit loop of `main`. */
  method CollectChangelog(inputs: seq<CommitInput>) returns (r: Option<Collected>)
    ensures r == Collect(inputs)
  {
    var log := EmptyChangelog;
    var toDelete: set<string> := {};
    var k := 0;
    while k < |inputs|
      invariant 0 <= k <= |inputs|
      invariant Collect(inputs[..k]) == Some(Collected(log, toDelete))
    {
      assert inputs[..k + 1][..k] == inputs[..k];
      var next := ProcessCommit(Collected(log, toDelete), inputs[k]);
      if next.None? {
        CrashPersists(inputs, k + 1);
        return None;
      }
      log, toDelete := next.value.log, next.value.toDelete;
      k := k + 1;
    }
    assert inputs[..k] == inputs;
    return Some(Collected(log, toDelete));
  }

  /** The body of the commit loop: parse, classify, then push each fragment or the subject. */
  method ProcessCommit(c: Collected, input: CommitInput) returns (r: Option<Collected>)
    ensures r == Step(c, input)
  {
    var parsed := input.parsed;
    var category := CategoryOf(parsed);
    var component := ComponentOf(parsed);
    if |input.fragments| > 0 {
      r := AddCommitFragments(c, category, component, parsed.subject, input.fragments);
    } else {
      var pushed := Push(c.log, category, component, SubjectEntry(parsed.subject));
      if pushed.None? {
        return None;
      }
      r := Some(Collected(pushed.value, c.toDelete));
    }
  }

  /** The inner loop of the commit loop: push each fragment and mark its file. */
  method AddCommitFragments(c: Collected, category: Category, component: string, subject: string,
                            fragments: seq<Sourced>) returns (r: Option<Collected>)
    ensures r == AddFragments(c, category, component, subject, fragments)
  {
    var log, toDelete := c.log, c.toDelete;
    var i := 0;
    while i < |fragments|
      invariant 0 <= i <= |fragments|
      invariant AddFragments(c, category, component, subject, fragments[..i]) == Some(Collected(log, toDelete))
    {
      AddFragmentsStep(c, category, component, subject, fragments, i);
      var fragmentComponent := FragmentComponent(fragments[i].fragment, component);
      var pushed := Push(log, category, fragmentComponent, FragmentEntry(subject, fragments[i].fragment));
      if pushed.None? {
        AddFragmentsCrashPersists(c, category, component, subject, fragments, i + 1);
        return None;
      }
      log := pushed.value;
      toDelete := toDelete + {fragments[i].file};
      i := i + 1;
    }
    assert fragments[..i] == fragments;
    r := Some(Collected(log, toDelete));
  }

  /** One more fragment of the list is one more pass of the fold. */
  lemma AddFragmentsStep(c: Collected, cat: Category, comp: string, subject: string, fs: seq<Sourced>, i: nat)
    requires i < |fs|
    ensures AddFragments(c, cat, comp, subject, fs[..i + 1])
         == match AddFragments(c, cat, comp, subject, fs[..i])
            case None => None
            case Some(d) =>
              match Push(d.log, cat, FragmentComponent(fs[i].fragment, comp), FragmentEntry(subject, fs[i].fragment))
              case None => None
              case Some(log) => Some(Collected(log, d.toDelete + {fs[i].file}))
  {
    assert fs[..i + 1][..i] == fs[..i];
  }

  /** Once a push has thrown inside a commit, the rest of its fragments change nothing. */
  lemma {:induction false} AddFragmentsCrashPersists(c: Collected, cat: Category, comp: string, subject: string,
                                                     fs: seq<Sourced>, n: nat)
    requires n <= |fs| && AddFragments(c, cat, comp, subject, fs[..n]).None?
    ensures AddFragments(c, cat, comp, subject, fs).None?
    decreases |fs| - n
  {
    if n < |fs| {
      assert fs[..n + 1][..n] == fs[..n];
      AddFragmentsCrashPersists(c, cat, comp, subject, fs, n + 1);
    } else {
      assert fs[..n] == fs;
    }
  }

  /** Once a push has thrown, `main` never reaches the rendering: later commits change nothing. */
  lemma {:induction false} CrashPersists(inputs: seq<CommitInput>, n: nat)
    requires n <= |inputs| && Collect(inputs[..n]).None?
    ensures Collect(inputs).None?
    decreases |inputs| - n
  {
    if n < |inputs| {
      assert inputs[..n + 1][..n] == inputs[..n];
      CrashPersists(inputs, n + 1);
    } else {
      assert inputs[..n] == inputs;
    }
  }

  /** The paths of a list of fragments. */
  function Files(fs: seq<Sourced>): (r: set<string>)
    ensures forall f :: f in r <==> exists s :: s in fs && s.file == f
  {
    set s | s in fs :: s.file
  }

  /** The fragment files of all commits. */
  function AllFiles(inputs: seq<CommitInput>): set<string>
    decreases |inputs|
  {
    if inputs == [] then {} else AllFiles(inputs[..|inputs| - 1]) + Files(inputs[|inputs| - 1].fragments)
  }

  /** The entries a commit's fragments put under component `k`, in order. */
  function EntriesFor(fs: seq<Sourced>, comp: string, subject: string, k: string): seq<Entry>
    decreases |fs|
  {
    if fs == [] then []
    else
      var s := fs[|fs| - 1];
      EntriesFor(fs[..|fs| - 1], comp, subject, k)
        + (if FragmentComponent(s.fragment, comp) == k then [FragmentEntry(subject, s.fragment)] else [])
  }

  /** Some fragment of the list is filed under a name `Object.prototype` already has. */
  predicate FragmentThrows(fs: seq<Sourced>, comp: string) {
    exists j :: 0 <= j < |fs| && FragmentComponent(fs[j].fragment, comp) in PrototypeNames
  }

  /** The last fragment throws, or one before it does. */
  lemma FragmentThrowsSnoc(fs: seq<Sourced>, comp: string)
    requires fs != []
    ensures FragmentThrows(fs, comp)
        <==> FragmentThrows(fs[..|fs| - 1], comp) || FragmentComponent(fs[|fs| - 1].fragment, comp) in PrototypeNames
  {
    var init := fs[..|fs| - 1];
    assert forall j :: 0 <= j < |init| ==> fs[j] == init[j];
  }

  /** The fragment loop throws exactly when some fragment is filed under an inherited name. */
  lemma {:induction false} AddFragmentsThrows(c: Collected, cat: Category, comp: string, subject: string, fs: seq<Sourced>)
    ensures AddFragments(c, cat, comp, subject, fs).None? <==> FragmentThrows(fs, comp)
    decreases |fs|
  {
    if fs != [] {
      AddFragmentsThrows(c, cat, comp, subject, fs[..|fs| - 1]);
      FragmentThrowsSnoc(fs, comp);
    }
  }

  /**
   * A commit's fragments, when none is filed under an inherited name, keep the
   * dictionaries proper and mark every fragment file for deletion.
   */
  lemma {:induction false} AddFragmentsMarks(c: Collected, cat: Category, comp: string, subject: string, fs: seq<Sourced>)
    requires c.log.WellKeyed() && !FragmentThrows(fs, comp)
    ensures AddFragments(c, cat, comp, subject, fs).Some?
    ensures var d := AddFragments(c, cat, comp, subject, fs).value;
      d.log.WellKeyed() && d.toDelete == c.toDelete + Files(fs)
    decreases |fs|
  {
    AddFragmentsThrows(c, cat, comp, subject, fs);
    if fs != [] {
      var init, s := fs[..|fs| - 1], fs[|fs| - 1];
      FragmentThrowsSnoc(fs, comp);
      AddFragmentsMarks(c, cat, comp, subject, init);
      var d := AddFragments(c, cat, comp, subject, init).value;
      PushAppends(d.log, cat, FragmentComponent(s.fragment, comp), FragmentEntry(subject, s.fragment));
      FilesSnoc(fs);
    }
  }

  /**
   * A commit's fragments, when none is filed under an inherited name: each is appended,
   * in order, under the commit's category and `fragment.component || component`, and
   * no other list changes.
   */
  lemma {:induction false} AddFragmentsAppends(c: Collected, cat: Category, comp: string, subject: string, fs: seq<Sourced>)
    requires c.log.WellKeyed() && !FragmentThrows(fs, comp)
    ensures AddFragments(c, cat, comp, subject, fs).Some?
    ensures forall k :: Lookup(AddFragments(c, cat, comp, subject, fs).value.log.Get(cat), k)
                     == Lookup(c.log.Get(cat), k) + EntriesFor(fs, comp, subject, k)
    decreases |fs|
  {
    AddFragmentsThrows(c, cat, comp, subject, fs);
    if fs != [] {
      var init, s := fs[..|fs| - 1], fs[|fs| - 1];
      FragmentThrowsSnoc(fs, comp);
      AddFragmentsAppends(c, cat, comp, subject, init);
      AddFragmentsMarks(c, cat, comp, subject, init);
      AddFragmentsThrows(c, cat, comp, subject, init);
      forall k ensures Lookup(AddFragments(c, cat, comp, subject, fs).value.log.Get(cat), k)
                    == Lookup(c.log.Get(cat), k) + EntriesFor(fs, comp, subject, k) {
        AppendOneFragment(c, cat, comp, subject, fs, k);
      }
    }
  }

  /** The step of `AddFragmentsAppends` for one name `k`. */
  lemma AppendOneFragment(c: Collected, cat: Category, comp: string, subject: string, fs: seq<Sourced>, k: string)
    requires fs != [] && FragmentComponent(fs[|fs| - 1].fragment, comp) !in PrototypeNames
    requires AddFragments(c, cat, comp, subject, fs[..|fs| - 1]).Some?
    requires AddFragments(c, cat, comp, subject, fs[..|fs| - 1]).value.log.WellKeyed()
    requires Lookup(AddFragments(c, cat, comp, subject, fs[..|fs| - 1]).value.log.Get(cat), k)
          == Lookup(c.log.Get(cat), k) + EntriesFor(fs[..|fs| - 1], comp, subject, k)
    ensures AddFragments(c, cat, comp, subject, fs).Some?
    ensures Lookup(AddFragments(c, cat, comp, subject, fs).value.log.Get(cat), k)
         == Lookup(c.log.Get(cat), k) + EntriesFor(fs, comp, subject, k)
  {
    var init, s := fs[..|fs| - 1], fs[|fs| - 1];
    var d := AddFragments(c, cat, comp, subject, init).value;
    var key, e := FragmentComponent(s.fragment, comp), FragmentEntry(subject, s.fragment);
    PushLookup(d.log, cat, key, e, k);
    var added := if key == k then [e] else [];
    assert EntriesFor(fs, comp, subject, k) == EntriesFor(init, comp, subject, k) + added;
    EntriesAssoc(Lookup(c.log.Get(cat), k), EntriesFor(init, comp, subject, k), added);
  }

  lemma EntriesAssoc(a: seq<Entry>, b: seq<Entry>, c: seq<Entry>)
    ensures (a + b) + c == a + (b + c)
  {
  }

  /** A commit's fragments change no list of any other category. */
  lemma {:induction false} AddFragmentsOthers(c: Collected, cat: Category, comp: string, subject: string, fs: seq<Sourced>)
    requires c.log.WellKeyed() && !FragmentThrows(fs, comp)
    ensures AddFragments(c, cat, comp, subject, fs).Some?
    ensures forall e, k :: e != cat ==>
      Lookup(AddFragments(c, cat, comp, subject, fs).value.log.Get(e), k) == Lookup(c.log.Get(e), k)
    decreases |fs|
  {
    AddFragmentsThrows(c, cat, comp, subject, fs);
    if fs != [] {
      var init, s := fs[..|fs| - 1], fs[|fs| - 1];
      FragmentThrowsSnoc(fs, comp);
      AddFragmentsOthers(c, cat, comp, subject, init);
      AddFragmentsMarks(c, cat, comp, subject, init);
      var d := AddFragments(c, cat, comp, subject, init).value;
      PushAppends(d.log, cat, FragmentComponent(s.fragment, comp), FragmentEntry(subject, s.fragment));
    }
  }

  /** Keys an input would push under; `Throws` when one of them is an inherited name. */
  predicate Throws(input: CommitInput) {
    var p := input.parsed;
    if |input.fragments| > 0 then FragmentThrows(input.fragments, ComponentOf(p))
    else ComponentOf(p) in PrototypeNames
  }

  /** Some commit pushes under an inherited name. */
  predicate AnyThrows(inputs: seq<CommitInput>) {
    exists i :: 0 <= i < |inputs| && Throws(inputs[i])
  }

  lemma AnyThrowsSnoc(inputs: seq<CommitInput>)
    requires inputs != []
    ensures AnyThrows(inputs) <==> AnyThrows(inputs[..|inputs| - 1]) || Throws(inputs[|inputs| - 1])
  {
    var init := inputs[..|inputs| - 1];
    assert forall i :: 0 <= i < |init| ==> inputs[i] == init[i];
  }

  lemma FilesSnoc(fs: seq<Sourced>)
    requires fs != []
    ensures Files(fs) == Files(fs[..|fs| - 1]) + {fs[|fs| - 1].file}
  {
    assert fs == fs[..|fs| - 1] + [fs[|fs| - 1]];
  }

  /**
   * The loop keeps `changelogData` a proper dictionary of dictionaries, fails exactly
   * when some commit pushes under an inherited name, and otherwise marks exactly the
   * fragment files of all commits for deletion.
   */
  lemma {:induction false} CollectInvariant(inputs: seq<CommitInput>)
    ensures Collect(inputs).None? <==> AnyThrows(inputs)
    ensures Collect(inputs).Some? ==> Collect(inputs).value.log.WellKeyed()
    ensures Collect(inputs).Some? ==> Collect(inputs).value.toDelete == AllFiles(inputs)
    decreases |inputs|
  {
    if inputs != [] {
      var init, last := inputs[..|inputs| - 1], inputs[|inputs| - 1];
      CollectInvariant(init);
      AnyThrowsSnoc(inputs);
      match Collect(init)
      case None =>
      case Some(c) =>
        var p := last.parsed;
        if |last.fragments| > 0 {
          AddFragmentsThrows(c, CategoryOf(p), ComponentOf(p), p.subject, last.fragments);
          if !FragmentThrows(last.fragments, ComponentOf(p)) {
            AddFragmentsMarks(c, CategoryOf(p), ComponentOf(p), p.subject, last.fragments);
          }
        } else if ComponentOf(p) !in PrototypeNames {
          PushAppends(c.log, CategoryOf(p), ComponentOf(p), SubjectEntry(p.subject));
        }
    }
  }

  /**
   * A commit without fragments, after a loop that has not thrown, appends exactly one
   * entry `{ subject, content: null }` under its category and its scope (or
   * "Uncategorized"), and changes nothing else.
   */
  lemma CommitWithoutFragments(inputs: seq<CommitInput>, input: CommitInput)
    requires Collect(inputs).Some? && input.fragments == []
    requires ComponentOf(input.parsed) !in PrototypeNames
    ensures var p := input.parsed;
      var c := Collect(inputs).value;
      var cat, comp := CategoryOf(p), ComponentOf(p);
      Collect(inputs + [input]).Some?
      && var d := Collect(inputs + [input]).value;
      Lookup(d.log.Get(cat), comp) == Lookup(c.log.Get(cat), comp) + [SubjectEntry(p.subject)]
      && (forall e, k :: (e, k) != (cat, comp) ==> Lookup(d.log.Get(e), k) == Lookup(c.log.Get(e), k))
      && d.toDelete == c.toDelete
  {
    var p := input.parsed;
    CollectInvariant(inputs);
    assert (inputs + [input])[..|inputs|] == inputs;
    PushAppends(Collect(inputs).value.log, CategoryOf(p), ComponentOf(p), SubjectEntry(p.subject));
  }

  /**
   * A commit with fragments, after a loop that has not thrown and when none of its
   * fragments names an inherited component, appends one entry per fragment under the
   * commit's category (the commit's category wins over anything in the fragment), each
   * under `fragment.component || component`, and marks every fragment file for deletion.
   */
  lemma CommitWithFragments(inputs: seq<CommitInput>, input: CommitInput)
    requires Collect(inputs).Some? && input.fragments != []
    requires !FragmentThrows(input.fragments, ComponentOf(input.parsed))
    ensures var p := input.parsed;
      var c := Collect(inputs).value;
      var cat, comp := CategoryOf(p), ComponentOf(p);
      Collect(inputs + [input]).Some?
      && var d := Collect(inputs + [input]).value;
      (forall k :: Lookup(d.log.Get(cat), k) == Lookup(c.log.Get(cat), k) + EntriesFor(input.fragments, comp, p.subject, k))
      && (forall e, k :: e != cat ==> Lookup(d.log.Get(e), k) == Lookup(c.log.Get(e), k))
      && d.toDelete == c.toDelete + Files(input.fragments)
  {
    var p := input.parsed;
    CollectInvariant(inputs);
    assert (inputs + [input])[..|inputs|] == inputs;
    AddFragmentsAppends(Collect(inputs).value, CategoryOf(p), ComponentOf(p), p.subject, input.fragments);
    AddFragmentsOthers(Collect(inputs).value, CategoryOf(p), ComponentOf(p), p.subject, input.fragments);
    AddFragmentsMarks(Collect(inputs).value, CategoryOf(p), ComponentOf(p), p.subject, input.fragments);
  }

  /** The positions of the fragments filed under `k`. */
  function Matching(fs: seq<Sourced>, comp: string, k: string): set<int> {
    set j | 0 <= j < |fs| && FragmentComponent(fs[j].fragment, comp) == k
  }

  /** There is one entry per fragment: the entries under a name number the fragments filed under it. */
  lemma {:induction false} EntriesForCount(fs: seq<Sourced>, comp: string, subject: string, k: string)
    ensures |EntriesFor(fs, comp, subject, k)| == |Matching(fs, comp, k)|
    decreases |fs|
  {
    if fs != [] {
      var init := fs[..|fs| - 1];
      EntriesForCount(init, comp, subject, k);
      MatchingSnoc(fs, comp, k);
    }
  }

  /** The last fragment adds its own position, when filed under `k`, to those of the others. */
  lemma MatchingSnoc(fs: seq<Sourced>, comp: string, k: string)
    requires fs != []
    ensures var n := |fs| - 1;
      |Matching(fs, comp, k)|
        == |Matching(fs[..n], comp, k)| + (if FragmentComponent(fs[n].fragment, comp) == k then 1 else 0)
  {
    var n := |fs| - 1;
    var init := fs[..n];
    var before, now := Matching(init, comp, k), Matching(fs, comp, k);
    var last: set<int> := if FragmentComponent(fs[n].fragment, comp) == k then {n} else {};
    forall j ensures j in now <==> j in before + last {
      if 0 <= j < n { assert init[j] == fs[j]; }
    }
    assert now == before + last;
    assert n !in before;
  }
}
