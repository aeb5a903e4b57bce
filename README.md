# Version.mdx changelog scripts, modelled in Dafny

The repository keeps a hand-formatted changelog, `stories/01. Docs/Version.mdx`.
Four scripts write release blocks into it. Each inserts its block right after the
sentinel `{/* AUTO-GENERATED RELEASES WILL BE INSERTED HERE */}`:

- `plugins/semantic-release-fragments.js` runs in the release process:
  - It reads the commits of the release from `git log`.
  - It parses each commit with a conventional-commit pattern.
  - It files each commit under Breaking Changes, Features, Bugfixes, Improvements or Other.
  - It collects any fragment files (`---` frontmatter plus Markdown) the commit added.
  - It renders one bullet list per component, splices the block into the document and deletes the fragment files it used.
- `scripts/update-version-mdx.js` rewrites the release notes of semantic-release into the same layout. It does this with a line-driven state machine per `### ` section. It also labels beta versions.
- `scripts/update-version-mdx-git.js` builds the block from `git log --pretty=format:"%H|%s|%b|||"`. It keeps `feat`, `fix` and `BREAKING CHANGE` subjects only.
- `lib/cz-custom-version.js` is a commitizen prompter. It assembles a commit message from the answers and may add an "Upcoming" block to the document.

Each script is a string transformation once its I/O is removed. The model takes the
following as parameters: the output of `git`, the file contents, the version, the
release date and the prompt answers. The loops of the scripts are Dafny methods. Each
method is proved equal to a specification function, and the properties are proved
about those functions.

Module by module:

- `JsString`: the JavaScript string operations the scripts rely on, with the ECMA-262 white-space and line-terminator classes.
  - `trim`, `indexOf`/`includes`, `split` and `join` with a string separator.
  - ASCII upper-casing.
  - `replace` with a string pattern: the first occurrence only, with GetSubstitution's `$` patterns expanded.
- `VersionMdx`: the marker and the splice after it.
- `ConventionalCommit`, `CommitLog`, `FragmentFile`, `ComponentEntry`, `ChangelogData`, `FragmentCollect` and `FragmentRelease`: `plugins/semantic-release-fragments.js`.
- `ReleaseNotes`: `scripts/update-version-mdx.js`.
- `GitLogChangelog`: `scripts/update-version-mdx-git.js`.
- `CommitPrompt`: `lib/cz-custom-version.js`.

Where the code does something other than what its comments or its documentation
describe, the model follows the code. Each such behaviour is proved as a lemma:

- The pattern `^(\w+)(\([^)]+\))?(!)?:\s*(.+)$` is applied to the whole message, without the `m` flag. A message holding a header, a newline and more text therefore never matches. It is filed under Other even when it says `BREAKING CHANGE:` (`BodyForcesFallback`, `BreakingTokenNeedsMatch`). The token only counts inside a matched, one-line message.
- `getCurrentReleaseCommits` asks for `%H|||%s|||%B` and splits the output at newlines. `%B` repeats the subject, so a one-line commit becomes `s\ns`. That message is again filed under Other (`RepeatedSubjectIsOther`). The body lines of a longer message become commits of their own.
- In `update-version-mdx.js` every line is trimmed before it is classified. The branch for indented body text therefore never runs (`OtherLinesDropped`).
- In `update-version-mdx-git.js`, a commit with an empty body prints four `|` in a row. The split at `|||` then shifts the next record so that it is dropped (`EmptyBodyHidesNext`). A non-blank record without `|` makes `subject` undefined, so `.match` throws and the script falls back to `update-version-mdx.js` (`RecordsThrow`).
- In `cz-custom-version.js`, every `\\n` is the two characters backslash and `n`, not a newline.
  - The commit message is therefore one line (`MessageIsOneLine`).
  - The regular expression `/\\|/g` matches a backslash or the empty string; it does not match `|`. It inserts the separator before every character and drops backslashes (`EscapeRoundTrip`, `EscapeKeepsPipes`).
  - The "Convert | to newlines" formatting therefore puts each visible character on its own line, and `|` is kept as a character (`FormattedIsCharacters`, `PipeNotSplit`).
- A component named after a member of `Object.prototype` (`constructor`, `toString`, ...) makes the `push` in `main` throw. The run then ends without writing anything (`AddEntry`, `CollectInvariant`, `Release`).
- When `Version.mdx` has no marker, `main` writes it back unchanged and still deletes the fragment files, so their text is lost (`NoMarkerDropsFragments`).

## Model

| member | source | states |
|---|---|---|
| JsString.Trim | plugins/semantic-release-fragments.js:87 | `trim` gives the middle of the text between its white-space prefix and suffix: empty exactly for a blank text, otherwise starting and ending with a visible character |
| JsString.TrimTwice | plugins/semantic-release-fragments.js:87 | trimming twice is trimming once |
| JsString.TrimKeepsOut | plugins/semantic-release-fragments.js:87 | trimming never introduces a character |
| JsString.IndexOfFrom | plugins/semantic-release-fragments.js:39 | the search from a start index returns the first occurrence at or after it, or -1 when there is none |
| JsString.IndexOf | plugins/semantic-release-fragments.js:39 | `indexOf` is negative exactly when the pattern does not occur, and otherwise is the first occurrence |
| JsString.ContainsChar | scripts/update-version-mdx-git.js:35 | a one-character pattern occurs exactly where its character does |
| JsString.Split | plugins/semantic-release-fragments.js:79 | `split` gives at least one piece, and no piece holds the separator |
| JsString.JoinSplit | plugins/semantic-release-fragments.js:79 | joining the pieces of a split with its separator gives back the text |
| JsString.SplitFirst | plugins/semantic-release-fragments.js:128 | when the first separator follows a prefix, the split is that prefix, then the split of the rest |
| JsString.SplitHead | plugins/semantic-release-fragments.js:31 | the first piece is the text before the first separator, or the whole text without one |
| JsString.SplitTail | plugins/semantic-release-fragments.js:32 | the pieces after the first, joined back, are the text after the first separator |
| JsString.NonBlank | plugins/semantic-release-fragments.js:126 | `filter(x => x.trim())` keeps only non-blank items of the list, never more than it has, and is empty exactly when all are blank |
| JsString.NonBlankAppend | plugins/semantic-release-fragments.js:126 | filtering a concatenation filters each part, so the kept items stay in their order |
| JsString.NonBlankCount | plugins/semantic-release-fragments.js:126 | every non-blank item is kept exactly as often as it occurs, and every blank one is dropped |
| JsString.ToUpper | scripts/update-version-mdx.js:53 | upper-casing keeps the length and maps every character |
| JsString.UpperFirst | scripts/update-version-mdx.js:68-69 | only the first character is upper-cased; the rest is unchanged |
| JsString.Substitute | scripts/update-version-mdx.js:145 | a replacement without `$` is inserted literally |
| JsString.SubstituteInert | lib/cz-custom-version.js:149 | a replacement whose every `$` is followed by a character other than `$`, `&`, a backquote and `'` is inserted literally |
| JsString.ReplaceFirst | scripts/update-version-mdx.js:145 | `replace` with a string pattern changes only the first occurrence and leaves a text without one unchanged |
| JsString.ReplaceKeepsPrefix | scripts/update-version-mdx.js:145 | replacing the pattern by itself plus more text keeps everything up to that occurrence, which stays the first |
| JsString.SamePrefixSameFirst | scripts/update-version-mdx.js:145 | texts that agree up to the end of a first occurrence have that first occurrence in common |
| VersionMdx.InsertAfterMarker | plugins/semantic-release-fragments.js:304-308 | the block goes right after the first marker behind a blank line and all other text is kept; a document without the marker is unchanged |
| VersionMdx.InsertionKeepsMarker | plugins/semantic-release-fragments.js:304-308 | after an insertion the document keeps its text up to the same first marker, so the next block lands above this one: newest first |
| VersionMdx.BlockHeader | plugins/semantic-release-fragments.js:276 | definition: `### Version v`, a blank line, `#### Released on: d`, a blank line; the same header starts the blocks of scripts/update-version-mdx.js:136-139 and scripts/update-version-mdx-git.js:58 |
| ConventionalCommit.WordRun | plugins/semantic-release-fragments.js:23 | `(\w+)` takes the longest run of word characters |
| ConventionalCommit.MatchRest | plugins/semantic-release-fragments.js:23 | `\s*(.+)$` splits the text after the colon into blank space and a non-empty one-line subject reaching the end |
| ConventionalCommit.MatchRestLongestGap | plugins/semantic-release-fragments.js:23 | whenever `\s*(.+)$` can match, the matcher finds a match, and its `\s*` is at least as long as in any other decomposition (greedy backtracking) |
| ConventionalCommit.MatchHeader | plugins/semantic-release-fragments.js:22-24 | soundness: a match found spells the message from its groups, each group of the form its part of the pattern accepts |
| ConventionalCommit.MatchHeaderComplete | plugins/semantic-release-fragments.js:22-24 | completeness: whenever the pattern can match, a match is found, with the same type, scope and `!` and the longest `\s*` |
| ConventionalCommit.ScopeCloses | plugins/semantic-release-fragments.js:23 | `\([^)]+\)` ends at the first `)` after the scope |
| ConventionalCommit.MatchUpToColon | plugins/semantic-release-fragments.js:22-24 | a word, an optional scope, an optional `!` and a colon fix the groups; the match then depends only on the text after the colon |
| ConventionalCommit.MatchScoped | plugins/semantic-release-fragments.js:23 | after `(\w+)`: an optional scope group holding no `)` and at least one character, then the rest; a match spells exactly the text after the type, with a blank gap and a non-empty one-line subject |
| ConventionalCommit.MatchAfterScope | plugins/semantic-release-fragments.js:23 | after the scope group: an optional `!`, the colon, a blank gap and a non-empty one-line subject that together spell the text, with the type and scope passed through |
| ConventionalCommit.SpelledMatches | plugins/semantic-release-fragments.js:22-24 | a header spelled with one space before a subject that starts visibly is matched with exactly its own type, scope, `!` and subject |
| ConventionalCommit.ParseCommit | plugins/semantic-release-fragments.js:20-48 | the subject holds no newline, a scope has no `)`, and `breaking` is only ever set for a matched message |
| ConventionalCommit.ParseSpelledHeader | plugins/semantic-release-fragments.js:22-47 | a one-line `type(scope)!: subject` parses back to its type, its scope without parentheses, its subject and an empty body, with `breaking` set by `!` or the token |
| ConventionalCommit.UnmatchedIsOther | plugins/semantic-release-fragments.js:26-34 | an unmatched message gives type `other`, no scope, not breaking, and its first line as subject |
| ConventionalCommit.MatchedBreaking | plugins/semantic-release-fragments.js:36-39 | for a matched message, `breaking` holds exactly when the `!` is there or the message contains `BREAKING CHANGE:` |
| ConventionalCommit.HeaderThenBodyUnmatched | plugins/semantic-release-fragments.js:22-24 | a header followed by a newline and more text is never matched |
| ConventionalCommit.FirstLineIsHeader | plugins/semantic-release-fragments.js:31 | the first line of a header followed by a newline is the header |
| ConventionalCommit.BodyForcesFallback | plugins/semantic-release-fragments.js:22-34 | a commit with a body is filed as `other`, not breaking, with its header as subject |
| ConventionalCommit.CategoryOf | plugins/semantic-release-fragments.js:53-73 | `getCategory` is total: Breaking Changes exactly when breaking, then Features for `feat`, Bugfixes for `fix`, Improvements for the six listed types, Other for the rest |
| ConventionalCommit.Title | plugins/semantic-release-fragments.js:224-230 | definition: the five keys of `changelogData`, `Breaking Changes`, `Features`, `Bugfixes`, `Improvements` and `Other`, used as the headings |
| ConventionalCommit.BreakingTokenNeedsMatch | plugins/semantic-release-fragments.js:26-39 | `BREAKING CHANGE:` makes a commit breaking only when the pattern matches; an unmatched message is always Other |
| CommitLog.CommitOfLine | plugins/semantic-release-fragments.js:127-132 | a log line without `|||` gives its trimmed text as hash and an empty message |
| CommitLog.CommitsOfLog | plugins/semantic-release-fragments.js:121-139 | one commit per non-blank log line, in order; none when `git` fails |
| CommitLog.ThreeFields | plugins/semantic-release-fragments.js:128-131 | `hash|||subject|||body` gives the trimmed hash and `subject`, newline, `body`, trimmed |
| CommitLog.RepeatedSubjectIsOther | plugins/semantic-release-fragments.js:122 | with `%s|||%B` a one-line conventional commit becomes `s\ns` and is filed under Other |
| CommitLog.RepeatedSubjectMessage | plugins/semantic-release-fragments.js:120-130 | for a line `hash|||s|||s`, as `%H|||%s|||%B` prints a one-line commit with an unpadded subject `s`, the message is `s`, a newline and `s` |
| FragmentFile.Lookup | plugins/semantic-release-fragments.js:102-104 | a metadata key never set reads as undefined, a set one as its value |
| FragmentFile.MetaEntry | plugins/semantic-release-fragments.js:87-92 | a frontmatter line sets a key exactly when its trimmed text has a colon after at least one character: a blank line, a line without a colon and a line starting with a colon set nothing; the key is never empty |
| FragmentFile.ReadLine | plugins/semantic-release-fragments.js:87-93 | one pass of the loop sets the line's key to its value, or changes nothing |
| FragmentFile.ReadFrontmatter | plugins/semantic-release-fragments.js:84-96 | the loop stops at the first closing `---` (or the end) with the metadata of the lines before it |
| FragmentFile.ClosingIsFirst | plugins/semantic-release-fragments.js:86 | the loop stops at the first `---` |
| FragmentFile.ParseFragment | plugins/semantic-release-fragments.js:78-107 | `parseFragment` returns the component, summary, details and trimmed content its specification function gives |
| FragmentFile.NoFrontmatter | plugins/semantic-release-fragments.js:84 | without a `---` first line there is no metadata and the content is the whole text, trimmed |
| FragmentFile.KeySplitsAtFirstColon | plugins/semantic-release-fragments.js:89-91 | the key ends at the first colon; the value keeps any later colons; both are trimmed |
| FragmentFile.NoColonIgnored | plugins/semantic-release-fragments.js:90 | a line without a colon sets nothing |
| FragmentFile.LastDuplicateWins | plugins/semantic-release-fragments.js:91 | the last line setting a key decides its value |
| FragmentFile.MetadataFromLines | plugins/semantic-release-fragments.js:86-95 | every key comes from a frontmatter line, with that line's value |
| FragmentFile.UnclosedIsEmpty | plugins/semantic-release-fragments.js:86-99 | an unclosed `---` block leaves empty content |
| FragmentFile.ClosedBlockContent | plugins/semantic-release-fragments.js:96-105 | with a closing `---`, the content is the text after it, trimmed |
| FragmentFile.FragmentOf | plugins/semantic-release-fragments.js:78-107 | definition: when the first line is `---`, the metadata of the lines before the first closing `---` and the content from the line after it; otherwise no metadata and every line; the content joined and trimmed |
| FragmentFile.Metadata | plugins/semantic-release-fragments.js:85-95 | definition: the entries of the lines from the second up to the closing line, in order, a later key overwriting an earlier one |
| FragmentFile.Closing | plugins/semantic-release-fragments.js:86 | the index of the first `---` at or after a line, or the number of lines when there is none |
| ComponentEntry.GenerateComponentEntry | plugins/semantic-release-fragments.js:178-197 | the nested loops build exactly the heading and the items' bullets of the specification function |
| ComponentEntry.AppendItem | plugins/semantic-release-fragments.js:184-193 | an item appends its content lines as bullets, or else its subject |
| ComponentEntry.AppendBullets | plugins/semantic-release-fragments.js:187-189 | the inner loop appends one trimmed bullet per line |
| ComponentEntry.EntryEmptyIff | plugins/semantic-release-fragments.js:179-181 | the entry is empty exactly when there are no items, and otherwise starts with `- **component:**` |
| ComponentEntry.ItemsAppend | plugins/semantic-release-fragments.js:183-194 | the items contribute their texts one after the other, in order |
| ComponentEntry.SubjectFallback | plugins/semantic-release-fragments.js:190-192 | an item with null or blank content gives exactly `\t- subject\n` |
| ComponentEntry.BulletsLineCount | plugins/semantic-release-fragments.js:187-189 | lines without newlines give exactly one bullet line each |
| ComponentEntry.ContentBulletCount | plugins/semantic-release-fragments.js:184-189 | an item with content gives one line per non-blank content line |
| ComponentEntry.OneLineContent | plugins/semantic-release-fragments.js:186-188 | a one-line content gives one bullet holding it trimmed |
| ComponentEntry.EntryText | plugins/semantic-release-fragments.js:178-197 | definition: empty without items; otherwise the bold component heading, then each item's text in order |
| ComponentEntry.ItemText | plugins/semantic-release-fragments.js:184-193 | definition: the non-blank content lines as trimmed bullets when the content is not blank, otherwise the subject as one bullet |
| ComponentEntry.Bullets | plugins/semantic-release-fragments.js:187-189 | definition: one bullet, a tab, `- `, the trimmed line and a newline, per line, in order |
| ChangelogData.Position | plugins/semantic-release-fragments.js:248 | the index holding a key, or -1 exactly when the key is absent |
| ChangelogData.AddEntry | plugins/semantic-release-fragments.js:248-257 | the push fails exactly for a name inherited from `Object.prototype` |
| ChangelogData.AddEntryAppends | plugins/semantic-release-fragments.js:248-257 | a push appends exactly the entry to its key's list, changes no other list, keeps the keys distinct and adds a new key last |
| ChangelogData.AddNewKey | plugins/semantic-release-fragments.js:248-249 | a new key is created last, with the entry as its only item |
| ChangelogData.AddExistingKey | plugins/semantic-release-fragments.js:252 | an existing key gets the entry appended and keeps its place |
| ChangelogData.PositionAppend | plugins/semantic-release-fragments.js:249 | a key appended last is found there only when no earlier pair holds it |
| ChangelogData.Push | plugins/semantic-release-fragments.js:252 | `changelogData[c][k].push(e)` fails exactly for an inherited name |
| ChangelogData.PushAppends | plugins/semantic-release-fragments.js:248-257 | a push changes one list of one category, by exactly the entry, and keeps every object's keys distinct |
| ChangelogData.PushLookup | plugins/semantic-release-fragments.js:252 | after a push, each name of the pushed category reads as before, plus the entry for the pushed name |
| ChangelogData.LookupAppend | plugins/semantic-release-fragments.js:248-250 | a key created last reads as its entries, and every other key reads as before |
| FragmentCollect.FragmentPaths | plugins/semantic-release-fragments.js:152-154 | every changed path under the fragment directory ending in `.mdx` is kept, as often as it is listed, and no other path is |
| FragmentCollect.FragmentPathsAppend | plugins/semantic-release-fragments.js:152-154 | filtering a concatenation filters each part, so the kept paths stay in the order of the diff |
| FragmentCollect.ReadFragments | plugins/semantic-release-fragments.js:158-167 | each readable path gives exactly one parsed fragment, what `parseFragment` makes of the file, and an unreadable one gives none |
| FragmentCollect.ReadFragmentsAppend | plugins/semantic-release-fragments.js:158-167 | reading a concatenation of paths reads each part, so the parsed fragments come in the order of their paths |
| FragmentCollect.FragmentsFromCommit | plugins/semantic-release-fragments.js:145-173 | a failing `git diff-tree` gives no fragments; otherwise every readable fragment path of its output is returned once per listing, and no other path is |
| FragmentCollect.ComponentOf | plugins/semantic-release-fragments.js:237 | the component is the scope, or `Uncategorized` when there is none |
| FragmentCollect.FragmentComponent | plugins/semantic-release-fragments.js:245 | a fragment's own component wins over the commit's when it is not empty |
| FragmentCollect.CollectChangelog | plugins/semantic-release-fragments.js:232-272 | the commit loop computes the fold of its specification function, or fails when a push throws |
| FragmentCollect.ProcessCommit | plugins/semantic-release-fragments.js:235-271 | one pass pushes each fragment, or else the subject, as the step of its specification function does |
| FragmentCollect.AddCommitFragments | plugins/semantic-release-fragments.js:244-260 | the fragment loop pushes each fragment and marks its file |
| FragmentCollect.AddFragmentsCrashPersists | plugins/semantic-release-fragments.js:252 | once a push has thrown inside a commit, the rest of its fragments change nothing |
| FragmentCollect.CrashPersists | plugins/semantic-release-fragments.js:351-354 | once a push has thrown, later commits change nothing |
| FragmentCollect.AddFragmentsThrows | plugins/semantic-release-fragments.js:248-252 | a commit's fragment loop throws exactly when a fragment is filed under an inherited name |
| FragmentCollect.AddFragmentsMarks | plugins/semantic-release-fragments.js:259 | every fragment file is added once to the set to delete, and the objects keep distinct keys |
| FragmentCollect.AddFragmentsAppends | plugins/semantic-release-fragments.js:244-257 | the fragments are appended in order under the commit's category and `fragment.component || component` |
| FragmentCollect.AddFragmentsOthers | plugins/semantic-release-fragments.js:246 | a commit's fragments change no list of another category |
| FragmentCollect.CollectInvariant | plugins/semantic-release-fragments.js:232-272 | the loop fails exactly when some commit pushes under an inherited name; otherwise the keys stay distinct and exactly the fragment files of all commits are marked |
| FragmentCollect.CommitWithoutFragments | plugins/semantic-release-fragments.js:261-271 | a commit without fragments appends exactly `{subject, content: null}` under its category and component, and nothing else changes |
| FragmentCollect.CommitWithFragments | plugins/semantic-release-fragments.js:242-260 | a commit with fragments appends one entry per fragment under its own category and marks their files |
| FragmentCollect.EntriesForCount | plugins/semantic-release-fragments.js:244-257 | the entries under a name number the fragments filed under it |
| FragmentCollect.Collect | plugins/semantic-release-fragments.js:232-272 | definition: the commit loop as a fold of `Step` from the empty `changelogData` and no files to delete, ending at the first push that throws |
| FragmentCollect.Step | plugins/semantic-release-fragments.js:235-271 | definition: a commit with fragments pushes one entry per fragment under the fragment's component or the commit's; one without pushes its subject under the commit's component |
| FragmentCollect.AddFragments | plugins/semantic-release-fragments.js:244-260 | definition: the fragment loop as a fold: push the fragment's entry, then mark its file for deletion; it ends at a push that throws |
| FragmentCollect.FragmentEntry | plugins/semantic-release-fragments.js:252-257 | definition: the commit subject with the fragment's content, summary and details |
| FragmentCollect.SubjectEntry | plugins/semantic-release-fragments.js:267-270 | definition: `{ subject, content: null }` |
| FragmentRelease.RenderRelease | plugins/semantic-release-fragments.js:275-291 | the rendering loop builds exactly the header and the categories' sections in key order |
| FragmentRelease.AppendSection | plugins/semantic-release-fragments.js:283-290 | a category with keys appends its bold title, then each non-empty component entry and a blank line |
| FragmentRelease.SectionSkippedIffEmpty | plugins/semantic-release-fragments.js:281-289 | a category is skipped exactly when it has no key, and a component writes nothing exactly when it has no item |
| FragmentRelease.SectionsInOrder | plugins/semantic-release-fragments.js:279 | the sections come in the order Breaking Changes, Features, Bugfixes, Improvements, Other |
| FragmentRelease.ReleaseBlock | plugins/semantic-release-fragments.js:275-291 | definition: the block header, then the sections in the key order of `changelogData` |
| FragmentRelease.SectionText | plugins/semantic-release-fragments.js:280-290 | definition: nothing for a category without keys, otherwise its bold title, a blank line and its components in key order |
| FragmentRelease.ComponentText | plugins/semantic-release-fragments.js:286-289 | definition: the component's entry and a newline, or nothing when the entry is empty |
| FragmentRelease.ComponentsAppend | plugins/semantic-release-fragments.js:285-290 | components are written in key order, each after the one before |
| FragmentRelease.BlockStartsWithHeader | plugins/semantic-release-fragments.js:276 | the block starts with `### Version v`, a blank line, `#### Released on: d` and a blank line |
| FragmentRelease.Release | plugins/semantic-release-fragments.js:202-308 | `main` skips exactly when there is no version or no commit, crashes exactly when a push throws, and writes the document exactly in every other case, then deleting exactly the fragment files used |
| FragmentRelease.ReleaseFromGit | plugins/semantic-release-fragments.js:121-139 | `main` from the git outputs: a failing `git log` means no commit, so nothing is written |
| FragmentRelease.ReleaseSplice | plugins/semantic-release-fragments.js:304-308 | the block is written right after the first marker, behind a blank line, and the rest is kept |
| FragmentRelease.NoMarkerDropsFragments | plugins/semantic-release-fragments.js:304-325 | without a marker the document is written back unchanged, yet the fragments are deleted |
| FragmentRelease.MissingFileSkeleton | plugins/semantic-release-fragments.js:296-308 | an unreadable document becomes the skeleton with the block after its marker |
| FragmentRelease.SkeletonSplice | plugins/semantic-release-fragments.js:300-301 | the insertion into the skeleton puts the block between the marker and the final newline |
| ReleaseNotes.SplitHeadings | scripts/update-version-mdx.js:40 | `split(/^### /gm)` gives at least one piece |
| ReleaseNotes.JoinHeadings | scripts/update-version-mdx.js:40 | joining the pieces with `### ` gives back the text: the split loses only the separators |
| ReleaseNotes.HeadingCuts | scripts/update-version-mdx.js:40 | where the split cuts: every piece but the last ends with a line terminator, except an empty first piece when the text starts with `### `; no piece holds `### ` right after a line terminator, and the first does not start with it |
| ReleaseNotes.Sections | scripts/update-version-mdx.js:39-41 | definition: the non-blank pieces of the trimmed notes split at the line-start `### ` |
| ReleaseNotes.SectionOutput | scripts/update-version-mdx.js:44-119 | definition: nothing for a section without non-blank lines; otherwise the upper-cased title line when the title is not blank, the line machine run over the other lines, and the last component written out |
| ReleaseNotes.NotesOutput | scripts/update-version-mdx.js:43-120 | definition: the outputs of the sections, in order |
| ReleaseNotes.StepLine | scripts/update-version-mdx.js:59-107 | definition: the line is trimmed; a blank one changes nothing; a component line writes out the current component and starts its own; a `- ` line joins the current component; the indented-text branch is kept, though a trimmed line never reaches it |
| ReleaseNotes.RunLines | scripts/update-version-mdx.js:59-108 | definition: `StepLine` over the lines, in order |
| ReleaseNotes.TitleLine | scripts/update-version-mdx.js:52-54 | definition: a newline, `### `, the title upper-cased, and a blank line |
| ReleaseNotes.ComponentBlock | scripts/update-version-mdx.js:67-75 | definition: `- **Name:**` with the first letter upper-cased, one tabbed line per description, and a blank line |
| ReleaseNotes.NameEnd | scripts/update-version-mdx.js:64 | `[^:*]+` runs exactly up to the first `:` or `*` |
| ReleaseNotes.ComponentLine | scripts/update-version-mdx.js:64 | a match is `* **`, a non-empty name without `:` or `*`, `:**`, white space and a one-line rest, and its groups are that name and that rest, trimmed |
| ReleaseNotes.ComponentLineSpelled | scripts/update-version-mdx.js:64-81 | `* **name:**` and a one-line description is a component line with both groups, trimmed |
| ReleaseNotes.Flushed | scripts/update-version-mdx.js:67-75 | a component without a name or without descriptions writes nothing |
| ReleaseNotes.Inline | scripts/update-version-mdx.js:81-94 | an inline description gets `- ` in front; in a breaking section one leading `- ` is dropped first; an empty one adds nothing |
| ReleaseNotes.FormattedNotes | scripts/update-version-mdx.js:122-127 | the notes are never empty: the trimmed output, or the generic entry when that is empty |
| ReleaseNotes.FormatNotes | scripts/update-version-mdx.js:39-127 | the section loop computes the formatted notes of its specification function |
| ReleaseNotes.FormatSection | scripts/update-version-mdx.js:44-119 | one section writes its upper-cased title, then its components, as its specification function does |
| ReleaseNotes.RunSection | scripts/update-version-mdx.js:59-108 | the line loop runs the state machine of its specification function over the section's lines |
| ReleaseNotes.ProcessLine | scripts/update-version-mdx.js:59-107 | one line updates `currentComponent`, `currentDescriptions` and `output` as the step of its specification function does |
| ReleaseNotes.WriteComponent | scripts/update-version-mdx.js:112-118 | a finished component writes its capitalised name, one tabbed line per description and a blank line |
| ReleaseNotes.OtherLinesDropped | scripts/update-version-mdx.js:60-107 | a line that is neither a component line nor a `- ` line is dropped; indented lines are dropped too, since lines are trimmed first |
| ReleaseNotes.PreambleDropped | scripts/update-version-mdx.js:97 | lines before the first component line leave no trace |
| ReleaseNotes.ComponentLineStarts | scripts/update-version-mdx.js:65-94 | a component line writes out the previous component and starts the new one with at most its inline description |
| ReleaseNotes.DashLineKept | scripts/update-version-mdx.js:97-99 | a `- ` line under a component is kept whole, dash included |
| ReleaseNotes.SectionStartsWithTitle | scripts/update-version-mdx.js:48-54 | a section's output starts with `\n### TITLE\n\n`, its title upper-cased |
| ReleaseNotes.RunLinesExtends | scripts/update-version-mdx.js:59-108 | the line loop only ever appends to the output |
| ReleaseNotes.BlankNotesFallback | scripts/update-version-mdx.js:124-127 | blank notes give the generic entry |
| ReleaseNotes.VersionLabel | scripts/update-version-mdx.js:130-131 | a version containing `-beta` is labelled `(Beta - Testing)`; others are used as they are |
| ReleaseNotes.ReleaseLabel | scripts/update-version-mdx.js:132-134 | a beta release date is labelled `(Beta Testing Release)`; others are used as they are |
| ReleaseNotes.IsBeta | scripts/update-version-mdx.js:130 | definition: the version contains `-beta` |
| ReleaseNotes.NewEntry | scripts/update-version-mdx.js:136-141 | definition: the block header with the version and date labels, the formatted notes and a newline |
| ReleaseNotes.UpdateVersionMdx | scripts/update-version-mdx.js:14-27 | the script exits exactly without a version or notes, and a document without the marker (a missing file included) is written back unchanged |
| ReleaseNotes.UpdateSplice | scripts/update-version-mdx.js:144-145 | the entry goes right after the first marker behind a blank line; a missing file stays empty |
| GitLogChangelog.Records | scripts/update-version-mdx-git.js:27 | the records are non-blank and hold no `|||` |
| GitLogChangelog.FieldsOf | scripts/update-version-mdx-git.js:35-36 | the subject is undefined exactly when the record has no `|` |
| GitLogChangelog.FieldsOfRecord | scripts/update-version-mdx-git.js:35-36 | `hash|subject|body` gives back the hash, the subject and the trimmed body, which may hold `|` |
| GitLogChangelog.KindPrefix | scripts/update-version-mdx-git.js:39 | the type group matches a prefix of the subject |
| GitLogChangelog.ScopeGroup | scripts/update-version-mdx-git.js:39 | the scope group captures a non-empty scope without `)`, up to its parenthesis |
| GitLogChangelog.Described | scripts/update-version-mdx-git.js:39 | `: (.+)$` matches exactly a colon, one space and a non-empty one-line description |
| GitLogChangelog.MatchSubject | scripts/update-version-mdx-git.js:39 | soundness: a match spells the subject from well-formed groups |
| GitLogChangelog.MatchSpelled | scripts/update-version-mdx-git.js:39-41 | completeness: every well-formed subject is matched with exactly its own groups |
| GitLogChangelog.MatchTail | scripts/update-version-mdx-git.js:39 | after the type group: a match spells exactly the rest of the subject, an optional `(scope)` then `: ` and the description, and keeps the type |
| GitLogChangelog.OtherTailsDropped | scripts/update-version-mdx-git.js:39 | `feat!: ...` and any type followed by neither `(` nor `:` is dropped |
| GitLogChangelog.ColonSpaceRequired | scripts/update-version-mdx-git.js:39 | the colon must be followed by one space |
| GitLogChangelog.InfoOf | scripts/update-version-mdx-git.js:42-49 | the scope gets its first letter upper-cased, or becomes `General`; the body falls back to the description; the hash is cut to seven characters |
| GitLogChangelog.Classify | scripts/update-version-mdx-git.js:34-54 | the callback throws exactly for a record without `|` |
| GitLogChangelog.ClassifyRecord | scripts/update-version-mdx-git.js:35-54 | a record is kept exactly when its subject matches, under the subject's type |
| GitLogChangelog.AddTo | scripts/update-version-mdx-git.js:51-53 | a push adds exactly one commit to the groups |
| GitLogChangelog.ThrowPersists | scripts/update-version-mdx-git.js:34-55 | once a callback has thrown, later records change nothing |
| GitLogChangelog.GroupedThrows | scripts/update-version-mdx-git.js:34-55 | the `forEach` throws exactly when some callback throws |
| GitLogChangelog.RecordsThrow | scripts/update-version-mdx-git.js:89-93 | the script falls back exactly when some non-blank record has no `|` |
| GitLogChangelog.GroupedFilters | scripts/update-version-mdx-git.js:51-53 | each group holds exactly the commits of its type, in log order |
| GitLogChangelog.DroppedRecord | scripts/update-version-mdx-git.js:40 | a record whose subject does not match adds nothing |
| GitLogChangelog.GroupCommits | scripts/update-version-mdx-git.js:34-55 | the `forEach` computes exactly the groups of its specification function |
| GitLogChangelog.SplitAtRecordEnd | scripts/update-version-mdx-git.js:27 | a record with lone pipes followed by `|||` is split off whole |
| GitLogChangelog.EmptyBodyRecords | scripts/update-version-mdx-git.js:25-27 | after an empty body the next record starts with `|` and a lone `|` is left at the end |
| GitLogChangelog.ShiftedRecordDropped | scripts/update-version-mdx-git.js:35-40 | the shifted record has the newline and the next hash as its subject and is dropped |
| GitLogChangelog.TrailingPipeDropped | scripts/update-version-mdx-git.js:35-40 | the lone `|` at the end is dropped |
| GitLogChangelog.EmptyBodyHidesNext | scripts/update-version-mdx-git.js:25-55 | of two commits the first of which has an empty body, only the first can reach a group |
| GitLogChangelog.GroupTextIff | scripts/update-version-mdx-git.js:60-79 | a section is written exactly when its group is not empty, and starts with its heading |
| GitLogChangelog.CommitsAppend | scripts/update-version-mdx-git.js:62-64 | the commits of a section are written in their order |
| GitLogChangelog.LoneFeature | scripts/update-version-mdx-git.js:58-64 | a lone feature gives the header and `### FEATURES`, then `- **S:**\n\t- text\n\n` |
| GitLogChangelog.AppendGroup | scripts/update-version-mdx-git.js:60-65 | the loop of one section appends exactly its text |
| GitLogChangelog.GroupTextSplit | scripts/update-version-mdx-git.js:61-64 | a non-empty section is its heading, then its commits |
| GitLogChangelog.RenderOutput | scripts/update-version-mdx-git.js:58-79 | the output is the header, then FEATURES, BUG FIXES and BREAKING CHANGES, in that order |
| GitLogChangelog.UpdateFromGit | scripts/update-version-mdx-git.js:12-93 | the script skips exactly without a version, falls back exactly when `git` fails or a callback throws, and leaves a document without the marker unchanged |
| GitLogChangelog.RunScript | scripts/update-version-mdx-git.js:20-88 | the script body computes the outcome of its specification function |
| GitLogChangelog.Grouped | scripts/update-version-mdx-git.js:34-55 | definition: the `forEach` as a fold: a kept record is pushed onto the array of its type, a dropped one changes nothing, and a throw ends it |
| GitLogChangelog.Output | scripts/update-version-mdx-git.js:58-79 | definition: the block header, then the FEATURES, BUG FIXES and BREAKING CHANGES sections |
| GitLogChangelog.GroupText | scripts/update-version-mdx-git.js:60-65 | definition: nothing for an empty group; otherwise `### title`, a blank line, and its commits |
| GitLogChangelog.CommitsText | scripts/update-version-mdx-git.js:62-64 | definition: the commits' texts, in order |
| GitLogChangelog.CommitText | scripts/update-version-mdx-git.js:63 | definition: `- **scope:**`, a newline, a tab, `- body` and a blank line |
| GitLogChangelog.WrittenSplice | scripts/update-version-mdx-git.js:82-84 | the block goes right after the first marker behind a blank line, and the rest is kept |
| CommitPrompt.FilteredScopes | lib/cz-custom-version.js:34-37 | of the offered scopes, exactly `none` becomes the empty scope; the others pass unchanged |
| CommitPrompt.BreakingAskedFor | lib/cz-custom-version.js:69-71 | of the offered types, the breaking question is asked for `feat` and `fix` only |
| CommitPrompt.ValidateSubject | lib/cz-custom-version.js:51-53 | the validator accepts exactly the non-empty subjects, and otherwise says `Subject is required` |
| CommitPrompt.FilterScope | lib/cz-custom-version.js:35-37 | definition: `none` becomes the empty scope; any other choice is kept |
| CommitPrompt.AsksCustomScope | lib/cz-custom-version.js:43-45 | definition: the custom scope is asked for exactly when `custom` was chosen |
| CommitPrompt.AsksBreaking | lib/cz-custom-version.js:69-71 | definition: breaking changes are asked for exactly for `feat` and `fix` |
| CommitPrompt.EffectiveScope | lib/cz-custom-version.js:100 | definition: the custom scope when it is not empty, otherwise the chosen one |
| CommitPrompt.OrElse | lib/cz-custom-version.js:100 | `customScope || scope` is the custom scope when it is non-empty, otherwise the scope |
| CommitPrompt.ScopeText | lib/cz-custom-version.js:101 | the parenthesised scope is empty exactly for an empty scope |
| CommitPrompt.Segment | lib/cz-custom-version.js:111-114 | a non-empty segment is preceded by two separators; an empty one is left out |
| CommitPrompt.BreakingText | lib/cz-custom-version.js:111 | the breaking segment is written only for a non-empty answer |
| CommitPrompt.Escape | lib/cz-custom-version.js:107 | the global replace starts with a separator |
| CommitPrompt.EscapeRoundTrip | lib/cz-custom-version.js:107 | the replace loses nothing: the text can be read back from its result |
| CommitPrompt.EscapeKeepsPipes | lib/cz-custom-version.js:140 | the replace keeps every `|`, and adds none |
| CommitPrompt.EscapeChars | lib/cz-custom-version.js:107 | the replace adds only backslashes and `n`s |
| CommitPrompt.MessageBody | lib/cz-custom-version.js:103-109 | without Version.mdx content the body is the answer; with it the body ends with `Version.mdx:`, a separator and the escaped content, and starts with the answer and two separators exactly when the answer is not empty; the length leaves nothing else |
| CommitPrompt.Header | lib/cz-custom-version.js:100-102 | definition: the type, the parenthesised scope when it is not empty, `: ` and the subject |
| CommitPrompt.CommitMessage | lib/cz-custom-version.js:114 | definition: the header, then the message body, the breaking change and the footer, each after two separators when not empty |
| CommitPrompt.ContentReadBack | lib/cz-custom-version.js:103-114 | the message is the one without content, with a `Version.mdx:` segment after the body answer whose text reads back to the content |
| CommitPrompt.MessageStartsWithHeader | lib/cz-custom-version.js:114 | the message starts with `type(scope): subject`, and is that alone when every optional part is empty |
| CommitPrompt.NoBreakingForOtherTypes | lib/cz-custom-version.js:69-71 | for a type other than `feat` and `fix` no breaking segment is written |
| CommitPrompt.ScopeOfPrompt | lib/cz-custom-version.js:43-45 | a custom scope replaces `custom` when answered; an empty one leaves `(custom)` |
| CommitPrompt.MessageIsOneLine | lib/cz-custom-version.js:107-114 | the message holds no newline the answers did not hold |
| CommitPrompt.PreviewMatchesMessage | lib/cz-custom-version.js:81-89 | the confirmation preview is the committed message without the Version.mdx content |
| CommitPrompt.ConfirmMessage | lib/cz-custom-version.js:81-89 | definition: the question, two separators, and the message built from the answers without the Version.mdx content |
| CommitPrompt.TrimmedLines | lib/cz-custom-version.js:142-143 | trimming and filtering leave only non-empty lines |
| CommitPrompt.VisibleChar | lib/cz-custom-version.js:139-144 | each surviving piece is one character of the content, neither white space nor a backslash |
| CommitPrompt.SplitEscape | lib/cz-custom-version.js:140-141 | splitting the replaced text at the separator gives one piece per character between two empty ones |
| CommitPrompt.TrimmedPieces | lib/cz-custom-version.js:142-143 | the trimmed, non-empty pieces are the visible characters |
| CommitPrompt.FormattedIsCharacters | lib/cz-custom-version.js:139-144 | the formatted content is the visible characters, one per line, joined by separators |
| CommitPrompt.PipeNotSplit | lib/cz-custom-version.js:140 | `a|b` becomes `a`, `|` and `b`, each on its own line |
| CommitPrompt.FormattedHasNoSpace | lib/cz-custom-version.js:139-144 | the formatted content holds no white space |
| CommitPrompt.NewEntryChars | lib/cz-custom-version.js:147 | the entry adds no `$` and no newline to the formatted content |
| CommitPrompt.FormatVersionContent | lib/cz-custom-version.js:139-144 | definition: the global replace, a split at the separator, each piece trimmed, the empty ones dropped, joined by separators |
| CommitPrompt.NewEntry | lib/cz-custom-version.js:147 | definition: two separators, the `Version (Upcoming)` heading, two separators, the `Released on: tbd` line, two separators, the formatted content and a separator |
| CommitPrompt.EntryInert | lib/cz-custom-version.js:147-149 | every `$` the entry can hold is followed by a backslash, so `replace` expands none of them |
| CommitPrompt.UpdateVersionMdx | lib/cz-custom-version.js:126-160 | nothing happens without the file, and a document without the marker is unchanged |
| CommitPrompt.UpdateSplice | lib/cz-custom-version.js:149 | whatever the content, the entry goes right after the first marker, written literally |
| CommitPrompt.EntryIsOneLine | lib/cz-custom-version.js:147 | the entry lands on the marker's own line |
| CommitPrompt.Prompter | lib/cz-custom-version.js:93-122 | without confirmation nothing happens; otherwise the message is committed, and the document is updated exactly when content was given and the file exists |

## Left out

- I/O is not modelled. The model takes the results of the following as parameters:
  - `execSync` (`git describe`, `git log`, `git diff-tree`);
  - `fs` reads, `existsSync` and `process.env`/`process.argv`;
  - `new Date()`.
- The effects are modelled as the text written and the set of files deleted. Actually writing and unlinking, `git add`, `process.exit` and console output are not modelled.
- A failing `fs.writeFile` or `unlink` in `main` (plugins/semantic-release-fragments.js:310-325) is not modelled. The first ends the run with exit code 1; the second only logs a warning.
- The staging at plugins/semantic-release-fragments.js:328-343 is left out. This includes the `.catch` called on the result of `execSync`, which throws inside the `try` and is only logged.
- The fallback `require('./update-version-mdx.js')` at scripts/update-version-mdx-git.js:92 is modelled only as the outcome `Fallback`. The fallback script is modelled separately, as `ReleaseNotes`.
- The `git describe` call and the range it selects are part of the `git log` output taken as input.
- The scrubbing replacements at scripts/update-version-mdx.js:30-36 are left out because they need full backtracking regular expressions: the heading, the commit hashes, the lazy Markdown links, the ticket numbers and the empty parentheses. `ReleaseNotes.UpdateVersionMdx` takes the notes after those replacements.
- `cz.prompt` and its user interface are left out, and so are the `default: true` of the confirmation and the `commit` callback. The answers are a record, and the outcome is the message committed.
- The unused `today` in lib/cz-custom-version.js:146 is left out.
- A failing write or `git add` in `updateVersionMdx` (lib/cz-custom-version.js:150-158) is not modelled; it only logs a warning.
- The concurrency of `async` fragment reads is not modelled. The reads are independent, so they are a sequence in commit order.
- Strings are sequences of Unicode scalar values, not UTF-16 code units. `toUpperCase` maps ASCII letters only. `trim` and `\s` use the ECMA-262 white-space set.
- `summary` and `details` of a fragment are carried in each entry but never rendered, as in the source.
- FragmentRelease.Release: requires that no component name is integer-like, that is a canonical decimal array index below 2^32 − 1. JavaScript lists such keys first, in numeric order, and the model keeps first-insertion order only.
- FragmentRelease.ReleaseFromGit: has the same requirement, for the same reason.
- ReleaseNotes.UpdateSplice: requires an entry without `$`. GetSubstitution is modelled in `JsString.Substitute`, but the splice lemma states the literal insertion only.
- FragmentRelease.ReleaseSplice: requires a block without `$`, for the same reason.
- FragmentRelease.MissingFileSkeleton: requires a block without `$`, for the same reason.
- GitLogChangelog.WrittenSplice: requires a block without `$`, for the same reason.
