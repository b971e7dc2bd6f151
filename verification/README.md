# Cross-version reconciliation of `setParameter` help texts

This project models the core of the `crunch` command (`cmd/crunch/main.go`).
The command walks a corpus of per-version MongoDB command catalogs, one
directory per version named `MAJOR.MINOR.PATCH`. For each version it takes the
help text of the `setParameter` command and extracts the tunable parameters
listed after the marker `supported:\n` (or the older `supported so far:\n`).
Versions whose help texts have the same digest are grouped into one
*epoch* (`MongoMatch`). An epoch records:

- its first and last versions and every version in it;
- the version processed just before it opened;
- the parameters added and removed relative to that version;
- its parameter count.

The epochs are written out as one JSON object, keyed by digest, in the order
the digests were first met.

Modules, following the program's structure:

- `Text`: Go's `strings.Cut`, `strings.Split` on a one-character separator, and `strings.TrimSpace` with `unicode.IsSpace`.
- `Order`: the order of `sort.Strings`, and sorting into a strictly ascending list without repeats.
- `Diff`: `diffParams`.
- `Extract`: the marker search and the cleaning of parameter lines (lines 75-90).
- `Corpus`: the version-name pattern, loading the catalogs by name, and the ascending walk order (lines 17-26, 48-63).
- `Reconcile`: the `MongoMatch` epoch, the outcome of one version (`Extraction`: skipped, or its digest and parameters), one iteration of the loop (`Step`), and the loop as a left fold of `Step` over the outcomes (`Fold`).
  - `Describes` is an independent, declarative description of the report, stated in terms of the list of versions that could be processed.
  - `WalkDescribes` proves that the loop reaches exactly that report.
- `Report`: assembly of the output text (lines 114-128), both as written and corrected (see Findings).
- `Scenarios`: a worked three-version corpus.

The md5-and-hex digest is a parameter `digest: string -> string`. No property of it is assumed: two different texts may collide, and then the model merges them just as the program would. JSON marshalling of one epoch is also a parameter, `marshal: Epoch -> string`.

Two behaviours of the code are worth stating explicitly, since a reader might expect otherwise:

- Versions are walked in `sort.Strings` order, the plain string order, so "10.0.0" comes before "2.0.0". A numeric order of the three components would put them the other way round.
- A digest that recurs after a different one adds to its first epoch, even when the versions in between had other digests. It does not open a second epoch under the same key, so an epoch is not always a contiguous run of versions. `EpochOf` makes this explicit: an epoch's versions are all processed versions with that digest.

## Model

| member | source | states |
|---|---|---|
| `Text.Cut` | cmd/crunch/main.go:75-77 | `None` exactly when the marker does not occur. Otherwise the text is before + marker + after, and the marker does not occur earlier than the split point (split at the FIRST occurrence). |
| `Text.Split` | cmd/crunch/main.go:84 | Always at least one piece. No piece contains the separator. Re-joining the pieces with the separator gives back the input. |
| `Text.SplitJoin` | cmd/crunch/main.go:84 | Splitting a join of separator-free pieces returns exactly those pieces (the inverse direction of the round trip). |
| `Text.TrimSpace` | cmd/crunch/main.go:85 | The result starts and ends with a non-space character (or is empty). It is an infix of the line with only Unicode white space before and after it. |
| `Text.TrimSpaceOfTrimmed` | cmd/crunch/main.go:85 | Trimming a line that has no surrounding white space leaves it unchanged (idempotence on results). |
| `Order.LessIsLexicographic` | cmd/crunch/main.go:63 | `Less`, the comparison `sort.Strings` sorts by, holds exactly when the first string is a proper prefix of the second, or has the smaller character at the first position where the two differ. |
| `Order.SortDistinct` | cmd/crunch/main.go:201-202 | The result is strictly ascending in `sort.Strings` order and has exactly the members of the input. |
| `Order.SortedUnique` | cmd/crunch/main.go:201-202 | Two strictly ascending lists with the same members are equal, so the sorted output does not depend on Go's map iteration order. |
| `Diff.DiffParams` | cmd/crunch/main.go:182-204 | `added` holds exactly the parameters in the new list and not in the old; `removed` holds exactly the converse. Both are strictly ascending. |
| `Diff.DiffDistinctAndDisjoint` | cmd/crunch/main.go:182-204 | Neither list repeats a parameter, and no parameter is both added and removed. |
| `Diff.DiffDependsOnlyOnMembers` | cmd/crunch/main.go:183-190 | Reordering or repeating parameters in either input leaves the diff unchanged, since both are collected into sets first. |
| `Diff.DiffOfPermutationIsEmpty` | cmd/crunch/main.go:182-204 | A list diffed against any permutation of itself yields no added and no removed parameters. |
| `Diff.Missing` | cmd/crunch/main.go:191-200 | The kept elements are exactly those of the first list absent from the second. |
| `Extract.CleanLines` | cmd/crunch/main.go:84-90 | No more lines than went in. Every kept line is non-empty with no surrounding white space. |
| `Extract.CleanLinesMembers` | cmd/crunch/main.go:84-90 | The kept lines are exactly the non-blank ones among the lines with their surrounding white space removed. |
| `Extract.CleanLine` | cmd/crunch/main.go:85-89 | A single line is dropped when it trims to the empty string, and otherwise kept as its trimmed text. |
| `Extract.CleanLinesAppend` | cmd/crunch/main.go:84-90 | Lines are cleaned one at a time and in order: the result for two stretches of lines is the result for each, one after the other. With `CleanLine`, this fixes the whole result. |
| `Extract.ParamLines` | cmd/crunch/main.go:83-90 | The parameters of the text after a marker are exactly the non-blank lines of that text, split at line breaks, with white space removed. |
| `Extract.ExtractParams` | cmd/crunch/main.go:75-90 | The version is skipped (`None`) exactly when neither marker occurs in the help. Otherwise every extracted parameter is non-empty and trimmed. |
| `Extract.ExtractAfterMarker` | cmd/crunch/main.go:75 | When `supported:\n` first occurs after some prefix, the parameters come from the text after it, whatever the legacy marker does. |
| `Extract.ExtractAfterLegacyMarker` | cmd/crunch/main.go:76-77 | Without `supported:\n`, the parameters come from the text after the first `supported so far:\n`. |
| `Extract.CleanLinesKeepsParams` | cmd/crunch/main.go:84-90 | Lines that are already trimmed and non-empty pass through unchanged and in order. |
| `Extract.ParamLinesRoundTrip` | cmd/crunch/main.go:83-90 | N parameter lines, each ending in a line break, extract to exactly those N parameters in order. So the parameter count is the number of listed lines. |
| `Corpus.IsVersionName` | cmd/crunch/main.go:26 | A version name has at least five characters, and all of them are ASCII digits or dots. |
| `Corpus.VersionNameOfParts` | cmd/crunch/main.go:26 | Any three non-empty ASCII digit runs joined by dots form a version name. |
| `Corpus.VersionNameIsParts` | cmd/crunch/main.go:26 | Every version name is three non-empty ASCII digit runs joined by two dots. |
| `Corpus.LoadCorpus` | cmd/crunch/main.go:48-57 | The corpus keys are exactly the entry names that match the version pattern. Each maps to the catalog of an entry with that name. |
| `Corpus.VersionOrder` | cmd/crunch/main.go:59-63 | Strictly ascending in `sort.Strings` order, and holds exactly the corpus versions. |
| `Corpus.Snapshots` | cmd/crunch/main.go:59-70 | One snapshot per corpus version. The versions are strictly ascending and all match the pattern. Each snapshot carries its version's catalog. |
| `Reconcile.Extraction` | cmd/crunch/main.go:70-93 | A version is skipped exactly when it has no `setParameter` command or its help has neither marker. A processed version keeps its name. Its key is the digest of its raw `setParameter` help text, and its parameters are the ones extracted from that text. |
| `Reconcile.Outcomes` | cmd/crunch/main.go:69-93 | The walk yields exactly one outcome per version, in walk order. `Reconcile.OutcomeAt` states which outcome each one is. |
| `Reconcile.OutcomeAt` | cmd/crunch/main.go:69-93 | The outcome at each position of the walk is the outcome of the version at that position. |
| `Reconcile.NewEpoch` | cmd/crunch/main.go:96-103 | A new epoch starts and ends at its version and lists only that version. Its previous version is the last processed one. Its count is the number of its parameters. It adds exactly the parameters that are new relative to the last version's, and removes exactly those that are gone. |
| `Reconcile.Step` | cmd/crunch/main.go:69-111 | A skipped version leaves the state unchanged. Otherwise the version and its parameters become the last ones, and the new key set is the old one plus this digest, with other epochs untouched. A new digest opens an epoch with min = max = this version, versions = [this version], previous = the last version, added/removed = the diff against the last parameters and count = the number of parameters, and is appended to `matchOrder` once. A seen digest only gains this version in `allVersions` and as `maxVersion`, and `matchOrder` is unchanged. |
| `Reconcile.Fold` | cmd/crunch/main.go:69-112 | The loop only appends to `matchOrder` and never drops a key from the map. Every processed version's digest ends up as a key. |
| `Reconcile.SkippedVersionChangesNothing` | cmd/crunch/main.go:70-82 | Inserting a skipped outcome anywhere among the outcomes, from any starting state, does not change the final state. |
| `Reconcile.OutcomesAppend` | cmd/crunch/main.go:69-82 | Each version's outcome depends on that version alone: the outcomes of two stretches of versions are the outcomes of each, one after the other. |
| `Reconcile.SkippedSnapshotChangesNothing` | cmd/crunch/main.go:69-82 | A version without a `setParameter` command, or whose help has neither marker, can be removed from anywhere in the walk without changing the final state. |
| `Reconcile.FirstSeen` | cmd/crunch/main.go:105 | The reference order lists each digest once and holds exactly the digests that occur. |
| `Reconcile.EpochOfSnocSeen` | cmd/crunch/main.go:106-109 | In the reference description, one more version with an already seen digest extends only that epoch's versions and maximum. Every other epoch is unchanged. |
| `Reconcile.EpochOfSnocNew` | cmd/crunch/main.go:95-105 | In the reference description, a first-seen digest opens its epoch at that version, diffed against the last processed version. |
| `Reconcile.WalkDescribes` | cmd/crunch/main.go:65-112 | The loop's final state equals the declarative description. The last version and parameters are those of the last processed version. `matchOrder` is the digests by first occurrence. The keys are exactly the processed digests. Each epoch opens at its digest's first version, diffed against the version before it, and holds all versions with that digest. |
| `Reconcile.MatchOrderIsFirstSeen` | cmd/crunch/main.go:94-105 | `matchOrder` and the map hold exactly the processed digests. `matchOrder` has no repeats and orders digests by their first occurrence. |
| `Reconcile.ProcessedInItsEpoch` | cmd/crunch/main.go:92-109 | Every processed version is listed in the epoch of its own digest. |
| `Reconcile.SameHelpSameEpoch` | cmd/crunch/main.go:92-109 | Two processed versions with identical `setParameter` help texts are both listed in one epoch, the one keyed by the digest of that text. |
| `Reconcile.ExtractedAscending` | cmd/crunch/main.go:69 | The processed versions are a strictly ascending subset of the walked versions. |
| `Reconcile.EpochVersionsAscending` | cmd/crunch/main.go:96-108 | Every epoch's version list is non-empty and strictly ascending, with `minVersion` its first and `maxVersion` its last element. The previous version, when set, comes strictly before `minVersion`. |
| `Reconcile.DescribesStep` | cmd/crunch/main.go:94-111 | One iteration on a processed version keeps the loop state equal to the declarative description of the versions processed so far, extended by that version. |
| `Reconcile.OutcomeVersions` | cmd/crunch/main.go:69-82 | The outcome at each position, when not skipped, carries the version walked at that position. |
| `Reconcile.ProcessedAscending` | cmd/crunch/main.go:69-82 | Dropping skipped versions from a strictly ascending walk leaves a strictly ascending list. |
| `Reconcile.WalkAscending` | cmd/crunch/main.go:65-112 | A walk over strictly ascending versions leaves every epoch with the ascending shape: non-empty versions, `minVersion` first, `maxVersion` last, previous version earlier. |
| `Reconcile.FoldWellShaped` | cmd/crunch/main.go:65-112 | When the processed versions ascend, `matchOrder` lists every key of the map exactly once, and every epoch has the ascending shape. |
| `Reconcile.Reconciled` | cmd/crunch/main.go:59-112 | For a whole corpus, `matchOrder` lists every key of the map exactly once, and every epoch has the ascending shape. |
| `Reconcile.ReconciledDescribes` | cmd/crunch/main.go:59-112 | For a whole corpus walked in `sort.Strings` order, the final state is the declarative description of the corpus versions that could be processed. |
| `Reconcile.ReconciledAscending` | cmd/crunch/main.go:59-112 | For a whole corpus, every epoch has the ascending shape, with minimum and maximum its first and last versions. |
| `Report.EntryText` | cmd/crunch/main.go:117-124 | A member starts with the quoted digest, a colon and a space. For a digest in the map, the rest is exactly that epoch's marshalled text. |
| `Report.Entries` | cmd/crunch/main.go:117-124 | One member per digest of `matchOrder`, in that order. |
| `Report.ReconciledEntries` | cmd/crunch/main.go:117-124 | For a whole corpus, every digest of `matchOrder` is in the map, so each member is the quoted digest followed by a marshalled epoch and never `null`. |
| `Report.Buffer` | cmd/crunch/main.go:116-125 | The buffer always opens with `{\n`. With at least one member, it is at least four characters long and ends in the `,\n` that the finishing step overwrites. |
| `Report.BufferFraming` | cmd/crunch/main.go:116-125 | With at least one member, the buffer is `{\n`, then the members joined by `,\n`, then a trailing `,\n`. |
| `Report.FinishAsWritten` | cmd/crunch/main.go:126-128 | Finishing keeps the buffer's length and all but its last two characters, and makes those two `\n}`. |
| `Report.RenderAsWritten` | cmd/crunch/main.go:114-128 | The program's text always ends in `\n}`. It opens with `{\n` only when there is at least one member, and is just `\n}` when there is none. |
| `Report.RenderAsWrittenFraming` | cmd/crunch/main.go:114-128 | With at least one member, overwriting the trailing `,\n` gives `{\n`, the members joined by `,\n`, then `\n}`. |
| `Report.RenderAsWrittenEmpty` | cmd/crunch/main.go:126-128 | With no member, the program's text is `\n}`, not the framed empty object. |
| `Report.Render` | cmd/crunch/main.go:114-128 | The corrected text is always `{\n` + members + `}`, and equals the program's text whenever there is at least one member. |
| `Report.RunAsWritten` | cmd/crunch/main.go:38-128 | End to end, as written: the framed object of the members for the reconciled `matchOrder` when some version was processed, and `\n}` when none was. |
| `Report.Run` | cmd/crunch/main.go:38-128 | End to end, repaired: always the framed object of the members for the reconciled `matchOrder`, and equal to the program's text whenever some version was processed. |
| `Report.EmptyRootReport` | cmd/crunch/main.go:114-128 | For an empty corpus root, the program writes `\n}`, and the repaired report is `{\n}`. |
| `Scenarios.ParamsOf` | cmd/crunch/main.go:75-90 | A help text `supported:\n<x>\n<y>\n` yields exactly the parameters [x, y]. |
| `Scenarios.SwapDiff` | cmd/crunch/main.go:182-204 | Going from [a, b] to [a, c] adds exactly [c] and removes exactly [b]. |
| `Scenarios.TwoEpochs` | cmd/crunch/main.go:65-112 | Versions v1 and v2 with one help text and v3 with a text swapping b for c yield two epochs, in this order: [v1, v2], which adds a and b against the empty start, and [v3], whose previous version is v2 and which adds c and removes b. |

## Left out

- Reading the corpus root and version directories, and decoding the per-command JSON files (`loadMongoCommands`, `loadMongoCommandHelp`, lines 144-180). The model starts from the directory entries with their catalogs already loaded.
- The fatal paths: wrong argument count, an unreadable root directory, a version directory that cannot be loaded, a marshalling failure and an unwritable output file. These are I/O failures outside the model.
- Writing `matches.json` and all logging (lines 58, 72, 79, 130-139). Logging has no effect on the result.
- md5 and hex encoding: the digest is an arbitrary function parameter.
- JSON marshalling of an epoch, including `omitempty` and indentation. The marshaller is a parameter, and only the framing of the object is modelled.
- The `apiVersions` and `deprecatedApiVersions` fields of a command's help. They are decoded but never read by the reconciliation.
- Report.Run: writes the repaired empty object `{\n}` when no version is processed, where the program writes `\n}`. The program's own text is `Report.RunAsWritten` (see Findings).
- Report.Run: an entry for a digest missing from the map would marshal as `null`. This cannot happen, because every digest in `matchOrder` is a key of the map (`Report.ReconciledEntries`).
- The separate `cmd/dump` collector that produces the corpus. It is not part of this model.

## Findings

| source | as written | input that shows it | evidently intended | confidence | as-written member | corrected member |
|---|---|---|---|---|---|---|
| cmd/crunch/main.go:126-128 | The last two bytes of the buffer are always overwritten with `\n}`, assuming they are a trailing `,\n`. | A corpus in which no version has a `setParameter` help with a marker, so `matchOrder` is empty. The buffer is then just `{\n`, which becomes `\n}`. That is not a JSON object. | An empty object `{\n}` | not executed | `Report.EmptyRootReport` | `Report.Run` |
