# fpm component engine — a Dafny model

This project models the component engine of `fpm`, a command-line package manager for
Flashpoint components, as written in `main.go`. The engine does five things:

- It turns the nested manifest (`list`/`category`/`component` elements) into a flat
  catalog. Each component gets a dash-joined ID, a download URL, and a local state read
  from its installation record: downloaded, outdated, and the old size.
- It resolves user tokens against the catalog. A token names a component ID or a category
  prefix. The engine expands dependencies into a deduplicated work queue.
- It plans the `download`, `remove`, `update` and `list` commands.
- It extracts a component's archive into its directory under the installation base. A
  zip-slip check requires each entry's cleaned path to start with the cleaned directory
  followed by `/`. That rejects escaping entries for every absolute directory other than
  `/`, but not in general (see Findings). The model runs the extraction under either the
  check as written or the intended containment check (`Install.Guard`).
- It writes the installation record (`hash size deps` followed by one relative path per
  file), and reads that record back when it removes or reloads the component.

Every operation is a pure function over immutable data. The XML document is given as an
already-parsed tree of `Node`s. The file system is given as the first lines of the
records that exist, and the archive as its list of entries. Go's `filepath.Join` and
`filepath.Clean` are modelled on slash-separated paths (`Paths.Clean`, `Paths.JoinPath`).
Go's `strconv.ParseInt` (base 10, 64 bits) and the `%d` verb are modelled in `Numbers`.
Strings are sequences of code points; where the program measures bytes (the 64 KiB line
limit of `bufio.Scanner`), the length is the UTF-8 length `Strings.Utf8Len`.

Modules, in dependency order:

- `Options`, `Strings`, `Seqs`, `Numbers`: the Go library behaviour used here. This covers
  `strings.Split`/`Join`/`TrimSpace`/`HasPrefix`, `ParseInt`, and subsequences.
- `Components`: the component record, the matching rule, and the `core-` prefix.
- `Catalog`: `findComponents` and `unique`.
- `Manifest`: `parseNodes`, `getAttr`, the repository URL, and the staleness header.
- `Records`: the installation record as written by `downloadComponent` and read by
  `parseNodes` and `removeComponent`.
- `Resolver`: `resolveQueue`.
- `Planners`: the `download`, `remove` and `list` plans.
- `Updates`: the `update` plan, both targeted and untargeted.
- `Paths`: path cleaning, joining and the zip-slip check.
- `Install`: `downloadComponent` after the archive is opened.

## Model

| member | source | states |
|---|---|---|
| Components.MatchesNested | main.go:613-621 | a component inside category `b`, where `b` is itself inside category `c`, is matched by token `c` |
| Components.CategoryBoundary | main.go:616 | `core-server` matches itself and `core-server-gamezip`, but not `core-serverX` |
| Components.DistinctIdsDetermine | main.go:623-633 | in a list with distinct IDs, an entry is determined by its ID |
| Catalog.Find | main.go:613-621 | the matches are exactly the catalog entries equal to the token or below it as a category |
| Catalog.FindExact | main.go:613-621 | every matching entry is kept with its multiplicity, and the matches keep catalog order (subsequence) |
| Catalog.UniqueSpec | main.go:623-633 | `unique` has distinct IDs, loses no ID, and is a subsequence of its input |
| Catalog.UniqueKeepsFirstOccurrences | main.go:623-633 | `unique` keeps exactly the first entry of each ID, in order (equal to an independent snoc definition) |
| Catalog.UniqueFromDistinct | main.go:623-633 | a list whose IDs are already distinct is returned unchanged |
| Catalog.UniqueIdempotent | main.go:623-633 | applying `unique` twice equals applying it once |
| Manifest.FirstAttr | main.go:563-570 | the value is that of the first attribute with the name, and absent exactly when no attribute has it |
| Manifest.RepoBase | main.go:473-482 | the base URL is empty only without a `url` attribute; otherwise it ends in `/`: it is the attribute itself when that already ends in `/`, and the attribute with one `/` added when it does not |
| Manifest.FullId | main.go:497-505 | below an empty parent the ID is the node's own; below a non-empty parent it is the parent or lies under it as a category |
| Manifest.FullIdExtendsPath | main.go:497-505 | each step of the ID computation equals dash-joining the non-empty IDs of the path |
| Manifest.WalkBuildsPathIds | main.go:491-561 | `parseNodes` gives every component the dash-join of the non-empty IDs on its path (independent path-based walk) |
| Manifest.Walk | main.go:491-561 | every parsed component's URL is the base URL, its ID and `.zip`; none is outdated without being downloaded; all lie under the parent ID |
| Manifest.ParseManifest | main.go:467-487 | every component's URL is built from the root's base URL |
| Manifest.MakeComponent | main.go:507-554 | ID and URL as built; no dependencies for an empty `depends` attribute, otherwise dependencies that joined with single spaces give back the attribute and contain no space; install and download sizes are the parsed 64-bit values, 0 when the attribute does not parse; downloaded exactly when a record exists; outdated only when downloaded |
| Manifest.MakeComponentSizes | main.go:520-525 | a size attribute holding the decimal rendering of a 64-bit value gives the component that size |
| Manifest.Classify | main.go:531-551 | downloaded iff the record exists; outdated only when downloaded; old size 0 unless outdated, and always a 64-bit value |
| Numbers.ParseInt64 | main.go:517-525 | a successful parse is a 64-bit value; a range error carries one of the two 64-bit bounds, and the value returned is always a 64-bit value |
| Numbers.ParseFormatInt | main.go:545 | parsing the `%d` rendering of a 64-bit integer gives that integer back |
| Numbers.ScanNatDigits | main.go:545 | scanning the decimal digits of a natural number below 2^64 gives that number |
| Strings.SplitJoin | main.go:720 | splitting a join on a separator that no part contains gives back the parts |
| Strings.JoinSplit | main.go:735 | joining the parts of a split with its separator gives back the string |
| Strings.SplitAround | main.go:541 | splitting around one separator is the concatenation of the two splits |
| Strings.SplitFieldCount | main.go:540-541 | a split has at least two fields iff the separator occurs in the string |
| Strings.SplitFirst | main.go:540-542 | the first field of a split is the text before the first separator |
| Manifest.ClassifyOutdated | main.go:540-546 | a record's first line marks the component outdated iff it contains a space and the text before the first space differs from the manifest hash |
| Strings.TrimSpace | main.go:738 | the result is the input minus its leading and trailing white space, and neither end is white space |
| Records.HeaderFields | main.go:676 | for a hash without space or line break and dependency IDs without line break, the header is one line whose first two space-separated fields are the hash and the decimal install size |
| Records.RecordStalenessRoundTrip | main.go:536-548 | for a hash without space or line break and dependency IDs without line break, reading back a record written as at main.go:676-720, whose header is shorter than the scanner's 64 KiB limit, marks the component downloaded, outdated iff the manifest hash differs, with the recorded size as old size |
| Records.RecordHeaderTooLong | main.go:538-540 | for a hash without space or line break and dependency IDs without line break, a header of 64 KiB or more is never read back by the scanner: the component is downloaded and not outdated whatever the manifest hash |
| Records.RecordRemovalRoundTrip | main.go:735-743 | removal reads back, from a record joined as at main.go:720, exactly the recorded paths, given one-line paths without surrounding space |
| Records.RecordSpacedHashOutdated | main.go:540-546 | a hash containing a space, written into the header as at main.go:676, marks the component outdated on every reload, even against the same manifest hash |
| Records.DependsLineBreakAddsTarget | main.go:735-742 | a dependency ID `pre` + line break + `post`, written into the header as at main.go:676, makes removal read `post` as one more path to delete, before the recorded paths |
| Records.NonBlankIsFilter | main.go:737-742 | the removal targets are the trimmed lines with the blank ones dropped, in order and with repetitions (equal to a filter over the trimmed lines) |
| Records.NonBlankMembers | main.go:737-742 | a path is a removal target iff some line trims to it and it is not blank |
| Resolver.AddTokens | main.go:576-608 | the walk only grows its state; every component matching a token is visited; an unmatched token is reported; completeness is kept |
| Resolver.ResolveSound | main.go:572-611 | the queue holds only catalog entries meeting the criterion, with distinct IDs, and `unique` changes nothing |
| Resolver.ResolveClosed | main.go:584-596 | with distinct IDs, the queue is closed under dependencies and holds every requested match that meets the criterion |
| Resolver.ResolveAllWithoutArgs | main.go:599-603 | with no arguments and distinct IDs, the queue is exactly the catalog entries meeting the criterion |
| Resolver.ResolveReportsMissing | main.go:576-604 | a token is reported missing iff it matches nothing and is either requested or a dependency of a queued component |
| Resolver.ResolveJustified | main.go:584-596 | every queued component matches a requested token or a dependency of an earlier queued component |
| Planners.DownloadPlanSpec | main.go:233-236 | the download queue holds only not-downloaded components, with distinct IDs; with no arguments it holds all of them; requested matches are included |
| Planners.SortMatches | main.go:276-283 | a match is queued iff it is downloaded, and reported iff it is not |
| Planners.CollectRemovalsSpec | main.go:270-284 | a component is queued iff it is downloaded and matched by some argument; the notices name exactly the unmatched arguments and the matched components that are not downloaded |
| Planners.RemovePlanSpec | main.go:266-285 | the removal queue has distinct IDs, is sound, and covers every downloaded match (every entry, when catalog IDs are distinct) |
| Planners.CollectRemovalsAppend | main.go:270-284 | planning `a + b` is planning `a` followed by planning `b` |
| Planners.RemoveIgnoresUnmatched | main.go:271-275 | an unmatched argument adds only its notice and leaves the queue unchanged |
| Planners.RemoveNeverDownloaded | main.go:276-279 | a token whose matches are all not downloaded plans nothing and reports something |
| Planners.ParseListArgs | main.go:150-159 | verbose iff some argument is `verbose` |
| Planners.ParseListArgsFilter | main.go:150-159 | the filter is the last argument other than `verbose`, or empty when every argument is `verbose` |
| Planners.Listed | main.go:166-175 | a component is listed iff the filter shows it, in catalog order |
| Planners.Marker | main.go:177-184 | `!` iff downloaded and outdated, `*` iff downloaded and current, blank iff not downloaded |
| Planners.ListLineShape | main.go:186-189 | a line is the marker, a space and the ID, plus ` (title)` exactly when verbose |
| Planners.ListLinesSpec | main.go:166-191 | one line per shown component, in order, each naming its component |
| Updates.UpdTokens | main.go:313-352 | the targeted walk only grows its state; visits every match; reports unmatched explicit tokens; keeps completeness |
| Updates.UpdateTargetedSound | main.go:310-365 | a targeted plan updates only downloaded outdated components and downloads only missing ones, with distinct IDs and no work done by `unique` |
| Updates.PlanIsWalk | main.go:366-367 | with arguments, deduplicating the queues leaves the walk's queues and notices unchanged |
| Updates.WalkRequestedCovered | main.go:350-352 | with distinct IDs, the walk updates every outdated component an argument matches |
| Updates.WalkDependenciesCovered | main.go:341-345 | with distinct IDs, every outdated dependency of an update is updated, and every missing one is downloaded unless an argument names it |
| Updates.WalkComplete | main.go:323-347 | with distinct IDs, every visited outdated component is updated, and every visited missing one is downloaded or reported |
| Updates.UpdateTargetedClosed | main.go:323-352 | every requested outdated match is updated; each dependency of an update is updated if outdated, and downloaded if missing, unless an argument also names it |
| Updates.WalkJustified | main.go:313-352 | the walk's downloads, updates and notices are all justified by arguments or by dependencies of updates |
| Updates.UpdateTargetedJustified | main.go:313-352 | downloads come only from dependencies of updates; updates from arguments or dependencies; every notice is accurate; every unmatched argument is reported |
| Updates.UpdateAllSpec | main.go:354-365 | an untargeted update updates exactly the downloaded outdated components and downloads exactly the missing `core-` ones, without notices |
| Updates.UpdateOrderMatters | main.go:323-347 | argument order changes the plan: `app lib` downloads the dependency `lib`; `lib app` reports it and does not download it |
| Updates.UpdateAllRequiredPrefix | main.go:360-362 | a missing component named `core` is not downloaded by an untargeted update; a missing `core-audio` is |
| Paths.ReduceCanonical | main.go:687 | cleaning a path's segments first does not change where they lead |
| Paths.StackOfRender | main.go:690 | a cleaned path cleans to itself (render, then stack, is the identity) |
| Paths.RenderPrefix | main.go:690 | one cleaned path starts with another plus `/` iff the other is non-empty and a strict segment prefix of it |
| Paths.ZipSlipSegments | main.go:687-690 | the check as written passes iff the destination has segments and the entry's segments strictly extend them |
| Paths.ZipSlipAgrees | main.go:687-690 | when the destination has segments and no `..`, the check as written is the intended containment |
| Paths.ZipSlipAgreesRooted | main.go:687-690 | for every absolute destination other than `/`, the check as written is the intended containment |
| Paths.RootDestRejectsAll | main.go:690 | with destination `/` the check rejects every entry, although `a` lies inside |
| Paths.DotDotDestAcceptsEscape | main.go:690 | with destination `..` the check accepts `../x`, which lies outside |
| Paths.PlainNamesInside | main.go:687-690 | an entry without `..` segments is inside iff it names something beyond `.` and empty segments |
| Paths.RemovalMatchesWritten | main.go:742 | for a relative recorded path (main.go:712), joining it to the base gives the path extraction wrote (main.go:687) |
| Install.FileNames | main.go:682-685 | the file names are exactly those of the non-directory entries |
| Install.ExtractSucceeds | main.go:682-714 | under either check, extraction completes iff every file entry passes that check |
| Install.ExtractWritten | main.go:687-713 | a completed extraction writes and records one path per file entry, in order |
| Install.ExtractFails | main.go:689-692 | under either check, a failed extraction stops at the first file entry failing that check, after writing the file entries before it |
| Install.Download | main.go:635-638 | a component is skipped iff its install size is zero |
| Install.DownloadInstallsIffInside | main.go:679-692 | under either check, a component with a size installs iff every file entry passes that check against its directory under the base |
| Install.DownloadWrites | main.go:682-714 | an installation writes the component directory joined with each file entry's name, in archive order |
| Install.DownloadRejects | main.go:687-692 | under either check, a rejection reports the joined path of the first file entry failing that check, after writing the file entries before it |
| Install.DownloadRecord | main.go:674-720 | the record is the `hash size deps` header followed by the component path joined with each file entry's name |
| Install.DownloadRecordsFiles | main.go:729-743 | for a hash without space or line break and dependency IDs without line break, removal reads back from the record exactly the paths download recorded, given one-line paths without surrounding space |
| Install.DownloadRemovesWritten | main.go:742 | for relative recorded paths, each path removal deletes is the path download wrote, in order |
| Install.DownloadRemoveMismatch | main.go:679-742 | under the base `/b`, a component with path `/../c` writes and records `/c/n` for its entry `n`, while removal deletes `/b/c/n` |
| Install.DownloadStalenessRoundTrip | main.go:536-548 | for a hash without space or line break and dependency IDs without line break, reloading after a download (header at main.go:676) whose header is shorter than 64 KiB gives downloaded, outdated iff the manifest hash changed, with the installed size as old size |
| Install.ExtractGuardsAgree | main.go:687-690 | for a destination with segments and no `..`, extraction under the check as written is the extraction under the intended check |
| Install.DownloadGuardsAgree | main.go:679-692 | for every absolute destination other than `/`, the program's download is the intended one: same outcome, same writes, same record |
| Install.ExtractEmptyStackRejects | main.go:689-692 | for a destination that cleans to `/` or `.`, the check as written rejects the first file entry before anything is written |
| Install.DownloadRootRejects | main.go:679-692 | under the base `/` with an empty component path, the program rejects every archive with a file entry, while the intended check installs `a` |
| Install.DownloadDotDotEscapes | main.go:679-692 | under the base `..` with an empty component path, the program installs `../x`, while the intended check rejects it |

## Left out

- HTTP requests, the temporary archive file, zip decoding, `xml.Unmarshal`, directory
  creation, file copying and `fullDelete` pruning: these are I/O. The manifest is a parsed
  tree, the archive a list of entries, and the records a map of first lines.
- `formatBytes`, date formatting (`time.Unix(...).Format`), the size totals printed before
  confirmation, `confirm`, `fatal` and all printed messages: these are presentation. The
  model records what would be reported as `Notice` values.
- The configuration file, `handlePath`, `handleSource`, `handleInfo` and `main`'s command
  dispatch are outside the engine. The installation base is a parameter.
- The global `compMap` is not modelled: the engine only reads the `components` slice.
- Execution order across commands is not modelled. This includes `handleUpdate` removing
  and then re-downloading each component, and continuing after a failed download. Each
  step is modelled on its own.
- `Install.Extract` ignores errors from opening an entry, creating the output file or
  copying bytes. They depend on the file system. The record is also written after a
  failed copy, because `io.Copy`'s error is not checked.
- `Paths.Clean`: only `/` is a separator (`filepath.FromSlash` is the identity), as on
  Unix. Windows volume names and `\` separators are not modelled.
- Records.RecordRemovalRoundTrip and Install.DownloadRecordsFiles: hold only for recorded paths that are single lines
  without surrounding white space. `removeComponent` trims each line and skips blank
  ones, so a file name with a leading or trailing space is deleted under a different
  name.
- Install.DownloadRemovesWritten: needs relative recorded paths. A rooted component
  `path` whose `..` climbs above the root makes the two joins differ: under the base `/b`,
  the path `/../c` and the entry `n`, download writes `/c/n` (main.go:679, 687) and records
  `/c/n` (main.go:712), and removal deletes `/b/c/n` (main.go:742)
  (`Install.DownloadRemoveMismatch`).
- Records.HeaderFields, Records.RecordStalenessRoundTrip, Records.RecordHeaderTooLong,
  Install.DownloadRecordsFiles and Install.DownloadStalenessRoundTrip: require a
  header-safe component (`Install.HeaderSafe`): a hash with no space, `\n` or `\r`, and
  dependency IDs with no `\n` or `\r`. The manifest does not enforce this. A hash such as
  `a b` makes the component outdated on every reload, and its old size is then parsed
  from the header's second field, `b`, which gives 0
  (`Records.RecordSpacedHashOutdated`). A dependency ID such as `d\nother` splits the
  header, and removal then also deletes `other` (`Records.DependsLineBreakAddsTarget`).
- Resolver.ResolveClosed, Resolver.ResolveAllWithoutArgs, Updates.UpdateTargetedClosed,
  Updates.WalkComplete, Updates.WalkRequestedCovered and Updates.WalkDependenciesCovered:
  require a catalog with distinct IDs. `parseNodes` does not enforce that, and with
  duplicate IDs only the first entry for an ID reached by the walk is visited.

## Notes on the code

- `depends` is split on single spaces (`strings.Split(depStr, " ")`, main.go:528), not on
  any white space. Two spaces in a row give an empty token. The matching rule makes the
  empty token name every component whose ID is empty (a top-level component without an
  `id` attribute) or starts with `-`; when there is none, `resolveQueue` reports it as
  missing.
- Only IDs starting with `core-` are required (main.go:360). A component named `core`
  itself is not auto-downloaded by an untargeted update (`Updates.UpdateAllRequiredPrefix`).
- A targeted update depends on argument order (`Updates.UpdateOrderMatters`). A missing
  dependency that an argument reaches first is reported rather than downloaded; and an
  explicitly named, not yet downloaded component is downloaded anyway when an earlier
  argument's dependency reaches it first, so the plan's download list can hold components
  the user named.

## Findings

| source | as written | input that shows it | evidently intended | confidence | as-written member | corrected member |
|---|---|---|---|---|---|---|
| main.go:690 | the entry path must start with `Clean(destDir) + "/"` | destination `/` (installation base `/`, empty component path), entry `a`: `/a` does not start with `//` | entries inside the destination are accepted | not executed | Install.DownloadRootRejects | Paths.ZipSlipInside |
| main.go:690 | the entry path must start with `Clean(destDir) + "/"` | destination `..` (relative installation base from the configuration), entry `../x`: `../../x` starts with `../` | entries that leave the destination are rejected | not executed | Install.DownloadDotDotEscapes | Paths.ZipSlipInside |

`Paths.ZipSlipInside` accepts an entry when its cleaned segments strictly extend the
destination's segments, and none of the added segments is `..`. `Paths.ZipSlipAgrees` and
`Paths.ZipSlipAgreesRooted` prove that it coincides with the check as written for every
absolute destination except `/`. `Install.Extract` and `Install.Download` take the check
as a parameter (`Install.Guard`): `AsWritten` is the program, `Intended` the corrected
model. `Install.DownloadGuardsAgree` shows the two downloads are identical under every
absolute destination other than `/`. `Install.DownloadRootRejects` and
`Install.DownloadDotDotEscapes` show the two inputs above on whole downloads.
