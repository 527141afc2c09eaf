# devrel-services core, modelled in Dafny

devrel-services runs the services behind Google Cloud's developer-relations
dashboards. This project models the sequential logic underneath its
gRPC, Kubernetes, GitHub and storage plumbing, and proves what that logic
promises:

- **samplr**, the snippet history engine. It finds `[START tag]` / `[END tag]`
  regions in a file and extracts versioned snippets with `L<a>-L<b>` line
  ranges (`Snippet`). It runs the per-commit state machine that adds a
  version, skips an unchanged one or writes a tombstone (`SnippetHistory`),
  and extracts the commented `sample-metadata:` block (`SampleMetadata`).
  `Samplr` holds the corpus walk, and `Structured`, `TestUtil`,
  `SnippetRows` and `SnippetVersionRows` hold the samplrctl output helpers.
- **git-go**, samplr's value layer. It covers the `git show --name-status`
  line parsers (`GitRepository`), the 20-byte hash codec (`GitHash`), the
  four slice iterators with `Next`/`Close`/`ForEach` and their stop
  signal (`GitIter`, `GitReference`, `GitFile`, `GitCommit`, `GitRemote`),
  and the object-type names (`GitObjectType`).
- **Cursor paginators**. `Paginators` has one class for all the paginator
  copies: samplr's snippet, snippet-version, git-commit and
  tracked-repository paginators, maintnerd's comment paginator, and leif's
  SLO and repository paginators. The copies differ only in whether an
  empty read is an error and in the age after which a page is purged.
  leif's string paginator, which must be initialised first, is a class of
  its own there. `PageUtils` holds the page-size clamp and the page tokens
  of both `page_utils.go` copies. The two copies are the same code, and
  each row below cites one of them.
- **SLO logic**. It covers leif's rule parsing: durations with a day suffix
  (`DayDurations`, over `Durations`, a model of the integer grammar of
  Go's `time.ParseDuration`), and the JSON decoding, responder defaulting
  and marshalling preparation of rules (`SloRules`). It also covers the
  owner's sorted repository list (`LeifOwner`), whether an SLO applies and
  the compliance deadline (`SloUtils`), and maintnerd's label
  classification, SLO budget, issue names and filters (`Maintnerd`). The
  older status package is `IssueStatus`, with its label precedence, its
  objectives and its rule selection. `Utils` holds PR approval and the
  tri-state boolean decoding.
- **Small state machines**: the round-robin token vendor (`Tokens`), the
  static Googler set (`Googlers`), the tracked repository lists from a
  bucket or a disk file (`Repos`, `LeifRepos`), the tombstone sweeper
  (`Sweeper`), and the Kubernetes supervisor's reconciliation plan and
  label stamping (`Supervisor`).
- **Python helpers**: the GitHub proxy's query cleaner (`ProxyQuery`) and
  the OpenAPI path generator (`ApiBuilder`).

Times are integers: nanoseconds since the Unix epoch, with 0 standing for
Go's zero `time.Time`. The caller passes "now" in. Regular expressions are
written out as predicates over characters: RE2's `\w` is `[0-9A-Za-z_]` and
`\s` is `[\t\n\f\r ]`. `Wrappers` (Option and Result) and `Strs` (splitting,
joining, case mapping, decimal text) are shared helpers.

The model follows the code as written. Two points are easy to miss:

- the comparison of tracked repositories in the supervisor is by whole
  value (see Findings);
- the priority precedence of `status.go` differs from that of `common.go`,
  and each module models its own file.

## Model

| member | source | states |
|---|---|---|
| GitHash.HexEncode | samplr/git-go/hash.go:43-45 | the hex text has two lower-case digits per byte |
| GitHash.HexDecodePrefix | samplr/git-go/hash.go:29-30 | decoding yields at most one byte per digit pair |
| GitHash.String | samplr/git-go/hash.go:43-45 | Hash.String is 40 lower-case hexadecimal digits |
| GitHash.DecodeEncode | samplr/git-go/hash.go:28-45 | decoding the hex text of any byte sequence gives the bytes back |
| GitHash.EncodeDecode | samplr/git-go/hash.go:28-45 | encoding the bytes of even-length lower-case hex gives the text back |
| GitHash.NewHashOfString | samplr/git-go/hash.go:28-45 | NewHash(h.String()) == h |
| GitHash.StringOfNewHash | samplr/git-go/hash.go:28-45 | String(NewHash(s)) == s for every 40-digit lower-case hex s |
| GitHash.IsZeroIffAllZero | samplr/git-go/hash.go:38-41 | IsZero holds exactly when all 20 bytes are zero |
| GitHash.DecodeValidLength | samplr/git-go/hash.go:29-30 | valid hex text decodes to one byte per digit pair |
| GitHash.NewHashPads | samplr/git-go/hash.go:28-34 | shorter valid input fills the leading bytes and leaves the rest zero |
| GitHash.NewHashTruncates | samplr/git-go/hash.go:28-34 | longer input keeps only the bytes of its first 40 digits |
| GitObjectType.String | samplr/git-go/object_type.go:38-57 | the result is "unknown" exactly for values without a name; it is never empty and is ASCII |
| GitObjectType.StringInjectiveOnNamed | samplr/git-go/object_type.go:39-53 | named object types have pairwise different names |
| GitObjectType.Bytes | samplr/git-go/object_type.go:35-37 | Bytes is String byte for byte |
| GitReference.FullyQualifiedReferenceName | samplr/git-go/reference.go:46-50 | the result is "refs/heads/" followed by the branch name |
| GitReference.FullyQualifiedInjective | samplr/git-go/reference.go:48-50 | distinct branch names give distinct reference names |
| GitFile.Contents | samplr/git-go/file.go:33-36 | Contents returns the stored contents and never an error |
| GitCommit.Files | samplr/git-go/commit.go:36-43 | Files returns a fresh iterator at position 0 over the commit's files, with no error |
| GitRemote.Config | samplr/git-go/remote.go:43-49 | nil for a nil remote, the stored config otherwise |
| GitRemote.FirstURL | samplr/git-go/remote.go:52-56 | the first URL, or "" when there is none |
| GitRemote.StringLines | samplr/git-go/remote.go:51-59 | String is exactly the fetch line and the push line, both with the first URL |
| GitIter.FirstFailure | samplr/git-go/reference.go:100-110 | the index of the first element on which the callback fails, or the length |
| GitIter.ForEachResult | samplr/git-go/reference.go:100-110 | the result is nil exactly when no call fails or the first failure is ErrStop; otherwise it is the first error |
| GitIter.Visited | samplr/git-go/reference.go:102-103 | the callback sees a prefix of the series, ending at the first failure |
| GitIter.FirstFailureAt | samplr/git-go/reference.go:102-108 | the first failing index is unique |
| GitIter.SliceIter.Next | samplr/git-go/reference.go:86-94 | Next returns series[pos] and advances pos; at or past the end it returns EOF and changes nothing |
| GitIter.SliceIter.Close | samplr/git-go/reference.go:96-98 | Close moves pos to the end, so nothing remains |
| GitIter.SliceIter.ForEach | samplr/git-go/reference.go:100-110 | ForEach calls fn on the whole series from index 0 until the first failure, returns ForEachResult, and leaves the iterator closed |
| GitRepository.SpaceRun | samplr/git-go/repository.go:41 | the longest whitespace prefix |
| GitRepository.PathRun | samplr/git-go/repository.go:41 | the longest prefix of `[\w/.-]` characters |
| GitRepository.MatchSingleCorrect | samplr/git-go/repository.go:41-43 | the shared matcher accepts exactly the lines of the pattern and captures their path |
| GitRepository.MatchPairCorrect | samplr/git-go/repository.go:44-45 | the shared matcher accepts exactly the lines of the pattern and captures both paths |
| GitRepository.ParseFromToComplete | samplr/git-go/repository.go:44-45 | whitespace, a path, whitespace and a path are parsed into the two paths |
| GitRepository.ParseFromToSound | samplr/git-go/repository.go:44-45 | whatever is parsed has the shape of the pattern |
| GitRepository.IsNew | samplr/git-go/repository.go:377-383 | (true, p) only for a line "A", whitespace, path p; otherwise (false, "") and no path matches |
| GitRepository.IsGone | samplr/git-go/repository.go:385-391 | the same with "D" |
| GitRepository.IsModified | samplr/git-go/repository.go:393-399 | the same with "M" |
| GitRepository.IsRenamed | samplr/git-go/repository.go:401-415 | (true, from, to) only for "R", three digits, whitespace, from, whitespace, to; otherwise (false, "", "") and nothing matches |
| GitRepository.IsCopy | samplr/git-go/repository.go:417-431 | the same with "C" |
| GitRepository.AtMostOneParserAccepts | samplr/git-go/repository.go:41-45 | at most one of the five parsers accepts any line |
| GitRepository.ScoreMustHaveThreeDigits | samplr/git-go/repository.go:44 | a rename score of other than three digits is rejected |
| GitRepository.AppendDelete | samplr/git-go/repository.go:469-475 | exactly one file with the name, size 0 and no contents is appended after the unchanged others |
| PageUtils.Int32 | samplr/samplrd/samplrapi/page_utils.go:59 | int32(idx) is the signed 32-bit value congruent to idx, and idx itself when it fits |
| PageUtils.GetPageSize | samplr/samplrd/samplrapi/page_utils.go:69-75 | the requested size when it lies strictly between 0 and 100, otherwise 100, so always within [1, 100] |
| PageUtils.TimestampProto | samplr/samplrd/samplrapi/page_utils.go:42-46 | a time converts exactly when its second lies in the years 1 to 9999, into whole seconds and the nanoseconds within them |
| PageUtils.PageToken.constructor | samplr/samplrd/samplrapi/page_utils.go:47-50 | a token holds the given first-request time and offset |
| PageUtils.MakeNextPageToken | samplr/samplrd/samplrapi/page_utils.go:53-67 | nil gives ("", ErrNilPageToken); idx <= 0 gives "" and leaves the token alone; idx > 0 overwrites the caller's Offset with int32(idx) and encodes the token |
| PageUtils.FirstPageToken | samplr/samplrd/samplrapi/page_utils.go:41-51 | a time out of range is an error; otherwise "" for idx <= 0 and the encoding of (t, int32(idx)) for idx > 0 |
| PageUtils.MakeFirstPageToken | samplr/samplrd/samplrapi/page_utils.go:41-51 | the method returns FirstPageToken's outcome, and "" with its error |
| PageUtils.DecodePageToken | samplr/samplrd/samplrapi/page_utils.go:31-39 | "" decodes to the empty token, an encoded token to itself, anything else to what the unmarshaller says (the base64 error is dropped) |
| PageUtils.FirstTokenRoundTrip | leif/leifd/leifapi/pagination/page_utils.go:45-69 | a first-page token with a positive 32-bit offset decodes to that offset and time |
| Paginators.CreatePageSpec | samplr/samplrd/samplrapi/snippet_paginator.go:46-59 | a taken key gives the "Key already exists" error, the zero key and no change; a free one stores the items at index 0 under now |
| Paginators.GetPageSpec | samplr/samplrd/samplrapi/snippet_paginator.go:61-95 | an unknown key is an error; otherwise min(n, remaining) items from idx, an empty remainder per the paginator's policy, an exhausted page deleted with -1, else the new index stored and returned |
| Paginators.PurgeSpec | samplr/samplrd/samplrapi/snippet_paginator.go:35-44 | exactly the pages not older than the stale age remain, unchanged |
| Paginators.PurgeIdempotent | samplr/samplrd/samplrapi/snippet_paginator.go:35-44 | purging twice at the same time removes nothing more |
| Paginators.EmptyReadPolicy | samplr/samplrd/samplrapi/git_commit_paginator.go:80-82 | with nothing left, strict paginators fail with "Get 0 from page" and keep the page; the others return nothing and -1 and keep the page |
| Paginators.ReadsAreAdjacent | samplr/samplrd/samplrapi/snippet_version_paginator.go:76-94 | two successive reads return adjacent, non-overlapping slices of the page |
| Paginators.DrainReturnsAll | samplr/samplrd/samplrapi/snippet_paginator.go:61-95 | reading a page to its end, any positive count at a time, yields all its unread items in order |
| Paginators.Paginator.constructor | samplr/samplrd/samplrapi/snippet_paginator.go:30-33 | a paginator starts with no pages |
| Paginators.Paginator.CreatePage | samplr/samplrd/samplrapi/snippet_paginator.go:46-59 | the key, error and new pages are CreatePageSpec's |
| Paginators.Paginator.GetPage | samplr/samplrd/samplrapi/snippet_paginator.go:61-95 | the items, next index, error and new pages are GetPageSpec's |
| Paginators.Paginator.PurgeOldRecords | samplr/samplrd/samplrapi/snippet_paginator.go:35-44 | the pages become PurgeSpec's |
| Paginators.NewSnippetPaginator | samplr/samplrd/samplrapi/snippet_paginator.go:78-81 | empty reads succeed; pages go stale after 2 hours |
| Paginators.NewSnippetVersionPaginator | samplr/samplrd/samplrapi/snippet_version_paginator.go:80-83 | empty reads succeed; pages go stale after 2 hours |
| Paginators.NewGitCommitPaginator | samplr/samplrd/samplrapi/git_commit_paginator.go:80-82 | an empty read is an error; pages go stale after 2 hours |
| Paginators.NewTrackedRepositoryPaginator | samplr/samplrd/samplrapi/tracked_repository_paginator.go:77-79 | an empty read is an error; pages go stale after 2 hours |
| Paginators.NewCommentPaginator | drghs-worker/maintnerd/api/v1beta1/comment_paginator.go:36-45 | empty reads succeed; pages go stale after nHoursStale hours |
| Paginators.NewSloPaginator | leif/leifd/leifapi/paginators/slo_paginator.go:79-81 | an empty read is an error; pages go stale after 2 hours |
| Paginators.NewRepositoryPaginator | leif/leifd/leifapi/repository_paginator.go:77-79 | an empty read is an error; pages go stale after 2 hours |
| Paginators.StringPages.constructor | leif/leifd/leifapi/pagination/string_paginator.go:31-36 | a string paginator starts uninitialised |
| Paginators.StringPages.Init | leif/leifd/leifapi/pagination/string_paginator.go:40-49 | the first call succeeds with no pages; every later call fails and changes nothing |
| Paginators.StringPages.PurgeOldRecords | leif/leifd/leifapi/pagination/string_paginator.go:52-61 | the pages become PurgeSpec's with a 2-hour age |
| Paginators.StringPages.CreatePage | leif/leifd/leifapi/pagination/string_paginator.go:65-83 | before Init an error and no change; after, CreatePageSpec's outcome |
| Paginators.StringPages.GetPage | leif/leifd/leifapi/pagination/string_paginator.go:86-126 | before Init an error and no change; after, the strict GetPageSpec's outcome |
| Snippet.TagRun | samplr/snippet.go:30 | the maximal run of `[\w-_]` characters from a position |
| Snippet.TagAt | samplr/snippet.go:30 | the tag captured by a match of the start pattern is a non-empty run of tag characters |
| Snippet.TagsFrom | samplr/snippet.go:313-321 | the captured tags of the matches from a position on, each a valid tag |
| Snippet.DetectRegionTags | samplr/snippet.go:313-321 | every tag returned consists of word characters and hyphens |
| Snippet.StartTextIsMatch | samplr/snippet.go:30 | "[START t]" for a valid tag t is a match of the start pattern capturing t |
| Snippet.MatchIsStartText | samplr/snippet.go:30 | every match spells "[START t]" for its captured tag |
| Snippet.TagsFromComplete | samplr/snippet.go:313-321 | every match at or after a position contributes its tag |
| Snippet.TagsFromSound | samplr/snippet.go:313-321 | every tag found comes from a match at or after the position |
| Snippet.DetectRegionTagsCorrect | samplr/snippet.go:313-321 | a tag is detected exactly when "[START tag]" occurs in the content |
| Snippet.NoStartNoTags | samplr/snippet.go:313-321 | content without "[START " yields no tags, so END markers alone give none |
| Snippet.AnyExtension | samplr/snippet.go:43-67 | some whitelist extension pattern matches the name exactly when one of the given extensions does |
| Snippet.IsValidFile | samplr/snippet.go:323-330 | a file is valid exactly when its name is "dockerfile" in any case or matches `^.+\.ext$` for a whitelisted extension |
| Snippet.ValidFileNames | samplr/snippet.go:43-67 | a name with a newline is never valid, and one with a slash is never a Dockerfile |
| Snippet.SameElements | samplr/snippet.go:341-348 | the element loop of strEq holds exactly when the slices are equal |
| Snippet.StrEq | samplr/snippet.go:332-350 | strEq holds exactly when both are nil or both are equal slices |
| Snippet.SnippetsEquivalent | samplr/snippet.go:502-518 | equal content, and either both files nil or both present with the same path and strEq line ranges |
| Snippet.SnippetsEquivalentSymmetric | samplr/snippet.go:502-518 | snippetsEquivalent is symmetric |
| Snippet.ScanWellFormed | samplr/snippet.go:249-268 | after any number of lines the scanner's closed regions are well formed, in file order, and the open region starts after the last closed one |
| Snippet.ScanPairsGrow | samplr/snippet.go:249-268 | closed regions are never dropped as lines are scanned |
| Snippet.ClosedRegionIff | samplr/snippet.go:251-278 | a tag has a closed region exactly when some START line of it is followed by a later END line that is not itself a START line; lone or mismatched markers give none |
| Snippet.ClosedRegionFound | samplr/snippet.go:251-278 | a closed region yields the START line and the later line that closed it |
| Snippet.ClosedRegionMade | samplr/snippet.go:251-278 | a START line followed by a closing line always produces a closed region |
| Snippet.LineRanges | samplr/snippet.go:271-276 | one "L<start>-L<end>" per closed region, in order |
| Snippet.FindRef | samplr/snippet.go:288-298 | the first sample-metadata snippet entry naming the tag, or none when no entry names it |
| Snippet.MetaFor | samplr/snippet.go:279-299 | no sample metadata gives the zero meta; otherwise the sample's fields, with the tag's non-empty description and usage taking over |
| Snippet.StepCombined | samplr/snippet.go:250-267 | a line is written to the combined text exactly when it is a START line or a region is open when it is read |
| Snippet.CollectsIff | samplr/snippet.go:250-267 | after the lines before it are scanned, a line is collected exactly when it is a START line or a region is open |
| Snippet.ScanCollected | samplr/snippet.go:243-269 | the combined text is the collected lines in file order, each followed by a newline: every line from a START line up to and including the next END line, a restarted START keeping the lines after the earlier one and an unclosed START collecting to the end of the file |
| Snippet.RegionLinesCollected | samplr/snippet.go:250-267 | every line of a closed region, from its START line through the line that closed it, is in the combined text |
| Snippet.ScanRegions | samplr/snippet.go:238-269 | the line loop computes exactly the closed regions and the combined text of the scan, which ScanCollected characterises |
| Snippet.VersionContent | samplr/snippet.go:278-305 | a tag has a version exactly when a START line of it is followed by a closing line; the version has the formatted name, no file, the tag's metadata, and as content the collected lines trimmed of surrounding white space |
| Snippet.VersionsOfMeans | samplr/snippet.go:226-308 | a tag has a version exactly when it was detected and has a closed region, and that version is the tag's |
| Snippet.CollectVersions | samplr/snippet.go:226-308 | the loop over the detected tags builds the map of versions of the tags with closed regions |
| Snippet.ExtractSnippetVersionsFromFile | samplr/snippet.go:218-311 | the sample metadata's error, or the versions of the detected tags that have closed regions |
| SampleMetadata.MarkerPrefix | samplr/sample_metadata.go:28 | a line opens a block exactly when it is "# sample-metadata:" or "// sample-metadata:", and its marker is "#" or "//" |
| SampleMetadata.IsBlockUnique | samplr/sample_metadata.go:49-76 | the marker and YAML text of the block are determined by the lines |
| SampleMetadata.CollectAppend | samplr/sample_metadata.go:65-69 | each collected line contributes itself without the first occurrence of the marker, then a newline |
| SampleMetadata.NoBlock | samplr/sample_metadata.go:73-76 | with no marker line, there is no block |
| SampleMetadata.BlockFound | samplr/sample_metadata.go:54-71 | with a marker line, the block runs from the first marker line up to the first empty or unmarked line |
| SampleMetadata.MetadataBlock | samplr/sample_metadata.go:51-71 | the scanning loop computes the block of the lines |
| SampleMetadata.FindMarker | samplr/sample_metadata.go:54-59 | no line before the one returned opens a block, and the one returned, if any, does |
| SampleMetadata.CollectFrom | samplr/sample_metadata.go:61-69 | from the marker line, exactly the lines up to the first empty or unmarked one are collected, and the text is their collection |
| Strs.RemoveFirstMeans | samplr/sample_metadata.go:65-67 | a line starting with the marker loses just that prefix; a line without the marker is kept |
| SampleMetadata.ParsedUnique | samplr/sample_metadata.go:49-83 | the outcome of parsing is determined by the content and the decoder |
| SampleMetadata.ParseSampleMetadata | samplr/sample_metadata.go:49-83 | none when there is no block, else the decoder's value or error on the block's text |
| Samplr.FilteredMembers | samplr/samplr.go:183-184 | a repository is handed on exactly when it is watched and passes the filter |
| Samplr.FirstError | samplr/samplr.go:185-189 | the index of the first failing call, or the length |
| Samplr.FilteredAll | samplr/samplr.go:175-177 | the always-true filter of ForEachRepo keeps every repository |
| Samplr.ForEachComplete | samplr/samplr.go:182-191 | nil exactly when fn succeeds on every filtered repository, and then fn saw exactly those, in order; otherwise the first failure's error |
| Samplr.FilteredAppend | samplr/samplr.go:183-184 | filtering distributes over concatenation |
| Samplr.Corpus.constructor | samplr/samplr.go:90-95 | a corpus starts uninitialised |
| Samplr.Corpus.ForEachRepoF | samplr/samplr.go:182-191 | the error and the repositories fn is called on are those of the specification |
| Samplr.Corpus.ForEachRepo | samplr/samplr.go:175-177 | ForEachRepoF with the always-true filter; without error fn saw every repository |
| Samplr.Corpus.Initialize | samplr/samplr.go:90-109 | a second call fails; with repositories only the first is updated and didInit stays false; with none didInit is set |
| SnippetHistory.AddTombstones | samplr/snippet.go:377-398 | one empty version per file, appended in order and numbered by position, the last becoming primary; earlier versions unchanged |
| SnippetHistory.LastWithPath | samplr/snippet.go:418-431 | the last changed file at the path, or none when no changed file has that path |
| SnippetHistory.Hits | samplr/snippet.go:359-400 | a sweep writes at most one tombstone per visited file |
| SnippetHistory.SweptNoHits | samplr/snippet.go:366-377 | after a sweep the cleared flags make a second sweep of the same files find nothing |
| SnippetHistory.HitsFlagged | samplr/snippet.go:366-369 | every tombstone belongs to a file in which the snippet was flagged seen |
| SnippetHistory.DeletedHitsCount | samplr/snippet.go:359-400 | a deleted file tombstones exactly the snippets flagged in it, with size 0 |
| SnippetHistory.FlaggedIn | samplr/snippet.go:366-369 | the visited files in which the snippet is flagged |
| SnippetHistory.SweepTwice | samplr/snippet.go:405-464 | sweeping the same files twice adds no tombstone and clears no flag the second time |
| SnippetHistory.RecordVersion | samplr/snippet.go:478-498 | recording a version keeps the key sets of both maps |
| SnippetHistory.RecordVersions | samplr/snippet.go:473-499 | recording a file's versions keeps the snippets' keys and gives the file a flag entry |
| SnippetHistory.OpenFile | samplr/snippet.go:474-476 | the file gets an entry even when it has no versions |
| SnippetHistory.RecordFiles | samplr/snippet.go:473-499 | recording files adds no snippet and drops none |
| SnippetHistory.RecordFilesOpen | samplr/snippet.go:474-477 | every recorded file has an entry in the flags afterwards, and no earlier entry is lost |
| SnippetHistory.RecordVersionWellFormed | samplr/snippet.go:478-498 | recording keeps snippets keyed by name and flags naming known snippets |
| SnippetHistory.RecordVersionPrimary | samplr/snippet.go:478-498 | afterwards the snippet's primary is equivalent to the renamed version in its file |
| SnippetHistory.RecordVersionIdempotent | samplr/snippet.go:488-490 | recording the same version twice appends it at most once |
| SnippetHistory.RecordVersionsGrow | samplr/snippet.go:478-498 | other snippets are untouched and versions are only appended |
| SnippetHistory.History.constructor | samplr/snippet.go:114-115 | no snippets and no flags at first |
| SnippetHistory.History.Register | samplr/snippet.go:183-191 | every unknown version name gets a new empty snippet in the file's language; known snippets are untouched |
| SnippetHistory.History.ProcessDeletedFiles | samplr/snippet.go:352-403 | each snippet gets the tombstones of its flagged deleted files, and exactly those flags are cleared |
| SnippetHistory.History.ProcessPreviouslySeenSnippets | samplr/snippet.go:405-464 | each flagged snippet missing from its changed file gets a tombstone with that file's size, and its flag is cleared |
| SnippetHistory.History.ProcessSnippetVersionsInThisCommit | samplr/snippet.go:466-500 | the new state is the old one with every changed file recorded in turn |
| SnippetHistory.History.RecordChangedFile | samplr/snippet.go:474-498 | a changed file gets a flag entry if it had none, then its versions are recorded |
| SnippetHistory.History.RecordFile | samplr/snippet.go:474-498 | the inner loop records the file's versions in order |
| SnippetHistory.History.Sweep | samplr/snippet.go:359-400 | the sweep loop leaves the state Swept describes |
| SnippetHistory.History.SweepFile | samplr/snippet.go:366-398 | the inner loop over the snippets flagged in one file tombstones and unflags exactly those the rule hits |
| SnippetHistory.TombFileOf | samplr/snippet.go:410-446 | the tombstone file computed as the source does equals TombFile |
| SnippetHistory.FindSeen | samplr/snippet.go:416-431 | found exactly when a changed file at the path holds the snippet; otherwise the last changed file at the path |
| Structured.StructuredOf | samplr/samplrctl/output/structured.go:34-39 | the wrapped writer exactly when the writer is the structured one |
| Structured.Capitalize | samplr/samplrctl/output/structured.go:67 | the first letter upper-cased, the rest and the length unchanged |
| Structured.Without | samplr/samplrctl/output/structured.go:59 | the text without the character, which then never occurs in it |
| Structured.ToCamelCase | samplr/samplrctl/output/structured.go:57-70 | the builder loop computes the camel-casing of the text |
| Structured.ConcatSplit | samplr/samplrctl/output/structured.go:59 | gluing the pieces of a split gives the text without the separator |
| Structured.CamelLower | samplr/samplrctl/output/structured.go:59-68 | camel-casing only changes the case of the letters it keeps |
| Structured.CamelNoSpace | samplr/samplrctl/output/structured.go:59-68 | words without spaces camel-case to text without spaces |
| Structured.CamelCaseMeans | samplr/samplrctl/output/structured.go:57-70 | lower-cased, the camel-cased key is the lower-cased key without its spaces; it holds no space |
| Structured.KeysToCamelCase | samplr/samplrctl/output/structured.go:49-55 | the keys of the new map are the camel-cased keys, each holding the value of some key that camel-cases to it |
| Structured.CamelKeysNoCollision | samplr/samplrctl/output/structured.go:49-55 | when no two keys camel-case alike, every value is found under its key's camel-casing |
| TestUtil.ContainsAll | samplr/samplrctl/testutil/testutil.go:26-34 | true exactly when every substring occurs |
| TestUtil.ContainsAny | samplr/samplrctl/testutil/testutil.go:36-44 | true exactly when some substring occurs |
| TestUtil.AnyLineContainsAll | samplr/samplrctl/testutil/testutil.go:64-72 | true exactly when some line holds every substring |
| TestUtil.FirstRow | samplr/samplrctl/testutil/testutil.go:47-61 | the index of the first line that is a row of the fields, or the number of lines |
| TestUtil.ContainsRow | samplr/samplrctl/testutil/testutil.go:46-62 | a row found means some line is blanks, the fields separated by blanks, then blanks |
| TestUtil.ContainsRowMeans | samplr/samplrctl/testutil/testutil.go:46-62 | a row is found exactly when the first line that is a row of the fields is not empty |
| TestUtil.ContainsRowComplete | samplr/samplrctl/testutil/testutil.go:46-62 | a non-empty row line is found whenever no empty line before it is a row |
| TestUtil.JoinedIsRow | samplr/samplrctl/testutil/testutil.go:48-54 | the fields joined with tabs match the row pattern |
| TestUtil.ContainsJoinedRow | samplr/samplrctl/testutil/testutil.go:46-62 | a tab-separated row with a non-empty field is found |
| SnippetRows.FormatBool | samplr/samplrctl/snippets/snippets.go:37 | "true" or "false" |
| SnippetRows.SnippetToMap | samplr/samplrctl/snippets/snippets.go:32-39 | the four columns: name, language, the decimal number of versions, and "true" exactly when the primary content is empty |
| SnippetRows.OutputSnippets | samplr/samplrctl/snippets/snippets.go:45-57 | one row per snippet, in order, each holding every column |
| SnippetVersionRows.Utf8Width | samplr/samplrctl/snippetversions/snippet_versions.go:41 | one to four bytes, one exactly for ASCII |
| SnippetVersionRows.ByteLength | samplr/samplrctl/snippetversions/snippet_versions.go:41 | the UTF-8 length is at least the number of characters |
| SnippetVersionRows.AsciiByteLength | samplr/samplrctl/snippetversions/snippet_versions.go:41 | for ASCII text the size is the number of characters |
| SnippetVersionRows.SnippetVersionToMap | samplr/samplrctl/snippetversions/snippet_versions.go:35-44 | the six columns: name, file path, joined lines, content, the decimal byte size and the commit hash |
| SnippetVersionRows.LinesRoundTrip | samplr/samplrctl/snippetversions/snippet_versions.go:39 | splitting the Lines column on commas gives back the version's ranges |
| SnippetVersionRows.OutputSnippetVersions | samplr/samplrctl/snippetversions/snippet_versions.go:50-63 | one row per version, in order; the columns leave out Content |
| Durations.UnitNs | leif/parse_slo_rules.go:253 | the nanoseconds of a known unit name, at least one; none for an unknown unit |
| Durations.UnitNsTable | leif/parse_slo_rules.go:253 | the character-by-character decision agrees with the unit table of Go's time package |
| Durations.TimesIsProduct | leif/parse_slo_rules.go:253 | the repeated addition used for a segment's nanoseconds is the product |
| Durations.NextSegment | leif/parse_slo_rules.go:253 | a lexed segment moves past its text and has a unit of at least one nanosecond |
| Durations.Add | leif/parse_slo_rules.go:253 | adding a segment to the uint64 total fails exactly when the segment exceeds 1<<63 or the new total does, except that 1<<63 plus 1<<63 wraps to 0; an exact sum within the bound is kept |
| Durations.Sum | leif/parse_slo_rules.go:253 | a successful running total of the segments stays within 1<<63 |
| Durations.Segments | leif/parse_slo_rules.go:253 | a successful sum is at most 1<<63 |
| Durations.ParseDuration | leif/parse_slo_rules.go:253 | a parsed duration lies in the int64 range |
| Durations.NameKnown | leif/parse_slo_rules.go:253 | every unit name is in the table under its nanoseconds and holds no digit and no '.' |
| Durations.LexRender | leif/parse_slo_rules.go:253 | rendered segments are lexed back one token per segment without error |
| Durations.SegmentsRender | leif/parse_slo_rules.go:253 | rendered segments within the bound sum to their total |
| Durations.ParseRendered | leif/parse_slo_rules.go:253 | a duration written as whole-unit segments below 1<<63 nanoseconds parses to the sum of its segments |
| Durations.ParseRenderedNegative | leif/parse_slo_rules.go:253 | with a leading '-' it parses to the negated sum, down to -1<<63 |
| Durations.NanosecondsWrap | leif/parse_slo_rules.go:253 | "9223372036854775808ns9223372036854775808ns" parses to zero with no error, the uint64 total wrapping at 2^64 |
| Durations.HoursLexed | leif/parse_slo_rules.go:253 | "<n>h" with n at most 1<<63 is one token of n hours |
| Durations.HoursTooLong | leif/parse_slo_rules.go:253 | "<n>h" with n above 1<<63 fails in its digits |
| Durations.ParseHours | leif/parse_slo_rules.go:253 | "<n>h" parses to n hours below 1<<63 nanoseconds and is an error otherwise |
| DayDurations.Wrap64 | leif/parse_slo_rules.go:250 | the int64 value congruent to the integer modulo 2^64, the integer itself when in range |
| DayDurations.ParseDurationWithDaysAsWritten | leif/parse_slo_rules.go:244-254 | text holding '.' is an error; otherwise the days are rewritten with int64 wrap-around and parsed |
| DayDurations.ParseDurationWithDays | leif/parse_slo_rules.go:244-254 | text holding '.' is an error; a parsed duration lies in the int64 range |
| DayDurations.RewriteNoDot | leif/parse_slo_rules.go:248-252 | rewriting the days adds no '.' |
| DayDurations.RewriteCopies | leif/parse_slo_rules.go:248-252 | text without digits is copied |
| DayDurations.RewriteDayAt | leif/parse_slo_rules.go:248-252 | digits followed by 'd' are replaced by the replacement for their value |
| DayDurations.RewriteUnitAt | leif/parse_slo_rules.go:248-252 | digits followed by a unit not starting with 'd' are copied with it |
| DayDurations.RewriteDays | leif/parse_slo_rules.go:249-250 | n days become n * 24 hours |
| DayDurations.RewriteParts | leif/parse_slo_rules.go:248-252 | rewriting rendered parts gives the parts in hours, with any replacement that is exact for their day counts |
| DayDurations.ParseParts | leif/parse_slo_rules.go:244-254 | a duration mixing days and Go units below 1<<63 nanoseconds parses to its total, a day being 24 hours |
| DayDurations.DaysText | leif/parse_slo_rules.go:248-252 | "<n>d" alone is rewritten to the replacement for n days |
| DayDurations.AtoiDay | leif/parse_slo_rules.go:249-250 | Atoi then Itoa of 24 times the day count in int64 agrees with the exact replacement "<24n>h" whenever 24n fits in int64 |
| DayDurations.DaysNoDot | leif/parse_slo_rules.go:249-250 | no day replacement, as written or exact, contains a dot, so a rewritten text has a dot only where the input had one |
| DayDurations.WithDays | leif/parse_slo_rules.go:244-254 | text without '.' is parsed as its rewriting |
| DayDurations.WithDaysAsWritten | leif/parse_slo_rules.go:244-254 | as written, text without '.' is parsed as its wrapping rewriting |
| DayDurations.ParseDays | leif/parse_slo_rules.go:244-254 | "<n>d" is n days below 1<<63 nanoseconds and an error otherwise |
| DayDurations.RewriteAgrees | leif/parse_slo_rules.go:248-252 | on text whose every day count n has 24n below 1<<63, the rewrite as written (Atoi, wrapping multiply, Itoa) equals the exact one |
| DayDurations.AsWrittenAgrees | leif/parse_slo_rules.go:244-254 | on such text parseDurationWithDays as written gives the exact result, error or value |
| DayDurations.PartsDaysFit | leif/parse_slo_rules.go:248-252 | the day counts of parts below 1<<63 nanoseconds fit |
| DayDurations.ParsePartsAsWritten | leif/parse_slo_rules.go:244-254 | as written, a duration mixing days and Go units below 1<<63 nanoseconds parses to its total |
| DayDurations.ParseDaysAsWritten | leif/parse_slo_rules.go:244-254 | as written, "<n>d" with 24n in int64 is n days below 1<<63 nanoseconds and an error otherwise |
| DayDurations.DaysWrapAsWritten | leif/parse_slo_rules.go:249-250 | as written, a positive day count whose 24-fold is a multiple of 2^64 parses to zero |
| DayDurations.DaysWrapCorrected | leif/parse_slo_rules.go:244-254 | with exact multiplication those texts are an overflow error |
| SloRules.DecodeBool | leif/parse_slo_rules.go:167-183 | a boolean sets the field, null keeps it, anything else is a type error |
| SloRules.DecodeString | leif/parse_slo_rules.go:185-189 | a string sets the field, null keeps it, anything else is a type error |
| SloRules.StringsOf | leif/parse_slo_rules.go:48 | the strings of an array, other elements left "" |
| SloRules.DecodeStrings | leif/parse_slo_rules.go:185-189 | an array of strings or null decodes without error |
| SloRules.DecodeStringOrArray | leif/parse_slo_rules.go:34-53 | a string gives a one-element list, an array its strings; no error exactly for a string, null or an array of strings |
| SloRules.StringArray | leif/parse_slo_rules.go:32 | a list written as a JSON array of its strings |
| SloRules.StringOrArrayRoundTrip | leif/parse_slo_rules.go:34-53 | a list written as an array, or one string, reads back as itself |
| SloRules.DecodeDuration | leif/parse_slo_rules.go:66-90 | a string is parsed with its days by parseDurationWithDays as written, with its int64 wrap-around (0 on error); a number counts seconds in int64; anything else is "Invalid duration format" and keeps the value |
| SloRules.DecodeParts | leif/parse_slo_rules.go:66-80 | a duration string mixing days and Go units below 1<<63 nanoseconds is read as its total with no error |
| SloRules.DecodeDays | leif/parse_slo_rules.go:66-80 | "<n>d" with 24n in int64 is read as n days below 1<<63 nanoseconds, otherwise it is an error leaving 0 |
| SloRules.TwoDays | leif/parse_slo_rules.go:62-65 | "2d" is read as 172800000000000 nanoseconds |
| SloRules.Duration.constructor | leif/parse_slo_rules.go:56 | a duration holding the given nanoseconds |
| SloRules.Duration.MarshalJSON | leif/parse_slo_rules.go:59-61 | a duration marshals as its nanoseconds |
| SloRules.Duration.UnmarshalJSON | leif/parse_slo_rules.go:66-90 | the new value and the error are those of DecodeDuration over the old value |
| SloRules.StringOrArray.constructor | leif/parse_slo_rules.go:32 | a nil list |
| SloRules.StringOrArray.UnmarshalJSON | leif/parse_slo_rules.go:34-53 | the new list and the error are those of DecodeStringOrArray |
| SloRules.UnknownKeysIgnored | leif/parse_slo_rules.go:122 | object keys naming no field keep every value and report nothing |
| SloRules.RuleMembersAppend | leif/parse_slo_rules.go:122 | members are decoded in order, later keys overwriting earlier ones; the error is the first one |
| SloRules.HandleEnd | leif/parse_slo_rules.go:30 | the end of the longest run of handle characters |
| SloRules.Handles | leif/parse_slo_rules.go:216-219 | every handle found is a non-empty run of handle characters |
| SloRules.HandlesOfMentions | leif/parse_slo_rules.go:216-219 | the handles listed as "@h, " in an owners file are found, in order |
| SloRules.QualifiedMember | leif/parse_slo_rules.go:229-237 | a login is gathered exactly when a collaborator with it qualifies at the level |
| SloRules.OwnerHandlesMember | leif/parse_slo_rules.go:208-220 | a handle is gathered exactly when some fetched owners file lists it |
| SloRules.OwnerHandlesFrom | leif/parse_slo_rules.go:208-220 | every gathered handle names the owners file it came from |
| SloRules.OwnerHandlesHas | leif/parse_slo_rules.go:208-220 | every handle of every fetched owners file is gathered |
| SloRules.ResponderMembers | leif/parse_slo_rules.go:200-242 | a responder is a named user, the owner, a handle of a fetched owners file, or a qualifying collaborator when the level is neither "" nor OWNER and the repository is named |
| SloRules.ResponderDefaultSettles | leif/parse_slo_rules.go:111-117 | the default is idempotent, fills only contributors, and applies exactly when no responder is given |
| SloRules.ToSloRule | leif/parse_slo_rules.go:130-136 | every field is carried over to the SLORule, the responders being the marshalled users |
| SloRules.EmptyRule | leif/parse_slo_rules.go:102-117 | an empty rule gives issues only, no labels, zero times, no assignee and the owner plus writers as responders |
| SloRules.ParseRulesAt | leif/parse_slo_rules.go:155-161 | the rules returned are, in order, what the raw rules before the first failure parse to |
| SloRules.ParseRulesErr | leif/parse_slo_rules.go:155-161 | an error is the one of the first raw rule that fails, right after the rules returned |
| SloRules.ParseRules | leif/parse_slo_rules.go:154-162 | never more rules than raw rules, and with no error every raw rule gives one |
| SloRules.RulesAfterStart | leif/parse_slo_rules.go:154-155 | before the loop, the rules still to come are exactly ParseRules of all raw rules |
| SloRules.RulesAfterStep | leif/parse_slo_rules.go:155-161 | a rule that parses is appended and the loop goes on; one that fails stops with the rules so far and its error |
| SloRules.RulesAfterEnd | leif/parse_slo_rules.go:162 | after the last raw rule, the rules gathered are returned with no error |
| SloRules.GatherOwnerHandles | leif/parse_slo_rules.go:208-220 | the owners-file loop gathers OwnerHandles |
| SloRules.GatherQualified | leif/parse_slo_rules.go:223-238 | the collaborator loop gathers the qualifying logins |
| SloRules.SloRuleJson.constructor | leif/parse_slo_rules.go:102-107 | the defaults: issues only, no assignee required |
| SloRules.SloRuleJson.UnmarshalJSON | leif/parse_slo_rules.go:122 | the rule becomes DecodeRule over its current values |
| SloRules.SloRuleJson.ApplyResponderDefault | leif/parse_slo_rules.go:111-117 | only the responders change, to their default |
| SloRules.SloRuleJson.PrepareForMarshalling | leif/parse_slo_rules.go:200-242 | only the users change: the given users, the owner, the owners-file handles and the qualifying collaborators |
| SloRules.ParseSloRule | leif/parse_slo_rules.go:119-139 | the rule or error of ParseRule |
| SloRules.UnmarshalSlos | leif/parse_slo_rules.go:141-163 | no data or null gives no rules; an array gives ParseRules; anything else is a type error |
| LeifOwner.UpdateRepository | leif/repository.go:45-54 | the rules found replace the repository's; on any error they stay; name and owner unchanged |
| LeifOwner.NameList | leif/owner.go:110 | the names of the repositories, in order |
| LeifOwner.SearchName | leif/owner.go:110 | the binary search returns the first position whose name is not below the name searched |
| LeifOwner.Owner.constructor | leif/owner.go:50-54 | an owner with no repositories and no rules |
| LeifOwner.Owner.TrackRepo | leif/owner.go:109-128 | a tracked name is refused with "The repository <owner>/<repo> was already tracked", a failed existence check returns its error, otherwise a repository without rules is inserted where its name belongs, keeping the names sorted and unique |
| LeifOwner.Owner.Update | leif/owner.go:84-107 | an error other than a 404 is returned with nothing changed; otherwise the rules found (none for a 404) replace the owner's and every repository is updated, its errors not returned |
| LeifOwner.AbsentWhenNotAt | leif/owner.go:110-114 | when the search position does not hold the name, the name is not tracked |
| LeifOwner.InsertKeepsOrder | leif/owner.go:122-125 | inserting at the search position keeps the names strictly increasing |
| LeifOwner.InsertedNames | leif/owner.go:122-125 | the insertion adds exactly the new name to the names |
| SloUtils.HasAll | drghs-worker/pkg/sloutils/slo_utils.go:40-44 | true exactly when every required label is on the issue |
| SloUtils.HasNone | drghs-worker/pkg/sloutils/slo_utils.go:46-50 | true exactly when no excluded label is on the issue |
| SloUtils.DoesSloApply | drghs-worker/pkg/sloutils/slo_utils.go:25-53 | true exactly for an existing issue of a kind the SLO covers, with every required and no excluded label |
| SloUtils.LabelOrderIrrelevant | drghs-worker/pkg/sloutils/slo_utils.go:40-50 | only which labels an issue carries matters, not their order or repeats |
| SloUtils.ValidResponders | drghs-worker/pkg/sloutils/slo_utils.go:132-140 | exactly the SLO's responders |
| SloUtils.Earliest | drghs-worker/pkg/sloutils/slo_utils.go:142-148 | one of the two times, zero only when both are, and not after any non-zero one |
| SloUtils.AnyResponder | drghs-worker/pkg/sloutils/slo_utils.go:72-79 | true exactly when some login is a responder |
| SloUtils.Seconds | drghs-worker/pkg/sloutils/slo_utils.go:127-129 | the whole seconds of a duration, truncated toward zero |
| SloUtils.CompliantUntil | drghs-worker/pkg/sloutils/slo_utils.go:59-130 | 0 for a missing, closed or non-existent issue; otherwise the whole seconds from now to the deadline, 0 when there is none |
| SloUtils.MinNonZero | drghs-worker/pkg/sloutils/slo_utils.go:142-148 | the smallest non-zero time, zero exactly when all are zero |
| SloUtils.DeadlineIsEarliestLimit | drghs-worker/pkg/sloutils/slo_utils.go:67-124 | the deadline is the earliest applicable limit: creation without a responder assignee when one is required, the resolution limit, and the response limit unless passed with a responder's comment |
| SloUtils.UnassignedDueAtCreation | drghs-worker/pkg/sloutils/slo_utils.go:70-84 | a required assignee missing makes the issue due at its creation |
| SloUtils.NoLimitsNoDeadline | drghs-worker/pkg/sloutils/slo_utils.go:86-124 | an SLO without limits never makes an open issue overdue |
| Maintnerd.ContainsString | drghs-worker/maintnerd/api/v1beta1/common.go:67-74 | true exactly when the string is in the list |
| Maintnerd.MatchesAny | drghs-worker/maintnerd/api/v1beta1/common.go:372-379 | true exactly when some value equals the item |
| Maintnerd.InsertLabel | drghs-worker/maintnerd/api/v1beta1/common.go:183 | inserting into labels sorted by lower-cased name keeps them sorted and adds exactly that label |
| Maintnerd.SortLabels | drghs-worker/maintnerd/api/v1beta1/common.go:176-184 | the labels sorted by lower-cased name, a permutation of the issue's labels |
| Maintnerd.LabelPriority | drghs-worker/maintnerd/api/v1beta1/common.go:252-269 | a priority exactly when the label contains one of p0 to p4 (tested in that order), P0 exactly when it contains p0 |
| Maintnerd.LabelType | drghs-worker/maintnerd/api/v1beta1/common.go:272-289 | Bug exactly for an exact bug label; never the unspecified type |
| Maintnerd.FirstPriorityMeans | drghs-worker/maintnerd/api/v1beta1/common.go:250-271 | none exactly when no label names a priority, otherwise that of the first label naming one |
| Maintnerd.FirstTypeMeans | drghs-worker/maintnerd/api/v1beta1/common.go:250-290 | none exactly when no label names a type, otherwise that of the first label naming one, and never the unspecified type |
| Maintnerd.FirstSomeAt | drghs-worker/maintnerd/api/v1beta1/common.go:250-290 | the first label that names a value, or none; no label before it names one, and its value is kept |
| Maintnerd.AnyBlockedMeans | drghs-worker/maintnerd/api/v1beta1/common.go:291-293 | true exactly when some label says blocked |
| Maintnerd.AnyReleaseBlockingMeans | drghs-worker/maintnerd/api/v1beta1/common.go:291-295 | true exactly when some label says blocking and not blocked |
| Maintnerd.FillFromLabels | drghs-worker/maintnerd/api/v1beta1/common.go:243-315 | the loop writes what the labels say onto the message, under the field mask |
| Maintnerd.PriorityKeptByLaterLabels | drghs-worker/maintnerd/api/v1beta1/common.go:250-271 | a later label never overrides the priority of an earlier one |
| Maintnerd.SloBudget | drghs-worker/maintnerd/api/v1beta1/common.go:224-237 | the loop computes Budget: 0 when no SLO applies; otherwise the least CompliantUntil over the SLOs that apply |
| Maintnerd.LeastBudgetMeans | drghs-worker/maintnerd/api/v1beta1/common.go:224-234 | the running minimum from MaxInt64 is MaxInt64 or one of the budgets, and no budget is below it |
| Maintnerd.BudgetMeans | drghs-worker/maintnerd/api/v1beta1/common.go:224-237 | the budget is 0 when no SLO applies, and otherwise the least CompliantUntil of the SLOs that apply unless every one reaches MaxInt64 |
| Maintnerd.RepoPath | drghs-worker/maintnerd/api/v1beta1/issue_service.go:294-296 | "owner/repo" |
| Maintnerd.IssueName | drghs-worker/maintnerd/api/v1beta1/issue_service.go:298-300 | "owner/repo/issues/N" |
| Maintnerd.IssueUrl | drghs-worker/maintnerd/api/v1beta1/common.go:168-171 | a URL on https://github.com/ |
| Maintnerd.MakeIssuePb | drghs-worker/maintnerd/api/v1beta1/common.go:76-241 | the message is IssueMessage: each modelled field copied under the mask, the labels sorted and classified, and the SLO budget, which is no greater than any applying SLO's CompliantUntil |
| Maintnerd.CountIssues | drghs-worker/maintnerd/api/v1beta1/common.go:42-58 | every issue counted once, as a pull request or as an issue |
| Maintnerd.MakeRepoPb | drghs-worker/maintnerd/api/v1beta1/common.go:42-65 | the name is "owner/repo" and the counts of issues and pull requests are cast to int32, so they add up to the number of issues while that is below 2^31 |
| Maintnerd.FilterIssue | drghs-worker/maintnerd/api/filters/filters.go:29-53 | true exactly when each filter that is set equals the message's flag |
| Maintnerd.ShouldAddIssue | drghs-worker/maintnerd/api/v1beta1/issue_service.go:264-292 | true exactly for an existing issue whose flags pass the filters that are set |
| Maintnerd.HandleIssue | drghs-worker/maintnerd/api/v1beta1/issue_service.go:302-322 | a missing issue, or one the filters reject, leaves the list; otherwise the list grows by exactly the issue's message under the request's mask |
| Maintnerd.MatchIssueName | drghs-worker/maintnerd/api/v1beta1/issue_service.go:42 | a match gives the owner and repository segments and the digits of the number |
| Maintnerd.IssueId | drghs-worker/maintnerd/api/v1beta1/issue_service.go:324-335 | the number exactly when the name matches and the number fits, -1 otherwise |
| Maintnerd.MatchComplete | drghs-worker/maintnerd/api/v1beta1/issue_service.go:42 | every name of the pattern is matched, with its parts |
| Maintnerd.IssueIdOfName | drghs-worker/maintnerd/api/v1beta1/issue_service.go:298-335 | the id read back from an issue name is its number |
| IssueStatus.MentionsIsContains | drghs-worker/pkg/status/status.go:99-133 | the scan used for the label tests is strings.Contains |
| IssueStatus.CaseOfLabel | drghs-worker/pkg/status/status.go:99-134 | the case of the switch the lower-cased label selects |
| IssueStatus.CaseOfMeans | drghs-worker/pkg/status/status.go:100-134 | a label selects a priority exactly when it mentions one of p0 to p4; blocked and release-blocking are selected only by labels saying so, blocked first |
| IssueStatus.Cases | drghs-worker/pkg/status/status.go:97-135 | the case each label selects, in order |
| IssueStatus.LastPriorityMeans | drghs-worker/pkg/status/status.go:101-115 | none exactly when no case sets a priority, otherwise that of the last one |
| IssueStatus.LastPriorityAt | drghs-worker/pkg/status/status.go:101-115 | the position of the last label that sets a priority, or none; the result is that label's priority |
| IssueStatus.LastTypeMeans | drghs-worker/pkg/status/status.go:116-129 | none exactly when no case sets a type, otherwise that of the last one |
| IssueStatus.LastTypeAt | drghs-worker/pkg/status/status.go:116-129 | the position of the last label that sets a type, or none; the result is that label's type |
| IssueStatus.LaterPriorityOverrides | drghs-worker/pkg/status/status.go:101-115 | a label selecting a priority decides it, whatever came before |
| IssueStatus.PriorityUntouched | drghs-worker/pkg/status/status.go:116-134 | labels without a priority case leave the priority as it was |
| IssueStatus.AbsorbAllMeans | drghs-worker/pkg/status/status.go:97-135 | applying the cases one by one gives the last priority and type, and any flag set |
| IssueStatus.ScanLabels | drghs-worker/pkg/status/status.go:97-135 | the label loop computes what the labels say |
| IssueStatus.UpdateObjective | drghs-worker/pkg/status/status.go:188-194 | every priority has a positive update objective |
| IssueStatus.ResolutionObjective | drghs-worker/pkg/status/status.go:196-199 | zero exactly for the priorities other than P0 and P1 |
| IssueStatus.UpdateObjectivesGrow | drghs-worker/pkg/status/status.go:188-199 | a less urgent priority never allows less time |
| IssueStatus.CompliantUpdates | drghs-worker/pkg/status/status.go:172-176 | the time since the last Googler update, compliant exactly when below the objective |
| IssueStatus.CompliantResolution | drghs-worker/pkg/status/status.go:178-186 | the time from creation to closing (or now), compliant exactly when below the objective, so never for P2 to P4 unless negative |
| IssueStatus.UpdateComplianceMonotone | drghs-worker/pkg/status/status.go:172-194 | compliance with the update objective carries over to every less urgent priority |
| IssueStatus.RuleCompliantUpdates | drghs-worker/pkg/status/request_rule.go:26-30 | whole seconds since the last update, compliant exactly when below the response duration |
| IssueStatus.RuleCompliantResolution | drghs-worker/pkg/status/request_rule.go:32-36 | whole seconds since opening, compliant exactly when below the resolution duration |
| IssueStatus.SecondsMonotone | drghs-worker/pkg/status/request_rule.go:28 | whole seconds never decrease as the duration grows |
| IssueStatus.RuleComplianceEarlier | drghs-worker/pkg/status/request_rule.go:26-30 | a rule complied with now was complied with at every earlier time |
| IssueStatus.LoweredSet | drghs-worker/pkg/status/request_config.go:28-31 | exactly the lower-cased labels |
| IssueStatus.MatchRule | drghs-worker/pkg/status/request_config.go:34-41 | the label loop of one rule is true exactly when every rule label, lower-cased, is present |
| IssueStatus.FirstMatching | drghs-worker/pkg/status/request_config.go:33-47 | the position of a rule whose labels are all present with none before it, or the number of rules when none matches |
| IssueStatus.Rule | drghs-worker/pkg/status/request_config.go:27-48 | the rule at FirstMatching: the first rule whose labels are all present, none exactly when no rule matches |
| IssueStatus.RuleMatchesMeans | drghs-worker/pkg/status/request_config.go:27-48 | a rule matches exactly when each of its labels is among the given ones, ignoring case |
| IssueStatus.EmptyRuleMatches | drghs-worker/pkg/status/request_config.go:33-45 | a rule without labels matches any labels |
| IssueStatus.MatchIgnoresCase | drghs-worker/pkg/status/request_config.go:27-48 | upper-casing the labels picks the same rules |
| IssueStatus.Status.constructor | drghs-worker/pkg/utils/status_utils.go:35-52 | priority P2 marked unknown, no labels, the issue's number, title and assignees copied |
| IssueStatus.Status.MakeUrl | drghs-worker/pkg/status/status.go:167-170 | "https://github.com/<repo>/issues/<number>" |
| IssueStatus.Status.FillLabels | drghs-worker/pkg/status/status.go:95-136 | every label name appended; the label fields become what the labels say; nothing else changes |
| IssueStatus.Status.Fill | drghs-worker/pkg/status/status.go:147-157 | the labels and label fields as FillLabels leaves them, both compliance values for the priority now set, and the id, URL, assignees and title; the rule id, SLO id and rule compliance values stay as they were |
| IssueStatus.Status.FillIssueFields | drghs-worker/pkg/status/status.go:152-156 | the id, URL, assignees and title copied from the issue; nothing else changes |
| IssueStatus.Status.ApplyRule | drghs-worker/pkg/status/status.go:82-87 | a rule found sets the rule id and both compliance values from it; with none they stay; nothing else changes |
| IssueStatus.Status.FillWithSlo | drghs-worker/pkg/status/status.go:77-93 | the labels and label fields as FillLabels leaves them and the configuration's id; when a rule matches the gathered labels, the id and both compliance values of the first matching one; otherwise those stay; the id, URL, assignees and title copied; the Fill-only compliance fields unchanged |
| IssueStatus.UrlsAgree | drghs-worker/pkg/status/status.go:168-170 | the status URL is the URL of the issue message |
| Utils.VerdictOfLast | drghs-worker/pkg/utils/status_utils.go:99-102 | the reviewers map holds, under each reviewer, the verdict of that reviewer's last review |
| Utils.VerdictHasLast | drghs-worker/pkg/utils/status_utils.go:99-102 | every reviewer in the map left a review, one of them the last |
| Utils.VerdictsMean | drghs-worker/pkg/utils/status_utils.go:93-115 | the map is non-empty exactly when there are reviews; with reviews, it holds only approvals exactly when every reviewer's last review approves |
| Utils.IsApproved | drghs-worker/pkg/utils/status_utils.go:88-116 | true exactly for an existing issue with reviews in which every reviewer's last review is "APPROVED" |
| Utils.LaterReviewOverrides | drghs-worker/pkg/utils/status_utils.go:95-102 | on an approved history, a later change request by any reviewer withdraws approval and a later approval keeps it |
| Utils.UnmarshalBool | drghs-worker/pkg/utils/serialization_utils.go:25-36 | nil exactly for an empty message or null in any case; true exactly for true in any case |
| Utils.MarshalBool | drghs-worker/pkg/utils/serialization_utils.go:25-36 | a non-empty JSON text: true, false or null |
| Utils.UnmarshalMarshal | drghs-worker/pkg/utils/serialization_utils.go:25-36 | decoding undoes encoding, nil included |
| Utils.UnmarshalIgnoresCase | drghs-worker/pkg/utils/serialization_utils.go:28 | case does not matter to the decoding |
| Tokens.RotatingTokens.constructor | drghs-worker/pkg/tokens/rotate_tokens.go:28-33 | a nil list is an empty one; nothing handed out yet |
| Tokens.RotatingTokens.GetToken | drghs-worker/pkg/tokens/rotate_tokens.go:35-47 | "no tokens" when there are none; otherwise the k-th call hands out key k mod n |
| Tokens.Handed | drghs-worker/pkg/tokens/rotate_tokens.go:35-47 | the keys handed out by consecutive calls, wrapping around |
| Tokens.FullRoundHandsOutEveryKey | drghs-worker/pkg/tokens/rotate_tokens.go:35-47 | n calls in a row, from any point, hand out each of the n keys once |
| Tokens.ModNext | drghs-worker/pkg/tokens/rotate_tokens.go:38-45 | the index after the last key wraps to 0, as the reset does |
| Googlers.GooglersStatic.constructor | drghs-worker/pkg/googlers/googlers_static.go:37-46 | exactly the newline-separated entries of the text are Googlers |
| Googlers.GooglersStatic.Update | drghs-worker/pkg/googlers/googlers_static.go:32-34 | nothing changes |
| Googlers.NoNewlineInLines | drghs-worker/pkg/googlers/googlers_static.go:48-95 | no login of the users constant holds a newline |
| Googlers.GooglersAreTheLines | drghs-worker/pkg/googlers/googlers_static.go:26-95 | built from the users constant, the Googlers are exactly its lines, the empty login among them |
| Googlers.NewlineNeverGoogler | drghs-worker/pkg/googlers/googlers_static.go:26-46 | a login with a newline is never a Googler |
| Googlers.LeadingNewlineAdmitsEmpty | drghs-worker/pkg/googlers/googlers_static.go:26-48 | a text starting with a newline makes the empty login a Googler |
| Repos.RepoString | repos/repos.go:44-46 | the owner, a slash at the owner's length, then the name |
| Repos.RepoParts | repos/repos_bucket.go:104-108 | when present, two slash-free parts that rebuild the entry around one slash |
| Repos.RepoPartsOf | repos/repos_bucket.go:104-108 | every slash-free owner and name are recovered from "owner/name" |
| Repos.BucketEntryRoundTrip | repos/repos_bucket.go:103-117 | a well-formed entry converts to a repository that prints back as the entry, every flag and the default branch copied |
| Repos.BucketRepoRoundTrip | repos/repos_bucket.go:103-117 | a repository written out as an entry converts back to itself |
| Repos.MalformedBucketEntry | repos/repos_bucket.go:104-108 | an entry that does not split into two parts leaves the zero value in its slot |
| Repos.GetBucketRepos | repos/repos_bucket.go:101-120 | one slot per entry, holding that entry's repository or the zero value |
| Repos.BucketRepoList.constructor | repos/repos_bucket.go:31-37 | the bucket and file are kept; the list starts empty |
| Repos.BucketRepoList.UpdateTrackedRepos | repos/repos_bucket.go:46-59 | an error is returned with the list untouched; otherwise the list becomes the converted entries and the result is true exactly when it changed |
| Repos.BucketRepoList.GetTrackedRepos | repos/repos_bucket.go:61-65 | the current list |
| LeifRepos.DiskRepoRoundTrip | leif/repos_disk.go:83-97 | a repository written out as a disk entry converts back to itself with an empty default branch |
| LeifRepos.DiskAgreesWithBucket | leif/repos_disk.go:83-97 | a disk entry converts as the bucket entry with no default branch does |
| LeifRepos.GetDiskRepos | leif/repos_disk.go:82-97 | one slot per entry, holding that entry's repository or the zero value |
| LeifRepos.DiskRepoList.constructor | leif/repos_disk.go:30-35 | the file name is kept; the list starts empty |
| LeifRepos.DiskRepoList.UpdateTrackedRepos | leif/repos_disk.go:43-57 | an error is returned with the list untouched; otherwise the list becomes the converted entries and the result is true exactly when it changed |
| LeifRepos.DiskRepoList.GetTrackedRepos | leif/repos_disk.go:59-63 | the current list |
| Sweeper.RepoToTrackedRepo | drghs-worker/maintner-swpr/main.go:292-306 | when converted, the name is owner "/" repo, both sides word characters or hyphens, every other field zero |
| Sweeper.RepoToTrackedRepoComplete | drghs-worker/maintner-swpr/main.go:292-306 | every name the pattern matches is converted, to its two sides |
| Sweeper.TwoSlashesRejected | drghs-worker/maintner-swpr/main.go:53 | a name with two slashes is not converted |
| Sweeper.AbsentMeans | drghs-worker/maintner-swpr/main.go:139-144 | an issue is tombstoned exactly when maintner has it and GitHub does not |
| Sweeper.AbsentIsSubsequence | drghs-worker/maintner-swpr/main.go:139-144 | the tombstoned ids keep maintner's order |
| Sweeper.AbsentIdempotent | drghs-worker/maintner-swpr/main.go:139-144 | a second sweep over the tombstones finds the same ones |
| Sweeper.Sweep | drghs-worker/maintner-swpr/main.go:130-155 | the tombstones are the maintner ids GitHub does not list, in order, flagged exactly when there is one |
| Sweeper.InSyncNothingFlagged | drghs-worker/maintner-swpr/main.go:139-148 | when GitHub lists every maintner issue nothing is tombstoned |
| Supervisor.LabelGenKey | sprvsr/k8s_supervisor.go:100 | the supervisor's label never clashes with the owner or repository label |
| Supervisor.Key | sprvsr/k8s_supervisor.go:201-204 | a repository's owner and name with every other field zero |
| Supervisor.ClusterKey | sprvsr/k8s_supervisor.go:187-205 | an object belongs to a repository exactly when it has both labels, and then to their owner and name |
| Supervisor.ClusterKeysMean | sprvsr/k8s_supervisor.go:187-205 | a repository is on the cluster exactly when some listed object carries both of its labels |
| Supervisor.SetDifference | sprvsr/k8s_supervisor.go:356-364 | exactly the keys of the first map that the second lacks, each mapped to true |
| Supervisor.DifferenceSplits | sprvsr/k8s_supervisor.go:352-364 | the difference shares no key with the second map and with the common keys makes up the first |
| Supervisor.ToSet | sprvsr/k8s_supervisor.go:166-169 | the keys are exactly the tracked repositories |
| Supervisor.KeysOfObjects | sprvsr/k8s_supervisor.go:217-232 | the keys are exactly the repositories of the labelled objects |
| Supervisor.UpdateCorpusRepoList | sprvsr/k8s_supervisor.go:146-293 | an update or listing error is reported and ends the run; an unchanged list does nothing; otherwise the deletes and adds are the set differences between tracked and listed |
| Supervisor.WholeValueChurn | sprvsr/k8s_supervisor.go:166-169 | a tracked repository with a flag or branch set is deleted and added again although its deployment is in place |
| Supervisor.WholeValueChurnExample | sprvsr/k8s_supervisor.go:202-205 | for o/r tracking its issues, with its deployment and service listed, both are deleted and added again |
| Supervisor.PlanByNameStable | sprvsr/k8s_supervisor.go:238-290 | comparing by owner and name, a cluster that matches the tracked list is left alone |
| Supervisor.PlansAgreeOnBareRepos | sprvsr/k8s_supervisor.go:238-290 | when tracked repositories carry only owner and name, both comparisons give the same plan |
| Supervisor.StampedReadBack | sprvsr/k8s_supervisor.go:305-323 | a created object carries the supervisor's label and reads back as its repository |
| Supervisor.Deployment.constructor | sprvsr/k8s_supervisor.go:296 | a built deployment with its labels and pod labels |
| Supervisor.Service.constructor | sprvsr/k8s_supervisor.go:334 | a built service with its labels |
| Supervisor.StampLabels | sprvsr/k8s_supervisor.go:306-313 | a nil map is made, then given the supervisor's, owner and repository labels |
| Supervisor.CreateDeployment | sprvsr/k8s_supervisor.go:295-331 | builder and namer errors are returned; otherwise deployment and pods are labelled and "already exists" counts as success |
| Supervisor.CreateService | sprvsr/k8s_supervisor.go:333-350 | a builder error is returned; otherwise the service is labelled and the creation's error returned |
| ProxyQuery.SplitField | magic-github-proxy/main.py:89 | none exactly when the field has no "="; otherwise an "="-free name and the value that rebuild it |
| ProxyQuery.SplitFieldOf | magic-github-proxy/main.py:89 | a field built from an "="-free name splits back into that name and value |
| ProxyQuery.ParseFields | magic-github-proxy/main.py:89 | strict parsing fails exactly when a field has no "="; otherwise one pair per field that rebuilds it |
| ProxyQuery.Fields | magic-github-proxy/main.py:91 | one "name=value" field per pair |
| ProxyQuery.ParsedWellFormed | magic-github-proxy/main.py:89 | parsed names hold no "=" or "&", values no "&" |
| ProxyQuery.ParseFieldsOf | magic-github-proxy/main.py:89-91 | parsing the fields of pairs with "="-free names gives the pairs back |
| ProxyQuery.ParseEncode | magic-github-proxy/main.py:89-91 | parsing undoes encoding for a non-empty well-formed pair list |
| ProxyQuery.EncodeEmpty | magic-github-proxy/main.py:91 | the encoding is empty exactly when the list is |
| ProxyQuery.KeepPairsMeans | magic-github-proxy/main.py:90 | no kept pair is named in the clean set, and a pair is kept exactly when it is listed and not named |
| ProxyQuery.KeepPairsAppend | magic-github-proxy/main.py:90 | the filter keeps relative order |
| ProxyQuery.KeepPairsIdempotent | magic-github-proxy/main.py:90 | filtering twice is filtering once |
| ProxyQuery.KeepPairsWellFormed | magic-github-proxy/main.py:90 | the filter keeps pair lists well formed |
| ProxyQuery.CleanPathQueries | magic-github-proxy/main.py:85-91 | a path without a query is returned as is; an error exactly for a malformed query; only the query changes |
| ProxyQuery.CleanedQuery | magic-github-proxy/main.py:85-91 | the new query parses to exactly the kept pairs, or is empty when none is kept |
| ProxyQuery.CleanIdempotent | magic-github-proxy/main.py:85-91 | cleaning a cleaned path changes nothing |
| ApiBuilder.MakeOperation | drghs/scripts/github-api-builder/main.py:50-65 | the id ends in the verb, the api_key scheme, and a single "200" response |
| ApiBuilder.OperationIdInjective | drghs/scripts/github-api-builder/main.py:52 | the depth and verb are read back from an operation id |
| ApiBuilder.MakeVerbs | drghs/scripts/github-api-builder/main.py:44-48 | each of the six verbs mapped to its operation at that depth |
| ApiBuilder.PathKey | drghs/scripts/github-api-builder/main.py:39 | twice as many characters as the depth |
| ApiBuilder.PathsAt | drghs/scripts/github-api-builder/main.py:38-40 | each depth 1 to n has its path, with that depth's operations |
| ApiBuilder.DepthOf | drghs/scripts/github-api-builder/main.py:38-40 | every path is the path of a depth 1 to n |
| ApiBuilder.PathsShort | drghs/scripts/github-api-builder/main.py:38-40 | no path is longer than 2n characters |
| ApiBuilder.PathsCount | drghs/scripts/github-api-builder/main.py:38-40 | there are n distinct paths for the depths 1 to n |
| ApiBuilder.CreatePaths | drghs/scripts/github-api-builder/main.py:36-42 | the paths of the depths 1 to 15, each with its operations |
| ApiBuilder.FifteenPaths | drghs/scripts/github-api-builder/main.py:36-42 | exactly fifteen paths, every depth 1 to 15 among them |
| ApiBuilder.SixVerbsEach | drghs/scripts/github-api-builder/main.py:44-65 | every path answers exactly the six verbs, each under api_key with one "200" response |
| ApiBuilder.OperationIdsUnique | drghs/scripts/github-api-builder/main.py:36-65 | no two operations of the document share an id |

## Left out

- Network, cluster and storage I/O. This covers the gRPC and HTTP servers, GitHub and Kubernetes clients, bucket reads, file reads and running `git`. Their answers are parameters of the operations that use them.
- Concurrency. The mutexes of the token vendor, the repository lists, the supervisor and the corpus are left out, as are `Corpus.Sync` and leif's update loop on a ticker: every operation runs alone.
- Byte forms of foreign encodings. JSON bytes are left out, and JSON arrives as a decoded value. So are YAML (the sample-metadata decoder is a parameter), the protobuf and base64 form of page tokens, SHA-224 in `RepoSha`, and percent-encoding in the proxy's `parse_qsl`/`urlencode`.
- enry language detection, the CEL filter builders other than `FilterIssue`, and the cobra and tabwriter output of samplrctl.
- Floating point. `Hours() > 2` is compared exactly in nanoseconds, and `Duration.Seconds()` followed by the int64 conversion is exact division truncated toward zero. Saturation of `time.Time.Sub` at the int64 range is not modelled.
- Case mapping is ASCII only. Go's Unicode case folding in `strings.EqualFold`/`ToLower` beyond ASCII is not modelled.
- Token signing and checking in the proxy (the `magicproxy` package), its key loading from KMS and storage, and the proxied request itself.
- The supervisor's deployment and service builders and namers. They are parameters, and `Supervise` registers HTTP routes only.
- `generate()` of the OpenAPI builder, which reads a template and prints YAML.
- Go map iteration order is unspecified. Where an outcome could depend on it (the order in which `processDeletedFiles` and `processPreviouslySeenSnippets` visit snippets), the order is an explicit sequence argument. Otherwise the model picks keys in any order.
- The status of an issue carries only the fields this logic fills. Its reporter, timestamps other than those the SLO logic reads, and comments are not modelled. `Fill` also sets the reporter, at drghs-worker/pkg/status/status.go:155.
- Code that does not compile as shown. The model takes the evident intent in each case:
  - drghs-worker/pkg/utils/status_utils.go:48 reads `commitIDcommitID`, and :79 calls `s.Url()`;
  - leif/leifd/leifapi/repository_paginator.go:70 reads `val.idx`;
  - leif/repos_disk.go:90 calls `log.Printf`, but the file does not import `log`;
  - `makeIssuePB` takes different arguments at its definition (drghs-worker/maintnerd/api/v1beta1/common.go:76) and at its call (issue_service.go:233);
  - the `TrackedRepository` struct of repos/repos.go has no `DefaultBranch`, yet repos/repos_bucket.go:115 sets one. The model carries the field.
- Paginators.Paginator.GetPage: requires a non-negative page size. A negative size makes the Go slice expression panic, and every caller passes `GetPageSize`, which is between 1 and 100.
- SloRules.DecodeDuration: a JSON number is an integer here. Go reads it as a float64 and truncates it toward zero, so fractional seconds (1.5 read as 1 second) and the rounding of integers above 2^53 are not modelled. Duration.UnmarshalJSON inherits this.
- SloRules.ParseSloRule: requires a raw rule that is not JSON null. A `null` element of the rules array decodes to a nil pointer, which leif/parse_slo_rules.go:122 dereferences, so Go panics; a crash is not modelled. ParseRule, ParseRules and RulesAfter carry the same requirement.
- SloRules.UnmarshalSlos: requires every element of a rules array to be non-null, for the same reason: Go panics on the first null element.
- Sweeper.Sweep: the maintner issues are a parameter. As written, drghs-worker/maintner-swpr/main.go:135 passes a nil `IssueServiceClient` to `getMaintnerIssuesForRepo`, whose first `ListIssues` call (main.go:180) dereferences it, so the program panics before any sweep; the error it would return is also ignored at :135. The model states what the sweep does once the maintner issues are at hand, not the crash.
- Paginators.Paginator.GetPage: a missing page key gives the fixed text "Page key not found". Go formats the key into the message (`"Page key: %v not found"`, drghs-worker/maintnerd/api/v1beta1/comment_paginator.go:68 and the other paginators), so the model's error text leaves out the key.
- SloRules.DecodeRule: when one rule holds several bad members, the model reports the first error in member order. Go's decoder keeps the first type mismatch but returns at once with the error of a custom `UnmarshalJSON` (a bad duration), even after a type mismatch, so in that case the error text can differ. Whether an error occurs is the same.
- Maintnerd.SortLabels: the model's sort puts labels that differ only in case in one particular order, and Go's `sort.Slice`, which is not stable, may put them in another. The contract therefore states only what both orders share: the result is sorted by lower-cased name and is a permutation of the labels.
- Maintnerd.MakeIssuePb: the message carries only the fields this model fills: closed, is_pr, title, body, issue_id, url, repo, labels, the label facts and slo_budget. `makeIssuePB` also fills created_at, updated_at, closed_at, closed_by, reporter, assignees, commit, approved, comments and reviews under the mask. The time, user, comment and review conversions it calls can fail, and it returns their errors (drghs-worker/maintnerd/api/v1beta1/common.go:80-131 and 191-219). The model leaves out those fields, and so it never fails.
- Maintnerd.HandleIssue: because MakeIssuePb never fails, the error that `handleIssue` passes on from `makeIssuePB` (drghs-worker/maintnerd/api/v1beta1/issue_service.go:302-322) has no counterpart. The model's list only grows or stays the same.
- Strs.ScanLines: it has no token limit. A `bufio.Scanner` stops at the first line longer than 64 KiB (`bufio.MaxScanTokenSize`), and its callers (samplr/snippet.go:227 and :249, samplr/sample_metadata.go:51 and :54) never read `Err()`, so in Go the lines after such a line are silently dropped. Snippet.ExtractSnippetVersionsFromFile and SampleMetadata.ParseSampleMetadata inherit this: on a file with such a line the model still sees the regions and metadata after it.
- TestUtil.ContainsRow: matches each line of the output on its own. Go runs the multi-line regular expression over the whole output, so a field value that itself holds a newline can match in Go and never matches here.
- ProxyQuery.ParseFields: follows `urllib.parse.parse_qsl` from Python 3.9.2 on, which splits fields on '&' only. Earlier versions also split on ';'.
- Durations.ParseDuration: models only the integer grammar of Go's `time.ParseDuration`, which is all its one caller can reach because that caller rejects every '.'. Fractional segments are not modelled. Its error texts are the fixed prefixes ("time: invalid duration", "time: missing unit in duration", "time: unknown unit in duration"); Go appends the quoted input, and the unit for an unknown unit, so only whether parsing fails and which kind of error it is are modelled.
- Supervisor.UpdateCorpusRepoList: once the plan is made, the model returns no error and does not carry out the deletes and adds. In Go each action can fail on its own, and the failure goes to `handle` while the loop goes on (sprvsr/k8s_supervisor.go:239-291). A namer error skips that delete. A failed `Delete` is reported. A `deploymentPrep` error skips that deployment's creation. A failed `createDeployment` or `createService` is reported. The plan states which actions are attempted, not which succeed or what `handle` receives.
- GitRemote.String: requires a remote with a config. Go's `Remote.String` (samplr/git-go/remote.go:51-59) reads `r.c.URLs` and `r.c.Name` without a nil check, so a remote without a config panics; a crash is not modelled. GitRemote.StringLines carries the same requirement.

## Findings

| source | as written | input that shows it | evidently intended | confidence | as-written member | corrected member |
|---|---|---|---|---|---|---|
| leif/parse_slo_rules.go:249-250 | the day count is multiplied by 24 in wrapping 64-bit arithmetic before being written as hours | "2305843009213693952d" (2^61 days) is rewritten to "0h" and parses as a zero duration | a day count too large for a duration is an error, as an hour count of that size is | not executed | DayDurations.DaysWrapAsWritten | DayDurations.DaysWrapCorrected |
| sprvsr/k8s_supervisor.go:166-169 | tracked repositories are compared as whole values, with the tracking flags and default branch, against cluster keys that carry only owner and name | repository o/r tracking its issues, with its deployment and service already labelled owner o and repository r: every update whose list changed deletes both and creates them again | compare by owner and name, so a deployed repository is left alone | not executed | Supervisor.WholeValueChurnExample | Supervisor.PlanByNameStable |
