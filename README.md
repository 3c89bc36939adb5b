# Markdown image migrator: a verified model of its planning and rewrite engine

`markdown_image_downloader.py` migrates a collection of Markdown files from remote images
to local ones. It does this in five steps:

1. It parses every file and finds the image destinations that start with `http`.
2. For each (URL, file) pair it counts the image elements, and the textual matches of the
   pattern `\(\s*URL\s*\)`.
3. It keeps one `ImageUrlRecord` per URL, with one `FileOccurrenceRecord` per file the URL
   occurs in.
4. It gives every filtered-in URL a unique local file name, of the form
   `<root>_<timestamp>_<n>`.
5. On `execute`, it downloads the images in ascending URL order. Then it rewrites each file,
   longest URL first, replacing a URL only where its download succeeded and every textual
   occurrence of it is an image element.

The model follows the program's structure, one Dafny module per part:

| file | module | models |
|---|---|---|
| `strings.dfy` | `Strings` | Python's `\s`, `startswith`, `in`/`count`, `str(int)`, `str` ordering, and `os.path.basename`/`splitext`/`join` |
| `sorting.dfy` | `Sorting` | `sorted` on distinct strings, `list.sort(key=url)`, and the stable `list.sort(reverse=True, key=len)` |
| `markdown.dfy` | `Markdown` | the parsed tree as a datatype, `collect_image_elements`, `get_image_url_counts` |
| `pattern.dfy` | `UrlPattern` | `build_url_dest_regex` as a scanner: leftmost, non-overlapping matches, with the first `\s*` greedy and backtracking. One scan gives both `get_textual_counts` (`re.findall`) and the substitution in `execute` (`re.sub`) |
| `uniquifier.dfy` | `Uniquifier` | `LogseqImageFilenameTransformer`, a class over its claimed-roots set |
| `records.dfy` | `Records` | `FileOccurrenceRecord` and `ImageUrlRecord` (a class whose `download` updates its fields), with the fetch replaced by its outcome |
| `plan_spec.dfy` | `PlanSpec` | what the plan computes, on record values: the store, the names, the iteration order, the grouping, the downloads and the rewrite |
| `plan.dfy` | `ReplacementPlan` | `ImageUrlReplacementPlan`, a class holding a map from URL to record objects. Each of its methods is proved equal to the `PlanSpec` definition, stated on the ghost field `Records` |

Where the docstrings and the code disagree, the model follows the code:

- The docstring of `get_uniquified_filename` (line 134) says spaces become `_`. But
  `root.replace(' ', '_')` (line 150) discards its result, so the root keeps its spaces.
- The comment on `num_extra_textual_occurrences` (line 174) calls it a number of references.
  But it is the textual count minus the image count (line 404) and is not clamped, so it can
  be negative. A negative value counts as safe.

Two more facts about the code shape the model:

- `time.time()` is read on every call to `get_uniquified_filename` (line 151). The k-th name
  in the plan is made at `clock(k)`.
- A download succeeds only with status 200 (lines 228 and 240).

## Model

Source cells refer to `markdown_image_downloader.py`.

| member | source | states |
|---|---|---|
| Strings.Occurs | markdown_image_downloader.py:434 | `url.count(f)` is non-zero exactly when `f` occurs in `url` at some index; the empty string occurs everywhere |
| Strings.Basename | markdown_image_downloader.py:129 | `os.path.basename` is the suffix after the last `/`: it holds no `/`, and the character before it is `/` |
| Strings.SplitExt | markdown_image_downloader.py:149 | `os.path.splitext`: root + ext is the input; the extension is empty or one dot followed by no dot or `/`. An extension is split off exactly when the last component has a dot after a non-dot character: the root then keeps a non-dot character of that component |
| Strings.RemoveDotOfExt | markdown_image_downloader.py:152 | `ext.replace('.', '')` on an extension from `splitext` drops exactly its leading dot |
| Strings.DecimalRoundTrip | markdown_image_downloader.py:151 | reading back the decimal digits of `str(n)` gives `n` |
| Strings.NatToStringInjective | markdown_image_downloader.py:156 | distinct numbers render as distinct strings, so distinct suffixes give distinct candidates |
| Markdown.CollectImageElements | markdown_image_downloader.py:79-89 | every element returned is an image node |
| Markdown.CollectIsImageNodes | markdown_image_downloader.py:79-89 | the images collected are exactly the image nodes of the tree in document order; `Other` leaves and containers contribute none |
| Markdown.HttpDestsSpec | markdown_image_downloader.py:98-99 | a destination is kept exactly when it starts with `http` and some collected image has it |
| Markdown.CountIsMultiplicity | markdown_image_downloader.py:101 | the tally of a destination is its multiplicity in the list |
| Markdown.ImageUrlCountsSpec | markdown_image_downloader.py:92-101 | the counter's keys are exactly the `http` destinations of the document's image nodes, and each count is the number of such nodes, at least 1 |
| Markdown.Distinct | markdown_image_downloader.py:101 | the counter's key list holds each element of the input once, and nothing else |
| Markdown.ImageUrlsSpec | markdown_image_downloader.py:397 | the URLs passed to `get_textual_counts` are the counter's keys, each once |
| UrlPattern.SpaceRun | markdown_image_downloader.py:76 | the whitespace run at a position is maximal: all whitespace, and followed by the end or a non-space |
| UrlPattern.CloseParenSpec | markdown_image_downloader.py:76 | the closing `\s*\)` spans `s[p..e]` exactly when the greedy scan ends it at `e` |
| UrlPattern.RightmostFitSpec | markdown_image_downloader.py:76 | backing the leading `\s*` off finds the rightmost position where the URL and the closing part fit |
| UrlPattern.MatchAtSpec | markdown_image_downloader.py:74-76 | a match of `\(\s*URL\s*\)` starts at `i` exactly when the scanner finds one there, and it puts the URL as far right as the greedy `\s*` allows |
| UrlPattern.MatchAtSound | markdown_image_downloader.py:74-76 | what the scanner finds at `i` is `(`, whitespace, the URL, whitespace, `)` |
| UrlPattern.MatchAtComplete | markdown_image_downloader.py:74-76 | whenever `(`, whitespace, the URL, whitespace and `)` line up at `i`, the scanner finds a match there, with the URL no further left |
| UrlPattern.MatchUnique | markdown_image_downloader.py:74-76 | for a URL not starting with whitespace (every `http` URL), a match starting at `i` is unique |
| UrlPattern.ScanLeftmost | markdown_image_downloader.py:119 | the scan is leftmost: every position where a match starts opens a span or lies inside an earlier one |
| UrlPattern.MatchSpansAreMatches | markdown_image_downloader.py:119 | each span `re.findall` counts is a match at its start, and the spans are in order and disjoint |
| UrlPattern.MatchSpansLeftmost | markdown_image_downloader.py:119 | no match is skipped: every match position starts a counted span or lies inside one |
| UrlPattern.ScanReplaceIsSplice | markdown_image_downloader.py:310 | substituting while scanning gives the text with the scanned spans replaced and everything between them kept |
| UrlPattern.SubstituteIsSplice | markdown_image_downloader.py:310 | `re.sub` replaces exactly the spans `re.findall` counts and keeps every other character |
| UrlPattern.SubstituteWithoutMatch | markdown_image_downloader.py:310 | a text in which the pattern never matches is left as it is |
| UrlPattern.GetTextualCounts | markdown_image_downloader.py:104-121 | the result has a key for exactly the given URLs, each mapped to its number of non-overlapping matches |
| Uniquifier.LogseqImageFilenameTransformer.constructor | markdown_image_downloader.py:127-129 | the claimed set is the basename-without-extension of every existing file |
| Uniquifier.ExtensionIgnored | markdown_image_downloader.py:129 | `a.jpg` and `a.png` claim the same root `a` |
| Uniquifier.CandidateInjective | markdown_image_downloader.py:156 | different suffixes give different candidate roots |
| Uniquifier.ClaimedBound | markdown_image_downloader.py:155-160 | if the first `n` candidates are all claimed, at least `n` roots are claimed, so the probe loop ends |
| Uniquifier.LeastFreeSuffix | markdown_image_downloader.py:154-160 | the suffix found is unclaimed, and every smaller suffix is claimed |
| Uniquifier.LeastFreeSuffixUnique | markdown_image_downloader.py:154-160 | that least free suffix is the only suffix with both properties |
| Uniquifier.UniquifiedFilename | markdown_image_downloader.py:149-161 | the root returned is not claimed yet, and the extension holds no dot |
| Uniquifier.UniquifiedFilenameSpec | markdown_image_downloader.py:149-161 | root = the `splitext` root (spaces kept) + `_` + `str(ts)` + `_` + `str(n)`, where `n` is the least suffix not claimed; the extension is the `splitext` extension without its dot |
| Uniquifier.LogseqImageFilenameTransformer.GetUniquifiedFilename | markdown_image_downloader.py:131-161 | the probe loop returns that root and extension, and claims nothing |
| Uniquifier.LogseqImageFilenameTransformer.AssignUniquifiedFilename | markdown_image_downloader.py:163-167 | the root returned was not claimed before the call, and the claimed set grows by exactly that root |
| Uniquifier.ClaimsAt | markdown_image_downloader.py:163-167 | in a run of calls, the k-th name is the one handed out against the roots that the calls before it claimed |
| Uniquifier.ClaimsDistinct | markdown_image_downloader.py:163-167 | successive calls return roots that are pairwise distinct, even for the same file name, and distinct from the roots claimed before. The claimed set ends as those roots plus the ones handed out |
| Records.LocalFilenameSplits | markdown_image_downloader.py:202-204 | `local_filename()` is `basename.ext`, which splits back into basename and extension, or just `basename` when the extension is empty |
| Strings.SplitExtOfJoined | markdown_image_downloader.py:204 | `splitext` of `root.ext` gives back `root` and `.ext` when the root is not all dots and the extension has no dot |
| Records.OccurrenceIndex | markdown_image_downloader.py:206-211 | the first occurrence record for the path; none exactly when no record has that path |
| Records.ImageUrlRecord.GetFileOccurrence | markdown_image_downloader.py:206-211 | the loop returns that first matching occurrence, or none |
| Records.OccurrenceIndexIsFirst | markdown_image_downloader.py:206-211 | the first record with the path is the one found |
| Records.ImageUrlRecord.constructor | markdown_image_downloader.py:190-200 | a new record has its URL, filter result and original file name; no local name, not downloaded, no occurrences |
| Records.DownloadedSpec | markdown_image_downloader.py:213-258 | an empty directory raises first, then a missing basename. A record ends downloaded exactly when it already was, or the status is 200 and the extension was known or was sniffed. Only an unknown extension is filled in, with `jpg` for a sniffed `jpeg`; no other field changes |
| Records.ImageUrlRecord.Download | markdown_image_downloader.py:213-258 | on an error the record is unchanged and the error is returned; otherwise the fields become what the download rules give |
| PlanSpec.EmptyFilterPassesAll | markdown_image_downloader.py:429-436 | an empty-string filter lets every URL through |
| ReplacementPlan.ImageUrlReplacementPlan.CheckPassesFilters | markdown_image_downloader.py:429-436 | true exactly when the filters are absent or empty, or some filter occurs in the URL |
| PlanSpec.AnalysisKeys | markdown_image_downloader.py:391-414 | after the analysis a URL has a record exactly when it had one before or is an image destination of some file |
| PlanSpec.AnalysisSpec | markdown_image_downloader.py:391-420 | each record of the result is the stored one, or a new one with no local name, with exactly its URL's occurrences appended in input-file order |
| PlanSpec.OccurrencesOfSpec | markdown_image_downloader.py:399-420 | each occurrence comes from a file whose image destinations include the URL, and carries that file's counts; every such file contributes one |
| PlanSpec.SourceOccurrenceCounts | markdown_image_downloader.py:396-420 | each occurrence counts at least one image element. Its extra count is the textual count minus the image count, unclamped, and it starts out not replaced |
| PlanSpec.NotFoundNoOccurrences | markdown_image_downloader.py:399-420 | a URL that no file contains gets no occurrence |
| PlanSpec.AddInTurnAll | markdown_image_downloader.py:399-420 | appending URL by URL, each once, gives the file's step of the analysis, whatever the order of the URLs |
| ReplacementPlan.ImageUrlReplacementPlan.GetImageUrlOccurrences | markdown_image_downloader.py:389-420 | the records become the analysis of the files in order; records already stored stay the same objects |
| ReplacementPlan.ImageUrlReplacementPlan.AddFileOccurrences | markdown_image_downloader.py:392-420 | the records become the store after one more file; records already stored stay the same objects under their URLs |
| ReplacementPlan.ImageUrlReplacementPlan.AddOccurrence | markdown_image_downloader.py:403-420 | the record of the URL, created if it is new, gets the occurrence appended; no other record changes, and every stored record stays the same object |
| ReplacementPlan.ImageUrlReplacementPlan.CreateRecord | markdown_image_downloader.py:407-414 | a fresh record, built from the filter result and the URL's file name, is stored under its URL |
| ReplacementPlan.ImageUrlReplacementPlan.AppendOccurrence | markdown_image_downloader.py:417-420 | the occurrence is appended to that one record |
| ReplacementPlan.ImageUrlReplacementPlan.constructor | markdown_image_downloader.py:271-287 | the records are the analysis of the files, named against the roots of the image directory's listing |
| PlanSpec.Iteration | markdown_image_downloader.py:438-445 | the URLs iterated are strictly ascending and are exactly the records included (filtered in, when filtering) |
| Sorting.SortedSeqOf | markdown_image_downloader.py:441 | `sorted` returns the elements strictly ascending, independently of the order they were found in |
| Sorting.StrictlySortedUnique | markdown_image_downloader.py:441 | two strictly ascending sequences with the same elements are equal, so the order is deterministic |
| ReplacementPlan.ImageUrlReplacementPlan.IterateImageUrlRecords | markdown_image_downloader.py:438-445 | the URLs it yields are that iteration order |
| PlanSpec.AssignNamesSpec | markdown_image_downloader.py:422-427 | only filtered-in records are named, and only their names change. The roots they get are pairwise distinct and distinct from the image directory's roots |
| PlanSpec.AssignNamesInOrder | markdown_image_downloader.py:426-427 | the k-th record in ascending URL order gets the k-th call's name, made after the roots the earlier calls claimed |
| PlanSpec.NamePrefixAll | markdown_image_downloader.py:426-427 | naming the records one at a time in that order gives those names |
| ReplacementPlan.ImageUrlReplacementPlan.AssignLocalFilenames | markdown_image_downloader.py:422-427 | the records become the named store |
| ReplacementPlan.ImageUrlReplacementPlan.NameInTurn | markdown_image_downloader.py:426-427 | the loop names the records of the order one after the other, threading the claimed roots |
| ReplacementPlan.ImageUrlReplacementPlan.NameRecord | markdown_image_downloader.py:427 | one record gets the next uniquified name for its original file name, and the transformer claims the root |
| ReplacementPlan.ImageUrlReplacementPlan.SetLocalName | markdown_image_downloader.py:427 | the record's basename and extension become the pair given; nothing else changes |
| PlanSpec.GroupMapSpec | markdown_image_downloader.py:449-452 | a path has a list exactly when some occurrence names it; the list is never empty and holds exactly the URLs paired with that path |
| PlanSpec.PairsSpec | markdown_image_downloader.py:450-452 | a (path, URL) pair is visited exactly when the URL is iterated and has an occurrence at the path |
| PlanSpec.PairsSorted | markdown_image_downloader.py:450-452 | iterating in ascending URL order visits the pairs in ascending URL order |
| PlanSpec.GroupMapSorted | markdown_image_downloader.py:449-452 | pairs visited in ascending URL order fill every list in ascending order |
| PlanSpec.GroupListSpec | markdown_image_downloader.py:455-457 | the items come in strictly ascending path order, and each pairs a path with its own list, which is ascending when every list was |
| PlanSpec.GroupingSorted | markdown_image_downloader.py:447-457 | the groups are in strictly ascending path order, and each list is non-empty and ascending by URL |
| PlanSpec.GroupingMembers | markdown_image_downloader.py:447-457 | a group holds exactly the iterated records that occur in its path |
| PlanSpec.GroupingCovers | markdown_image_downloader.py:447-457 | every path an iterated record occurs in has a group |
| PlanSpec.GroupingPaths | markdown_image_downloader.py:457 | the sorted items list every path of the grouping, and only those |
| PlanSpec.GroupingFits | markdown_image_downloader.py:447-457 | each group of the filtered grouping lists only filtered-in records, and every filtered-in record occurring in its file |
| PlanSpec.GroupingWithin | markdown_image_downloader.py:447-457 | the groups name files on disk and records of the store |
| ReplacementPlan.ImageUrlReplacementPlan.GetImageUrlRecordsByFile | markdown_image_downloader.py:447-457 | the groups returned are the grouping of the records |
| ReplacementPlan.AddToGroups | markdown_image_downloader.py:451-452 | the inner loop appends the URL to the list of each path it occurs in, once per occurrence |
| ReplacementPlan.SortedGroups | markdown_image_downloader.py:455-457 | the items are returned with paths ascending and each list sorted |
| ReplacementPlan.GroupItemsOf | markdown_image_downloader.py:455-457 | the loop produces the items in the order of the paths given |
| Sorting.SortAscending | markdown_image_downloader.py:456 | `sort(key=url)` returns an ascending permutation of its input |
| Sorting.SortAscendingOfSorted | markdown_image_downloader.py:456 | sorting a list already in order leaves it as it is |
| Sorting.SortByLengthDesc | markdown_image_downloader.py:303 | `sort(reverse=True, key=len)` returns a permutation of its input with non-increasing lengths |
| Sorting.SortByLengthDescMembers | markdown_image_downloader.py:303 | that sort keeps exactly the elements it was given |
| Sorting.SortByLengthDescOfAscending | markdown_image_downloader.py:303 | the sort is stable: on an ascending list, equally long URLs stay ascending, so the order is fixed completely |
| PlanSpec.DownloadPrefixWithoutDir | markdown_image_downloader.py:219-220 | without an image directory the first download raises, before anything changes |
| PlanSpec.DownloadPrefixStops | markdown_image_downloader.py:292-293 | once a download has raised, no later record is downloaded |
| PlanSpec.DownloadPrefixRaised | markdown_image_downloader.py:292-293 | one more record after a raised error changes neither the records nor the error |
| PlanSpec.DownloadPrefixNamed | markdown_image_downloader.py:292-293 | with an image directory and every record named, no download raises; each record in the order is downloaded once, and the others are untouched |
| PlanSpec.DownloadPrefixKeeps | markdown_image_downloader.py:213-258 | downloading changes only a record's extension and success flag |
| PlanSpec.DownloadsKeepPaths | markdown_image_downloader.py:292-293 | the download phase keeps every occurrence path naming a file on disk |
| PlanSpec.DownloadsSpec | markdown_image_downloader.py:291-293 | without a directory the download phase raises at once when there is a record to download, and changes nothing. With a directory and every filtered-in record named, each filtered-in record is downloaded and no other changes |
| ReplacementPlan.ImageUrlReplacementPlan.DownloadAll | markdown_image_downloader.py:292-293 | the loop gives the records and the error of the download phase over the order |
| ReplacementPlan.ImageUrlReplacementPlan.DownloadRecord | markdown_image_downloader.py:293 | one record downloads into the image directory: an error leaves it unchanged, otherwise it takes the downloaded fields |
| PlanSpec.RewriteTextUnchanged | markdown_image_downloader.py:305-314 | a file none of whose records is replaceable is written back as read |
| PlanSpec.MarkReplacedKeeps | markdown_image_downloader.py:311 | marking touches only the flags: the URL, the local name and whether a record is replaceable stay as they were |
| PlanSpec.MarkOneStep | markdown_image_downloader.py:306-311 | processing a record at one more path is one more marking step |
| PlanSpec.MarkReplacedAbsent | markdown_image_downloader.py:306-311 | a path the record does not occur in marks nothing |
| PlanSpec.ProgressGroupDone | markdown_image_downloader.py:306-311 | when a file's group lists every filtered-in record occurring in it, processing the group processes that path for the whole store |
| PlanSpec.RewrittenSpec | markdown_image_downloader.py:305-311 | the rewrite changes only flags. A flag ends set exactly when it already was, or all of these hold: the record is filtered in, its download succeeded, the occurrence is safe, and it is the record's first occurrence for its path |
| PlanSpec.FailureReasons | markdown_image_downloader.py:370-379 | for a filtered-in record not yet replaced that occurs in the file, the rewrite leaves it reported replaced exactly when it was replaceable there. Otherwise a named reason is given, and that reason is a failed download exactly when the download failed |
| PlanSpec.RewriteAllAt | markdown_image_downloader.py:296-314 | with one group per path, each group's file ends up as its own rewrite of the text read from disk |
| PlanSpec.RewriteAllElsewhere | markdown_image_downloader.py:296-314 | a file that no group names keeps its text |
| PlanSpec.ExecutionUntouched | markdown_image_downloader.py:289-314 | a file in which no downloaded record is replaceable is written back just as it was read |
| ReplacementPlan.ImageUrlReplacementPlan.Execute | markdown_image_downloader.py:289-314 | the records, the error and the file texts after `execute` are those of the execution: download phase first, and an error ends it before any file is rewritten |
| ReplacementPlan.ImageUrlReplacementPlan.RewriteFiles | markdown_image_downloader.py:296-314 | the rewrite loop gives the rewritten records and the texts of all groups, in order |
| ReplacementPlan.ImageUrlReplacementPlan.RewriteGroups | markdown_image_downloader.py:296-314 | after the first `g` groups, the texts and records are those of those groups' files processed in order |
| ReplacementPlan.ImageUrlReplacementPlan.RewriteFile | markdown_image_downloader.py:297-314 | one file's text becomes its records' substitutions, longest URL first, and the file's path counts as processed |
| ReplacementPlan.ImageUrlReplacementPlan.RewriteInTurn | markdown_image_downloader.py:306-311 | the loop applies the records' substitutions in turn |
| ReplacementPlan.ImageUrlReplacementPlan.ReplaceInFile | markdown_image_downloader.py:307-311 | a record whose download succeeded, and whose first occurrence in the file is safe, has every match replaced by `(dir/local_filename)` and that occurrence marked replaced. Otherwise neither the text nor the record changes |

## Left out

- Markdown parsing (`marko`, lines 94-95) is a foreign library. The parsed tree is an input: a function `parse` from text to `Element`.
- HTTP fetching and streaming (`requests.get`, `response.raw`, lines 227-242) are network I/O. A fetch is replaced by its outcome: a status, and the sniffed type for an in-memory body. Fetching the same URL is taken to give the same outcome, and each URL is fetched at most once. A `requests.get` that raises (a connection error or a malformed URL, lines 227 and 239) is not modelled. In the program it ends `execute` after the earlier downloads and before any file is rewritten; the model has no such outcome.
- `imghdr.what` (line 245) is a foreign call. Its result is part of the fetch outcome.
- Writing the image file (lines 255-257) is file I/O and is not modelled. The write is taken to succeed.
- File reads and writes of the Markdown texts (lines 298-299, 313-314, 392-393) are file I/O. The texts are a map from path to text, and `execute` returns the texts it would write. An I/O error mid-run is not modelled.
- `os.listdir` of the image directory (line 424) is file I/O. The listing is a parameter. `os.listdir` raises on an empty directory name (lines 287 and 424), so the program never reaches the download phase without an image directory. The empty-directory branch of `PlanSpec.DownloadPrefixWithoutDir` and `PlanSpec.DownloadsSpec` can be reached only because the listing is a parameter.
- `urlparse`, `unquote` and `basename` on the URL (lines 408-410) are library behaviour. The original file name is a function `nameOf` of the URL.
- `time.time()` (line 151) is the wall clock. The timestamp is a parameter, and the plan's k-th name is made at `clock(k)`.
- Report rendering is presentation and is not modelled: `get_execution_plan_string`, `get_execution_summary_string` and the `__str__` methods (lines 184-187, 260-265, 316-387, 459-470). Only the failure reason the summary picks (lines 370-379) is modelled, as `PlanSpec.ReplacementFailure`.
- The command line, `main`, `glob.glob` and logging (lines 54-71, 472-501) are plumbing.
- UrlPattern.Substitute: the replacement is inserted literally. Python's `re.sub` would read backslash escapes in it, which could come from the Markdown directory or the local file name.
- ReplacementPlan.ImageUrlReplacementPlan.GetImageUrlRecordsByFile: the groups list URLs, not the record objects. The per-file list is sorted as a value, not in place. Nothing else holds that list.
- ReplacementPlan.ImageUrlReplacementPlan.ReplaceInFile: a record with no occurrence for the file leaves the text unchanged. Python would fail with an `AttributeError` at line 308 instead. That case cannot arise: every record grouped under a file has an occurrence for it (`PlanSpec.GroupingMembers`).
- Strings.Occurs: the filter test works on code points. Python's `str` may also hold lone surrogates, which Dafny's `char` cannot.
