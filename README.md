# discourse-data-exporter, modelled in Dafny

The exporter collects topics from a Discourse forum into an in-memory cache,
keyed by category slug and then by topic id. It flattens that cache into
records (one user entry per topic participant, one comment entry per post)
and writes them out as CSV files, as JSON, or to MySQL. The command line
asks the user to confirm which kinds of record to export unless flags
already say so.

This project models that core:

- `Collector` models the topic cache and the per-category refresh. `TopicsCache.CollectTopicsFromCategory`
  is the refresh loop of `collectTopicsFromCategory`. It is proved against
  the functions `RefreshBucket`, `FetchedIds` and `CollectCategory`.
  Lemmas about those functions say which topics are fetched and which
  entries change. They also show that the refresh is idempotent:
  against an unchanged upstream, a second refresh of the same listing
  leaves the bucket, and collecting the category again leaves the cache,
  exactly as the first run left them. When, in addition, every fetch
  succeeds and every fetched topic is at least as recent as its overview,
  the second refresh also fetches nothing.
- `Exporter` flattens the cache. Go iterates maps in an unspecified order,
  so the flattened lists are specified as multisets (`MapSums.SumMap`, which
  is independent of the order the keys are taken in). The method also
  returns a ghost visit order, which shows that each topic's comments form
  one contiguous block. `InitExporter` is the exporter-type dispatch.
- `CsvExport` is the reflection-driven CSV writer `exportArrayToCSV`, over
  a record of tagged fields, and its three callers. A `CsvWriter` class
  stands for the `csv.Writer` over a file that accepts a bounded number of
  rows. Lemmas show that each written row reads back as the entry it came
  from, every field intact except times, which come back as their RFC 3339
  text reads (to the second).
- `Decimal` is the `%d` formatting used for integer cells, with a parse
  round trip.
- `JsonExport` models how the JSON export clears the lists whose flag is off.
- `Cli` models `promptBool` (lower-casing, `strings.TrimSpace`, and the
  y/yes/n/no answers) and the prompt gating in `main`.
- `Forum` and `Metrics` hold the record shapes.
- `Wrappers` holds `Option` and `Outcome`.

The code does not paginate the category listing, follow revision chains
or harvest users from posts, and the model does none of these either. The
comment entries built by `topicMapToTopicComments` never set "is initial
post", so it is always false. The Go files do not agree with one another
in four places:

- `main.go` calls `InitExporter` with five arguments, but `exporter.go`
  defines it with four.
- `main.go` calls `Collect(client, items, rateLimit)`, but `collector.go`
  defines `Collect(client, categoryList)`.
- `main.go` calls `ExportAll(discourseData, *exportType, itemsToExport)`,
  but `exporter.go` defines `ExportAll(cache, exportType)` with two.
- `exporter.go` writes lower-case field names that `metrics.go` declares in
  upper case.

The model takes `InitExporter` from `exporter.go`, where every type other
than `mysql` is an error. For `main`, it takes the initialisation's result
as an input.

## Model

| member | source | states |
|---|---|---|
| Collector.TopicsCache.CollectTopicsFromCategory | collector.go:35-72 | The new cache is `CollectCategory` of the old one. The topics fetched are exactly `FetchedIds`, in listing order. A failed listing fetches nothing. |
| Collector.CollectCategory | collector.go:37-49 | A failed listing leaves the cache as it was, and other categories are never touched. A refreshed category keeps every topic it had. After a listing, the category's bucket is `RefreshBucket` of its old bucket (an empty one when absent), and the category is present exactly when it was present before or that bucket is non-empty. |
| Collector.Visit | collector.go:52-66 | One overview changes at most its own topic's entry. A current entry is kept, and so is everything on a failed fetch. A stale or missing entry is replaced by the fetched topic. A fetch at least as recent as the overview leaves the topic current. |
| Collector.RefreshBucketFrame | collector.go:51-67 | A refresh only adds topics that were listed. Unlisted topics keep their entries, and every entry is either the old one or a freshly fetched copy. |
| Collector.FetchedIdsListed | collector.go:51-60 | Only listed topic ids are ever fetched. |
| Collector.RefreshBucketAt | collector.go:51-67 | With distinct ids, a listed topic ends up as the single-topic step leaves it: kept when the cache is current, replaced on a successful fetch, and kept on a failed fetch. |
| Collector.CurrentNotFetched | collector.go:52-60 | When the listing's ids are distinct, a listed topic is fetched if and only if its cached copy is missing or older than the listing's last-posted time. |
| Collector.RerunIsQuiet | collector.go:54-57 | When every listed topic is current, nothing is fetched and the bucket is unchanged. |
| Collector.RefreshMakesCurrent | collector.go:54-63 | When every fetched topic is at least as recent as its overview, each listed topic is current after a refresh unless its fetch failed, even when the listing names it more than once. |
| Collector.RefreshSettles | collector.go:51-67 | After a refresh, each listed topic is current, or its fetch fails, or the bucket holds exactly the fetched topic. |
| Collector.SettledIsFixed | collector.go:51-67 | A refresh of a bucket that is already settled for the listing changes nothing. |
| Collector.RefreshIdempotent | collector.go:51-67 | Against an unchanged upstream, refreshing the bucket a second time over the same listing gives the bucket the first refresh gave, whatever the fetches return. |
| Collector.CollectIdempotent | collector.go:35-72 | Against an unchanged upstream, collecting a category twice gives the same cache as collecting it once. |
| Collector.SecondRefreshIsQuiet | collector.go:51-67 | When every fetch succeeds and every fetched topic is at least as recent as its overview, the second refresh over the same listing fetches nothing and changes nothing. |
| Collector.RerunLeavesCacheUnchanged | collector.go:35-72 | Re-collecting a category whose cached topics are all current leaves the whole cache unchanged. |
| Collector.ListedIdsAt | collector.go:51 | An id is listed exactly when some topic overview carries it. |
| Collector.TopicsCache.constructor | collector.go:12-15 | The cache starts empty. |
| MapSums.SumMapRemove | exporter.go:44-46 | Summing over a map does not depend on which key is taken first, so Go's random map order does not change the multiset. |
| MapSums.InSumMap | exporter.go:44-46 | An element is in the sum exactly when some key's contribution holds it. |
| Exporter.ToUserEntry | exporter.go:48-53 | A user entry keeps every field of its participant, which can be read back from it. |
| Exporter.CommentOf | exporter.go:65-72 | A comment entry keeps its post, category slug and topic id, which can be read back from it. It never marks the topic's main post. |
| Exporter.UserMapToUserEntry | exporter.go:44-59 | The user entries are, as a multiset, one entry per participant of every cached topic. |
| Exporter.AppendBucketUsers | exporter.go:46-55 | Walking one category appends one entry per participant of its topics. |
| Exporter.AppendTopicUsers | exporter.go:47-54 | One topic contributes its participants' entries, in order. |
| Exporter.CacheUsersAt | exporter.go:44-59 | An entry is exported if and only if it is the entry of some participant of some cached topic. |
| Exporter.CachedUserFrom | exporter.go:44-59 | Every exported user entry names a cached topic and a participant of it whose entry it is. |
| Exporter.UserCached | exporter.go:44-59 | Every participant of every cached topic has its entry exported. |
| Exporter.TopicMapToTopicComments | exporter.go:61-78 | The comment entries are, as a multiset, one entry per post of every cached topic. Each cached topic is visited exactly once, and its posts form one block in post order. |
| Exporter.AppendBucketComments | exporter.go:63-74 | Walking one category visits each of its topics once and appends that topic's block. |
| Exporter.AppendTopicComments | exporter.go:64-73 | One topic contributes its posts' entries, in order, carrying the category slug and topic id. |
| Exporter.CacheCommentsAt | exporter.go:61-78 | An entry is exported if and only if it carries the slug, topic id, post id, times and username of some cached post, with "is initial post" false. |
| Exporter.CachedCommentFrom | exporter.go:61-78 | Every exported comment entry names a cached topic and a post of it whose entry it is. |
| Exporter.CommentCached | exporter.go:61-78 | Every post of every cached topic has its comment entry exported. |
| Exporter.BlockAt | exporter.go:62-75 | The i-th visited topic's comments sit contiguously at the block start, in post order. |
| Exporter.InitExporter | exporter.go:9-21 | Any type other than mysql fails with the invalid-exporter-type error. For mysql, a connection error is returned as it is. Otherwise initialisation's own result is returned, so the call passes if and only if both pass. |
| Decimal.NatDigits | exporter_csv.go:88 | Decimal digits are never empty, are all digits, and have no leading zero. |
| Decimal.FormatInt | exporter_csv.go:88 | `%d` text starts with a minus sign exactly for negative values, followed by digits with no leading zero except for zero itself. |
| Decimal.NatDigitsValue | exporter_csv.go:88 | The decimal digits of n read back as n. |
| Decimal.FormatIntRoundTrip | exporter_csv.go:88 | The `%d` text of every integer parses back to that integer. |
| CsvExport.FormatCell | exporter_csv.go:83-100 | A string cell is the string itself, an integer cell is its `%d` text and parses back to the integer, a bool cell is "true" or "false" as the value is, a time cell is its RFC 3339 text, and any other kind is empty. |
| CsvExport.Header | exporter_csv.go:63-68 | The header has one column per field, each carrying the field's `csv` tag. |
| CsvExport.Row | exporter_csv.go:78-101 | A row is as wide as the header. String cells are the string, integer cells are the `%d` text, time cells are the formatted time, and other kinds are empty. Integer and bool cells read back as their values. |
| CsvExport.HeaderCells | exporter_csv.go:63-68 | The header loop collects exactly the header: each field's tag, in field order. |
| CsvExport.RowCells | exporter_csv.go:78-101 | The per-entry loop collects exactly the entry's row: each field formatted, in field order. |
| CsvExport.TableShape | exporter_csv.go:62-105 | For records of one type, every row has as many cells as the header. |
| CsvExport.CsvWriter.constructor | exporter_csv.go:59 | A new writer has written nothing. |
| CsvExport.CsvWriter.Write | exporter_csv.go:102-104 | A row is appended while the file accepts rows; otherwise the write fails and nothing changes. |
| CsvExport.ExportArrayToCsv | exporter_csv.go:46-108 | An empty data set succeeds and writes nothing. A failed create returns that error and writes nothing. Otherwise the file receives the header and then the rows, as far as it accepts them. The call passes if and only if all fit, and any failure is the write error. |
| CsvExport.UserRecord | metrics.go:24-29 | The user entry's CSV header is the struct's tag list. |
| CsvExport.CommentRecord | metrics.go:6-14 | The comment entry's CSV header is the struct's tag list. |
| CsvExport.EditRecord | metrics.go:16-21 | The edit entry's CSV header is the struct's tag list. |
| CsvExport.UserRowRoundTrip | exporter_csv.go:77-101 | A user entry's CSV row decodes back to that entry. |
| CsvExport.CommentRowRoundTrip | exporter_csv.go:77-101 | A comment entry's CSV row reads back with every field intact except the two times, which come back as their formatted text reads, given only that the time reader accepts the writer's text. When that text pins the instant, the entry comes back unchanged. |
| CsvExport.EditRowRoundTrip | exporter_csv.go:77-101 | An edit entry's CSV row reads back the same way: every field intact, and its time as its formatted text reads. |
| CsvExport.ExportUsersCsv | exporter_csv.go:22-28 | When the file is created and has room, it holds the user header and then each user's row, which reads back as that user. When it lacks room, it holds the user header first and then as many user rows, in order, as fit. An empty list or a failed create writes nothing. |
| CsvExport.ExportTopicCommentsCsv | exporter_csv.go:30-36 | The same for comment entries, for any time format: a full file holds the comment header and every comment's row, and a short file holds the header first and then as many rows, in order, as fit. Each row reads back as its comment, with the times as the cells hold them. |
| CsvExport.ExportTopicEditsCsv | exporter_csv.go:38-44 | The same for edit entries, for any time format, the short file included. |
| JsonExport.SelectForJson | exporter_json.go:9-20 | Each list is kept when its flag is on and emptied when it is off. |
| Cli.TrimSpaceSplits | main.go:100 | Trimming leaves a contiguous slice of the input. The removed prefix and suffix are all white space, and the result neither starts nor ends with white space. |
| Cli.TrimLeftSplits | main.go:100 | Left trimming drops exactly a white-space prefix. |
| Cli.TrimRightSplits | main.go:100 | Right trimming drops exactly a white-space suffix. |
| Cli.TrimLeftSpacePrefix | main.go:100 | Left trimming ignores any extra white-space prefix. |
| Cli.TrimRightSpaceSuffix | main.go:100 | Right trimming ignores any extra white-space suffix. |
| Cli.TrimLeftKeepsSuffix | main.go:100 | Left trimming does not disturb text after the first non-space character. |
| Cli.TrimLeftAllSpace | main.go:100 | Left trimming an all-space string leaves nothing. |
| Cli.TrimLeftFrom | main.go:100 | Left trimming keeps a given suffix once it begins at a non-space character. |
| Cli.TrimSpacePadding | main.go:100 | `TrimSpace` ignores white-space padding on either side. |
| Cli.ToLower | main.go:100 | Lower-casing keeps the length, turns each upper-case ASCII letter into its lower-case letter, and keeps every other character as it is. |
| Cli.Normalize | main.go:100 | The normalised answer is no longer than the input, holds no upper-case letter, and neither starts nor ends with white space. |
| Cli.NormalizeIs | main.go:100 | The normalised answer is a given unpadded word exactly when the input is that word, up to letter case, with white space around it. |
| Cli.NormalizedIsPadded | main.go:100 | An input that normalises to a word is that word, up to letter case, with white space around it. |
| Cli.PaddedNormalizes | main.go:100 | An unpadded word, in any letter case and with white space around it, normalises to the word. |
| Cli.NormalizeIgnoresPadding | main.go:100 | White-space padding never changes the normalised answer. |
| Cli.PromptBool | main.go:95-110 | The answer is true exactly when the line is "y" or "yes" in any case with any surrounding white space. It is false exactly when the line is "n" or "no" in the same way. Anything else is invalid, which is where `promptBool` stops the program. |
| Cli.ToLowerConcat | main.go:100 | Lower-casing works character by character over a concatenation. |
| Cli.ToLowerKeepsSpace | main.go:100 | Lower-casing leaves white space alone. |
| Cli.TrimSpaceUnpadded | main.go:100 | A string without surrounding white space is its own trim. |
| Cli.PromptBoolIgnoresPadding | main.go:95-110 | Surrounding white space, including the newline, never changes the answer. |
| Cli.PromptBoolIgnoresCase | main.go:95-110 | Answers that differ only in letter case mean the same. |
| Cli.PromptBoolYes | main.go:102-103 | The line "Yes" followed by a newline means true. |
| Cli.PromptBoolNo | main.go:104-105 | The line " NO" followed by a newline means false. |
| Cli.PromptBoolRejectsEmpty | main.go:108 | An empty line is invalid, which is where `promptBool` stops the program. |
| Cli.PromptBoolRejectsNearMiss | main.go:108 | The line "yess" is invalid as well. |
| Cli.GateOrder | main.go:56-68 | After main's three prompt blocks, the prompts shown come in main's order, at most once each, and only when their flag is unset (users only for csv or json). |
| Cli.GateStops | main.go:50-68 | A failed initialisation shows no prompt. Every prompt shown before the last got a valid reply, and a stop after initialisation is an invalid reply to the last prompt shown. |
| Cli.GatePrefix | main.go:56-68 | After a successful initialisation, a due prompt is shown unless an earlier due prompt got an invalid reply. |
| Cli.GateChoices | main.go:50-77 | When main runs on, initialisation passed, every due prompt was shown and answered validly, and each choice is the reply where asked and the flag elsewhere. |
| Cli.GateItems | main.go:50-77 | A failed exporter initialisation stops before any prompt. Prompts come in main's order, at most once each, and only when their flag is unset (users only for csv or json). A due prompt is always shown unless an earlier prompt got an invalid reply, and the program stops at the first invalid reply. Otherwise the export choices are the replies where asked and the flags elsewhere, and the category and topic limits are copied. |
| Cli.ResolveItems | main.go:50-77 | The same, with each reply read from the typed line through `PromptBool`. |

## Left out

- The MySQL exporter is left out. `exporter_mysql.go` is not part of this model, and `ConnectMySQL` and `InitializeMySQLDatabase` appear only as the outcomes they return.
- `Collect` and `IntervalCollect` are left out: the goroutines, `sync.WaitGroup` and the endless sleep loops. Each category's refresh is modelled on its own. Concurrent refreshes share the cache map without a lock, and that race is not modelled.
- `ExportAll`, `ExportUsers` and `ExportTopicComments` are left out. They only call the flattening functions modelled here and then dispatch to MySQL.
- `IntervalCollectAndExport` and the `--data.repeat-collect` branch of `main` are left out as background loops.
- The Discourse client calls are inputs. `GetCategoryContentsBySlug` is an optional listing. `GetTopicByID` is a function from topic id to an optional topic, so within one refresh the same id always fetches the same result. Log output is dropped.
- The category listing's first page (30 topics) is all the model sees, as in the code. Pagination is not modelled.
- Files and encodings are abstracted:
  - `os.Create`, closing and flushing are abstracted to a sink with an optional create error and a row capacity.
  - `filepath.Join` and the CSV folder are not modelled.
  - `SetCSVFolder` (a directory creation) is not modelled.
  - The field quoting done by `encoding/csv` is not modelled.
  - `json.Marshal` and printing are not modelled. `omitempty` turns an emptied list into an absent key.
- Reflection is replaced by an explicit tagged-field record per entry type. `ExportArrayToCsv` therefore requires every record to have the same shape, which Go's generic slice guarantees by its type.
- Time values are integers. RFC 3339 formatting and parsing are function parameters.
- CommentRowRoundTrip: the CSV time cells are written with `time.RFC3339`, which has no fractional seconds, so a time reads back only to the second. The round trip promises the entry itself only when the formatted text determines the instant.
- EditRowRoundTrip: the same loss of sub-second precision applies to the edit's time cell.
- CsvExport.ExportArrayToCsv: each row write either succeeds or reports its failure at once. In the source, `csv.Writer` buffers its output and the deferred `Flush` discards its error, and `writer.Error()` is never read, so a failure that shows up only at the final flush is silently lost and `exportArrayToCSV` returns nil. The model does not capture that lost error.
- The standard input, the printed prompt and the `kingpin` flag parsing are left out. `main` takes the flag values, whether each flag was given, and the typed lines as inputs. Each prompt gets its own typed line. `promptBool` builds a new `bufio.Reader` on every call (main.go:95). With piped input, the first reader can buffer lines meant for later prompts, so a later prompt reads end of input, which is not a valid answer, and exits at main.go:108. The model does not capture that.
- Cli.PromptBool: `strings.ToLower` is modelled for ASCII letters only. Full Unicode case mapping is not modelled. `strings.TrimSpace` uses Unicode's full white-space set.
- Go's map iteration order is left open. The flattened lists are stated as multisets, and the comment list also as contiguous per-topic blocks in an unspecified topic order.
