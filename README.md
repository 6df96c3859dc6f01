# 1brc aggregation engine, in Dafny

A model of the data handling in `main.go`, a "one billion rows" aggregator. It reads
a file of `<station>;<value>\n` lines in large blocks and realigns the blocks into
chunks of whole lines. Worker goroutines fold each chunk into a per-station map of
minimum, maximum, sum and count. A reducer merges the partial maps into one global
map, and the formatter prints one line per station, `station=min/mean/max`, in
byte order of the station names.

The model keeps the four sequential pieces and runs them in sequence:

- `Splitter` models the chunk splitter of `readMeasurements`. It is a loop over the
  list of blocks the file reads return, and it keeps every branch of the step that
  handles one block. The model accepts any list of blocks. The program can only read
  lists whose block sizes never grow (`Splitter.Readable`), so the model covers a
  superset of them.
- `Scanner` models `processReadChunk`. It is the byte-level scan with the `city` and
  `start` cursor, folding into a map it updates in place.
- `Reducer` models the merge loop of `evaluate`.
- `Report` models `formatAndWriteMesaurements`. It collects the keys into an array,
  sorts them in place (`sort.Strings`), and builds one row per station.
- `Measurements` holds the shared vocabulary. That is bytes, the `stats` record, and
  the reference summary (min, max, sum and count) of a list of values.
- `Pipeline` holds the whole run, split then scan then merge then report, and the
  theorems that connect the pieces.
- `Findings` holds concrete inputs on which the splitter as written cuts a line (see
  "## Findings").

Values are integers, for example tenths of a degree, so min, max, sum and count are
exact. `strconv.ParseFloat` is the parameter `parse: Bytes -> int`. Its error is
ignored in the code, so an unreadable value is folded with whatever `parse` returns
for it: 0 on a syntax error, and ±Inf for an out-of-range value such as `1e999`.

The model follows the code where it departs from what a line-safe reader would do:

- At end of stream the leftover after the last `'\n'` is dropped. A line-safe
  splitter would flush it as a final chunk (`Splitter.UnterminatedTailDropped`).
- A robust parser would skip malformed lines. The code folds a line only when, at its
  `'\n'`, the bytes since `start` are non-empty and `city` is non-empty. Every record
  it folds has a non-empty station and value, neither holding `';'`
  (`Scanner.LinesClean`). Some consequences:
  - A value that does not parse is folded.
  - A line with no `';'` after a folded line is folded under the previous line's
    station, because `city` is never reset (`Scanner.CityCarriesOver`).
  - Some lines are never folded: an empty value (`a;\n`), an empty station
    (`;5\n`), and any bytes before the first `';'` of a chunk
    (`Scanner.NoCityNoRecord`). `start` does not move at such a line's `'\n'`, so the
    bytes since `start`, that `'\n'` included, are prefixed to the next field.
  - An empty line also leaves `start` in place. If the next line has a `';'`, the
    empty line's `'\n'` becomes the first byte of the next station name
    (`Scanner.BlankLineJoinsNext`). Otherwise it becomes the first byte of the value
    folded under the current city, so `a;1\n\n5\n` folds `a` with the value `\n5`
    (`Scanner.BlankLineJoinsValue`).

## Model

| member | source | states |
|---|---|---|
| Measurements.Add | main.go:138-150 | Folding v gives min <= v <= max. The new min/max is the old one or v and never looser. The sum grows by v and the count by 1. |
| Measurements.Combine | main.go:100-112 | The merged min is the smaller of the two mins and the merged max the larger of the two maxes. Sums and counts are added. |
| Measurements.MinOf | main.go:139-141 | The minimum of a non-empty value list is one of its elements and no larger than any of them. |
| Measurements.MaxOf | main.go:143-145 | The maximum of a non-empty value list is one of its elements and no smaller than any of them. |
| Measurements.SummarySnoc | main.go:138-158 | Folding one more value into the summary of a list gives the summary of the extended list. |
| Measurements.SummaryConcat | main.go:100-112 | Merging the summaries of two value lists gives the summary of their concatenation. So a split workload, merged, loses and duplicates nothing. |
| Measurements.MeanBounds | main.go:181 | For a non-empty list of integer values, min * count <= sum <= max * count, so the mean sum/count lies between min and max. |
| Splitter.LastIndex | main.go:45 | Returns -1 or an index of the string that holds the byte. |
| Splitter.LastIndexIsLast | main.go:45 | The byte does not occur after the returned index, and the result is -1 exactly when the byte is absent. |
| Splitter.SplitBlock | main.go:45-49 | One read as written sends exactly one chunk. |
| Splitter.SplitBlockShape | main.go:45-49 | chunk + new leftover = old leftover + block, and the new leftover holds no '\n'. A block with '\n' yields a chunk ending in '\n'. A block without '\n' yields the old leftover as the chunk and becomes the whole new leftover. |
| Splitter.Run | main.go:29-52 | One chunk is sent per read. |
| Splitter.RunConserves | main.go:29-52 | After any number of reads, the chunks concatenated and followed by the leftover are every byte read, in order, and the leftover holds no '\n'. |
| Splitter.ReadMeasurements | main.go:29-54 | The splitter loop, reassigning `leftover` read by read, sends exactly the chunks of `Run`: one per block, every byte but the final leftover, in order. |
| Splitter.UnterminatedTailDropped | main.go:33-35 | When the input does not end with '\n' and the last read is non-empty, the leftover is non-empty at end of stream. The chunks sent are then strictly shorter than the input. |
| Splitter.SplitBlockAligned | main.go:45-49 | The intended step also sends exactly one chunk. |
| Splitter.SplitBlockAlignedShape | main.go:45-49 | The intended step conserves bytes, sends a chunk that is empty or ends with '\n', and keeps a '\n'-free leftover free of '\n'. |
| Splitter.RunAligned | main.go:29-52 | With the intended step, one chunk is sent per read. |
| Splitter.RunAlignedConserves | main.go:29-52 | With the intended step, the chunks followed by the leftover are every byte read, and the leftover holds no '\n'. |
| Splitter.RunAlignedWholeLines | main.go:29-52 | With the intended step, every chunk sent is empty or ends with '\n'. |
| Splitter.ReadMeasurementsAligned | main.go:29-54 | The corrected splitter loop sends exactly the chunks of `RunAligned`: one per block, each empty or ending with '\n'. |
| Scanner.ScanFromFields | main.go:129-161 | `ScanFrom` gives the records the cursor scan folds from index `i` on, whatever `city` and `start` hold. Every one has a non-empty station and a non-empty value, because a '\n' folds only when `index-start > 0` and `city` is non-empty. |
| Scanner.Fold | main.go:138-158 | A new key gets (v, v, v, 1). An existing key gets min <= v <= max, a min and max no looser than before, the sum plus v and the count plus 1. The key set gains k, and every other key is unchanged. |
| Scanner.ScanRecordsClean | main.go:129-137 | From any cursor whose city and pending bytes hold no ';', every record the scan folds has a non-empty station and a non-empty value, and neither holds ';'. |
| Scanner.LinesClean | main.go:129-137 | Every record folded from a chunk has a non-empty station and value, neither holding ';'. |
| Scanner.NoCityNoRecord | main.go:131-135 | While the city is still empty, bytes without ';' fold nothing and leave `start` in place. |
| Scanner.ScanSkip | main.go:129-137 | A run of bytes that are neither ';' nor '\n' changes nothing. |
| Scanner.ValuesOfNonEmpty | main.go:138-158 | A station has values exactly when some folded record names it. |
| Scanner.AggregateIsSummary | main.go:123-161 | The folded map has exactly the stations with at least one folded line. Each entry is the summary of that station's values: count = number of lines, sum = their sum, min and max their extremes. |
| Scanner.AggregateKeys | main.go:123-161 | The key set of the folded map is exactly the set of stations of the folded lines. |
| Scanner.ProcessReadChunk | main.go:122-163 | The in-place scan with the `city` and `start` cursor produces the map obtained by folding, in order, the lines `Lines` accepts from the chunk. By `AggregateIsSummary`, its keys are their stations and each entry summarises its station's values. |
| Scanner.FoldValue | main.go:138-158 | The in-place update of one entry is the fold of `Fold`: a new station gets (v, v, v, 1), a known one is widened to v, and no other entry changes. |
| Scanner.ScanLine | main.go:129-161 | A well-formed line scanned from a line start is folded as exactly that record, whatever city the cursor held, and the cursor ends at the next line start with that station as city. |
| Scanner.ScanFields | main.go:129-137 | A field, ';', a non-empty value field and '\n' fold one record whose station is every byte since `start`, so bytes left before a field become part of the station. |
| Scanner.ScanToSemicolon | main.go:130-133 | A run of ordinary bytes followed by ';' makes the bytes since `start` the city and moves `start` past the ';'. |
| Scanner.LinesEncode | main.go:129-161 | Round trip: scanning the encoding of well-formed lines folds exactly those lines, in order. |
| Scanner.CityCarriesOver | main.go:132-135 | A line without ';' after a folded line is folded under the previous station, because city is never reset. |
| Scanner.BlankLineJoinsNext | main.go:134-137 | An empty line leaves start in place, so a next line with ';' is folded with '\n' prepended to its station. |
| Scanner.BlankLineJoinsValue | main.go:134-137 | An empty line followed by a line without ';' is folded as one record under the current city, whose value starts with the empty line's '\n'. |
| Reducer.MergePartial | main.go:99-116 | The global key set becomes the union of both key sets. A shared key gets the combined record, a new key the partial's record, and keys absent from the partial are unchanged. |
| Reducer.ReduceResults | main.go:98-117 | Merging the partial maps in arrival order into an empty map gives `Reduce` of that sequence. |
| Reducer.MergeCommutes | main.go:98-117 | Merging two partial maps in either order gives the same global map. |
| Reducer.ReduceOrderIndependent | main.go:98-117 | Any permutation of the partial maps reduces to the same global map. With integer values, arrival order on the result channel does not matter. |
| Report.LessIrreflexive | main.go:174 | No station name sorts before itself. |
| Report.LessAsymmetric | main.go:174 | Byte order is asymmetric. |
| Report.LessTransitive | main.go:174 | Byte order is transitive. |
| Report.LessTotal | main.go:174 | Two different station names are ordered one way or the other. |
| Report.SortStrings | main.go:174 | Sorts the array in place into non-decreasing byte order, as a permutation of its old contents. |
| Report.InsertAt | main.go:174 | One insertion step grows the sorted prefix by one element, keeps the array's multiset, and leaves the elements after position i untouched. |
| Report.SwapStep | main.go:174 | Swapping an element with a larger predecessor moves the one out-of-order place left and keeps the multiset. |
| Report.SortedPermutation | main.go:167-174 | A sorted permutation of a duplicate-free key list holds the same keys and is strictly ascending. |
| Report.SortedDistinctAscending | main.go:167-174 | A sorted list without duplicates is strictly ascending. |
| Report.DistinctMultiset | main.go:167-174 | A list is duplicate-free exactly when no element occurs twice in its multiset. |
| Report.SortedStations | main.go:167-174 | Produces exactly the map's keys: as many as the map has, each key present, strictly ascending. |
| Report.FormatMeasurements | main.go:166-187 | Produces one row per map key, in ascending station order, each carrying that key's min, sum, count and max. |
| Pipeline.MergeAggregates | main.go:98-117 | Merging the maps of two record lists gives the map of their concatenation. |
| Pipeline.ReduceAggregates | main.go:86-117 | Reducing the per-chunk maps gives the map of all records of all chunks. |
| Pipeline.ProcessChunks | main.go:86-89 | Produces exactly one partial map per chunk, the map of that chunk's lines. |
| Pipeline.StationsMatch | main.go:166-179 | The rows' stations are exactly the stations of the records, one row each. |
| Pipeline.RowsAreSummaries | main.go:178-181 | Every row is the summary of its station's values. For integer values its mean lies between its min and max. |
| Pipeline.SummariseChunks | main.go:62-120 | Scanning, merging and formatting give one row per station of the folded lines, in ascending order. Each row is that station's summary. For integer values the mean lies between min and max. |
| Pipeline.Evaluate | main.go:62-120 | The whole run as written reports exactly the lines folded from the as-written chunks, sorted, each row a summary. |
| Pipeline.RunAgreesWhenBlocksHaveNewLines | main.go:45-49 | When every block holds a '\n', the as-written and the corrected splitter send the same chunks. |
| Pipeline.AlignedRecoversAllLines | main.go:29-54 | With the corrected splitter, an input of well-formed lines is folded line for line, however it is cut into blocks. |
| Pipeline.EvaluateWellFormedInput | main.go:29-117 | On well-formed input whose every block holds a '\n', the as-written run folds exactly the input's lines, and the global map is their map. |
| Pipeline.EvaluateAligned | main.go:62-120 | With the corrected splitter, the report summarises exactly the lines of any well-formed input. |
| Findings.LongLineLost | main.go:41-49 | As written, the well-formed line `x;12\n`, read as the blocks `x;`, `1`, `2`, `\n` (sizes that never grow, so the program can read them), is sent as the chunks ``, `x;`, `1`, `2\n`. Nothing is folded from them. |
| Findings.LongLineTruncated | main.go:41-49 | As written, `z;1\nAABBBBC;5\n`, read as `z;1\nAA`, `BBBB`, `C;5\n` (6, 4 and 4 bytes), folds its second line under the truncated station `BBBBC` instead of `AABBBBC`. |

## Left out

- Goroutines, channels, `sync.WaitGroup` and `runtime.NumCPU` (main.go:56-59, 77-96) are concurrency. The run is sequential, and the arrival order of the partial maps is covered, for integer values, by `Reducer.ReduceOrderIndependent`.
- The model assumes at least one worker. With `runtime.NumCPU() == 1`, main.go:83 starts no worker and no chunk is scanned. With at most 15 chunks the buffered channel (main.go:77) takes them all, the wait group is already zero, and the report is empty. With more chunks the 16th send blocks forever.
- `os.Open`, `os.Create`, `File.Read`, the panics on I/O errors and the command-line flags (main.go:17-18, 32-39, 63-75, 190-193) are I/O. The list of blocks the reads return is the model's input.
- The shrinking of `buf` (main.go:41) limits which block lists can occur: no read returns more bytes than the read before it. `Splitter.Run` accepts any list of blocks, a superset of the lists the program can read. `Splitter.Readable` states the limit, and the two witnesses of the finding below satisfy it. The dead copy into `chunkToSend` (main.go:42-43) does not affect the chunks.
- `float64` arithmetic and `strconv.ParseFloat` (main.go:23, 136) are floating point and a foreign parser. Values are integers and the parser is a parameter. Float addition is not associative, so in the program the global `sum` (main.go:109), and with it the printed mean, can depend on the order in which the partial maps arrive. The order independence proved here holds for the integer model only. So does the mean bound: six lines `S;0.35` give the float mean 0.35000000000000003, above the max 0.35, and `%.1f` prints `S=0.3/0.4/0.3`.
- `%.1f` formatting, the division for the mean, and the `bufio` writer (main.go:176-187) are output rendering. A row keeps the integers its line is printed from, and the mean is stated through `min * count <= sum <= max * count`.
- Rune decoding in `range stringBuf` (main.go:129) is not modelled, because ';' and '\n' are single bytes that never occur inside a multi-byte UTF-8 sequence. The scan is over bytes.
- Scanner.ProcessReadChunk: does not model the `int64` count wrapping around, because the count is an unbounded integer.
- Report.SortStrings: insertion sort stands in for Go's library algorithm. Only its contract, a sorted permutation, is relied on.

## Findings

| source | as written | input that shows it | evidently intended | confidence | as-written member | corrected member |
|---|---|---|---|---|---|---|
| main.go:45-49 | A block without '\n' sends the old leftover as a chunk and replaces the leftover with the block. A line spanning three or more reads is then cut. Its pieces can be lost, or folded under a truncated station. | The line `x;12\n` read as the blocks `x;`, `1`, `2`, `\n` gives the chunks ``, `x;`, `1`, `2\n`, and no record is folded. `z;1\nAABBBBC;5\n` read as `z;1\nAA`, `BBBB`, `C;5\n` folds its second line under `BBBBC`. Both block lists have sizes that never grow, as main.go:41 requires. | A block without '\n' is appended to the leftover, so every line reaches a worker whole. | not executed | Findings.LongLineLost | Splitter.ReadMeasurementsAligned |
