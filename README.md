# xdownload, modelled in Dafny

xdownload fetches one large remote file faster by splitting it into a fixed
number of byte ranges (50), fetching every range concurrently into its own
temporary file under `.downloads`, and concatenating the temporary files in
part order into an output file named after the last element of the URL path.

This project models the logic of `main.go` that decides what is fetched and
in which order it is put back together, and proves what that logic does:

- `segments.dfy` (module `Segments`): the byte range of part j that the
  Range header at main.go:93 asks for, `bytes=(j-1)*(size/50)-(j*(size/50)-1)`,
  in the inclusive first-byte-pos/last-byte-pos form of section 2.1 of
  RFC 7233. The ranges are numbered 1..50, start at byte 0 and are
  contiguous and pairwise disjoint; any contiguous plan partitions the
  interval it covers. Because of truncating division they cover exactly the
  first `size - size % 50` bytes: the last `size % 50` bytes of the file are
  never requested, and when the file has fewer than 50 bytes every header is
  `bytes=0--1`, which is not a well-formed byte range. A corrected planner that
  extends the last range to the last byte is proved to cover the whole file.
- `decimal.dfy` (module `Decimal`): the decimal rendering that Go's `%v` verb
  gives an `int`, proved against a parser, so that the header value can be read
  back to the exact pair of positions.
- `concat.dfy` (module `Concat`): `FilesToBytes` and `FilesToFile`. The result
  is the in-order concatenation of every matched file, proved against a plain
  concatenation with no error handling; it fails exactly when some source does
  not resolve, and then it returns the error of the first such source together
  with the bytes read before it. The delimiter argument is ignored.
- `filename.dfy` (module `FileName`): `strings.Split(path, "/")` and the
  choice of its last element as the output name. The name is the text after
  the last `/`; this description determines it uniquely.
- `downloader.dfy` (module `Download`): the package state as a class
  `Downloader` whose `downloadedFiles` map `putFile` fills and `merge` reads.
  The table ends up the same whatever order the parts finish in, so the merge
  list, and the merged bytes, do not depend on completion order. When each part
  file holds the bytes its range asks for, and the file is empty or at least
  50 bytes long, merging yields the first `size - size % 50` bytes of the
  resource as written, and the whole resource with the corrected planner.

Inputs the program obtains from outside become parameters: the file size (from
the HEAD request), the parsed URL path, the names the parts are saved under
(random UUIDs in the program), the order in which the concurrent fetches
finish, and the file system `fs`, a map that says for a source pattern what
expanding it and reading the matches yields (a pattern it does not mention
matches nothing).

A downloader has to write the whole file, but the code's last range stops at
byte `parts*(size/parts)-1`, short of `size - 1` whenever `parts` does not
divide the size. The model follows the code and records the difference under
"## Findings".

## Model

| member | source | states |
|---|---|---|
| `Segments.Chunk` | main.go:93 | the per-part byte count is the truncated quotient: `parts * c <= size < parts * (c + 1)`, and `parts * c == size - size % parts` |
| `Segments.SegmentOf` | main.go:93 | part j asks for exactly `size / parts` bytes, starting at byte 0 for part 1, never past byte `size - 1` |
| `Segments.Plan` | main.go:82-117 | the launched ranges are numbered 1..parts, start at 0, each starts one past the previous one's end, and together end at `parts * (size / parts) <= size` |
| `Segments.RangeHeader` | main.go:93 | the header value is `bytes=` followed by the two positions; its partner `Segments.RangeHeaderRoundTrip` reads them back |
| `Segments.RangeHeaderRoundTrip` | main.go:93 | the header `bytes=%v-%v` carries exactly the segment's first and last positions: parsing it back gives them |
| `Decimal.NatToDecimal` | main.go:93 | `%v` on a non-negative int gives a non-empty digit string with no leading zero |
| `Decimal.IntToDecimal` | main.go:93 | `%v` on an int starts with `-` exactly when the value is negative |
| `Decimal.ParseIntToDecimal` | main.go:93 | printing an integer and parsing it back gives the integer |
| `Decimal.IntToDecimalInjective` | main.go:93 | distinct integers give distinct header text |
| `Segments.Partition` | main.go:93 | a contiguous plan covers byte x exactly when `0 <= x < End(plan)`, and no byte lies in two segments |
| `Segments.CoverageGap` | main.go:93 | the ranges as written cover exactly bytes `[0, size - size % parts)`; they reach the last byte iff parts divides size |
| `Segments.WellFormedIff` | main.go:93 | every range has first <= last iff size >= parts; below that every header is `bytes=0--1` |
| `Segments.EvenSplitExample` | main.go:93 | 1000 bytes in 10 parts: part 1 is 0-99, part 10 is 900-999, all 1000 bytes covered |
| `Segments.TrailingBytesDropped` | main.go:93 | 1005 bytes in 50 parts: the last range is 980-999 and bytes 1000-1004 lie in no range |
| `Segments.CoveringPlan` | main.go:93 | corrected planner: the same ranges as main.go:93 except the last, which ends at `size - 1` and is `size % parts` bytes longer |
| `Segments.CoveringPlanContiguous` | main.go:93 | the corrected ranges tile the resource: numbered 1.., starting at 0, each just past the previous, ending at `size` |
| `Segments.CoveringPlanPartitions` | main.go:93 | the corrected ranges cover byte x exactly when `0 <= x < size` |
| `Segments.CoveringExample` | main.go:93 | with the correction, 1005 bytes in 50 parts end with the range 980-1004 |
| `Segments.AssembleContiguous` | main.go:93 | concatenating in order the bytes each range of a contiguous plan asks for gives the prefix the plan covers |
| `Download.Downloader.constructor` | main.go:60 | the table starts empty |
| `Download.Downloader.BuildFileName` | main.go:123-131 | the output name becomes the last element of the split path |
| `Download.Downloader.Launch` | main.go:82-117 | the loop visits i = 1..parts once each, in order, and produces part i's Range header |
| `Download.Downloader.Complete` | main.go:107-108 | recording every part once, in any completion order, leaves the table equal to the old one plus `j -> paths[j-1]` for j in 1..parts |
| `Download.Downloader.PutFile` | main.go:79-121 | the headers sent are the plan's, in launch order, and the table ends as `old + {j -> paths[j-1]}` |
| `Download.Downloader.Merge` | main.go:156-171 | the source list holds `dirName + "/" + downloadedFiles[i]` for i = 1..parts in order, and the output file is written with the concatenation exactly when every source resolves |
| `Download.CompletionOrderMembers` | main.go:86-117 | a completion order of n parts has length n and holds exactly the numbers 1..n |
| `Download.RecordedWrites` | main.go:107-108 | each write sets its own part's entry and leaves every other entry unchanged |
| `Download.RecordedInAnyOrder` | main.go:107-108 | the table after all parts have recorded is the same for every completion order |
| `Download.MergeListOrderIndependent` | main.go:164-166 | the merge list is the same for any two completion orders, and its k-th entry is the file part k+1 was saved in |
| `Download.MissingPartSource` | main.go:165 | `downloadedFiles[i]` gives Go's zero value `""` for a part that recorded no name, so the staging directory itself, `dir + "/"`, enters the merge list |
| `Download.MissingPartFails` | main.go:165 | such a part makes the merge fail when `dir + "/"` does not resolve to readable files, as a directory does not |
| `Download.ContentsOfSegments` | main.go:164-167 | when each part file holds its range's bytes, the concatenated contents are those ranges joined in part order |
| `Download.MergeOfPlan` | main.go:164-167 | merging the part files of a contiguous plan returns the covered prefix of the resource and no error |
| `Download.ReassemblyAsWritten` | main.go:79-171 | for an empty file or one of at least 50 bytes, in any completion order the merge yields the first `size - size % 50` bytes, which is the whole resource iff 50 divides its size |
| `Download.ReassemblyCovering` | main.go:79-171 | for an empty file or one of at least 50 bytes, with the corrected planner the merge yields the whole resource in any completion order |
| `Concat.FilesToBytes` | main.go:175-200 | returns exactly what `Concatenate` describes for the sources, whatever the delimiter |
| `Concat.ConcatenateResolved` | main.go:179-199 | when every source resolves, the result is the in-order concatenation of every match's contents with no error |
| `Concat.ConcatenateSucceedsIff` | main.go:179-199 | the result has no error exactly when every source resolves |
| `Concat.FirstFailure` | main.go:180-192 | at the first source that does not resolve, the result is that source's error with the bytes read before it |
| `Concat.MissingSource` | main.go:184-187 | a source with no match, after sources that all resolved, gives `cannot find` with the earlier sources' contents |
| `Concat.ErrorStops` | main.go:180-192 | after an error no later source is looked at |
| `Concat.ReadAllFailsIff` | main.go:188-192 | reading the matches of one source fails exactly when one of them is unreadable |
| `Concat.FilesToFile` | main.go:203-209 | the file is written exactly when every source resolves, with the concatenated contents; otherwise the first error is returned |
| `FileName.Split` | main.go:128 | `strings.Split(s, "/")` has at least one piece, none containing `/`, and joining them with `/` gives s |
| `FileName.LastElement` | main.go:127-130 | the name is a slash-free suffix of the path that is the whole path or follows a `/` |
| `FileName.AfterLastSlashUnique` | main.go:127-130 | only one suffix fits that description, so the name is the text after the last `/` |
| `FileName.LastElementAfterSlash` | main.go:127-130 | the name of `dir/name` is `name` for any slash-free name |
| `FileName.LastElementNoSlash` | main.go:127-130 | a path without `/` is returned whole |
| `FileName.LastElementTrailingSlash` | main.go:127-130 | a path ending in `/` gives the empty name |
| `FileName.ArchiveExample` | main.go:127-130 | the path `/path/to/archive.zip` gives `archive.zip` |

## Left out

- The HEAD request and the parsing of Content-Length (main.go:68-77): the size is a parameter, a natural number, and the reassembly lemmas take it to be the true length of the resource. A missing or unparseable Content-Length becomes size 0, because main.go:73 discards the error from `strconv.Atoi`. A negative Content-Length, which `strconv.Atoi` would accept, is not modelled.
- The GET requests, the redirect policy that pins `URL.Opaque` (main.go:89-94, 133-142), and what the server sends: the reassembly lemmas take as their premise that each part file holds exactly the bytes its range asks for.
- Goroutines, the WaitGroup, the channel and the lock (main.go:83-87, 107-120): the concurrent fetches are modelled as a launch loop followed by completions in an arbitrary order given as a parameter. Interleavings inside one fetch are not modelled.
- Creating, writing, reading and globbing files (main.go:101-105, 144-148, 159-163, 180-189, 208) and the directory removal in `clean` (main.go:211-230): file contents are byte sequences, and expanding a pattern and reading its matches is the map `fs` (`Concat.FileSystem`).
- The UUID names of the part files (main.go:99): they are the parameter `paths`.
- `url.Parse` and its percent-decoding (main.go:124): the model starts from the parsed path.
- CLI flags, profiling and the wiring in `main` (main.go:38-66).
- `checkError`'s panic (main.go:150-154) and the process abort it causes on a failed fetch; the printing of `j` inside `FilesToBytes` (main.go:194-196) and of merge errors (main.go:168-170).
- Download.ReassemblyAsWritten, Download.ReassemblyCovering: files of 1 to 49 bytes are excluded (the premise `Download.HonouredSize`). There every header (with the correction, every header but the last) is `bytes=0--1`, which section 2.1 of RFC 7233 makes invalid. A server ignores such a header and answers 200 with the whole file, or rejects it with 416 (section 3.1 of RFC 7233) and an error body. main.go:94-103 does not check the status, so either way each such part file holds that body, and the merge writes 50 copies of it as written (with the correction, 49 copies followed by the last part, whose range `0-(size-1)` is the whole file). The model's premise that a part file holds exactly its range describes neither answer. At size 0 the header is the same `bytes=0--1`: `HonouredSize` admits that size, and the premise that every part file is empty then holds only for a server that ignores the header.
- The printing of the file size (main.go:81): output only.
- Download.Downloader.Merge: the output file opened with O_CREATE before merging (main.go:159-163) is not modelled, nor is a failure of the final `WriteFile`.
- The unused `FileMap` type (main.go:24-27).

## Findings

| source | as written | input that shows it | evidently intended | confidence | as-written member | corrected member |
|---|---|---|---|---|---|---|
| main.go:93 | the last range ends at `parts*(size/parts)-1`, so the last `size % parts` bytes are never requested and the merged file is short | size 1005, 50 parts: last range `bytes=980-999`, bytes 1000-1004 missing | the last range ends at `size-1` so every byte is fetched | high (proved; not executed) | `Segments.TrailingBytesDropped` | `Segments.CoveringPlanPartitions` |
