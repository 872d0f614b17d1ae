# arcpics: the JPEG marker reader and the catalogue helpers

arcpics catalogues archives of pictures. Each archive directory carries a label
file (`arcpics-label.<label>`) and has its own bolt database
(`arcpics-<label>.db`). Every directory gets a record: its files with size,
time and the JPEG comment, plus the comment that occurs most often. A small web
server shows the catalogue, and a command-line tool extracts thumbnails.

This project models the following parts of that system.

- **The JPEG marker-stream reader** (`jpeg/jpeg.go`, module `Jpeg`):
  - It checks the SOI signature and walks the marker segments of ITU-T T.81
    Annex B in file order.
  - It keeps the frame size of SOF0/SOF2 and the payload of COM, and stops at SOS.
  - `JpegReader` is a class over the file's bytes. It holds the cursor
    `charCounter` and the fields `ImageHeight`, `ImageWidth` and `Comment`.
  - Each method is proved to do what a pure function over the bytes says. The
    functions are `ByteAt`, `LengthAt`, `BytesAt`, `SegmentAt`, `Handle`,
    `ScanToMarker`, `Walk` and `DecodeFrom`.
  - The properties of the decoder are lemmas about those functions, in module
    `JpegProperties`.
  - A read past the end of the data panics in Go. Here it is the `Panic` case
    of `Outcomes.Outcome`.
- **Catalogue helpers** (modules `Db`, `Web`, `Arcpics`, `Files`, `Mounts`,
  `Thumbnails`):
  - catalogue paths relative to the root, and their parent;
  - the IEC size unit;
  - the word counter over stored comments;
  - carousel neighbours and the last path component;
  - keys ordered by frequency;
  - the prev/next links and the name column of a directory page;
  - the label file of an archive and the database files of a database directory;
  - the most recently mounted directory;
  - put-if-absent of the system label;
  - which directory entries are catalogued;
  - the record of one directory, with its most frequent comment;
  - the label → mount-point table;
  - thumbnail names and the picture filter of the `jpeg/cmd` tool.
- **Modelled as inputs.** Directory listings, bolt buckets, user-data files and
  file contents are inputs: sequences, maps, `Option`s and `Result`s.
- **Strings and errors.** Go strings are `seq<char>` with one character per
  byte. A Go `error` is `Result.Failure` or `Option<string>` carrying the
  message the code builds.

Behaviour of the code a caller should know:
- **DRI, APP0, APP2, APP4 and APPD carry no length field in the code.** ITU-T
  T.81 (sections B.2.4.4 and B.2.4.6) gives them one. So does the source's own
  marker table: DRI is "4 bytes" and APPn "variable size"
  (jpeg/jpeg.go:43-45). The code reads them as bare two-byte markers
  (jpeg/jpeg.go:234-245). See Findings.
- **A segment length below 2 is not rejected.** `Bytes` with a length of 0 or
  less reads nothing (jpeg/jpeg.go:130).
- **A read past the end is not a typed error.** It is a panic
  (jpeg/jpeg.go:101-105).
- **An SOF payload of 1 to 4 bytes does not fail.**
  - Go checks `data[1:3]` and `data[3:5]` against the slice's capacity.
  - A payload of 1 to 4 bytes was appended to a nil slice, which got a zeroed
    capacity of 8. The missing bytes therefore read as 0.
  - Only an empty payload (nil) panics (`Jpeg.FrameDimensions`).
- **A later COM segment overwrites an earlier one**
  (`JpegProperties.LastCommentWins`).
- **The `scan` flag of `Decode` never takes effect.**
  - `Decode` carries a flag `scan` that would make the next turn call
    `ScanToFFmark`.
  - Only the SOS branch sets it, and that branch returns at once.
  - So `Jpeg.JpegReader.Decode` has no such flag. `ScanToFFmark` is modelled and
    proved on its own.

## Model

| member | source | states |
|---|---|---|
| Jpeg.BigEndian16 | jpeg/jpeg.go:113-118 | the 16-bit big-endian value of two bytes is below 65536 |
| Jpeg.BigEndian16Digits | jpeg/jpeg.go:113-118 | the high and the low byte come back out of the value (the decoding is one-to-one) |
| Jpeg.ByteAt | jpeg/jpeg.go:100-111 | NextByte yields a byte exactly when one is left, and panics otherwise |
| Jpeg.LengthAt | jpeg/jpeg.go:113-118 | SegmentLength succeeds exactly when two bytes are left, and returns b0*256+b1 |
| Jpeg.BytesAt | jpeg/jpeg.go:127-142 | Bytes(n) gives exactly the next n bytes in order, or nothing for n <= 0; it fails exactly when fewer than n bytes remain |
| Jpeg.BytesEnd | jpeg/jpeg.go:127-142 | Bytes(n) advances by n on success, not at all for n <= 0, and to the end of the data on failure |
| Jpeg.SegmentAt | jpeg/jpeg.go:149-157 | PrintMarkAndGetData returns the length field and its L-2 payload bytes, empty when they cannot be read; it panics only without two length bytes |
| Jpeg.SegmentEnd | jpeg/jpeg.go:149-157 | the reader never moves backwards or past the end |
| Jpeg.FrameDimensions | jpeg/jpeg.go:173-176 | height = p[1]*256+p[2] and width = p[3]*256+p[4] for payloads of 5 bytes or more; only an empty payload panics |
| Jpeg.FrameEffect | jpeg/jpeg.go:173-180 | a panicking SOF leaves the fields as they were |
| Jpeg.CommentEffect | jpeg/jpeg.go:166-172 | COM never changes height or width |
| Jpeg.SkipEffect | jpeg/jpeg.go:159-164 | DHT/DQT/APP1/SOS change no field, and succeed exactly when the length field is there |
| Jpeg.Handle | jpeg/jpeg.go:227-260 | a marker code without a length field consumes nothing further and changes nothing |
| Jpeg.ScanFromFindsMarker | jpeg/jpeg.go:182-207 | a marker found while scanning follows 0xFF and is none of 0x00, 0xFF, RST0-RST7; the only failure is the end of the data |
| Jpeg.ScanToMarker | jpeg/jpeg.go:182-207 | ScanToFFmark returns a genuine marker, directly after an 0xFF, and panics only at the end of the data |
| Jpeg.Walk | jpeg/jpeg.go:220-267 | Decode's loop never moves the reader backwards or past the end; it terminates because every turn consumes at least the marker code |
| Jpeg.Resume | jpeg/jpeg.go:261-267 | ending a turn never moves the reader backwards or past the end |
| Jpeg.DecodeFrom | jpeg/jpeg.go:209-272 | Decode consumes between nothing and the whole input |
| Jpeg.JpegReader.Open | jpeg/jpeg.go:88-98 | a reader starts at position 0 with zero height and width and an empty comment |
| Jpeg.JpegReader.NextByte | jpeg/jpeg.go:100-111 | returns ByteAt at the cursor and advances the cursor by one exactly on success |
| Jpeg.JpegReader.SegmentLength | jpeg/jpeg.go:113-118 | returns LengthAt and advances by two, or panics at the end |
| Jpeg.JpegReader.Bytes | jpeg/jpeg.go:127-142 | the chunked read loop returns BytesAt and leaves the cursor at BytesEnd |
| Jpeg.JpegReader.PrintMarkAndGetData | jpeg/jpeg.go:149-157 | returns SegmentAt and leaves the cursor at SegmentEnd |
| Jpeg.JpegReader.PrintMarkLength | jpeg/jpeg.go:159-164 | the new state is SkipEffect of the old |
| Jpeg.JpegReader.PrintMarkComment | jpeg/jpeg.go:166-172 | the new state is CommentEffect of the old: Comment becomes the payload |
| Jpeg.JpegReader.PrintMarkStartOfFrame0 | jpeg/jpeg.go:173-180 | the new state is FrameEffect of the old: ImageHeight and ImageWidth from the payload |
| Jpeg.JpegReader.ScanToFFmark | jpeg/jpeg.go:182-207 | the nested scan loops return exactly the marker and position ScanToMarker gives, or panic at the end of the data |
| Jpeg.JpegReader.HandleMarker | jpeg/jpeg.go:227-260 | the switch on the marker code has exactly the effect Handle gives as written |
| Jpeg.JpegReader.Turn | jpeg/jpeg.go:220-267 | one turn of the loop preserves the remaining Walk, or ends with its result |
| Jpeg.JpegReader.Decode | jpeg/jpeg.go:209-272 | the returned error, the fields and charCounter are those of DecodeFrom |
| JpegProperties.SegmentBytes | jpeg/jpeg.go:149-157 | the layout of a length-prefixed segment: 0xFF, the code, a length counting itself, the payload |
| JpegProperties.SegmentInFile | jpeg/jpeg.go:149-157 | a segment laid out in the file is read back as its length and payload, ending right after it |
| JpegProperties.WalkOverSegment | jpeg/jpeg.go:228-249 | SOF0/SOF2, COM, DHT, DQT and APP1 segments are passed over whole, with the fields updated as the segment says |
| JpegProperties.WalkStopsAtScan | jpeg/jpeg.go:248-251 | at SOS the scan header is consumed and Decode returns nil without reading any entropy-coded byte |
| JpegProperties.WalkOverBareMarker | jpeg/jpeg.go:234-245 | DRI, APP0, APP2, APP4, APPD and unknown codes consume only the code byte before the next lead byte |
| JpegProperties.WalkNeverRejects | jpeg/jpeg.go:218-271 | once past the signature Decode returns nil or panics, never an error |
| JpegProperties.WalkPanicsAtEnd | jpeg/jpeg.go:100-105 | a panic is either the end of the data with every byte consumed, or the slice of an empty SOF payload |
| JpegProperties.DecodeRejectsExactlyBadSignatures | jpeg/jpeg.go:210-217 | Decode returns an error exactly when the data does not start with FF D8; the error names the byte, the fields are untouched, and one or two bytes were read |
| JpegProperties.HandleKeepsOrReadsComment | jpeg/jpeg.go:246-247 | a branch of the switch keeps the comment or sets it to a COM payload at that position |
| JpegProperties.CommentComesFromFile | jpeg/jpeg.go:166-168 | the final comment is the initial one (empty) or the payload of a COM segment of the file |
| JpegProperties.FramePayload | jpeg/jpeg.go:175-176 | a frame header of height h and width w is read back as (h, w) |
| JpegProperties.FrameCommentScan | jpeg/jpeg.go:228-251 | SOF0, COM, SOS: Decode returns nil with that height, width and comment, having read up to the end of the scan header |
| JpegProperties.LastCommentWins | jpeg/jpeg.go:246-247 | of two COM segments the second payload is the comment |
| JpegProperties.AppZeroHidesComment | jpeg/jpeg.go:236-237 | as written, an APP0 segment shorter than 256 bytes ends decoding with the comment that follows it unread |
| JpegProperties.IntendedReadsCommentAfterAppZero | jpeg/jpeg.go:234-245 | with APP0 read as a length-prefixed segment, the comment after it is read |
| Text.TrimSuffix | db.go:20 | strings.TrimSuffix drops the suffix when present, and otherwise changes nothing |
| Text.ReplaceChar | db.go:32 | strings.Replace of one byte: same length, each occurrence replaced, everything else kept |
| Text.ReplaceCharRemoves | db.go:32 | after replacing '\\' by '/' no '\\' is left |
| Text.LastIndex | db.go:44 | strings.LastIndex: -1 exactly when the byte is absent, otherwise its last position |
| Text.Split | db.go:263 | strings.Split: one more piece than separators, no piece holding the separator |
| Text.JoinSplit | jpeg/cmd/mainJpeg.go:49-57 | joining the pieces of a split with the separator gives back the string |
| Text.SplitLast | web.go:726-730 | the last piece of a split is the text after the last separator |
| Text.Ext | jpeg/cmd/mainJpeg.go:26 | filepath.Ext is "" or a dot-led suffix of the name without '/' or a further dot, and it is non-empty whenever the last path element holds a dot |
| Text.ToLower | file.go:303 | strings.ToLower keeps the length and lowers each ASCII letter |
| Text.LessTransitive | arcpics.go:95 | Go's string `<` is transitive |
| Text.LessTotal | arcpics.go:95 | Go's string `<` is total |
| Text.DecimalRoundTrip | file.go:301 | the `%d` digits of n denote n |
| Text.IntDecimalRoundTrip | file.go:301 | `%d` of any integer is the sign followed by the digits of its magnitude |
| Db.RelPath | db.go:24-38 | the relative path holds no '\\', and is "./" when the trimmed path is as long as the root; Db.RelPathBelowRoot gives its value below the root |
| Db.RelPathBelowRoot | db.go:29-33 | a path below the root, with any one-byte separator and with or without a trailing '/', gives what follows the root and its separator with every '\\' replaced by '/' |
| Db.RelPathWindowsChildExample | arcpics_test.go:277-284 | relPath("C:\\tmp", "C:\\tmp\\abc") is "abc" |
| Db.RelPathWindowsNestedExample | db.go:31-33 | relPath("C:\\tmp", "C:\\tmp\\a\\b") is "a/b" |
| Db.RelPathOfRoot | db.go:29-36 | the root itself, with or without a trailing '/', gives "./" |
| Db.RelPathRootExamples | arcpics_test.go:256-275 | relPath("/tmp", "/tmp") and relPath("/tmp", "/tmp/") are "./" |
| Db.RelPathChildExamples | arcpics_test.go:277-293 | relPath("/tmp", "/tmp/abc") and relPath("/tmp", "/tmp/abc/") are "abc" |
| Db.GetParentDir | db.go:40-49 | an error exactly for paths starting with "/"; "./" when no '/' follows index 0; otherwise the parent, with parent + "/" + last element == path |
| Db.ParentOfChild | db.go:44-48 | parent + "/" + name has parent as its parent |
| Db.GetParentDirExamples | arcpics_test.go:313-340 | "tmp" gives "./", "tmp/abc" gives "tmp", "tmp/abc/x2" gives "tmp/abc", "/tmp" is an error |
| Db.IecScaleUnique | db.go:57-61 | at most one exponent fits a size |
| Db.ByteCountIEC | db.go:52-64 | "<b> B" below 1024; otherwise the exponent e < 6 with 1024^(e+1) <= b < 1024^(e+2), div = 1024^(e+1) and unit "KMGTPE"[e] + "iB" |
| Db.TebibyteScale | arcpics_test.go:387-394 | 1024^4 bytes has exponent 3 and no other, and unit "TiB" |
| Db.Blanked | db.go:258-262 | blanking the separators keeps the length |
| Db.BlankedChars | db.go:258-262 | each separator becomes a space and every other byte is kept |
| Db.BlankedClean | db.go:258-262 | no separator is left |
| Db.WordsAreClean | db.go:258-263 | no word holds a space or a separator, and the words joined by spaces give the blanked comment |
| Db.TallyCounts | db.go:264-266 | each word's count grows by its number of occurrences, and the keys become the old keys plus the words |
| Db.TallyAppend | db.go:253-266 | counting two word lists in turn is counting their concatenation |
| Db.CountWords | db.go:264-266 | the loop `counter[word]++` yields Tally |
| Db.WordFrequency | db.go:247-273 | each word's final count is its number of occurrences over all decoded records' comments, and the keys are exactly those words |
| Db.FromEmptyTally | db.go:248-266 | counting from an empty map gives the occurrence counts |
| Web.IndexPrev | web.go:594-600 | for 0 <= i < n the result is (i-1) mod n, within [0, n) |
| Web.IndexNext | web.go:601-607 | for 0 <= i < n the result is (i+1) mod n, within [0, n) |
| Web.PrevNextInverse | web.go:594-607 | indexNext undoes indexPrev and indexPrev undoes indexNext |
| Web.LastDir | web.go:725-731 | the last component holds no '/' |
| Web.LastDirAfterLastSlash | web.go:725-731 | the last component is the text after the last '/'; it is the path itself exactly when the path has no '/' |
| Web.LastDirExamples | arcpics_test.go:410-425 | lastDir("my") is "my" and lastDir("my/dir") is "dir" |
| Web.X60 | web.go:238-243 | the result is a prefix of s of length min(len(s), 60) |
| Web.MapKeys | web.go:396-400 | the keys collected are every key once |
| Web.Swap | web.go:402-404 | exchanging two keys is a permutation |
| Web.Sink | web.go:402-404 | one insertion step keeps a permutation and extends the sorted prefix by one |
| Web.SortByCount | web.go:402-404 | the sort leaves a permutation ordered by non-increasing count |
| Web.KeysByFrequency | web.go:395-406 | every key exactly once, by non-increasing count |
| Web.KeysListedOnce | web.go:395-406 | a permutation of the keys holds every key and none twice |
| Web.FirstIndex | web.go:621-627 | the first position of x, -1 exactly when x is absent |
| Web.ImageNeighbours | web.go:617-634 | prev and next are files[indexPrev(i)] and files[indexNext(i)] at the first position i of the file, None (404) when it is absent |
| Web.NeighboursWrapAround | web.go:621-627 | in a list of two or more distinct names, neither neighbour is the image itself |
| Web.FileListNeverEmpty | web.go:617 | the comma-split list is never empty |
| Web.PrevNextPathLinks | web.go:701-723 | blanks for "./", "-" for an undecodable record, otherwise the links around the first position of the directory, "|" where there is none |
| Web.PathLinksNoWrapAround | web.go:712-722 | a prev link exists exactly when i > 0, a next link exactly when i+1 < len: no wrap-around |
| Web.DisplayName | web.go:679-685 | names of 24 bytes or more show their first 21 bytes and "..&gt;", shorter names show whole; directories get a trailing "/" |
| Web.Spaces | web.go:693-695 | n spaces |
| Web.PadRight | web.go:696 | `%-24s` pads with spaces to at least the width (counted in bytes), keeping the text as a prefix |
| Web.FixNameLink | web.go:677-700 | the line written is six spaces, the link padded by one space per byte short of 24, then "\n" for directories |
| Web.LinkNeverPadded | web.go:693-696 | the `%-24s` verb never adds padding of its own |
| Arcpics.PicturesAndDatabaseDirectories | arcpics.go:16-32 | no args: both defaults; one arg: it and the default database directory; two or more: the first two args |
| Arcpics.PicturesAndDatabaseDirectoriesExamples | arcpics_test.go:42-80 | the three cases of the tests |
| Arcpics.LabelFiles | arcpics.go:154-159 | the label files are exactly the listed names with the "arcpics-label." prefix |
| Arcpics.LabelContract | arcpics.go:146-169 | no label file is the "there is no file" error, more than one the "unexpected number files" error; no error exactly for one label file with a non-empty label, whose file is listed |
| Arcpics.DbLabelExample | arcpics_test.go:32-40 | a directory with "arcpics-label.a" has label "a" |
| Arcpics.DbLabel | arcpics.go:146-169 | the counting loop and the checks after it give exactly LabelOf |
| Arcpics.LatestIsFirstGreatest | arcpics.go:89-101 | the latest time is not below any entry's, and belongs to the first entry carrying it, unless no entry is later than "" |
| Arcpics.LastMountedDir | arcpics.go:89-101 | the loop returns the directory of Latest |
| Arcpics.InsertSystemLabelValue | arcpics.go:65-79 | the INIT key is present afterwards and holds the new value when it was missing or empty, an existing non-empty value is never overwritten, and no other key changes |
| Arcpics.InsertSystemLabelValueKeeps | arcpics.go:65-79 | a second insertion changes nothing; the stored label is the first non-empty one |
| Files.GetLabel | file.go:79-102 | getLabel has exactly DbLabel's contract |
| Files.PlainFilesKeepsOrder | file.go:332-341 | filtering a listing piecewise keeps its order |
| Files.PlainFilesMembers | file.go:333-340 | the kept entries are exactly the catalogued ones |
| Files.FilesInDir | file.go:326-343 | a listing error is returned; otherwise the non-directory entries with neither JSON prefix, in order |
| Files.DbLabelOf | file.go:356-358 | "arcpics-" + label + ".db" gives back the name |
| Files.DbFileNameRoundTrip | file.go:353-358 | every label's database name (arcpics.go:257) is taken as a database, and gives back the label |
| Files.DbLabelsMembers | file.go:350-362 | the labels are exactly those of listed non-directory database files |
| Files.GetLabelsInDbDir | file.go:344-364 | a listing error is returned; otherwise the labels of the database files in listing order |
| Files.SameDirReflexiveSymmetric | file.go:143-172 | jDirIsEqual is reflexive and symmetric |
| Files.JDirIsEqual | file.go:143-172 | true exactly when description, most comment, location, file count and each compared file field agree pairwise in order |
| Files.Chars | file.go:272 | string(data) has one character per byte, of the same value |
| Files.GetJpegComment | file.go:268-273 | the comment the decoder leaves, whatever error Decode returns; a decoder panic is the outcome |
| Files.RecordsOf | file.go:297-310 | one record outcome per filtered file, in order |
| Files.CollectAll | file.go:297-310 | without a panic, every record is collected in order |
| Files.CollectPanics | file.go:297-310 | the loop panics exactly when one of its files makes the decoder panic |
| Files.RecordedComments | file.go:297-310 | one record per file in listing order, with the same name; the comment comes from the decoder exactly for names whose lowercase ends in "jpg", otherwise it is the placeholder |
| Files.FileComment | file.go:303-307 | the comment of one file: the decoder's for "jpg" names, the placeholder otherwise |
| Files.RecordFiles | file.go:296-310 | the loop builds Records, and the counter holds each comment's number of occurrences |
| Files.MostFrequent | file.go:312-319 | vMax is the greatest count (0 when none is positive) and kMax a key carrying it ("" otherwise) |
| Files.MostComment | file.go:312-322 | a non-empty MostComment is "k: v/n" for a non-empty key of greatest count; a unique such key always gives it |
| Files.MakeJdir | file.go:274-324 | description and location from the user data or the placeholder; a listing error is returned with no files; otherwise the records of the filtered files, and MostComment "k: v/n" for a comment of greatest count |
| Mounts.MountHtmlCases | mounts.go:14-23 | the rendering starts with "<b>mounted at</b> " exactly when the label has a mount point, and the rest is exactly that mount point; otherwise it is the mount button, whose mountLabel argument and whose last word are both the label |
| Mounts.MountPointAfterStore | mounts.go:5-12 | after Set(l, v), Get(l) is v and every other label's mount point is unchanged |
| Mounts.MountHtmlExamples | arcpics_test.go:343-370 | the Get and Html values of TestLabelMountsType |
| Mounts.LabelMounts.constructor | arcpics_test.go:345 | a new table is empty |
| Mounts.LabelMounts.Set | mounts.go:5-7 | the entry of the label becomes the value, and no other entry changes |
| Mounts.LabelMounts.Get | mounts.go:9-12 | the stored value of a label that is set, "" for one that is not |
| Mounts.LabelMounts.Html | mounts.go:14-23 | the rendering starts with "<b>mounted at</b> " exactly when the label is mounted, followed by exactly the mount point; otherwise it is the mount button naming the label as the mountLabel argument and as its last word |
| Mounts.LabelMounts.MountLabeledDirectory | mounts.go:24-35 | a missing directory or a label error leaves the table unchanged with the printed message; otherwise label → dir is stored |
| Mounts.MountedThenFound | mounts.go:24-35 | a mounted directory is found under its non-empty label, and no other label moves |
| Thumbnails.JoinPrefixedLast | jpeg/cmd/mainJpeg.go:49-58 | prefixing the last piece of the split and joining again prefixes the last path element |
| Thumbnails.ThumbnailName | jpeg/cmd/mainJpeg.go:47-59 | the split, update and join loop yields PrefixLast |
| Thumbnails.PrefixLastPlainName | jpeg/cmd/mainJpeg.go:47-59 | a name without '/' gets just the prefix: "Thumbnail-" + fname |
| Thumbnails.PrefixLastShape | jpeg/cmd/mainJpeg.go:50-58 | everything up to the last '/' is kept, the final element is prefixed, the length grows by the prefix |
| Thumbnails.PrefixLastSlash | jpeg/cmd/mainJpeg.go:47-59 | the last '/' stays where it was |
| Thumbnails.PrefixLastSlashCount | jpeg/cmd/mainJpeg.go:47-59 | the number of '/' is unchanged |
| Thumbnails.Find | jpeg/cmd/mainJpeg.go:20-34 | the walk collects exactly Found: the kept paths in walk order, up to the first error |
| Thumbnails.FoundComplete | jpeg/cmd/mainJpeg.go:22-33 | every entry the walk reaches and the filter keeps is found |
| Thumbnails.FoundSound | jpeg/cmd/mainJpeg.go:22-33 | everything found is the path of an entry the walk reaches and the filter keeps |
| Thumbnails.KeptExamples | jpeg/cmd/mainJpeg.go:26-30 | "a.jpg" is kept; "A.JPG" (case matters) and "Thumbnail-a.jpg" are not |

## Left out

- Opening the file and the buffered reader. `JpegReader.Open` takes the bytes
  the reader will deliver. The `os.Open` error is not part of this model.
- The verbose trace printing of `PrintMark`, `PrintMarkLength` and `Decode`, and
  the unused `maxCounter` debug field. They have no effect on results.
- Jpeg.JpegReader.Bytes: `bufio.Reader.Read` may deliver any number of bytes per
  call. The model picks a chunk size by `:|`. The read error itself is `None`.
- HTTP handling in web.go: routing, page assembly, `getParams`, image streaming
  and the mutex. Only the index, name and link helpers are modelled.
- Bolt database calls, which come from a foreign library. Buckets are maps or
  key-ordered pairs. The records `ArcpicsWordFrequency` reads are given
  pre-decoded, with `None` for a record `json.Unmarshal` rejects.
- Arcpics.InsertSystemLabelValue: the error of a failing `Put` is not modelled.
- Filesystem walking, JSON files and `fs.go`. Listings (`os.ReadDir`,
  `filepath.WalkDir`) are sequences of entries. A failing `os.ReadDir` in
  `DbLabel`/`getLabel` calls `log.Fatal` and is not part of this model.
- Db.RelPath: `filepath.Abs` and its error. The function takes the absolute,
  cleaned path.
- Db.ByteCountIEC: the `%.1f` formatting of b/div is not modelled. The result
  gives the divisor and the unit.
- Arcpics.PicturesAndDatabaseDirectories: `GetDatabaseDirName` reads the home
  directory and may create a directory. Its result is a parameter.
- Arcpics.LastMountedDir: the MOUNTS bucket is given as (dir, time) pairs in key
  order. Writing a mount time (`time.Now`) is not modelled.
- Files.FilesInDir, Files.MakeJdir: `jsonFilePrefix`, `jsonUserData` and
  `isJpegFile` are not defined in the sources. They are parameters.
- Files.MakeJdir: the user-data file is an `Option` (missing or undecodable is
  `None`), and printing its error is left out. File times are inputs already
  formatted with `timeStampJsonFormat`.
- Files.MostFrequent: Go's map iteration order is unspecified, so the loop
  picks keys by `:|`. Among tied counts the key is any one of them.
- Files.MostComment: which of several tied keys wins is left open, since it
  depends on map order.
- Web.PadRight: fmt's `%-24s` counts its width in runes, but the model counts
  characters that each stand for one byte. A name with multi-byte runes would
  get less padding from fmt. Web.LinkNeverPadded shows that the listing line
  never reaches this padding.
- Text.ToLower lowers ASCII letters only. Go's `strings.ToLower` also handles
  Unicode letters.
- Mounts.LabelMounts.MountLabeledDirectory: `DirExists` is a boolean parameter,
  and the listing of the directory is an input. The messages the code prints are
  returned as `msg`.
- Thumbnails.ThumbnailName, Thumbnails.Find: the package variable
  `ThumbnailPrefix` is a parameter (`Thumbnails.ThumbnailPrefix` is its value).
- The CLI drivers (`cmd/main.go`, `jpeg/cmd` `main`), `example/` and `defs.go`.
  defs.go holds only constants and types; its prefixes are constants here.
- Web.SortByCount: `sort.Slice` is not stable and its algorithm is not
  specified. It is modelled as an insertion sort by adjacent swaps. Only its
  promise, a permutation ordered by non-increasing count, is stated.

## Findings

| source | as written | input that shows it | evidently intended | confidence | as-written member | corrected member |
|---|---|---|---|---|---|---|
| jpeg/jpeg.go:234-245 | DRI, APP0, APP2, APP4 and APPD are read as bare markers; their length field is taken for the next lead byte | FF D8, then an APP0 (JFIF) segment FF E0 00 10 ..., then a COM segment: the 0x00 after E0 ends the loop, so the comment is never read | these segments are length-prefixed (sections B.2.4.4 and B.2.4.6 of ITU-T T.81) and should be skipped like DHT/DQT/APP1 | high (not executed) | JpegProperties.AppZeroHidesComment | JpegProperties.IntendedReadsCommentAfterAppZero |

The corrected framing is `Jpeg.Framing.Intended`, decoded by
`Jpeg.IntendedDecode`. The general `JpegProperties` lemmas (WalkOverSegment, WalkNeverRejects,
WalkPanicsAtEnd, DecodeRejectsExactlyBadSignatures, CommentComesFromFile) are stated for both framings.
The catalogue (`Files.GetJpegComment`) keeps the reader as written, because that
is what makeJdir calls.
