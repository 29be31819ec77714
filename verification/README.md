# Form input of the CGI library, and the accounting of ping

This project models two independent engines of the repository and proves what
each of them promises.

**Form input** (`cgi-src/cgic.c`). A request body is read through a virtual
stream with a put-back ring, cut into parts at boundary lines, and turned into a
list of form entries, which the application then queries, or saves and restores.

| module | what it models |
|---|---|
| `Bytes`, `Forms` | bytes, C strings, character classes; the form entry |
| `MpStreams` | the stream: ring buffer, offset, declared length |
| `Search` | the delimiter search as a machine over a first-in first-out ring |
| `Placement` | where that search leaves the stream, for every pattern |
| `Boundaries` | `afterNextBoundary`: search, growing buffer, the two bytes behind a boundary |
| `Headers` | header lines and the parameters of their values |
| `Multipart`, `MultipartRoundTrip` | the multipart driver; a reference printer and "parsing undoes printing" |
| `Urlencoded` | the urlencoded parser and decoder, with a reference encoder |
| `Requests` | content type, boundary parameter, dispatch on the request method |
| `Newlines`, `FormLists`, `Cookies` | queries on the entries and on the cookie header |
| `EnvironmentFiles` | saving and restoring the environment |

**Ping** (`test/ping1.c`, `test/ping_common.h`, `ping.c`). The sender's token
bucket, 16-bit sequence tracking, duplicate detection, running statistics, and
the Internet checksum.

| module | what it models |
|---|---|
| `Checksums` | both checksum implementations, and the packets that carry them |
| `Tracking` | the newest acknowledged probe, in 16 bits and without bounds |
| `Statistics` | times, running sums, the Newton square root |
| `DupTables` | the bit table, and who is credited with a reply |
| `TokenBucket` | the rate check and what follows an attempt to send |
| `Accounting` | all of these as one state, and what holds over every run of a session |
| `PingSessions` | the object that holds that state, and the functions that change it |

Code that changes state is modelled by classes and by methods with loops. Each
such method is proved equal to a function of its inputs and of the old state, and
the theorems are about these functions. The runs of a state machine are sequences
of events folded over its step function.

## The hard parts, and what was found

*The put-back ring.* `mpPutBack` appends at the tail, although its callers need
the bytes in front. `Search.Machine` is the search loop as it is written, over the
ring as it is. `Search.CleanRunsAreExact` says, for every pattern and stream, that
a run whose put-backs find the ring empty stops behind the first occurrence of the
pattern, having emitted what precedes it. `Search.UniqueHeadRunsClean` shows that
all runs for the delimiter between parts are of that kind, as CR occurs only at its
head.

The first boundary starts with two dashes, and there the ring can reorder bytes.
`Search.AllSearchesExactIff`: the search is exact on all texts (found, emitted and
left over) if and only if at most one byte follows the run of equal bytes that the
pattern starts with. But this search throws away what it emits, so what matters is
where it leaves the stream. `Placement.PlacesRightIff` says for every pattern when that
is right on all texts: if and only if a set of pairs of states, at most |p| * |p| of
them, is closed under every byte. All three cases occur. A pattern such as
"--x.." is missed behind a preamble (`Search.DirtyRunMissesPattern`); one such as
"--a-a" is found in a text that does not contain it
(`Search.DirtyRunFindsAbsentPattern`); and for one such as "--a-" the bytes before it
come out in the wrong order, but it is always found where it is
(`Placement.OnceAmongPlacesRight`). The parser is modelled for every content, over the
ring as it is (`Multipart.ParseRun`); it equals the reference parser whenever the first
boundary is found where it is (`Multipart.ParseRunIsReference`).

*Parsing undoes printing.* `MultipartRoundTrip.ParseUndoesPrint`,
`Urlencoded.ParseUndoesEncode` and, from the method and the content type on,
`Requests.MultipartRequestRoundTrip`, `Requests.PostedRoundTrip` and
`Requests.QueriedRoundTrip`. The printers write literal text, in any mixture of cases
where the code ignores case, and the theorems say field by field what an entry holds.
What a header value, a parameter list and a body must be like is exact:
`MultipartRoundTrip.HeaderLineIff`, `MultipartRoundTrip.ArgumentsAreTakenIff`,
`MultipartRoundTrip.BodySurvivesIff`.

*A whole ping session.* `Accounting.SessionIsTruthful`: after every run of calls and
packets, the state of the program is compared with a record of what happened: the probes
and their acknowledgements without bounds, the probes credited, the trip times in order,
and the time on the clock.

Where the code does not do what one would expect, the code is modelled, and the
exact condition is proved:

- Header values lose every colon and the whitespace behind it, and what does not
  fit the buffer (`MultipartRoundTrip.HeaderLineIff`).
- A parameter of Content-Disposition other than `name` and `filename` makes the
  code write through a null pointer. The model reports a fault
  (`MultipartRoundTrip.ArgumentsAreTakenIff`).
- Behind a boundary any two bytes are dropped, line break or not, unless the first
  is a dash (`Boundaries.AfterNextBoundary`).
- The saved environment finds uploads again by field name
  (`EnvironmentFiles.RestoreUndoesSaveIff`, `EnvironmentFiles.EntryComesBackIff`).
- A cookie name with a semicolon can match across segments (`Cookies.WalkIsSearchIff`).
- The integer promotion in `advance_ntransmitted` forgets the newest
  acknowledgement after a gap of 0x7FFF (`Tracking.SendAgreesIff`), and then the
  number in flight reads zero (`Tracking.OverflowEmptiesThePipe`).
- `llsqrt` computes the root of its argument plus one (`Statistics.RootOfNext`).
- A delay returned by the rate check can be one millisecond too short, because a
  negative difference of microseconds is truncated towards zero
  (`TokenBucket.DelayAfterWaitIff`, `TokenBucket.UnluckyCase`).
- The two checksum implementations differ on odd lengths
  (`Checksums.ImplementationsAgreeIff`).
- The moving average is an `int`; it overflows for times above INT_MAX / 8
  microseconds (`Statistics.AverageFitsIff`).
- `parse_reply` computes the checksum of a reply, and passes zero to
  `gather_statistics` for it (`test/ping1.c:1152-1159`): a reply is accounted as its
  checksum asks if and only if that is zero (`Accounting.AccountedAsItShouldBeIff`), and
  no run ever counts a failed one (`Accounting.NoneFails`).

## Model

| member | source | states |
|---|---|---|
| `Bytes.EqNcIff` | cgi-src/cgic.c:2261-2282 | The comparison ignores case, and nothing else: it holds if and only if both strings have the same letters in lower case |
| `Bytes.StrEqNc` | cgi-src/cgic.c:2261-2282 | The walk over both strings decides that |
| `MpStreams.UseConservesIff` | cgi-src/cgic.c:331-381 | From any state in which delivered bytes plus what will be read make up the content in order, a read keeps that; a put-back keeps it exactly when the ring is empty or commutes with the bytes put back |
| `MpStreams.UsesConserve` | cgi-src/cgic.c:331-381 | Any interleaving of reads and legal put-backs on an empty ring conserves the content in order |
| `MpStreams.MpStream.constructor` | cgi-src/cgic.c:434 | The zeroed stream is valid: empty ring, offset 0, the declared length of input ahead |
| `MpStreams.MpStream.DrainRing` | cgi-src/cgic.c:340-349 | The drain loop takes from the head of the ring, in order, as much as is wanted and there |
| `MpStreams.MpStream.Read` | cgi-src/cgic.c:331-371 | Delivers the next bytes of the view, short only at its end; offset = fetched minus ring throughout; never past the declared length; EOF exactly when the offset has reached the length and something was asked for |
| `MpStreams.MpStream.FillRing` | cgi-src/cgic.c:376-380 | The put-back loop, wrapping round, appends exactly its bytes to the ring and keeps it short of the size at which it would look empty |
| `MpStreams.MpStream.PutBack` | cgi-src/cgic.c:373-381 | The bytes go behind those in the ring, the offset goes down with them; the put-back is recorded, with the size of the ring before and after it |
| `MpStreams.MpStream.ReadByte` | cgi-src/cgic.c:331-371 | One byte off the stream, or nothing and the stream as it was |
| `MpStreams.MpStream.PutBackByte` | cgi-src/cgic.c:373-381 | One byte behind those in the ring |
| `Search.FindIsFirst` | cgi-src/cgic.c:679-741 | The reference search answers with an occurrence that has none before it, or with none when there is none |
| `Search.StepText` | cgi-src/cgic.c:708-741 | What one clean turn of the loop means: a byte of the match, or proof that the match does not start here and exactly one byte is given up |
| `Search.DirtyStaysDirty` | cgi-src/cgic.c:723-735 | Once a put-back has found the ring in use, the run is not clean again |
| `Search.CleanRunsAreExact` | cgi-src/cgic.c:708-741 | For every pattern and stream: a clean run ends behind the first occurrence, emits what precedes it, and finds nothing exactly when there is nothing |
| `Search.UniqueHeadRunsClean` | cgi-src/cgic.c:708-741 | A pattern whose first byte does not recur is always searched cleanly, from a ring of at most two bytes, and a match leaves the ring empty |
| `Search.CleanOpeningRunsClean` | cgi-src/cgic.c:438-445 | A text in which the pattern stands where its first byte first turns up is searched cleanly |
| `Search.RunThenOneRunsClean` | cgi-src/cgic.c:702-741 | So is every text, for a pattern of one repeated byte with at most one other behind it |
| `Search.OvertakenByte` | cgi-src/cgic.c:723-735 | For a pattern that starts with a run, another byte and at least one more: a byte that breaks the match there overtakes the bytes it came after |
| `Search.DirtyRunMissesPattern` | cgi-src/cgic.c:723-735 | If the byte behind that other byte does not belong to the run, the pattern is missed in a text that plainly holds it |
| `Search.DirtyRunFindsAbsentPattern` | cgi-src/cgic.c:723-735 | If it does, and the next one does not, the pattern is found in a text that does not hold it |
| `Search.AllSearchesExactIff` | cgi-src/cgic.c:702-741 | For a pattern that repeats its first byte, all searches are exact in what they find, emit and leave over if and only if at most one byte follows that run |
| `Search.CleanIsCarried` | cgi-src/cgic.c:708-741 | The discipline of earlier put-backs changes nothing in what a search does |
| `Search.AllRunsCleanIff` | cgi-src/cgic.c:702-741 | All of its put-backs find the ring empty, on all texts, for exactly the same patterns |
| `Placement.SameVerdict` | cgi-src/cgic.c:708-741 | Where the search leaves the stream does not depend on what was emitted before |
| `Placement.FetchOne` | cgi-src/cgic.c:708-741 | Between two fetches the ring is empty: the loop is a table over the number of matched bytes |
| `Placement.SeeOne` | cgi-src/cgic.c:679-741 | The reference search is a table over the longest start of the pattern seen |
| `Placement.ClosedPlacesRight` | cgi-src/cgic.c:708-741 | If the tables agree on a closed set of pairs, the search leaves every text where the reference does, with nothing in the ring |
| `Placement.PlacesRightIff` | cgi-src/cgic.c:702-741 | For every pattern: the stream is left where it should be on all texts if and only if such a set exists |
| `Placement.OnceAmongPlacesRight` | cgi-src/cgic.c:702-741 | It does for a run, one other byte and one more of the run, although not all of its runs are clean |
| `Boundaries.DelimiterHeadIsUnique` | cgi-src/cgic.c:156-171 | Cutting the boundary at whitespace makes CR unique in the delimiter |
| `Boundaries.LocatedSplits` | cgi-src/cgic.c:742-755 | The two bytes behind a match are dropped, or put back when the first is a dash, and leave at most two bytes in the ring |
| `Boundaries.DelimiterSearchIsTidy` | cgi-src/cgic.c:702-741 | Between parts every search is clean, whatever the stream |
| `Boundaries.OpeningSearchIsTidy` | cgi-src/cgic.c:702-741 | So is the first one when no dash precedes the boundary, or for a boundary of dashes and at most one other byte |
| `Boundaries.BodyBuffer.Append` | cgi-src/cgic.c:655-678 | Every byte emitted is kept, in a block that always has room for one more, or in the file, or dropped when no body is wanted |
| `Boundaries.BodyBuffer.Grow` | cgi-src/cgic.c:655-667 | Doubling keeps the contents |
| `Boundaries.BodyBuffer.Finish` | cgi-src/cgic.c:756-770 | The final NUL is in bounds; body and length are those of the bytes appended |
| `Boundaries.MatchConsumes` | cgi-src/cgic.c:708-741 | A match uses up as many bytes as the pattern has, whatever is put back on the way |
| `Boundaries.BackUp` | cgi-src/cgic.c:723-735 | After a partial match all of it but the first byte, and the byte just read, are put back; says when the episode began with an empty ring |
| `Boundaries.ScanByte` | cgi-src/cgic.c:708-741 | One turn of the loop is one step of the machine, on any ring |
| `Boundaries.ScanLoop` | cgi-src/cgic.c:708-741 | The loop ends by a lexicographic measure although it pushes input back, is the machine from any ring, and never fills the ring beyond what it held before or the pattern less one byte |
| `Boundaries.ReadTrailer` | cgi-src/cgic.c:742-755 | The two bytes behind the match, and when they go back |
| `Boundaries.AfterNextBoundary` | cgi-src/cgic.c:679-791 | Result, body, length, stream and ring discipline, for every stream, ring, sink and boundary |
| `Headers.SkipSpaces` | cgi-src/cgic.c:930-935 | Whitespace behind a colon is skipped, the byte that ends it is put back, from any ring |
| `Headers.SkipLineFeed` | cgi-src/cgic.c:916-925 | An LF behind a CR is read, another byte is put back |
| `Headers.ReadHeaderLine` | cgi-src/cgic.c:900-959 | Both buffers, the stream and the discipline after a line, from any ring |
| `Headers.LineOfIsHeaderLine` | cgi-src/cgic.c:900-959 | With at most two bytes in the ring that is the recursive reading of the bytes to come (line ends CR, LF and CRLF, dropped colons, truncation), and all put-backs find the ring empty |
| `Headers.ScanPast` | cgi-src/cgic.c:811-893 | The scanning loops stop at the first byte outside their class |
| `Headers.ScanInto` | cgi-src/cgic.c:811-893 | Those that also copy keep exactly what fits |
| `Headers.ReadToken` | cgi-src/cgic.c:814-830 | A quoted or a plain value, up to the semicolon behind it |
| `Headers.FindSlot` | cgi-src/cgic.c:863-872 | The first wanted name that equals the parameter's, without regard to case |
| `Headers.ReadParameter` | cgi-src/cgic.c:837-893 | Name, value and rest of one parameter, or none without an equals sign |
| `Headers.DecomposeValue` | cgi-src/cgic.c:793-898 | Main value and wanted parameters of any value, the null write included |
| `Multipart.ApplyHeader` | cgi-src/cgic.c:475-498 | What one header line adds to the disposition of a part |
| `Multipart.ReadHeaders` | cgi-src/cgic.c:472-499 | The header loop ends, with the headers, the stream and the discipline of the specification, from any ring |
| `Multipart.CheckEnd` | cgi-src/cgic.c:461-471 | The end test puts back what it took unless it answers yes |
| `Multipart.ReadPart` | cgi-src/cgic.c:446-583 | One turn of the driver: the end, an error, a part that is no form data, or an entry |
| `Multipart.ReadParts` | cgi-src/cgic.c:446-585 | The driver loop ends for every input, and collects the entries in order |
| `Multipart.ParseStream` | cgi-src/cgic.c:425-585 | On a fresh stream, whatever it holds: outcome, discipline, and a ring that never holds more than a delimiter less one byte |
| `Multipart.ParsePostMultipartInput` | cgi-src/cgic.c:425-585 | For every input: the outcome over the ring as it is, when all put-backs found the ring empty, and the bound on the ring |
| `Multipart.BlockIsHeaderBlock` | cgi-src/cgic.c:472-499 | From a ring of at most two bytes the header loop depends on the bytes to come only |
| `Multipart.DelimiterIsCrossed` | cgi-src/cgic.c:500-535 | From such a ring the body is everything before the first delimiter, and the stream goes on behind it |
| `Multipart.PartIsNext` | cgi-src/cgic.c:446-583 | So one turn of the driver is one step of the reference parser |
| `Multipart.PartsOfIsParts` | cgi-src/cgic.c:446-585 | And all of its turns are the reference parser, with every put-back on an empty ring |
| `Multipart.ParseRunIsReference` | cgi-src/cgic.c:425-585 | If the first boundary is found where it is, the parser is the reference parser, and only that search can have found the ring in use |
| `Multipart.TidyOpensRight` | cgi-src/cgic.c:438-445 | A clean first search is such a one |
| `Multipart.EveryContentIsParsed` | cgi-src/cgic.c:425-585 | For a boundary that passes the table test, every content is parsed as by the reference, with any preamble |
| `MultipartRoundTrip.LineIsRead` | cgi-src/cgic.c:900-959 | A printed header line is read back, name and value |
| `MultipartRoundTrip.BlankLineEnds` | cgi-src/cgic.c:916-959 | An empty line ends the header |
| `MultipartRoundTrip.ValuesAreReadable` | cgi-src/cgic.c:928-946 | Whatever the stream, no header value holds a colon or a line break, starts with whitespace, or exceeds its buffer |
| `MultipartRoundTrip.HeaderLineIff` | cgi-src/cgic.c:928-946 | A printed line comes back if and only if its value is not empty and like that |
| `MultipartRoundTrip.AnyLineIsRead` | cgi-src/cgic.c:900-959 | A line of any length, with whitespace in its name or before its value, and any line end (CRLF, LF, CR alone): the name without whitespace and the value, each cut to its 1023 bytes, and the stream goes on behind the line end |
| `MultipartRoundTrip.ArgumentsAreTakenIff` | cgi-src/cgic.c:863-896 | Any list of well-formed parameters is taken without a fault if and only if each is wanted |
| `MultipartRoundTrip.PlainArgumentIsRead` | cgi-src/cgic.c:885-893 | A parameter without quotes is read up to the semicolon |
| `MultipartRoundTrip.SpacedArgumentIsRead` | cgi-src/cgic.c:837-884 | A quoted parameter with whitespace around its name and value is read, and what follows the closing quote is dropped up to the semicolon |
| `MultipartRoundTrip.DispositionIsRead` | cgi-src/cgic.c:793-898 | Main value, name and file name of a printed disposition come back, with the keys in any mixture of cases |
| `MultipartRoundTrip.ContentTypeIsRead` | cgi-src/cgic.c:490-498 | A content type comes back up to its parameters |
| `MultipartRoundTrip.NoStraddling` | cgi-src/cgic.c:679-741 | A delimiter cannot straddle the end of a body |
| `MultipartRoundTrip.BodySurvivesIff` | cgi-src/cgic.c:679-791 | A body comes back whole if and only if it does not contain the delimiter |
| `MultipartRoundTrip.HeadersAreRead` | cgi-src/cgic.c:472-499 | The printed headers of a part, their names in any mixture of cases, give kind, name, file name and type of the part |
| `MultipartRoundTrip.EntryIsHeld` | cgi-src/cgic.c:536-583 | A part without a file name gives name, body and its length; one with a file name gives an upload with the body, and no value |
| `MultipartRoundTrip.DelimiterIs` | cgi-src/cgic.c:702-707 | The parser looks for CR, LF, two dashes and the boundary, and at first for the dashes and the boundary |
| `MultipartRoundTrip.PartIsRead` | cgi-src/cgic.c:446-583 | A printed part of form data gives one entry with its fields, as written out; another part gives none |
| `MultipartRoundTrip.PartsAreRead` | cgi-src/cgic.c:446-585 | Any list of parts: the entries of those of form data, in order |
| `MultipartRoundTrip.ParseUndoesPrint` | cgi-src/cgic.c:425-585 | For every list of printable parts and every epilogue, the i-th entry has the name, the type up to its parameters and the body length of the i-th part of form data; without a file name its value is the body, otherwise file name and upload are those of the part; other parts add nothing |
| `MultipartRoundTrip.UnclosedIsAnError` | cgi-src/cgic.c:515-535 | A part without a closing delimiter is an I/O error |
| `MultipartRoundTrip.NoBoundaryIsEmpty` | cgi-src/cgic.c:438-442 | Text without the boundary is an empty submission, and a success |
| `MultipartRoundTrip.PrintedOpensTidily` | cgi-src/cgic.c:438-445 | Every printed message meets the condition of the parser |
| `Requests.BoundaryInIsShort` | cgi-src/cgic.c:144-171 | The boundary found is free of whitespace and NUL, and shorter than its header by "boundary=" |
| `Requests.BoundaryIsValid` | cgi-src/cgic.c:128-171 | So the delimiter fits its buffer, whatever the content type header |
| `Requests.TakeParameter` | cgi-src/cgic.c:149-169 | One parameter of the content type |
| `Requests.FindBoundary` | cgi-src/cgic.c:147-171 | The first parameter that begins with "boundary=", up to whitespace |
| `Requests.BoundaryIsFound` | cgi-src/cgic.c:147-171 | The boundary behind "boundary=", in any mixture of cases, ends at whitespace or with the header |
| `Requests.OtherParameterIsPassed` | cgi-src/cgic.c:149-169 | A parameter that does not begin with "boundary=" is passed over |
| `Requests.TakeContentType` | cgi-src/cgic.c:128-171 | Type and boundary of any header, cut to its buffer |
| `Requests.HandleRequest` | cgi-src/cgic.c:207-280 | The dispatch on method and type, short bodies and unknown types included, gives the specified outcome for every request |
| `Requests.DispatchIs` | cgi-src/cgic.c:207-276 | Which parser gets what: method and type compared with the literal names in any mixture of cases; an empty body is a success, a short one an I/O error; other methods and types give no entries |
| `Requests.MultipartHeaderIsRead` | cgi-src/cgic.c:128-171 | A printed content type that fits gives back type and boundary, whatever the case of the type and of "boundary=" |
| `Requests.MultipartRequestRoundTrip` | cgi-src/cgic.c:207-255 | A printed submission, handled as a request from its content type on, gives the fields of its parts, for every spelling of method, type, keys and header names, and every put-back on the way finds the ring empty |
| `Requests.PostedRoundTrip` | cgi-src/cgic.c:207-234 | An encoded list of pairs, posted, gives an entry with the name and the value of each, for every spelling of method and type |
| `Requests.QueriedRoundTrip` | cgi-src/cgic.c:256-276 | So it does in a query, where a NUL is escaped as well, for every spelling of "get" |
| `Urlencoded.PendingStep` | cgi-src/cgic.c:1087-1110 | Each state of the decoder stands for what is still to come out; a byte takes its share from that |
| `Urlencoded.UnescapeChars` | cgi-src/cgic.c:1077-1114 | The three-state loop equals the recursive decoder on every input, within len bytes and the NUL |
| `Urlencoded.HexValue` | cgi-src/cgic.c:1116-1143 | The value of a hexadecimal digit of either case, and zero for anything else |
| `Urlencoded.TakeToken` | cgi-src/cgic.c:990-1016 | An inner loop: the length up to the stop byte, and whether it was there |
| `Urlencoded.TakeField` | cgi-src/cgic.c:983-1023 | One field: a name up to the first equals sign, a value up to the first ampersand |
| `Urlencoded.ParseFormInput` | cgi-src/cgic.c:978-1073 | The whole list, with a tail without an equals sign dropped |
| `Urlencoded.DecodeUndoesEncode` | cgi-src/cgic.c:1077-1143 | Decoding undoes every encoding that escapes the reserved bytes, in digits of either case; neither separator occurs in it |
| `Urlencoded.ParseUndoesEncode` | cgi-src/cgic.c:978-1073 | For any list of pairs the i-th entry has the i-th name and value and the length of the value up to a NUL, with no file name, type or upload |
| `Urlencoded.WithoutEqualsIsDropped` | cgi-src/cgic.c:999-1001 | Data without an equals sign give no entry |
| `Urlencoded.ValueLengthIff` | cgi-src/cgic.c:1033 | The stored length is that of the value if and only if it has no NUL |
| `Newlines.OnePassIsNormalise` | cgi-src/cgic.c:1443-1502 | Two counters and one pass compute what the burst-wise specification says |
| `Newlines.LinesAreKept` | cgi-src/cgic.c:1452-1485 | Lines joined by CRLF, by LF or by CR come out as the same lines joined by one LF, or by nothing |
| `Newlines.BurstComesTo` | cgi-src/cgic.c:1464-1468 | A burst alone, in any pattern, comes out as line feeds, as many as it has of CR or of LF, and no fewer than of either |
| `Newlines.NormalisedHasNoCr` | cgi-src/cgic.c:1452-1472 | No CR is left, and no newline when they are not wanted |
| `Newlines.NormaliseShrinks` | cgi-src/cgic.c:1421-1431 | Never longer than the source |
| `Newlines.NormaliseIsIdempotent` | cgi-src/cgic.c:1452-1472 | Doing it twice is doing it once |
| `Newlines.FlushCounts` | cgi-src/cgic.c:1464-1485 | A burst comes out whole, or as far as it fits with the cut reported |
| `Newlines.CopyNormalised` | cgi-src/cgic.c:1443-1502 | A prefix of the specification; truncation exactly when it is longer |
| `Newlines.EntryString` | cgi-src/cgic.c:1433-1511 | The first max - 1 bytes and a NUL, nothing behind them touched, and the right result code |
| `Newlines.EntryStringWithRoom` | cgi-src/cgic.c:1421-1511 | With the size that is reported as needed nothing is cut |
| `Cookies.WalkIsSearch` | cgi-src/cgic.c:1700-1772 | The walk over the header finds what splitting, trimming and searching finds |
| `Cookies.WalkIsSearchIff` | cgi-src/cgic.c:1714-1722 | For all headers if and only if the name has no semicolon |
| `Cookies.PrintedCookieIsFound` | cgi-src/cgic.c:1700-1772 | In a header as browsers write it, the walk finds the value of the first cookie with the name, and nothing if there is none |
| `Cookies.EndsMalformedIff` | cgi-src/cgic.c:1714-1721 | The walk ends as malformed if and only if the name is not found and the last segment is the name alone |
| `Cookies.LookFinds` | cgi-src/cgic.c:1714-1731 | A turn takes the value exactly when the segment starts with the name and an equals sign |
| `Cookies.Follow` | cgi-src/cgic.c:1714-1721 | The longest common prefix, and whether both strings ended |
| `Cookies.CopyValue` | cgi-src/cgic.c:1722-1742 | What fits of the value and a NUL, nothing behind them touched, and truncation when the value was longer |
| `Cookies.SkipSegment` | cgi-src/cgic.c:1743-1763 | The start of the next segment, if there is one |
| `Cookies.CookieString` | cgi-src/cgic.c:1700-1772 | Result code and the whole buffer for every header, name and space, the malformed last segment included |
| `FormLists.NamesAreComplete` | cgi-src/cgic.c:2398-2456 | A name is returned if and only if some entry has it |
| `FormLists.NamesAreDistinct` | cgi-src/cgic.c:2398-2456 | None is returned twice |
| `FormLists.NamesAreInOrder` | cgi-src/cgic.c:2398-2456 | The names are in order of first occurrence |
| `FormLists.MatchesAreInOrder` | cgi-src/cgic.c:2306-2321 | Each matching entry comes behind those of the entries before it |
| `FormLists.SameStringIff` | cgi-src/cgic.c:2318 | Names are compared byte for byte, up to where both end |
| `FormLists.PickedIff` | cgi-src/cgic.c:1647-1660 | A choice is marked if and only if it is the first to equal some matching value |
| `FormLists.HitsIff` | cgi-src/cgic.c:1647-1668 | No entry counts as a hit if and only if none equals a choice, and all do if and only if each equals one |
| `FormLists.HitsAdd` | cgi-src/cgic.c:1647-1668 | Each entry counts for itself |
| `FormLists.FormList.FindNext` | cgi-src/cgic.c:2312-2321 | Returns the next match and leaves those behind it |
| `FormLists.FormList.FindFirst` | cgi-src/cgic.c:2306-2310 | Starts the enumeration of exactly the matching entries, in order |
| `FormLists.FormList.StringMultiple` | cgi-src/cgic.c:1357-1419 | All values of a field, in order, with their newlines put right and nothing cut |
| `FormLists.TextsAre` | cgi-src/cgic.c:1388-1402 | The i-th text is the normalised value of the i-th match |
| `FormLists.FormList.SelectMultiple` | cgi-src/cgic.c:1631-1669 | The marks; hits and invalid values together are the matching entries; the result code |
| `FormLists.FormList.SeenBefore` | cgi-src/cgic.c:2434-2440 | Whether an earlier entry has the name |
| `FormLists.FormList.FormEntries` | cgi-src/cgic.c:2398-2456 | The second pass fills exactly the block that the first one counted, in order of first occurrence |
| `FormLists.MatchChoice` | cgi-src/cgic.c:1649-1656 | The first choice that equals a value |
| `EnvironmentFiles.IntRoundTrip` | cgi-src/cgic.c:2012-2017 | Every 32-bit int comes back from its bytes |
| `EnvironmentFiles.ReadWrittenString` | cgi-src/cgic.c:2003-2010 | A string comes back, up to its NUL |
| `EnvironmentFiles.ReadWrittenHead` | cgi-src/cgic.c:2121-2199 | What the reader makes of an entry written with any upload |
| `EnvironmentFiles.CutUploadIsAnError` | cgi-src/cgic.c:2154-2182 | An upload that is cut short is an I/O error |
| `EnvironmentFiles.CutEntryIsAnError` | cgi-src/cgic.c:2127-2141 | An entry that ends behind its name is a memory error, as in the source |
| `EnvironmentFiles.EntryComesBackIff` | cgi-src/cgic.c:2121-2199 | An entry written with any upload comes back if and only if neither has one, or what follows the flag starts with its own |
| `EnvironmentFiles.EntryComesBack` | cgi-src/cgic.c:1949-1991 | So it comes back if and only if it was written with its own upload, unless one is the start of the other |
| `EnvironmentFiles.LongerUploadIsCut` | cgi-src/cgic.c:2154-2182 | An upload that only continues the entry's own is not noticed, and its rest is read as what follows |
| `EnvironmentFiles.LongerNamesakeIsNotNoticed` | cgi-src/cgic.c:1948-1991 | A list can come back although its last entry was written with another's upload |
| `EnvironmentFiles.EntriesComeBackIff` | cgi-src/cgic.c:1948-1991 | So does a list of them, in order |
| `EnvironmentFiles.SavedIsRead` | cgi-src/cgic.c:2023-2235 | Version, variables and content length come back, whatever becomes of the entries |
| `EnvironmentFiles.SavedBeginsWithVersion` | cgi-src/cgic.c:1882 | A saved file begins with "CGIC2.0" and its length |
| `EnvironmentFiles.OtherVersionIsRefused` | cgi-src/cgic.c:2040-2044 | Any other version gives the wrong-version result, whatever follows |
| `EnvironmentFiles.ShortFileIsAnError` | cgi-src/cgic.c:2037-2039 | A file too short for a version is an I/O error |
| `EnvironmentFiles.VariablesRoundTrip` | cgi-src/cgic.c:1885-1944 | The reader takes the variables in the order of the writer |
| `EnvironmentFiles.RestoreUndoesSaveIff` | cgi-src/cgic.c:1873-2235 | Restoring a saved environment gives the same environment if and only if opening each entry by its name gives its own upload |
| `EnvironmentFiles.DistinctNamesSuffice` | cgi-src/cgic.c:1967 | That is so for distinct names, and without uploads |
| `EnvironmentFiles.Writer.WriteString` | cgi-src/cgic.c:2003-2010 | Length, then bytes |
| `EnvironmentFiles.Writer.CopyUpload` | cgi-src/cgic.c:1974-1981 | The block-wise copy is the upload |
| `EnvironmentFiles.Writer.WriteEntry` | cgi-src/cgic.c:1949-1990 | The fields, the flag, and the upload of the first entry with the name |
| `EnvironmentFiles.Writer.WriteEntries` | cgi-src/cgic.c:1948-1991 | All entries in order |
| `EnvironmentFiles.WriteEnvironment` | cgi-src/cgic.c:1873-2001 | The file is the saved form of the environment |
| `EnvironmentFiles.Reader.ReadStringValue` | cgi-src/cgic.c:2237-2252 | A string, or failure when anything of it is missing |
| `EnvironmentFiles.Reader.TakeUpload` | cgi-src/cgic.c:2160-2182 | As many bytes as the stored length, in blocks; failure when they are not there |
| `EnvironmentFiles.Reader.ReadEntryValue` | cgi-src/cgic.c:2121-2199 | An entry, the end of the list, or the error that the missing field calls for |
| `EnvironmentFiles.Reader.ReadVariables` | cgi-src/cgic.c:2047-2107 | All variables or none |
| `EnvironmentFiles.Reader.ReadList` | cgi-src/cgic.c:2111-2207 | The entries of any file, or the error |
| `EnvironmentFiles.ReadEnvironment` | cgi-src/cgic.c:2023-2235 | The outcome for any file: wrong version, I/O error, or the environment |
| `Checksums.TwoFoldsSuffice` | test/ping1.c:1279-1281 | Two folds give the canonical one's complement value of every sum that fits an int |
| `Checksums.OnesIs` | test/ping1.c:1279-1281 | Which is the one representative modulo 0xFFFF, where zero stands for zero only |
| `Checksums.ComplementCompletes` | test/ping1.c:1281 | A sum and the complement of its value add up to all ones |
| `Checksums.SumOfParts` | test/ping1.c:1267-1270 | Sums of the parts add up, cut at an even place |
| `Checksums.ChecksumInParts` | test/ping1.c:1253-1283 | A seeded checksum continues an earlier one |
| `Checksums.PatchedChecksum` | test/ping1.c:1085-1106 | Summing only the time stamp, seeded with the complement, equals summing the final packet |
| `Checksums.ResumIsZero` | test/ping1.c:1152 | A packet with its checksum in place sums to zero |
| `Checksums.ResumIsZeroIff` | test/ping1.c:1152 | No other field value does, but for the other zero, for every packet |
| `Checksums.FoldSum` | test/ping1.c:1279-1281 | The fold of both implementations, without overflow |
| `Checksums.InCksum` | test/ping1.c:1253-1283 | The loop computes the seeded checksum, and its int does not overflow |
| `Checksums.IcmpCksum` | ping.c:122-141 | What the second implementation computes for every length, multiples of 65536 and odd bytes included |
| `Checksums.ImplementationsAgreeIff` | ping.c:122-141 | Below 65536 bytes both agree if and only if the length is even or the last byte zero |
| `Checksums.BuildProbe` | test/ping1.c:1065-1106 | The packet that leaves, whichever way the time stamp got in: fields, stamp, checksum from scratch, and nothing beyond it |
| `Checksums.FinishProbe` | test/ping1.c:1085-1106 | Stamp and sum in either order leave the stamp and the checksum of the whole, behind a header without one |
| `Checksums.ProbeFields` | test/ping1.c:1065-1106 | The packet is type 8, code 0, checksum and identifier as in memory, the number in network order, then stamp and data |
| `Checksums.StampAndSum` | test/ping1.c:1080-1106 | Stamping before the sum and patching after it leave the same packet |
| `Checksums.AddStamp` | test/ping1.c:1098-1106 | The incremental update of stamp and checksum in place |
| `Checksums.ProbesCheck` | test/ping1.c:1093-1106 | Every probe checks at the other end |
| `Checksums.FillData` | ping.c:154-155 | The data are the counting bytes |
| `Checksums.IcmpPack` | ping.c:145-157 | The packed packet, of which only `length` bytes are summed |
| `Checksums.PackedFields` | ping.c:145-157 | Its fields, all in the order of memory, and the counting data |
| `Checksums.PackedChecks` | ping.c:145-157 | It checks over the bytes that were summed, for every length that covers the field |
| `Tracking.InFlightIsExact` | test/ping_common.h:159-163 | While the tracking agrees, the number in flight is the true one |
| `Tracking.SendAgrees` | test/ping_common.h:177-183 | A send keeps the agreement within the window |
| `Tracking.AckAgrees` | test/ping_common.h:165-175 | So does an acknowledgement, in or out of order |
| `Tracking.StepAgrees` | test/ping_common.h:159-183 | So does every event |
| `Tracking.RunAgrees` | test/ping_common.h:159-183 | Over every run in the window, across any number of wraps, acked and pipesize are those of unbounded numbers |
| `Tracking.HistoryIs` | test/ping_common.h:159-183 | The unbounded numbers: the sends, the largest acknowledged number, the largest pipe |
| `Tracking.StartAgrees` | test/ping1.c:74-118 | The initial values agree |
| `Tracking.SendAgreesIff` | test/ping_common.h:177-183 | A send keeps the newest acknowledgement if and only if the gap stays within 0x7FFF or the promoted difference is negative |
| `Tracking.OverflowEmptiesThePipe` | test/ping_common.h:159-183 | Otherwise the next send makes zero in flight of 0x8001 |
| `Statistics.Tvsub` | test/ping_common.h:128-135 | The difference in microseconds, normal if the operands are |
| `Statistics.IcmpTvsub` | ping.c:214-227 | The same for the second implementation |
| `Statistics.NormalIsUnique` | ping.c:214-227 | So the two agree |
| `Statistics.NewtonStep` | test/ping1.c:828-841 | A step from above the root goes down and not below it |
| `Statistics.NewtonAtRoot` | test/ping1.c:828-841 | A step from the root stops the loop at the root of a + 1 |
| `Statistics.SumInRange` | test/ping1.c:836 | The sum in the step never leaves the type |
| `Statistics.Llsqrt` | test/ping1.c:828-841 | Terminates, never divides by zero; the root of a + 1 for 0 < a < LLONG_MAX, otherwise a |
| `Statistics.RootOfNext` | test/ping1.c:828-841 | One more than the root of a exactly in front of a square |
| `Statistics.CauchySchwarzStep` | test/ping1.c:741-742 | The square of the sum stays within n times the sum of squares |
| `Statistics.AverageStaysBetween` | test/ping1.c:747-750 | The shifted average stays between eight times any bounds of the times |
| `Statistics.TimedIsConsistent` | test/ping1.c:740-751 | One timed reply keeps the invariant of the sums |
| `Statistics.TimedSums` | test/ping1.c:740-751 | One timed reply adds its time, its square, and its share of the average, and moves the extremes |
| `Statistics.RunIsConsistent` | test/ping1.c:740-751 | So does every run, with replies too short to be timed in between |
| `Statistics.RunSums` | test/ping1.c:740-751 | Over every run, tsum and tsum2 are the sums of the times and of their squares, tmin and tmax times of the run that bound all others, and rtt starts at eight times the first time and moves by each further one less an eighth of itself |
| `Statistics.AverageFitsIff` | test/ping1.c:747-750 | Runs with times up to a limit keep the average in an int if and only if eight times the limit fits |
| `Statistics.VarianceIsNatural` | test/ping1.c:872-877 | With the truncating divisions the variance is never negative, untimed replies counted or not |
| `Statistics.Summarise` | test/ping1.c:872-877 | The mean that finish prints is the sum of the times by the replies counted, and the deviation the root of the mean of the squares less the square of the mean |
| `Statistics.TripTimeIs` | test/ping1.c:725-740 | The trip time is the reading that counts, or zero if that is negative |
| `DupTables.DupTable.Test` | test/ping_common.h:32-36 | TST answers whether the number is in the set |
| `DupTables.DupTable.Set` | test/ping_common.h:32-36 | SET adds one number and touches no other |
| `DupTables.DupTable.Clear` | test/ping_common.h:32-36 | CLR removes one number and touches no other |
| `DupTables.SetBit` | test/ping_common.h:32-36 | Or-ing a mask sets exactly its bit |
| `DupTables.ClearBit` | test/ping_common.h:32-36 | And-ing its complement clears exactly its bit |
| `DupTables.ProbeIsCredited` | test/ping1.c:1075-1078 | Preparing a probe keeps the slots exact for the last 65535, even when it is not sent |
| `DupTables.AnswerIsCredited` | test/ping1.c:757-767 | So does a reply to one of these |
| `DupTables.RunIsCredited` | test/ping1.c:715-767 | Over every run no probe is credited twice, and received, repeats and failed add up to the replies |
| `DupTables.CreditIs` | test/ping1.c:757-767 | Credited are exactly the probes that a good reply of the run names; answers and failures are counted |
| `DupTables.ReceivedAtMostSent` | test/ping1.c:757-767 | Never more received than transmitted |
| `DupTables.OlderAnswersCountTwice` | test/ping1.c:757-767 | The age of 65535 is sharp |
| `TokenBucket.NoOverflow` | test/ping1.c:493-496 | The check in setup keeps the product within an int |
| `TokenBucket.CallInBudget` | test/ping1.c:348-455 | Every call keeps tokens within the preload and the probes paid for, refunds and errors included |
| `TokenBucket.RunInBudget` | test/ping1.c:348-455 | So does every run |
| `TokenBucket.SentIsBounded` | test/ping1.c:348-455 | From the start: interval times sent, plus tokens, is within interval times preload plus the measured time, and that is within the time on the clock but for less than a millisecond an attempt |
| `TokenBucket.BurstPasses` | test/ping1.c:348-383 | As many probes as the preload pass at once, and the next has to wait for an interval |
| `TokenBucket.RefundRestores` | test/ping1.c:425-434 | After a full socket or an error that arrived, the same attempt passes again |
| `TokenBucket.ErrorsCostAll` | test/ping1.c:405-454 | After a hard error, or without buffers, the next one waits for a whole interval |
| `TokenBucket.FloodPasses` | test/ping1.c:358-383 | With an interval of zero all pass, but one in 10 ms when as many as the preload are unanswered |
| `TokenBucket.ElapsedIsNatural` | test/ping1.c:366-367 | A clock that does not go back is never measured negative |
| `TokenBucket.DelayAfterDelivery` | test/ping1.c:401 | After the delay returned by a successful send the next call passes |
| `TokenBucket.DelayAfterError` | test/ping1.c:444-454 | So does it after the delay returned by a hard error |
| `TokenBucket.BackoffIs` | test/ping1.c:405-419 | The delay after running out of buffers is half an interval, within 10 to 500 ms |
| `TokenBucket.DelayAfterWaitIff` | test/ping1.c:366-379 | After the delay returned by the rate check, by whatever margin, it passes if and only if the truncation was not unlucky |
| `TokenBucket.DelayAndOneMore` | test/ping1.c:366-379 | One millisecond more is always enough |
| `TokenBucket.UnluckyCase` | test/ping1.c:366-379 | The unlucky case occurs |
| `Accounting.AccountedAsItShouldBeIff` | test/ping1.c:1152-1160 | A reply is accounted as its checksum asks if and only if that is zero |
| `Accounting.EveryReplyIsCredited` | test/ping1.c:1152-1160 | Whatever its checksum, it is acknowledged, and credited if its slot is free |
| `Accounting.CorruptedReply` | test/ping1.c:1152 | And there are replies with a bad checksum |
| `Accounting.NoneFails` | test/ping1.c:1152-1160 | Over every run of calls and packets nchecksum stays at its start value |
| `Accounting.NeverMoreThanAsked` | test/ping1.c:354-356 | Without a deadline no run sends more probes than asked for |
| `Accounting.NoneWhenInterrupted` | test/ping1.c:354-356 | Nor any once it is interrupted |
| `Accounting.EchoIsRecognised` | test/ping1.c:1085-1160 | The probe that was built, echoed, is recognised as ours, under its number and with the time that was stamped |
| `Accounting.EchoIsAnswered` | test/ping1.c:1129-1160 | So it is behind an IP header of any legal length |
| `Accounting.ShortPacketIsNone` | test/ping1.c:1139-1147 | A packet without room for both headers, or with a header length below five words, is passed over |
| `Accounting.BegunIsSound` | test/ping1.c:74-118 | The initial state meets all invariants |
| `Accounting.TickIsSound` | test/ping1.c:348-455 | A call of pinger keeps tracking, credits, sums and budget together |
| `Accounting.ReplyIsSound` | test/ping1.c:1129-1160 | So does a received packet |
| `Accounting.RunIsSound` | test/ping1.c:572-700 | So does every run whose replies name recent probes and whose sends stay in the window |
| `Accounting.SessionIsTruthful` | test/ping1.c:572-700 | After every such session the counters tell the truth: in flight, credited, paid for; the sums, extremes and average are those of the trip times of the replies, and the variance is not negative |
| `PingSessions.Session.constructor` | test/ping1.c:70-118 | The initial values of the globals |
| `PingSessions.Session.CountInFlight` | test/ping_common.h:159-163 | The function that the tracking theorems are about |
| `PingSessions.Session.Acknowledge` | test/ping_common.h:165-175 | Updates acked and pipesize by the acknowledgement step |
| `PingSessions.Session.AdvanceNtransmitted` | test/ping_common.h:177-183 | Updates the count and acked by the send step |
| `PingSessions.Session.MeasureTrip` | test/ping1.c:721-740 | The trip time, never negative, and the one second look at the clock |
| `PingSessions.Session.AddTime` | test/ping1.c:741-751 | The sums, extremes and average move by the timing step |
| `PingSessions.Session.CountReply` | test/ping1.c:757-767 | Exactly one of the three counters ends up raised |
| `PingSessions.Session.TakeTime` | test/ping1.c:725-754 | A reply long enough is timed, and enters the sums unless it failed |
| `PingSessions.Session.TakeReply` | test/ping1.c:721-754 | Counted, acknowledged unless it failed, and timed |
| `PingSessions.Session.GatherStatistics` | test/ping1.c:715-767 | The whole state after a reply, failed, short, repeated or new, is that of the specification |
| `PingSessions.Session.ParseReply` | test/ping1.c:1129-1160 | Packets that are too short or not for us change nothing; an echo reply is gathered with zero for its checksum |
| `PingSessions.Session.ClearNextSlot` | test/ping1.c:1078 | The slot of the next number is free before it is sent |
| `PingSessions.Session.CheckRate` | test/ping1.c:358-383 | The rate check, the flood case included |
| `PingSessions.Session.AfterSending` | test/ping1.c:388-454 | State and delay after every outcome of an attempt |
| `PingSessions.Session.ClearForAttempts` | test/ping1.c:385-443 | Resending clears the same slot again |
| `PingSessions.Session.Pinger` | test/ping1.c:348-455 | The whole state and the delay after a call: done, held back, waiting, or an attempt with resends |
| `PingSessions.Session.Play` | test/ping1.c:597-700 | The calls of the main loop, in any order, are the run that the theorems speak of |
| `PingSessions.SettleSends` | test/ping1.c:388-454 | A call counts at most one probe, and which outcomes count |
| `PingSessions.GoodRepliesAreCounted` | test/ping1.c:757-767 | Received and repeats together are the replies with a good checksum, over every run |
| `PingSessions.FinishIsSound` | test/ping1.c:872-877 | Over every run from the start, counters and sums together: the sums are those of the times taken, the variance is not negative, and the average is within eight times the extremes |

## Left out

- MpStream: bytes are handed over as sequences, so a read into the middle of a caller's buffer is not modelled; nor are read errors.
- Tvsub: returns the difference instead of writing it through its pointer.
- Summarise: asks that the sum of squares fits its 64-bit type; the overflow of the sums is not modelled.
- IcmpPack: asks for fewer than 256 data bytes, since the loop counter of the source is a byte and the loop does not end for more.
- RestoreUndoesSaveIff: is stated for uploads whose stored length is their size, and for lists in which the upload written for an entry is not a proper start of the entry's own, nor the other way round; `EnvironmentFiles.LongerNamesakeIsNotNoticed` shows that the equivalence fails without that. Single entries are covered by `EnvironmentFiles.EntryComesBackIff`, for all uploads.
- ReadString: a negative length in a saved environment is a failure to read. That is what the source comes to as well, since it asks malloc for such a block, but for a length of -1 it first overruns a block of no bytes.
- Session: `rtt`, `tsum`, `tsum2` and the counters are unbounded; `Statistics.AverageFitsIff` says when `rtt` fits. The fatal-error abort, the adaptive mode (`update_interval`, `rtt_addend`), `receive_error_msg` and all output are not modelled.
- ParseReply: the error messages that reach `parse_reply` (`test/ping1.c:1161-1240`), which acknowledge a probe and raise `nerrors`, are not modelled; packets are shorter than 65536 bytes.
- Play: when the main loop ends, waits or polls is left to the order of the inputs.
- Lengths of bodies, buffers and strings are unbounded; a negative declared length, and an `outSpace` beyond an int, are not modelled.
- A `char` is an unsigned byte, and a machine is little-endian with 32-bit ints and a 16-byte struct timeval; what `isspace` or the table of hexadecimal digits do with a negative `char` is not modelled.
- The `next` links of the entry list are the order of a sequence, and the twenty variables of the environment are written and read in a loop over their order.
- Out-of-memory paths, temporary file names, closing and deleting files, and the release of resources: uploads are byte sequences held in memory.
- `cgiCookies`, HTML and value escaping, numeric and radio queries, header output: they would add easy members.
- Sockets, signals, the main loop, option parsing, the packet filter and the printing of packets in the ping programs.
- `web.c`, `message.c`, `cfgMgr.c`, `trace.c` and `share.c`: message queues, system calls, SQL and XML libraries.
