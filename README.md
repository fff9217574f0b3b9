# WoCo word-count server and client, modelled in Dafny

WoCo is a small client/server benchmark. Clients send HTML-ish documents over TCP.
Each document ends with the separator character `$`. For every completed document
the server builds a word-count table. It can first strip the markup ("cleaning mode").
The table is sent back as one line of `word,count,` entries. The server also keeps
per-client latency samples and prints percentiles of them when it shuts down.

The project models:

- **the server object** (`Server.WoCoServer`, a class whose fields are the Java
  maps): receiving chunks, cutting documents at the first `$`, assigning lanes
  round-robin in multi-threaded mode, counting, serialising, resetting. Each method
  is specified by a function on the value of all the maps (`ServerState`). Lemmas
  show what receiveData keeps and changes.
- **doWordCount** (`WordCount`): the character filter, the split on spaces and the
  count update. The words are shown to be the line's space-separated pieces reduced to
  their case-folded letters, and the result is stated as "every word counted once per
  occurrence".
- **cleanDocument** (`HtmlClean`): the one-pass tag-stripping scan, as a step
  function with the method's loop proved against it.
- **the wire format** (`Wire`, `Framing`): framing of chunks into documents, and the
  rendering of a table.
- **the client** (`Client`): generateDocument's slicing of the reference text with
  Java int wrap-around and remainder, and getWordCount's parse. It includes the
  round trip server-render → readLine → parse.
- **the statistics helpers** (`Utils`): mergeClients, and printPercentiles' sort and
  index selection. The printed lines are returned as `(p, value)` pairs.
- **Java semantics** (`JavaText`): `String.trim`, `String.split`, `replace`,
  `Integer.toString`/`parseInt` (ASCII digits only), int wrap-around, truncating `/` and `%`.

Two behaviours of the Java code are easy to misread:

- cleanDocument never flushes the text seen before the first tag character at the end
  of the input. That text reaches the output only when a `<` is read first
  (`HtmlClean.TagFreeTextCleansToEmpty`, `HtmlClean.PrefixDroppedByCloseFirst`).
- printPercentiles reads index `size*p/100 - 1`. While `size*p` does not overflow it
  is non-negative, so the truncating division is the floor and the index is
  ⌊p·n/100⌋ − 1 for n samples. The nearest-rank method reads ⌈p·n/100⌉ − 1; the two
  differ whenever 100 does not divide p·n. Above 21474836 samples `size*p` can wrap
  negative (`Utils.OverflowIndex`).

## Model

| member | source | states |
|---|---|---|
| WordCount.Filter | src/org/master/eit/WoCoServer.java:47-62 | the filtered line holds only a-z and single spaces, never starts with a space |
| WordCount.FilterKeepsLetters | src/org/master/eit/WoCoServer.java:47-62 | the filter keeps exactly the input's letters, case-folded, in order |
| WordCount.FilterLine | src/org/master/eit/WoCoServer.java:47-62 | the character loop with its last-kept-character variable computes the filter |
| WordCount.FilteredWords | src/org/master/eit/WoCoServer.java:43-79 | with cleaning off at least one word is counted; it is `""` exactly when nothing survives the filter, otherwise every word is a non-empty a-z word; the words together are the line's folded letters |
| WordCount.Restart | src/org/master/eit/WoCoServer.java:47-62 | after text whose filtered form is empty or ends with a space, the filter starts afresh: the filter of a concatenation is the concatenation of the filters |
| WordCount.SpaceSeparates | src/org/master/eit/WoCoServer.java:47-62 | a space right after a kept letter is kept and separates: the filter of `a + " " + b` is the filter of `a`, a space, and the filter of `b` |
| WordCount.FilterNoSpace | src/org/master/eit/WoCoServer.java:47-62 | text without spaces filters to its case-folded letters |
| WordCount.FoldedOfLower | src/org/master/eit/WoCoServer.java:50-62 | case folding leaves a lower-case word unchanged |
| WordCount.FoldedWords | src/org/master/eit/WoCoServer.java:47-70 | the case-folded letters of each space-separated piece, pieces without a letter left out, are a-z words |
| WordCount.FilteredWordsArePieces | src/org/master/eit/WoCoServer.java:43-79 | with cleaning off, the counted words are the line's space-separated pieces reduced to their case-folded letters, the pieces holding no letter left out; a line without a letter gives the single word `""` |
| WordCount.SplitAfterWord | src/org/master/eit/WoCoServer.java:70 | splitting a word, a space and filtered text gives the word followed by the text's words |
| WordCount.DropTrailingEmptyCons | src/org/master/eit/WoCoServer.java:70 | `split` drops trailing empty pieces without touching a leading one when a non-empty piece follows it |
| WordCount.CountExample | src/org/master/eit/WoCoServer.java:43-79 | "The cat sat. The dog ran." counted into an empty table gives the=2, cat=1, sat=1, dog=1, ran=1 |
| WordCount.WordTextTokens | src/org/master/eit/WoCoServer.java:70 | splitting text of letters and single spaces gives non-empty words (or `[""]` for empty text) whose concatenation is the text's letters |
| WordCount.CountWords | src/org/master/eit/WoCoServer.java:71-78 | each count grows by the word's number of occurrences; new words start from 0; no other key appears or changes |
| WordCount.DoWordCount | src/org/master/eit/WoCoServer.java:43-79 | the table after doWordCount is the old one with every word of the (filtered, split) line counted |
| HtmlClean.CleanDocument | src/org/master/eit/WoCoServer.java:87-141 | the loop computes the scan's trimmed output; the result holds only a-z and single spaces, with no space at either end |
| HtmlClean.RunConsistent | src/org/master/eit/WoCoServer.java:104-129 | every iteration keeps output and prefix made of letters and single spaces, the output empty and the depth 0 until the first tag character, and the last kept character equal to the last one written |
| HtmlClean.CleanIsWordText | src/org/master/eit/WoCoServer.java:87-141 | what cleanDocument returns is letters and single spaces, trimmed |
| HtmlClean.UnclosedTagSuppressesOutput | src/org/master/eit/WoCoServer.java:108-128 | after an open `<`, nothing reaches the output until a `>` is read |
| HtmlClean.DepthFollowsTagCharacters | src/org/master/eit/WoCoServer.java:108-118 | the tag depth after a suffix depends only on the depth before it |
| HtmlClean.StrayCloseIgnored | src/org/master/eit/WoCoServer.java:114-118 | a `>` at depth 0 leaves the depth at 0 (the empty stack is not popped) |
| HtmlClean.TagFreeTextStaysInPrefix | src/org/master/eit/WoCoServer.java:119-128 | without `<` or `>` everything kept goes into the beginning prefix and nothing into the output |
| HtmlClean.TagFreeTextCleansToEmpty | src/org/master/eit/WoCoServer.java:87-141 | a document without tag characters cleans to the empty text (the prefix is never flushed at the end) |
| HtmlClean.OutputGrows | src/org/master/eit/WoCoServer.java:104-129 | the scan only appends to its output |
| HtmlClean.FlushOnOpen | src/org/master/eit/WoCoServer.java:108-113 | a `<` read before any other tag character flushes the filtered prefix into the output |
| HtmlClean.PrefixFlushedByOpenTag | src/org/master/eit/WoCoServer.java:108-113 | the trimmed prefix flushed by the first `<` is a prefix of the final result |
| HtmlClean.PrefixDroppedByCloseFirst | src/org/master/eit/WoCoServer.java:114-118 | when `>` is the first tag character, the text before it is lost |
| HtmlClean.RunAgreeAfterTrim | src/org/master/eit/WoCoServer.java:104-129 | two scans that agree on depth and mode, whose outputs trim alike and stay alike under appending (they may differ by a leading space, and in the last kept character while both outputs are empty), stay related so on any suffix; used to show that text before a first `>` is lost |
| Wire.SerializeTable | src/org/master/eit/WoCoServer.java:348-355 | the reply is `key,count,` for every key of the table, each exactly once, in some enumeration order, then a newline |
| Wire.RenderPieces | src/org/master/eit/WoCoServer.java:350-353 | the rendering cut at commas is the fields key, count, key, count, … and one empty trailing piece |
| Wire.SplitRender | src/org/master/eit/WoCoServer.java:350-353 | Java's split on `,` of a non-empty rendering gives back exactly the fields |
| Wire.RenderAvoids | src/org/master/eit/WoCoServer.java:350-353 | a character that no key holds and that is not a comma, digit or `-` never appears in the rendering before the final newline |
| Framing.Extract | src/org/master/eit/WoCoServer.java:222-254 | a document is complete iff the chunk holds `$`; the buffer is then split at its first `$` into a `$`-free document and the rest |
| Framing.FirstSeparatorUnique | src/org/master/eit/WoCoServer.java:230-236 | the split at the first separator is unique |
| Framing.FragmentationIndependent | src/org/master/eit/WoCoServer.java:222-254 | however a `$`-free document plus `$` is cut into chunks, exactly that document (after the old buffer) is completed and the buffer ends empty |
| Lanes.AssignKeeps | src/org/master/eit/WoCoServer.java:268-277 | assignment keeps every lane and the cursor in range and never moves an assigned client |
| Lanes.LaneSticky | src/org/master/eit/WoCoServer.java:268-277 | a client's lane never changes once assigned |
| Lanes.AssignAllInRange | src/org/master/eit/WoCoServer.java:268-277 | after any number of documents every lane and the cursor stay in `[0, threadCount)` |
| Lanes.RotateIsModular | src/org/master/eit/WoCoServer.java:272-276 | handing out k lanes moves the cursor k places modulo threadCount |
| Lanes.RoundRobin | src/org/master/eit/WoCoServer.java:268-277 | the i-th new client gets the lane i places after the cursor |
| Server.DocumentWordsAreKeys | src/org/master/eit/WoCoServer.java:258-321 | every document yields at least one word, each a non-empty a-z word or the empty word |
| Server.ProcessDocument | src/org/master/eit/WoCoServer.java:278-321 | the lane's work (clean in cleaning mode, then count) counts the document's words into the table, which stays a non-empty word table |
| Server.InitialConsistent | src/org/master/eit/WoCoServer.java:146-167 | a new server satisfies the relations between its maps |
| Server.ReceiveConsistent | src/org/master/eit/WoCoServer.java:202-329 | receiveData keeps those relations whatever chunk arrives |
| Server.ReceiveFrames | src/org/master/eit/WoCoServer.java:222-254 | a chunk without `$` is appended; with `$` the document is cut at the first separator, the rest stays, and the start time survives iff the rest is non-empty |
| Server.ReceiveSamples | src/org/master/eit/WoCoServer.java:202-329 | each completed document appends exactly one receive, clean and count sample (and in multi-threaded mode one serialisation sample); earlier samples are kept |
| Server.ReceiveLanes | src/org/master/eit/WoCoServer.java:268-277 | in multi-threaded mode a completing client keeps its lane or gets the cursor's lane, and the cursor advances modulo threadCount |
| Server.ReceiveTable | src/org/master/eit/WoCoServer.java:258-321 | single-threaded: the counted table waits for the main loop; multi-threaded: the lane has already serialised and removed it |
| Server.ReceiveIsolatesClients | src/org/master/eit/WoCoServer.java:202-329 | receiveData changes nothing that belongs to another client |
| Server.SerializeOnce | src/org/master/eit/WoCoServer.java:339-370 | serialising removes the table, so serialising again changes nothing |
| Server.WoCoServer.constructor | src/org/master/eit/WoCoServer.java:146-167 | a new server has no clients and the lane cursor at 0 |
| Server.WoCoServer.ResetServer | src/org/master/eit/WoCoServer.java:174-190 | every map is emptied and the cursor reset, keeping the relations; the reply is "Server reset" |
| Server.WoCoServer.NoteReadStart | src/org/master/eit/WoCoServer.java:490-492 | the first chunk's arrival time is recorded once per document |
| Server.WoCoServer.SerializeResultForClient | src/org/master/eit/WoCoServer.java:339-370 | with a table: its rendering plus newline, the table removed, one serialisation sample added; without: `""` and no change |
| Server.WoCoServer.ReceiveData | src/org/master/eit/WoCoServer.java:202-329 | returns true iff the chunk holds `$`; the client's table then counts the completed document's words; in multi-threaded mode the reply is the serialised table; the new state is `AfterReceive` of the old; the ghost `anomaly` holds exactly when text follows the first `$` of the buffer, the case the Java code reports as unexpected |
| Server.WoCoServer.Intake | src/org/master/eit/WoCoServer.java:204-222 | first contact creates the client's receive list, table and buffer; the chunk is appended to the buffer; nothing else changes |
| Server.WoCoServer.RecordWork | src/org/master/eit/WoCoServer.java:258-321 | the counted table is stored for the client, and one clean and one count sample appended (the lists created on the client's first document); nothing else changes |
| Server.WoCoServer.CompleteDocument | src/org/master/eit/WoCoServer.java:230-321 | the buffer is split at its first `$`, the document's words are counted into the client's table, and the samples and lane are recorded |
| Server.WoCoServer.TakeDocument | src/org/master/eit/WoCoServer.java:226-254 | records the receive sample and leaves the rest after the first `$` in the buffer; the start time is dropped when nothing follows |
| Server.WoCoServer.AssignLane | src/org/master/eit/WoCoServer.java:268-277 | a client without a lane gets the cursor's lane and the cursor advances, wrapping to 0 |
| Client.BuildReference | src/org/master/eit/WoCoClient.java:44-46 | the reading loop builds every line trimmed and followed by a space |
| Client.ReferenceLength | src/org/master/eit/WoCoClient.java:44-46 | the reference is empty exactly when the file is, and otherwise ends with a space |
| Client.Slice | src/org/master/eit/WoCoClient.java:52-57 | the slicing loop: fails on an empty reference once a character is needed, or at the first position whose index is negative; otherwise position i holds the reference character at the wrapped, Java-remainder index |
| Client.GenerateDocument | src/org/master/eit/WoCoClient.java:37-62 | fails on a negative length, on an empty reference, or at the first negative index; otherwise `length` characters read round the reference from `seed` with int wrap-around and Java remainder, with `$` replaced by `.` |
| Client.SlicingWithoutOverflow | src/org/master/eit/WoCoClient.java:55-57 | without overflow, position i reads reference position (i + seed) mod n |
| Client.OverflowFails | src/org/master/eit/WoCoClient.java:55-57 | when i + seed overflows an int, the sum wraps negative and the index is at most 0; it is negative (and generateDocument throws there) exactly when the reference length does not divide 2^32 - i - seed |
| Client.ReadLine | src/org/master/eit/WoCoClient.java:104 | readLine gives null at end of stream, otherwise the text before the first line terminator |
| Client.GetWordCount | src/org/master/eit/WoCoClient.java:119-136 | the parsing loop computes the pairwise parse of the split reply |
| Client.ParseSucceeds | src/org/master/eit/WoCoClient.java:128-131 | the parse succeeds iff there is an even number of parts and every second part is an int |
| Client.ParseLastPairWins | src/org/master/eit/WoCoClient.java:129-131 | a later pair for the same word overwrites an earlier one |
| Client.ReplyRoundTrip | src/org/master/eit/WoCoClient.java:119-136 | a rendered non-empty table, read as a line and parsed, gives back the table in any order |
| Client.ServerReplyRoundTrip | src/org/master/eit/WoCoClient.java:119-136 | the same for the word tables the server builds, provided counts fit in an int |
| Client.EmptyReplyFails | src/org/master/eit/WoCoClient.java:128-131 | the reply for an empty table (a bare newline) makes getWordCount throw |
| Utils.MergeClients | src/org/master/eit/Utils.java:61-69 | the output is every client's list, in key-set order, one after another |
| Utils.MergeLength | src/org/master/eit/Utils.java:61-69 | the merged list is as long as all lists together |
| Utils.MergeBlocks | src/org/master/eit/Utils.java:64-66 | each client's list appears whole and in order |
| Utils.MergeOrderIrrelevant | src/org/master/eit/Utils.java:64-66 | any two iteration orders of the key set merge to the same multiset of samples |
| Utils.Sort | src/org/master/eit/Utils.java:72 | the samples end sorted and are a permutation of the input |
| Utils.Product32IsWrappedProduct | src/org/master/eit/Utils.java:77 | `times.size()*p` is the product wrapped to 32 bits |
| Utils.PrintPercentiles | src/org/master/eit/Utils.java:71-83 | sorts in place (sorted permutation) and returns what the percentile loop prints on the sorted samples |
| Utils.ReadPercentiles | src/org/master/eit/Utils.java:76-81 | the loop over p = 1..100 gives the lines of `Percentiles`, or the first out-of-range index |
| Utils.OverflowAtHundred | src/org/master/eit/Utils.java:76-81 | with 21474837 samples size*100 overflows: p = 100 reads index -21474836 and printPercentiles throws there |
| Utils.IndicesInRange | src/org/master/eit/Utils.java:77 | for any list size up to `Integer.MAX_VALUE`, every index is in range for p = 1..100 iff there are at least 100 and at most 21474836 samples; with fewer than 100, p = 1 reads index -1 |
| Utils.OverflowIndex | src/org/master/eit/Utils.java:77 | above 21474836 samples some p up to 100 makes `size*p` wrap to a negative int and reads a negative index |
| Utils.OutOfRangeFails | src/org/master/eit/Utils.java:76-81 | an out-of-range index at any p makes the loop end with the exception |
| Utils.PercentilesComplete | src/org/master/eit/Utils.java:71-83 | for any list size up to `Integer.MAX_VALUE`, printPercentiles completes iff there are at least 100 and at most 21474836 samples, and then prints 100 lines |
| Utils.FirstFailure | src/org/master/eit/Utils.java:76-81 | when the indices for every percentile from `from` up to p - 1 are in range and the index for p is not, the output from `from` on ends with the exception for p and its index |
| Utils.FailsAt | src/org/master/eit/Utils.java:76-81 | after printed lines that are right for the percentiles before it, a percentile whose index is out of range ends the output with its exception |
| Utils.ReportedSample | src/org/master/eit/Utils.java:77 | line k+1 reports the sample at index size*(k+1)/100 - 1 |
| Utils.IndexMonotone | src/org/master/eit/Utils.java:77 | for at most 21474836 samples, the index never decreases as p grows |
| Utils.ReportedNonDecreasing | src/org/master/eit/Utils.java:71-83 | on sorted samples the reported values never decrease |
| Utils.HundredthIsMaximum | src/org/master/eit/Utils.java:71-83 | on sorted samples p = 100 reports the largest sample |
| Utils.OneToHundred | src/org/master/eit/Utils.java:71-83 | for samples 1..100 the value reported for p is p |
| JavaText.JoinPieces | src/org/master/eit/WoCoServer.java:70 | cutting at a character loses nothing: joining the pieces, before `split` drops the trailing empty ones, gives the text back |
| JavaText.PiecesOfJoin | src/org/master/eit/WoCoServer.java:70 | joining separator-free parts and cutting at the separator gives the parts back |
| JavaText.JavaSplit | src/org/master/eit/WoCoServer.java:70 | `String.split` on one character: no element holds the separator; without a separator the whole text is the only element; otherwise the elements are the leading pieces between separators, the dropped ones all empty and the last kept one non-empty |
| JavaText.ParseShowInt | src/org/master/eit/WoCoClient.java:130 | `Integer.parseInt` reads back what `Integer.toString` wrote, for every 32-bit value |
| JavaText.AddIntIsWrapped | src/org/master/eit/WoCoClient.java:56 | Java's int `+` is the sum wrapped to 32 bits |
| JavaText.JavaRem | src/org/master/eit/WoCoClient.java:56 | Java's `%` takes the sign of the dividend and satisfies a = (a/b)*b + a%b |

## Left out

- Sockets, the selector loop, the executors and their threads: the lanes' work runs synchronously inside `ReceiveData`, in the same order, and the reply is returned instead of written to the socket.
- Clock readings (`System.nanoTime`) are parameters; the samples are `real` rather than `Float`, so float rounding is not modelled.
- WordCount.Filter: `toLowerCase` (WoCoServer.java lines 50 and 98) is locale-sensitive and maps all of Unicode, sometimes changing the length of the text; the model folds ASCII A-Z only, which is what decides the kept characters for ASCII input.
- WordCount.CountWords: counts are unbounded integers; the 32-bit overflow of a count after 2^31 - 1 occurrences is not modelled.
- Server.WoCoServer.ReceiveData: when text follows the first separator, the Java code prints it, blocks on `System.in.read()` until the console delivers a byte, and prints "this actually never happens"; when a document is empty it prints the buffer after "SEP@". The model keeps the rest in the buffer without waiting and without printing; the ghost `anomaly` result marks the blocking case.
- The prints: the several-documents message and the DEBUG prints of the server (DEBUG is false) are left out. The lines printPercentiles prints are returned as a list when the loop completes; when it throws, the result carries only the failing p and index, and the p - 1 lines already printed before the exception are not part of it.
- Client.GenerateDocument: the file `input.html` is read through a BufferedReader; its lines are a parameter, and an I/O failure is not modelled.
- Client.GenerateDocument: Java strings are sequences of UTF-16 code units, while a Dafny `char` is a Unicode scalar value; `length()` and `charAt` differ from the model when the file holds characters outside the Basic Multilingual Plane.
- JavaText.ParseInt: `Integer.parseInt` accepts any Unicode decimal digit (through `Character.digit`); the model accepts ASCII digits only, so Client.GetWordCount fails with `BadCount` on a count such as `١٢` that Java reads as 12.
- Client.GetWordCount: the client's DEBUG is the constant true, so the branch that returns an empty map is not modelled; sending the document is left out and the reply line is a parameter.
- HashMap iteration order is unspecified: serialisation is stated for some enumeration of the keys (a ghost out-parameter), and `Utils.MergeClients` takes the key-set order as a parameter.
- Utils.Sort: `Collections.sort` is modelled by an insertion sort with the same result; the ordering of NaN and -0.0 among `Float`s is not modelled.
- calculateAverage, calculateStd, printAllStats, printStats and the main loop are not modelled; the main loop's recording of the read start is `NoteReadStart`, and its duty is the precondition of `ReceiveData` for a chunk holding `$`.
- Utils.ReadPercentiles: list sizes are bounded by `Integer.MAX_VALUE`; the lemmas about the printed values (ReportedSample, ReportedNonDecreasing, HundredthIsMaximum) require at most 21474836 samples (`MAX_EXACT_SIZE`), below which `size*p` cannot overflow; above it the output fails (`Utils.PercentilesComplete`).
- Utils.IndexMonotone: holds only for at most 21474836 samples; above that the index drops below 0 at the first p whose product overflows, so it is not monotone there.
- Multi-threaded mode: the lane mutates the shared table after receiveData has returned; since the model runs the lane at once, interleavings with later chunks of the same client are not modelled.
