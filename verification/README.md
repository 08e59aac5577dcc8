# EasyNews: verified models

EasyNews is a Usenet reader. This project models its yEnc codec, its grouping of multipart articles, its NNTP
reader with the commands that drive it, its article store, and the algorithms of the vendored Realm library whose
bodies are visible, and proves what they are for.

| module | what it is about |
|---|---|
| `YEncCodec`, `YEncText`, `YEncFile`, `YEncSpelling`, `YEnc` | the codec: bytes and lines; lines, patterns and numerals; the framed file; files of other encoders; the object with its loops |
| `Counters`, `CounterTexts` | the `(n/m)` counter of a multipart subject; counters, numbers and blanks as texts |
| `Articles`, `ArticlesOrder`, `ArticlesTypes`, `ArticlesTable` | the grouping index: the state machine; what it means over whole runs; what its rows show; the objects |
| `NewsText`, `NewsModel`, `NewsConnection` | the reader: text operations; the state machine; the object |
| `NewsSafety`, `NewsAnswers`, `NewsStream`, `NewsBlock` | the reader over whole runs: safety; what each status brings about; reads and events; the lines of a data block |
| `NewsListGroup`, `NewsListRun`, `NewsListStart`, `NewsGroups` | article lists: what the reads show; what the command is told; the first read; the list of groups |
| `NewsConservation`, `NewsArticle`, `NewsHeads`, `NewsHeader` | article text; one article; the HEAD loop; header maps |
| `RealmIndexSet`, `RealmList`, `RealmObjects`, `RealmCreate`, `RealmTimestamp` | Realm: index iterators; lists; create or update; what a call comes to; dates |
| `Store`, `StoreFields` | find-or-create and the write transactions; what the records hold |
| `Wrappers` | a value that may be absent |

Code that changes state step by step is modelled by classes and loops, each proved equal to a step or a function on
values; the laws are proved about those. `dafny verify dfyconfig.toml` checks everything.

## What the code does, where that may surprise

- The trailer's size is the constant 312860 whatever the file (`y_enc.rb:40`); the decoder never reads it. An empty
  file has no size text at all.
- A correct checksum written with a leading zero, as other encoders do, never passes (`YEncFile.HexTextPassesIff`,
  `YEncFile.PaddedChecksumFails`).
- A name with a line feed is cut there (`YEncFile.NameSurvivesIff`).
- After LF has become CR LF in transit a file decodes to the same bytes, but under its name followed by CR
  (`YEncFile.NameGetsCr`).
- An article that joined a row is not remembered by its id, so adding it again adds a second child
  (`ArticlesOrder.RepeatAddsAgain`, `ArticlesOrder.SecondPartTwice`). Ids and stripped subjects share one dictionary:
  the laws about runs assume that no id is the stripped subject of an article, and that an id's subject does not
  change once it is not blank.
- A subject with a round and a square counter has a key but the number 0 (`Counters.TitleIsKeyIff`), so the parts of
  such a row are not put in order (`Counters.PartsWithoutOrder`). A square counter alone has the number 0 too
  (`Counters.NumberOfCounter`).
- A read of half a line without a line end is taken for a line (`NewsListGroup.HalfANumber`). Text after a status line
  in the same read is dropped (`NewsListStart.RestOfReadIsDropped`), and with it the start of a list
  (`NewsListStart.FirstReadIff`).
- A leftover that is a lone dot ends the operation: an article whose closing dot comes in one event, behind a line end,
  and the dot's line end in the next is lost (`NewsArticle.LateEndLosesArticle`). Article text that is left over and
  looks like a status line is cleared (`NewsConservation.StatusTextIsLost`), so an article with the line `211 people`
  can come with an empty line instead (`NewsArticle.PeopleAreLost`).
- A group named `211` is lost when an event leaves its line over (`NewsGroups.Group211IsLost`,
  `NewsGroups.GroupsComeBackIff`).
- A delegate that asks for another list inside a notice is told the lines of the same read as that list
  (`NewsAnswers.NextOperationTakesRead`).
- Headers are counted by reads, not by responses (`NewsHeads.SplitResponseShifts`, `NewsHeads.AttributedIff`).
- Each article of a batch of ids is entered in its group twice (`Store.BatchEntersTwice`); two records with one id
  would never be found again (`Store.DuplicatesMultiply`), but no transaction makes them (`Store.UniqueIff`,
  `Store.EveryRunKeepsStore`).
- The low clamp of timestamps subtracts a constant that it should add (`RealmTimestamp.DateIsKeptIff`).
- An index iterator equals every other iterator in its range, and no others (`RealmIndexSet.EqualityIgnoresOffset`).

## Model

| member | source | states |
|---|---|---|
| `YEncFile.RoundTrip` | `tools/yenc-master/lib/y_enc.rb:21-119` | For every file, every checksum and every name without a line feed, decoding the written file gives the name, the decimal size (of a file that is not empty), the upper-case checksum text and exactly the original bytes, and the decoder has stopped at the end marker. |
| `YEncFile.NameSurvivesIff` | `tools/yenc-master/lib/y_enc.rb:144-149` | The name comes back if and only if it holds no line feed. |
| `YEncFile.ChecksumPassesIff` | `tools/yenc-master/lib/y_enc.rb:122-142` | With the encoder's own trailer the check passes if and only if the two checksums are equal: hexadecimal text, upper-casing, lower-casing and stripping lose nothing. |
| `YEncFile.ChecksumMatchesIff` | `tools/yenc-master/lib/y_enc.rb:122-131` | Which checksum texts pass, whoever wrote them: apart from case and blanks around, exactly the hexadecimal texts of the right value that have no leading zero. |
| `YEncFile.HexTextPassesIff` | `tools/yenc-master/lib/y_enc.rb:122-131` | A text of hexadecimal digits, in either case, passes if and only if its value is the checksum and it does not start with a zero (unless it is one digit). |
| `YEncFile.PaddedChecksumFails` | `tools/yenc-master/lib/y_enc.rb:122-131` | The input that shows it: `06B9DF6F`, the CRC-32 of the one-byte file `c`, has the right value and is rejected. |
| `YEncFile.LeadingLinesIgnored` | `tools/yenc-master/lib/y_enc.rb:73-112` | Lines before the header that do not start with `=ybegin` change nothing. |
| `YEncFile.TrailingTextIgnored` | `tools/yenc-master/lib/y_enc.rb:76-80` | Nothing after the end line is looked at. |
| `YEncFile.LineEndsDoNotMatter` | `tools/yenc-master/lib/y_enc.rb:73-118` | Replacing every LF by CR LF, in any file at all, leaves the decoded bytes, the size and the outcome unchanged; name and checksum text gain at most one CR. |
| `YEncFile.NameGetsCr` | `tools/yenc-master/lib/y_enc.rb:144-149` | For the encoder's own file the name always gains the CR: the copy is written to that file, with the original bytes. |
| `YEncFile.ChecksumIgnoresCr` | `tools/yenc-master/lib/y_enc.rb:122-125` | That CR does not reach the checksum test. |
| `YEncFile.HeaderFields` | `tools/yenc-master/lib/y_enc.rb:144-149` | The leftmost-match patterns find the name, the size and the line length in the header the encoder writes, although the name may hold any of the other keys. |
| `YEncFile.TrailerField` | `tools/yenc-master/lib/y_enc.rb:140-142` | The pattern finds the checksum text in the trailer, and the trailer starts with the end marker. |
| `YEncCodec.DataLineIsNoMarker` | `tools/yenc-master/lib/y_enc.rb:76-108` | Framing: no encoded data line starts with `=yend` or `=ybegin`, whatever follows it. |
| `YEncCodec.EncodedLineShape` | `tools/yenc-master/lib/y_enc.rb:29-36` | Bytes 0, 10 and 13 never occur in an encoded line, every escape is followed, on the same line, by one of 64, 74, 77 and 125. |
| `YEncCodec.DecodeEncodedLine` | `tools/yenc-master/lib/y_enc.rb:85-105` | A line decodes to exactly the bytes it was made from; no escape pair straddles a line end. |
| `YEncCodec.EncodedBodyLength` | `tools/yenc-master/lib/y_enc.rb:26-38` | The body's length is n, plus the number of bytes among 19, 214, 224 and 227, plus n/128 rounded up. |
| `YEncFile.BodyLines` | `tools/yenc-master/lib/y_enc.rb:26-38` | The lines of the body are exactly the encoded blocks that the file is cut into, each with its line end, and line i decodes to block i. |
| `YEncFile.BodyLinesDecode` | `tools/yenc-master/lib/y_enc.rb:26-38` | Every line of the body but the last decodes to exactly 128 bytes, the last to the bytes that are left, and together they decode to the file. |
| `YEncFile.BodyBytes` | `tools/yenc-master/lib/y_enc.rb:29-38` | In the whole body 0 and 13 do not occur, and 10 occurs exactly as the last byte of each line. |
| `YEncCodec.BlocksPartition` | `tools/yenc-master/lib/y_enc.rb:26-29` | These blocks join to the file; all but the last hold exactly 128 source bytes. |
| `YEnc.BasenameIsLastPart` | `tools/yenc-master/lib/y_enc.rb:23` | The name written is what comes after the last slash of the path, or the whole path. |
| `YEnc.Coder.EncodeToFile` | `tools/yenc-master/lib/y_enc.rb:21-42` | The loops write the framed file of the laws above and touch no other file. |
| `YEnc.Coder.Encode` | `tools/yenc-master/lib/y_enc.rb:46-66` | The second encoder, with loops of its own, returns the very body that the first one frames. |
| `YEnc.Coder.DecodeInto` | `tools/yenc-master/lib/y_enc.rb:85-105` | The loop over one line, with its escape flag, appends to the open file exactly the bytes that the line spells (`YEncSpelling.EveryLineIsSpelled`) and leaves all others alone. |
| `YEnc.Coder.BreakdownHeader` | `tools/yenc-master/lib/y_enc.rb:144-149` | Fields are set only while nil; a header without a known name raises; otherwise an empty output file is opened. |
| `YEnc.Coder.Decode` | `tools/yenc-master/lib/y_enc.rb:68-119` | The line loop gives, for every input file and every state of the fields, the state and the outcome of the file-level decoder that the laws above and the spellings below are about, and leaves the input alone. |
| `YEnc.Coder.PassCrc32` | `tools/yenc-master/lib/y_enc.rb:122-125` | Passes exactly when the file's checksum text equals the trailer's; raises when a name, a file or a checksum is missing. |
| `YEnc.Transfer` | `tools/yenc-master/lib/y_enc.rb:21-125` | Encoder, decoder and check run one after the other on one disk: nothing raises, the copy equals the original and the check passes. |
| `YEncSpelling.PlainCode` | `tools/yenc-master/lib/y_enc.rb:85-105` | Every byte b may be written as the code b + 42, unless that is a line end or the escape: it decodes to b, whatever follows. |
| `YEncSpelling.EscapedCode` | `tools/yenc-master/lib/y_enc.rb:91-102` | Every byte b may be written as the escape and the code b + 106, unless that is a line end, and not only the four the encoder escapes. |
| `YEncSpelling.EscapedDot` | `tools/yenc-master/lib/y_enc.rb:91-102` | A witness: `=n`, as other encoders write a leading dot, decodes to 4. |
| `YEncSpelling.SpelledDecodes` | `tools/yenc-master/lib/y_enc.rb:85-105` | A text that writes each byte in either way decodes to those bytes, whatever follows it. |
| `YEncSpelling.EncoderSpells` | `tools/yenc-master/lib/y_enc.rb:29-36` | What the encoder writes is one of these spellings. |
| `YEncSpelling.EveryLineIsSpelled` | `tools/yenc-master/lib/y_enc.rb:85-105` | The other way round, for any line of any file: without its line ends, and without an escape that nothing follows, it spells exactly the bytes that it decodes to. |
| `YEncSpelling.SpelledFileDecodes` | `tools/yenc-master/lib/y_enc.rb:68-119` | A file of any encoder, whatever lines and escapes it chose: the decoder gives the name, size and line length that the header gives, the checksum text of the trailer, and exactly the bytes spelled. |
| `YEncSpelling.OutcomeIff` | `tools/yenc-master/lib/y_enc.rb:68-119` | Decoding any file raises if and only if no line starts with `=ybegin` or the first that does gives no name; otherwise the output has the name that this line gives. |
| `YEncSpelling.FieldsStay` | `tools/yenc-master/lib/y_enc.rb:140-149` | A field that is set is never changed, whatever file the same object decodes next. |
| `YEncSpelling.LinesAreLines` | `tools/yenc-master/lib/y_enc.rb:73` | The lines of any file, joined, are the file; each has a line end as its last byte and nowhere else, except that the last line may have none. |
| `YEncSpelling.AfterIsLeftmost` | `tools/yenc-master/lib/y_enc.rb:144-149` | The name is taken behind the leftmost place of its key; none is found if and only if the key stands nowhere. |
| `YEncSpelling.WordIsLeftmost` | `tools/yenc-master/lib/y_enc.rb:144-149` | Size and line length are taken behind the leftmost place of their key that neither a blank nor the end follows. |
| `YEncSpelling.UpTo` | `tools/yenc-master/lib/y_enc.rb:140-149` | A word goes up to the first blank, the rest of a line up to its line end, and no further. |
| `YEncSpelling.TrailerSizeIsConstant` | `tools/yenc-master/lib/y_enc.rb:40` | The size that the trailer gives is 312860 for every file. |
| `YEncSpelling.StripTakesBlanks` | `tools/yenc-master/lib/y_enc.rb:122-125` | Stripping takes the blanks off both ends of the checksum text, and nothing else. |
| `Counters.CounterRoundTrip` | `MacOS/Storyboard/EasyNews/Views/String+Extension.swift:14-44` | A counter behind a base without counters is the only match; it is read back as its number (0 above the 64-bit range), and title and dictionary key are the trimmed base. |
| `Counters.NumberedRoundTrip` | `MacOS/Storyboard/EasyNews/Views/String+Extension.swift:14-44` | The same for numbers: base + ` (n/m)` gives n and the trimmed base, for every n in the 64-bit range and every m. |
| `Counters.KeyIsRest` | `MacOS/Storyboard/EasyNews/Views/Articles Tab/ArticlesTableVM.swift:57-63` | The key of a subject with one round counter is what stands before and after that counter, trimmed: removing its text everywhere removes nothing else. |
| `Counters.TitleIsKeyIff` | `MacOS/Storyboard/EasyNews/Views/String+Extension.swift:32-44` | For a subject with a key, the title shown is the key if and only if it has no square counter besides; with one the title is the whole subject and the number is 0. |
| `Counters.NumberOfCounter` | `MacOS/Storyboard/EasyNews/Views/String+Extension.swift:14-30` | With exactly one counter, wherever it stands, the number is the first number of a round counter, if it fits 64 bits, and 0 for a square one. |
| `Counters.MixedCountersHaveNoNumber` | `MacOS/Storyboard/EasyNews/Views/String+Extension.swift:14-44` | For every round counter followed by a square one: there is a key, the number is 0, and the title is the whole subject. |
| `Counters.PartsWithoutOrder` | `MacOS/Storyboard/EasyNews/Views/Articles Tab/ArticlesTableVM.swift:57-70` | A first and a second part with one key and one number: the row is not sorted by part. |
| `Counters.KeyIsTrimmed` | `MacOS/Storyboard/EasyNews/Views/Articles Tab/ArticlesTableVM.swift:63` | A key has no blank at either end. |
| `CounterTexts.MatchIff` | `MacOS/Storyboard/EasyNews/Views/String+Extension.swift:11-18` | A place of a subject is a match if and only if the text there is digits, a slash and digits between round brackets, or square ones where the pattern takes them. |
| `CounterTexts.MatchesAreCounters` | `MacOS/Storyboard/EasyNews/Views/String+Extension.swift:11-18` | The matches are all of these places, in order, none over another. |
| `CounterTexts.TitleIsRest` | `MacOS/Storyboard/EasyNews/Views/String+Extension.swift:32-44` | With exactly one counter, round or square, the title is what stands before and after it, trimmed; with none or several it is the whole subject, and the number is 0. |
| `CounterTexts.KeyIff` | `MacOS/Storyboard/EasyNews/Views/Articles Tab/ArticlesTableVM.swift:57-63` | There is a key if and only if there is exactly one round counter, and it is what is left without it, trimmed. |
| `CounterTexts.TrimTakesBlanks` | `MacOS/Storyboard/EasyNews/Views/String+Extension.swift:40` | Trimming takes the blanks off both ends, and nothing else. |
| `CounterTexts.WrittenNumber` | `MacOS/Storyboard/EasyNews/Views/String+Extension.swift:24` | A number written in decimal, with or without a sign and leading zeros, is read as itself if and only if it fits 64 bits. |
| `CounterTexts.OnlyWrittenNumbers` | `MacOS/Storyboard/EasyNews/Views/String+Extension.swift:24` | No other text is read as a number. |
| `Articles.RunInvariant` | `MacOS/Storyboard/EasyNews/Views/Articles Tab/ArticlesTableVM.swift:40-83` | Inductive invariant over every run with fixed subjects: the rows are the first members of the classes of equal stripped subjects, in order of appearance, and each row's children are its class, sorted by number; every keyed cache entry is a row. |
| `Articles.AddKeepsWellFormed` | `MacOS/Storyboard/EasyNews/Views/Articles Tab/ArticlesTableVM.swift:40-83` | Every single call, without any hypothesis, keeps the tables consistent and never removes or reorders a row. |
| `ArticlesOrder.RowsOnlyGrow` | `MacOS/Storyboard/EasyNews/Views/Articles Tab/ArticlesTableVM.swift:40-83` | Over every run earlier rows are a prefix of later rows. |
| `ArticlesOrder.RowsAreClasses` | `MacOS/Storyboard/EasyNews/Views/Articles Tab/ArticlesTableVM.swift:64-81` | A row's head is among its children, the children are exactly the calls shown with its key, and they are sorted by `fileNumber`. |
| `ArticlesOrder.ChildrenAreConserved` | `MacOS/Storyboard/EasyNews/Views/Articles Tab/ArticlesTableVM.swift:40-83` | The rows together hold one child for every call that was neither blank nor returned early. |
| `ArticlesOrder.RepeatIgnoredIff` | `MacOS/Storyboard/EasyNews/Views/Articles Tab/ArticlesTableVM.swift:41-47` | A repeated call is ignored if and only if its id was first seen blank or heads a row. |
| `ArticlesOrder.RepeatAddsAgain` | `MacOS/Storyboard/EasyNews/Views/Articles Tab/ArticlesTableVM.swift:40-83` | Any other repeated call is shown once more: one row then holds both an earlier call for the id and this one among its children. |
| `ArticlesOrder.SecondPartTwice` | `MacOS/Storyboard/EasyNews/Views/Articles Tab/ArticlesTableVM.swift:64-70` | Two parts of a row, and the second again, give a row of three children. |
| `ArticlesOrder.RunGroups` | `MacOS/Storyboard/EasyNews/Views/Articles Tab/ArticlesTableVM.swift:40-83` | When each id is shown once, the rows are one for each stripped subject and one for each article without exactly one counter, holding exactly those articles. |
| `ArticlesOrder.OrderIndependence` | `MacOS/Storyboard/EasyNews/Views/Articles Tab/ArticlesTableVM.swift:40-83` | Two runs that show the same articles in any two orders, after any blank calls, end with the same rows and the same children as multisets, and as sequences when the numbers differ. |
| `ArticlesOrder.SortedIsUnique` | `MacOS/Storyboard/EasyNews/Views/Articles Tab/ArticlesTableVM.swift:68-70` | With distinct numbers there is one sorted order, so an unstable sort cannot be told apart. |
| `ArticlesTypes.AddTakesOver` | `MacOS/Storyboard/EasyNews/Views/Articles Tab/ArticlesTableVM.swift:41-47` | Every single call stores the article that is given; the article of the outline cached under its id takes over subject and content type, also when the call then returns; no other article changes. |
| `ArticlesTypes.AddCaches` | `MacOS/Storyboard/EasyNews/Views/Articles Tab/ArticlesTableVM.swift:48-81` | What a call caches: only the new outline, under its id or its key; what was cached before stays cached. |
| `ArticlesTypes.RowsShowLastType` | `MacOS/Storyboard/EasyNews/Views/Articles Tab/ArticlesTableVM.swift:40-83` | Over every run each row shows its subject and the content type of the last call with its id. |
| `ArticlesTypes.JoinedKeepsType` | `MacOS/Storyboard/EasyNews/Views/Articles Tab/ArticlesTableVM.swift:64-70` | Over every run an article that joined a row keeps what it was added with. |
| `ArticlesTypes.TypeIsRefreshed` | `MacOS/Storyboard/EasyNews/Views/Articles Tab/ArticlesTableVM.swift:41-47` | A witness: `N/A`, and `text/plain` in a second call, shows `text/plain`. |
| `ArticlesTable.ArticlesTableVM.AddArticle` | `MacOS/Storyboard/EasyNews/Views/Articles Tab/ArticlesTableVM.swift:40-83` | The method, on mutable outlines and shared article objects, takes exactly one step of the state machine that the laws above are about, `ArticlesTypes.AddTakesOver` among them. |
| `ArticlesTable.ArticlesTableVM.Append` | `MacOS/Storyboard/EasyNews/Views/Articles Tab/ArticlesTableVM.swift:65-70` | The row's children gain the article and are a sorted permutation of what they were. |
| `ArticlesTable.ArticlesTableVM.Refresh` | `MacOS/Storyboard/EasyNews/Views/Articles Tab/ArticlesTableVM.swift:41-43` | An outline cached under the article's id takes over the new subject and content type, and nothing else does; that every call does so is `ArticlesTypes.AddTakesOver`. |
| `ArticlesTable.SortByNumber` | `MacOS/Storyboard/EasyNews/Views/Articles Tab/ArticlesTableVM.swift:68-70` | Children are permuted into ascending number. |
| `ArticlesTable.Replay` | `MacOS/Storyboard/EasyNews/Views/Articles Tab/ArticlesTableVM.swift:40-88` | Any sequence of calls on a new table is a run, so every law about runs holds of the object. |
| `NewsText.LastSplit` | `NNTP/NewsReader.swift:225-234` | The split is at the last line end: nothing is lost, and the rest holds no line end. |
| `NewsText.LinesConcat` | `NNTP/NewsReader.swift:316` | Lines do not reach over a line end. |
| `NewsSafety.EveryRunIsSafe` | `NNTP/NewsReader.swift:118-223` | Over every run, with any user calls, any delegate and any server text: no GROUP, LIST, LISTGROUP, HEAD or ARTICLE before a 281, no HEAD or ARTICLE before a 211 or 215, the password only in direct answer to a 381. |
| `NewsSafety.ProcessKeeps` | `NNTP/NewsReader.swift:171-223` | Every status line keeps the invariant that while not connected no command waits for a group. |
| `NewsSafety.WireTellsCommand` | `NNTP/NewsReader.swift:118-169` | The commands that the safety law speaks of are told apart by their text on the wire. |
| `NewsSafety.WireReadsBack` | `NNTP/NewsReader.swift:106-185` | Every command ends with a line feed, and what a server reads in it is the command with the group, id, user or password that was given. |
| `NewsSafety.WireIsInjective` | `NNTP/NewsReader.swift:106-185` | Different commands have different texts. |
| `NewsAnswers.EveryStatusIsTold` | `NNTP/NewsReader.swift:171-280` | Over every run, delegate and server text: a 281 is followed directly by Connected, a 502 by ConnectionFailed, a 205 by Disconnected, a lone dot and a handed-over article by Done, a header map by NextArticle; and no notice comes in any other place. |
| `NewsAnswers.FlagsAreHonest` | `NNTP/NewsReader.swift:171-223` | Over every run the reader counts as connected if and only if a 281 was heard, and results are coming if and only if a 211 or 215 was; a request is turned down only before the 281. |
| `NewsAnswers.RequestsGoOut` | `NNTP/NewsReader.swift:118-169` | Over every run: a request before the 281 does nothing but report that; after it exactly one command goes out, the article or header itself while results are coming and its group otherwise, with the whole new state. |
| `NewsAnswers.GroupAnswers` | `NNTP/NewsReader.swift:216-222` | The reply to GROUP sends the article or header that was asked for last. |
| `NewsAnswers.ClosedIff` | `NNTP/NewsReader.swift:96-104` | Over every run on a connection opened once, with any delegate: the reader is closed if and only if the user closed it, a 205 was heard, or the delegate closed it in a notice; while it is open every greeting is answered with the name, every request for the password with the password. |
| `NewsAnswers.OnlyGoodbyeCloses` | `NNTP/NewsReader.swift:198-203` | When neither user nor delegate closes it, the reader is closed if and only if a 205 was heard. |
| `NewsAnswers.DoneOrGoodbyeCloses` | `MacOS/Storyboard/EasyNews/Views/Reader Commands/ListGroupGetArticleIdsCommand.swift:35-50` | With the delegates that close on Done: if and only if a 205 was heard or Done was told. |
| `NewsAnswers.RefusedLogin` | `NNTP/NewsReader.swift:193-197` | After a login that is refused the delegate has been told so, and the reader is open and not connected. |
| `NewsAnswers.GrouplessWaits` | `MacOS/Storyboard/EasyNews/Views/Reader Commands/ArticleGetMultipleHeadersCommand.swift:28-48` | A command whose group is no longer in the store asks for nothing, and closes the reader on Done. |
| `NewsAnswers.FailuresAreNotAnswered` | `MacOS/Storyboard/EasyNews/Views/Reader Commands/ArticleCommand.swift:32-50` | To a refused login and a goodbye no command of the program does anything. |
| `NewsAnswers.ReadIsTold` | `NNTP/NewsReader.swift:309-384` | What one read tells, operation by operation: of a list all lines but lone dots, and Done just when there is one among them, wherever it stands; after every read a header; an article just when its last line is a lone dot; what follows the last line end is kept. |
| `NewsAnswers.NextOperationTakesRead` | `NNTP/NewsReader.swift:318-354` | A delegate that asks for a list inside NextArticle is told the lines of the header's read as that list. |
| `NewsAnswers.GroupsComeLast` | `NNTP/NewsReader.swift:338-384` | The same from a list of ids to the list of groups, but not the other way round. |
| `NewsConnection.NewsReader.Process` | `NNTP/NewsReader.swift:171-223` | Each status line takes exactly the step of the state machine, the delegate's calls inside the callback included; what that step must be is `NewsAnswers.EveryStatusIsTold`, `NewsAnswers.FlagsAreHonest` and `NewsAnswers.ClosedIff`. |
| `NewsConnection.NewsReader.Dispatch` | `NNTP/NewsReader.swift:307-384` | So does one turn of the read loop, over all four operations. |
| `NewsConnection.NewsReader.Register` | `NNTP/NewsReader.swift:359-378` | The loop over the lines of a read gives exactly the groups that are well-formed, in order, and whether the dot is among the lines. |
| `NewsConnection.NewsReader.ReadAvailableBytes` | `NNTP/NewsReader.swift:283-354` | So does the read loop; it stops when the reader closes and after one read while no results are coming. |
| `NewsConnection.NewsReader.ParseHeader` | `NNTP/NewsReader.swift:262-277` | The map reported is the one made of the text, for the id set last. |
| `NewsConnection.NewsReader.Receive` | `NNTP/NewsReader.swift:236-254` | So do stream events, until the reads are used up or the reader is closed. |
| `NewsConnection.NewsReader.FetchHeader` | `NNTP/NewsReader.swift:135-149` | A header request sets the id, and sends HEAD at once or GROUP first. |
| `NewsListGroup.CutsDoNotMatter` | `NNTP/NewsReader.swift:303-316` | For any text: if every read leaves a line end in the buffer, the lines seen are the lines of the whole text up to its last line end, however it is cut, between CR and LF too. |
| `NewsListGroup.IdsSeenIff` | `NNTP/NewsReader.swift:303-354` | For every list and every way to cut its block into reads, the ids seen are exactly the list, in order, if and only if no read cuts a line without holding a line end; the dot is then seen once, last. |
| `NewsListGroup.HalfANumber` | `NNTP/NewsReader.swift:225-234` | The condition can fail: half a number in a read of its own is reported as an id. |
| `NewsListRun.IdsReportedIff` | `NNTP/NewsReader.swift:236-354` | The same for what the delegate is told, over every batching of the reads into stream events. |
| `NewsListRun.ListIsFetchedIff` | `MacOS/Storyboard/EasyNews/Views/Reader Commands/ListGroupGetArticleIdsCommand.swift:35-50` | For the command, which closes the reader on Done: over every cutting and batching it is told exactly the ids, all of them before the first Done, is told Done once and closes the reader, if and only if no read cuts a line before the dot is seen. |
| `NewsListRun.CleanCutsFetch` | `NNTP/NewsReader.swift:236-354` | Reads that cut no line at all will do, in any events. |
| `NewsListRun.FetchSession` | `NNTP/NewsReader.swift:171-354` | The same from a new reader through login and LISTGROUP, the status lines in reads of their own. |
| `NewsListStart.RestOfReadIsDropped` | `NNTP/NewsReader.swift:210-215` | Whatever follows the status line of a list in its read is dropped. |
| `NewsListStart.FirstReadIff` | `NNTP/NewsReader.swift:210-215` | When the first read holds the whole status line: the command is told exactly the ids and then Done, once, if and only if that read ends with the status line or just after its line end, and no later read cuts a line before the dot is seen. |
| `NewsGroups.GroupIsReadIff` | `NNTP/NewsReader.swift:365-376` | A line of four words gives a group if and only if its numbers are 64-bit numbers, and then the group has its name, its numbers in their order and its posting flag. |
| `NewsGroups.GroupReadsBack` | `NNTP/NewsReader.swift:365-376` | Round trip: the line written for a group gives that group. |
| `NewsGroups.GroupsAreListedIff` | `NNTP/NewsReader.swift:356-384` | Over every cutting into reads that leave a line end, and every batching in which no event leaves over a status text before a lone dot: the command is told Done once and closes the reader; it has been told all groups, in order, if and only if no event left over a lone dot while groups were to come; otherwise it has been told the first of them. |
| `NewsGroups.OrdinaryIsQuiet` | `NNTP/NewsReader.swift:171-223` | In a list of which no line looks like a status line no event leaves one over. |
| `NewsGroups.GroupsComeBackIff` | `MacOS/Storyboard/EasyNews/Views/Reader Commands/ListGroupsCommand.swift:21-35` | From the request on, for every list of groups: the command is told exactly these groups, with their numbers and flags, if and only if no event leaves over a text that starts with `211 `; it is then told Done once and closes the reader. |
| `NewsGroups.Group211IsLost` | `NNTP/NewsReader.swift:216-222` | A witness: the line of a group named `211`, left over, is well-formed and is not told. |
| `NewsConservation.TextIsConservedIff` | `NNTP/NewsReader.swift:236-323` | For any text, over every sequence of reads in any stream events: what is put together, followed by what waits for its line end, is exactly what was there and what was received, if and only if every read leaves a line end in the buffer and no event leaves over a status text. |
| `NewsConservation.LeftoverIsKeptIff` | `NNTP/NewsReader.swift:171-223` | The look at a leftover keeps the article, and keeps the leftover unless it starts with a status text, which is cleared. |
| `NewsConservation.StatusTextIsLost` | `NNTP/NewsReader.swift:236-254` | The failing side: every status text that an event leaves over is lost. |
| `NewsArticle.ArticleIsHandedOverIff` | `NNTP/NewsReader.swift:236-334` | For every article, every way its block is cut into reads and every batching: the whole block is handed over if and only if each read leaves a line end in the buffer (or is the closing dot with only its line end to come) and no event leaves over a lone dot or a status text. Then nothing else is handed over, Done is told once and the reader closed; otherwise the block never is, and when lone dots are the only reason the command is told Done and given nothing. |
| `NewsArticle.OrdinaryArticle` | `NNTP/NewsReader.swift:236-334` | When no line looks like a status line and every read leaves a line end, Done is told once and the reader closed in any case. |
| `NewsArticle.AssemblerTakesRead` | `NNTP/NewsReader.swift:318-334` | The article is handed over on exactly the read that completes the block. |
| `NewsArticle.ArticleRun` | `MacOS/Storyboard/EasyNews/Views/Reader Commands/ArticleCommand.swift:26-50` | The same exact condition from the request on: GROUP goes out, its reply sends ARTICLE, and the article starts from nothing. |
| `NewsArticle.ArticleIsAskedFor` | `NNTP/NewsReader.swift:216-222` | The GROUP reply sends exactly the command that waits for it, once, and results start from an empty buffer. |
| `NewsArticle.LateEndLosesArticle` | `NNTP/NewsReader.swift:178-181` | For every article of one line: with the dot in one event and its line end in the next, the command is told Done, closes the reader, and has been given nothing. |
| `NewsArticle.StatusLineLosesArticle` | `NNTP/NewsReader.swift:171-223` | For every article of two lines whose second looks like a status line: with that line in one event and its line end in the next, the article is never handed over. |
| `NewsArticle.PeopleAreLost` | `NNTP/NewsReader.swift:216-222` | When that line starts with `211 `, what is handed over has an empty line in its place. |
| `NewsHeads.HeadSession` | `MacOS/Storyboard/EasyNews/Views/Reader Commands/ArticleGetMultipleHeadersCommand.swift:28-48` | From a new reader, over every run whose leftovers are not acted on: what is sent and told is the login, GROUP, and one round for each read until the list is done; the reader is open exactly while headers are missing. |
| `NewsHeads.RoundsGoInOrder` | `MacOS/Storyboard/EasyNews/Views/Reader Commands/ArticleGetMultipleHeadersCommand.swift:30-34` | Whatever is read, the i-th header callback carries the i-th id, and HEAD goes out for the ids in list order, each exactly once. |
| `NewsHeads.HeadSessionAnswered` | `MacOS/Storyboard/EasyNews/Views/Reader Commands/ArticleGetMultipleHeadersCommand.swift:28-48` | With one read for each response, in any batches, every id gets the map of its own response and the reader closes after the last. |
| `NewsHeads.MapsAreAttributed` | `NNTP/NewsReader.swift:262-277` | With one read for each response every map is made of the response to the HEAD for the id it is reported for. |
| `NewsHeads.AttributedIff` | `NNTP/NewsReader.swift:303-337` | For every way to cut the responses into any number of reads: the texts of the first reads, as many as responses, are the responses, in order, if and only if each of them brings the last line end of its response and no line end after it; the last may instead be exactly its one-line response. |
| `NewsHeads.HeadSessionAttributedIff` | `MacOS/Storyboard/EasyNews/Views/Reader Commands/ArticleGetMultipleHeadersCommand.swift:28-48` | The same from a new reader on, over every run whose leftovers are not acted on: a map is reported for each read until all articles have one, and the maps are made of the responses under exactly that condition. |
| `NewsHeads.HeadSessionMeets` | `MacOS/Storyboard/EasyNews/Views/Reader Commands/ArticleGetMultipleHeadersCommand.swift:28-48` | Under that condition, in any events, every id gets the map of its own response and the reader closes; no leftover is acted on. |
| `NewsHeads.SplitResponseShifts` | `NNTP/NewsReader.swift:335-337` | A response in two reads counts as two: its closing dot is reported as the next article's header, with no fields. |
| `NewsHeader.FieldsReadBack` | `NNTP/NewsReader.swift:262-277` | The map made of a complete HEAD response is the map of the fields that its lines give, whatever blanks stand around names and texts; of two fields with one name the last counts. |
| `NewsHeader.SentFieldGives` | `NNTP/NewsReader.swift:270-272` | A name without blanks, a colon, one blank and a text is such a line. |
| `NewsHeader.BlanksGo` | `NNTP/NewsReader.swift:272` | Trimming takes off the blanks on both sides, whatever they are, and nothing else. |
| `NewsHeader.BlanksAround` | `NNTP/NewsReader.swift:272` | Every text is blanks, a trimmed text and blanks. |
| `NewsHeader.SplitAtColon` | `NNTP/NewsReader.swift:225-234` | A line is split at its first colon; without one all of it is the key. |
| `NewsHeader.NoColonNoText` | `NNTP/NewsReader.swift:270-272` | A line without a colon gives a field without a text. |
| `NewsHeader.LastLineCounts` | `NNTP/NewsReader.swift:262-277` | For every text and key the map holds what the last line for the key enters, and nothing if there is none. |
| `NewsHeader.MissingIsMarkedIff` | `NNTP/NewsReader.swift:266-269` | A 430 line, wherever it stands in a read, gives a subject that says so if and only if no later line of the read gives another. |
| `RealmIndexSet.Enumerate` | `MacOS/Storyboard/Pods/Realm/include/index_set.hpp:192-235` | Going through `as_indexes()` ends, and gives every index in the set exactly once in increasing order. |
| `RealmIndexSet.IndexesAreTheSet` | `MacOS/Storyboard/Pods/Realm/include/index_set.hpp:192-235` | The list of indexes is strictly increasing and holds an index if and only if a range holds it. |
| `RealmIndexSet.IndexAtRank` | `MacOS/Storyboard/Pods/Realm/include/index_set.hpp:195-207` | An iterator denotes the index of its rank, and equals the end exactly when none is left, although equality ignores the offset. |
| `RealmIndexSet.EqualityIgnoresOffset` | `MacOS/Storyboard/Pods/Realm/include/index_set.hpp:196-197` | In every set, at any two places and offsets: two iterators are equal if and only if their indexes lie in one range; equal ones denote one index only if their offsets agree. |
| `RealmIndexSet.PositionIsInjective` | `MacOS/Storyboard/Pods/Realm/include/index_set.hpp:263-269` | Equality of range iterators is equality of their positions. |
| `RealmIndexSet.PreviousUndoesNext` | `MacOS/Storyboard/Pods/Realm/include/index_set.hpp:277-305` | At range level `--` undoes `++`, over chunk borders and from the end. |
| `RealmIndexSet.NextUndoesPrevious` | `MacOS/Storyboard/Pods/Realm/include/index_set.hpp:277-305` | And `++` undoes `--`. |
| `RealmIndexSet.RangeAtPosition` | `MacOS/Storyboard/Pods/Realm/include/index_set.hpp:263-269` | Places and positions correspond: the place denotes the range at its position, and only the end has the last position. |
| `RealmIndexSet.ChunkedRangeVectorIterator.Increment` | `MacOS/Storyboard/Pods/Realm/include/index_set.hpp:277-284` | The iterator passes exactly one range. |
| `RealmIndexSet.ChunkedRangeVectorIterator.Decrement` | `MacOS/Storyboard/Pods/Realm/include/index_set.hpp:294-305` | The iterator goes back exactly one range. |
| `RealmIndexSet.IndexIterator.Increment` | `MacOS/Storyboard/Pods/Realm/include/index_set.hpp:199-207` | The iterator passes exactly one index, over range and chunk borders. |
| `RealmList.List.Assign` | `MacOS/Storyboard/Pods/Realm/include/list.hpp:249-283` | Both ways of assigning leave the list equal to the values, an assignment of itself changes nothing and null clears; the writes are those of the two lists of changes below. |
| `RealmList.DiffAssigns` | `MacOS/Storyboard/Pods/Realm/include/list.hpp:261-276` | Applying overwrite, extend and trim to any list gives the values. |
| `RealmList.FullAssigns` | `MacOS/Storyboard/Pods/Realm/include/list.hpp:277-282` | So does clear and append: the diff refines the replacement. |
| `RealmList.DiffIsQuietIff` | `MacOS/Storyboard/Pods/Realm/include/list.hpp:236-247` | An assignment by differences writes nothing if and only if the list already equals the values. |
| `RealmList.List.ReplaceSubrange` | `MacOS/Storyboard/Pods/RealmSwift/RealmSwift/List.swift:493-502` | Removing at the lower bound and inserting there in reverse gives old prefix, new elements, old suffix. |
| `RealmList.List.RemoveSubrange` | `MacOS/Storyboard/Pods/RealmSwift/RealmSwift/List.swift:622-627` | Removing at the lower bound as often as the range is long leaves prefix and suffix. |
| `RealmList.List.InsertContentsOf` | `MacOS/Storyboard/Pods/RealmSwift/RealmSwift/List.swift:609-615` | Inserting at growing indexes puts the elements between prefix and suffix, in order. |
| `RealmList.ReplaceIsRemoveThenInsert` | `MacOS/Storyboard/Pods/RealmSwift/RealmSwift/List.swift:493-502` | Replacing agrees with removing the range and then inserting. |
| `RealmList.ReplaceBack` | `MacOS/Storyboard/Pods/RealmSwift/RealmSwift/List.swift:493-502` | Putting the former elements back undoes a replacement. |
| `RealmObjects.RunKeepsKeysUnique` | `MacOS/Storyboard/Pods/Realm/include/object_accessor.hpp:191-306` | Outside migrations every sequence of calls, successful or not, keeps primary keys unique. |
| `RealmObjects.KeysStayUniqueIff` | `MacOS/Storyboard/Pods/Realm/include/object_accessor.hpp:245-253` | A successful call on unique rows, in a migration or not, keeps keys unique if and only if there is no primary key, or it may update, or it is not in a migration, or no row holds the key. |
| `RealmObjects.MigrationsMayRepeatKeys` | `MacOS/Storyboard/Pods/Realm/include/object_accessor.hpp:245-253` | A witness: the same key created twice in a migration. |
| `RealmObjects.UpdateChangesOnlySupplied` | `MacOS/Storyboard/Pods/Realm/include/object_accessor.hpp:278-298` | On a row that is there only supplied properties, and never the key, change; other rows stay. |
| `RealmObjects.CreateFillsRow` | `MacOS/Storyboard/Pods/Realm/include/object_accessor.hpp:278-298` | A new row holds what is supplied, else the default, else the empty value; older rows stay. |
| `RealmObjects.PopulateSucceedsIff` | `MacOS/Storyboard/Pods/Realm/include/object_accessor.hpp:283-297` | Setting the properties succeeds if and only if no property lacks a value it must have. |
| `RealmObjects.AskingAgainChangesNothing` | `MacOS/Storyboard/Pods/Realm/include/object_accessor.hpp:205-259` | After a successful call the same request, allowed to update, finds the same row and changes nothing. |
| `RealmObjects.OnlyDiffEndsTheSameIff` | `MacOS/Storyboard/Pods/Realm/include/object_accessor.hpp:83-143` | `update_only_diff` ends in the same table with the same outcome as the full update if and only if there is a primary key or no current row. |
| `RealmCreate.ExistingKeyIff` | `MacOS/Storyboard/Pods/Realm/include/object_accessor.hpp:245-257` | A call fails because the key exists if and only if a row holds the key asked for, and the call neither updates nor runs in a migration; nothing changes and nothing is written then. |
| `RealmCreate.InvalidNullKeyIff` | `MacOS/Storyboard/Pods/Realm/include/object_accessor.hpp:335-351` | It fails for a null key if and only if null is given, or the default, where it may not be. |
| `RealmCreate.MissingKeyIff` | `MacOS/Storyboard/Pods/Realm/include/object_accessor.hpp:209-217` | It fails for a missing key if and only if none is given, there is no default and null may not be one. |
| `RealmCreate.EveryCallIsOneOf` | `MacOS/Storyboard/Pods/Realm/include/object_accessor.hpp:205-272` | Every other call updates the first row with the key (without a key, in the difference mode, the current row) or makes a row. |
| `RealmCreate.UpdateLaw` | `MacOS/Storyboard/Pods/Realm/include/object_accessor.hpp:274-298` | Such an update sets, in order, what is given apart from the key, up to the first null where none may be; that property is the error; no other cell and no other row changes. Each of these cells is written, in the difference mode only if the value is another. |
| `RealmCreate.NewRowLaw` | `MacOS/Storyboard/Pods/Realm/include/object_accessor.hpp:274-298` | A row that is made comes last and has the key asked for; up to the first property that has no value and needs one, it holds what is given, else the default, and null, 0 or the empty text elsewhere. |
| `RealmCreate.NewRowWrites` | `MacOS/Storyboard/Pods/Realm/include/object_accessor.hpp:83-143` | The cells of a new row that are written, in order. |
| `RealmObjects.Table.CreateObject` | `MacOS/Storyboard/Pods/Realm/include/object_accessor.hpp:191-306` | The method, with its search for the key, its errors and its loop over the properties, comes to exactly what the laws above and `RealmCreate` are about: the table, the outcome and every write. |
| `RealmObjects.Table.FindFirst` | `MacOS/Storyboard/Pods/Realm/include/object_accessor.hpp:335-351` | Finds the first row with the key, or none if there is none. |
| `RealmTimestamp.ForDate` | `MacOS/Storyboard/Pods/Realm/include/RLMUtil.hpp:144-167` | The steps, on 64- and 32-bit integers that never overflow, give the nanoseconds from 1970, less any fraction of one, with seconds and nanoseconds of one sign and less than a second of the latter; clamped and missing dates get the fixed values. |
| `RealmTimestamp.DateComesBackIff` | `MacOS/Storyboard/Pods/Realm/include/RLMUtil.hpp:137-167` | Converting back gives the instant less what is below a nanosecond: the very same if and only if it is a whole number of nanoseconds. |
| `RealmTimestamp.TimestampComesBackIff` | `MacOS/Storyboard/Pods/Realm/include/RLMUtil.hpp:137-167` | The other way round: a canonical timestamp comes back if and only if its date is not clamped or it is one of the two that clamped dates get. |
| `RealmTimestamp.DateIsKeptIff` | `MacOS/Storyboard/Pods/Realm/include/RLMUtil.hpp:151-155` | Which timestamps have dates that are not clamped, as a bound on seconds and nanoseconds together: at the low end those of about 62 years are clamped that a timestamp could hold. |
| `Store.EveryRunKeepsStore` | `NNTP/ReaderBox.swift:88-142` | Over every sequence of transactions each article id and each group name keeps one record, no record goes, and every article stays entered, in the list of its own group and in no other, as often as its own transaction left it, once or twice. |
| `Store.RepeatedBatchChangesNothing` | `MacOS/Storyboard/EasyNews/Views/Reader Commands/ListGroupGetArticleIdsCommand.swift:63-87` | Repeating a batch of ids, for whatever group, creates nothing and enters nothing. |
| `Store.BatchAddsItsIds` | `MacOS/Storyboard/EasyNews/Views/Reader Commands/ListGroupGetArticleIdsCommand.swift:73-79` | A batch adds exactly its ids. |
| `Store.BatchEntersTwice` | `MacOS/Storyboard/EasyNews/Views/Reader Commands/ListGroupGetArticleIdsCommand.swift:73-79` | Each article that a batch makes belongs to the batch's group and is entered in its `articles` twice; all others stay entered in that list as often as before, and no other group changes. |
| `Store.HeaderEntersOnce` | `MacOS/Storyboard/EasyNews/Views/Reader Commands/ArticleGetMultipleHeadersCommand.swift:66-72` | An article that a header makes belongs to the header's group and is entered in its list once; no other group changes. |
| `Store.FindOrCreateFinds` | `NNTP/ReaderBox.swift:88-110` | With unique ids an article is new if and only if its id is not there yet, and ids stay unique. |
| `Store.UniqueIff` | `NNTP/ReaderBox.swift:89-93` | Ids are unique if and only if no query finds more than one article; with `EveryRunKeepsStore`, no transaction makes two. |
| `Store.DuplicatesMultiply` | `NNTP/ReaderBox.swift:89-93` | In any store a call makes an article if and only if the query does not find exactly one, so of two that were there before every call makes one more. |
| `Store.BatchMultiplies` | `MacOS/Storyboard/EasyNews/Views/Reader Commands/ListGroupGetArticleIdsCommand.swift:73-79` | A batch adds to two or more articles with an id as many as it names that id. |
| `Store.DuplicatesStay` | `NNTP/ReaderBox.swift:88-142` | No sequence of transactions removes one of them. |
| `Store.TakeGroupsKeeps` | `MacOS/Storyboard/EasyNews/Views/Reader Commands/ListGroupsCommand.swift:43-68` | Listing groups gives every listed name its group, keeps names unique and touches no group's articles. |
| `StoreFields.HeaderSetsTexts` | `MacOS/Storyboard/EasyNews/Views/Reader Commands/ArticleGetMultipleHeadersCommand.swift:66-70` | After a header the article with the id has the subject and content type given, or none; every other article keeps all its fields. |
| `StoreFields.HeaderSetsSize` | `MacOS/Storyboard/EasyNews/Views/Reader Commands/ArticleGetMultipleHeadersCommand.swift:71-89` | Its size is the number of the received bytes, else of the bytes; a text that is no number counts as 0; without either the size stays. |
| `StoreFields.DecimalSize` | `MacOS/Storyboard/EasyNews/Views/Reader Commands/ArticleGetMultipleHeadersCommand.swift:71-89` | A size written in decimal is the number written, if it fits 64 bits. |
| `StoreFields.HeaderSetsDate` | `MacOS/Storyboard/EasyNews/Views/Reader Commands/ArticleGetMultipleHeadersCommand.swift:74-84` | Its date changes if and only if one is given that can be read. |
| `StoreFields.HeaderGoesOnTheList` | `MacOS/Storyboard/EasyNews/Views/Reader Commands/ArticleGetMultipleHeadersCommand.swift:66-70` | An article that a header makes stands at the end of its group's list. |
| `StoreFields.BatchArticles` | `NNTP/ReaderBox.swift:88-110` | A batch leaves every article as it is; new ones come last, with the group, an id of the batch, empty texts and no size or date. |
| `StoreFields.BatchGoesOnTheList` | `MacOS/Storyboard/EasyNews/Views/Reader Commands/ListGroupGetArticleIdsCommand.swift:73-79` | The group's list goes on with the new articles, in order, each two times in a row. |
| `StoreFields.BatchesCompose` | `MacOS/Storyboard/EasyNews/Views/Reader Commands/ListGroupGetArticleIdsCommand.swift:73-79` | Two batches one after the other are one batch. |
| `StoreFields.GroupsHoldLastListing` | `MacOS/Storyboard/EasyNews/Views/Reader Commands/ListGroupsCommand.swift:47-58` | After a batch of groups the group of each listed name has first and last number and posting flag of its last listing; a group that is not listed is as it was. |
| `StoreFields.ListingsCompose` | `MacOS/Storyboard/EasyNews/Views/Reader Commands/ListGroupsCommand.swift:47-58` | Two batches of groups are one. |
| `Store.ReaderBox.FindOrCreateGroupArticle` | `NNTP/ReaderBox.swift:88-110` | The query and the insertion are exactly the specified step. |
| `Store.ReaderBox.AddArticleIds` | `MacOS/Storyboard/EasyNews/Views/Reader Commands/ListGroupGetArticleIdsCommand.swift:63-87` | The loop inside the transaction is exactly the specified batch; it reports the places of exactly the articles that it made, in order. |
| `Store.ReaderBox.AddHeader` | `MacOS/Storyboard/EasyNews/Views/Reader Commands/ArticleGetMultipleHeadersCommand.swift:59-101` | Every branch of the transaction comes to the specified step, which `StoreFields.HeaderSetsTexts`, `StoreFields.HeaderSetsSize` and `StoreFields.HeaderSetsDate` pin field by field. |
| `Store.ReaderBox.FindOrCreateGroup` | `NNTP/ReaderBox.swift:127-142` | Finds the first group with the name, or adds one with a fresh id. |
| `Store.ReaderBox.AddGroups` | `MacOS/Storyboard/EasyNews/Views/Reader Commands/ListGroupsCommand.swift:43-68` | The loop inside the transaction is exactly the specified batch of groups. |

## Left out

- Zlib's CRC is an arbitrary function from bytes to numbers; NSRegularExpression and Ruby's patterns are scanners for
  the patterns used, with ASCII digits and blanks; Swift's sort is any sort that permutes into ascending order.
- Texts are sequences of characters: combining characters, encodings and the UTF-8 or ASCII decoding of a read
  (`NewsReader.swift:392-409`), and Ruby's errors on invalid UTF-8 in a pattern, are not modelled.
- The codec's output may not be its input: the order in which a file is truncated and read is not modelled.
- A path that ends in a slash, of which Ruby's `File.basename` drops the slash: the codec opens files only.
- Reads are given texts and sends a log: sockets, partial writes, read errors, threads and run loops are not modelled.
- A delegate calls the reader back from notifications only, as all four delegates of the program do.
- NewsHeads.HeadSessionAnswered: one read for each response is assumed; `NewsHeads.HeadSessionAttributedIff` has the
  exact condition.
- NewsHeads.HeadSessionAttributedIff: leftovers that are acted on are excluded; `NewsHeads.HeadSessionMeets` shows that
  none arises when the reads correspond to the responses.
- NewsGroups.GroupsAreListedIff: reads that leave no line end in the buffer, and status texts left over, are excluded;
  for lists of groups `NewsGroups.GroupsComeBackIff` has the exact condition on the latter.
- NewsGroups.GroupsComeBackIff: reads that leave no line end in the buffer are excluded.
- NewsListStart.FirstReadIff: a first read that ends inside the status line is excluded.
- RealmObjects.Table.CreateObject: cells are integers and strings; RLMAccessor's properties of type list and link
  are not modelled there.
- RealmObjects.OnlyDiffEndsTheSameIff: in `Create` the flag only picks the row; which writes it skips is in
  `RealmCreate.UpdateLaw` and `RealmCreate.NewRowWrites`.
- Lists are modelled by themselves, with elements that are already unboxed; inserting a slice of a list into that list
  is not modelled.
- Clearing a list is counted as removing its elements one by one: the body of `remove_all` is not in the headers.
- Timestamps are in exact arithmetic: the rounding of doubles, also of the clamp limits, is not modelled.
- The store is open, and its filter compares texts: quotes in ids and names, which would end the filter's text, are
  not modelled. How a date is read is a parameter (`Date.parse`); the time stamp `updated` of groups is left out.
- Realm's persistence, migrations, notifications and synchronisation, and headers without bodies.
- `ListGroupArticlesCommand.swift` and `yyy.rb`, superseded copies; views, outline and table data sources, tabs, date
  parsing and size formatting, which would only add easy members.
