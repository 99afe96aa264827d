# LibSylph engines

Models of the self-contained engines of LibSylph, the mail library under Sylpheed, with
proofs of what they are for.  Each model follows the C code branch by branch: code that
works in place is a method or a class with loops and state, proved equal to a function or
to a step of a state machine, and the promises are lemmas about that function or machine.

* **Session and POP3** (`Session`, `Fgets`, `PopFile`, `Pop3`, `Pop3Runs`, `Pop3Delivery`,
  `Pop3Accounts`, `Pop3Deletions`, `Pop3WithoutIds`, `Pop3Client`).  The receive buffer with its line
  reader, its in-memory reader and its windowed reader that spills to a file; the removal of dot stuffing; the
  command state machine; the file of unique ids between sessions.  The window decides like
  a reader that keeps the whole stream; a message is stored as it was sent however it is
  cut into reads; a session never retrieves or deletes a message twice, ends, and over any
  number of sessions accepts each message once; it deletes a message exactly when it is due.
* **Threads** (`ThreadTree`).  The tree of messages built from In-Reply-To and References:
  acyclic, complete, justified edge by edge, and maximal.
* **IMAP** (`ImapFlags`, `ImapSync`, `Decimal`, `SeqSet`, `FolderPaths`, `FolderTree`,
  `FolderAccounts`).  The cached list reconciled with the server, UID sets as text, and
  the folder tree completed by missing parents and scanned.
* **MIME** (`MimeTree`, `HexDigits`, `Rfc2231`, `MimeParams`, `MimeParamsRoundTrip`,
  `MimeParamsLists`).  The
  tree of parts and the walk without a stack; file names as parameters, and the parser of
  whole lists of parameters.
* **Codecs** (`Jis`, `Sjis`, `JisBuffers`, `Md5Transform`, `Md5`, `Md5Suite`, `QuotedPrintable`,
  `QuotedPrintablePart`, `Mbox`, `Base64`).  ISO-2022-JP, EUC-JP and Shift_JIS through a
  sequence of characters as the hub; incremental MD5 and HMAC; quoted-printable and the Q encoding; mbox export
  and import; Base64 with the decoder that is fed in pieces.

What a socket read returned, how much a write took, whether the disk or a handler failed,
and what time it is are parameters of the methods.  Bytes are integers from 0 to 255; a
string of C is a sequence of them without its NUL, and reading at its end yields NUL.

## Where the code does less than one would expect

Each of these comes with its exact condition, and the lemmas named after it give inputs
that meet it.

* `session_read_data_cb` takes a stream that starts with the terminator for complete, and
  then cuts off as many bytes at its end (`Session.ReadersAgreeExactly`,
  `Session.StopsEarly`).
* A message line longer than the line buffer loses a CR at the end of a chunk and keeps the
  dot it got on the wire, unless dots go on for whole chunks (`PopFile.LineReturnsExactly`,
  `PopFile.CrAtChunkEndIsLost`, `PopFile.LongDotLineKeepsBothDots`).
* Without UIDL and LAST every session delivers all messages again
  (`Pop3WithoutIds.WithoutUidlDeliversAgain`).
* With nothing new and a last UID of 2^32-1 the IMAP synchronisation empties the list,
  because `last_uid + 1` wraps (`ImapSync.ResultAgreesExactly`, `ImapSync.LastUidIsLost`);
  a cached message above one that is not cached is counted twice
  (`ImapSync.SyncWithCache`, `ImapSync.HoleIsCountedTwice`).
* The comparison by number wraps for UIDs 2^31 and more apart, so that the sets can come out
  of order (`SeqSet.ComparesRightExactly`, `SeqSet.FarUidsCompareWrongly`).
* The MIME walk passes over the siblings after a message that holds a message that holds a
  message (`MimeTree.WalkIsCompleteExactly`, `MimeTree.NestedMessagesHideASibling`).
* The IBM extension characters of Shift_JIS do not survive ISO-2022-JP, and some of them
  coincide there (`Sjis.IbmExtMoves`, `Sjis.IbmExtCollides`).
* A continued MIME parameter right after another one is lost with all that follows, because
  its number 0 is taken for a wrong one; and there is one character set for all parameters,
  so that a continued value can be converted in that of its neighbour
  (`MimeParamsLists.ListReturnsExactly`, `MimeParamsLists.SecondSeriesIsLost`,
  `MimeParamsLists.CharsetIsTakenOver`).
* DEL is encoded neither in an encoded word nor in an extended parameter
  (`QuotedPrintable.QEncodeIsPrintableExactly`, `Rfc2231.SafeGoesThrough`).
* The one-line form of an encoded file name can exceed 76 characters, because its character
  set is not counted (`Rfc2231.OneLineFitsExactly`, `Rfc2231.LongCharsetOverflows`), and an
  ASCII name is cut at its first quote (`MimeParamsRoundTrip.AsciiReturnsExactly`,
  `MimeParamsRoundTrip.QuoteCutsName`).
* ESC, SO and SI in the input of `conv_euctojis` and `conv_sjistojis` are copied as if they
  were text.  The reader then takes them for shifts (`Jis.EucReadsAsMeantExactly`,
  `Sjis.SjisReadsAsMeantExactly`), and the output can end in another state than ASCII or
  break a line in one (`Jis.EucToJisWellFormedExactly`, `Sjis.SjisToJisWellFormedExactly`,
  `Jis.EscapesPassThrough`, `Jis.SomeEscapesAreHarmless`).
* mbox import turns every line that starts with CR into an empty one, takes the quote from a
  line that had one before its From, and ends a last line that was not ended
  (`Mbox.RoundTripExactly`, `Mbox.CrLineIsLost`, `Mbox.QuoteIsLost`,
  `Mbox.UnendedLineIsEnded`).  It does so with each piece of a line longer than the line
  buffer as well (`Mbox.CrAtPieceStartIsLost`), and the quote of such a line moves the
  places where the import cuts it (`Mbox.ShiftedPieceSplits`).

The proofs hide the definitions they do not need (`hide`), so that each stays small.

## Model

| member | source | states |
|---|---|---|
| Session.ReceiveData | libsylph/session.c:812-923 | a whole transfer through the in-memory reader, for every division into reads and any idle wake-ups: it stops after the first read whose stream passes the test, hands over the stream but for as many bytes as the terminator has, and otherwise keeps all that came |
| Session.EveryDivisionDelivers | libsylph/session.c:812-923 | a stream terminated only at its end is handed over whole, with its last read and not before, in every division |
| Session.DeliversTextExactly | libsylph/session.c:867-904 | on any stream, what is handed over is the text before the first terminator exactly when one of the reads ends with that terminator |
| Session.ReadersAgreeExactly | libsylph/session.c:867-880 | the in-memory reader stops after the same read as the windowed one, exactly unless the stream starts with the terminator and the first read to reach past it does not end in another one |
| Session.StopsEarly | libsylph/session.c:867-880 | one stream and division for which the in-memory reader hands over a part of the terminator while the windowed one waits for the end |
| Session.Session.constructor | libsylph/session.c:85-139 | a new session has an empty buffer and no transfer in progress |
| Session.Session.FillWindow | libsylph/session.c:947-973 | a read of at most the space left extends the stream by exactly the bytes read and stays inside the 8192-byte buffer |
| Session.Session.RecvDataAsFile | libsylph/session.c:667-695 | a transfer starts with whatever the status line left in the buffer as the beginning of its stream |
| Session.WindowTest | libsylph/session.c:989-1003 | the two comparisons on the window are true exactly when the whole stream equals the terminator or ends in CR LF and the terminator, for every terminator of at most 6 bytes |
| Session.TerminatorInWindow | libsylph/session.c:1062-1078 | when the stream is terminated its terminator lies wholly inside the window, so the bytes to cut off are never spilled before |
| Session.Session.WindowTerminated | libsylph/session.c:989-1003 | the code of the test decides termination of the whole stream |
| Session.Session.Spill | libsylph/session.c:1030-1047 | writing out all but the last 8 bytes and sliding them to the front leaves the stream as it was |
| Session.Session.Compact | libsylph/session.c:1009-1021 | moving a short window to the front leaves the stream as it was |
| Session.Session.Retain | libsylph/session.c:1005-1060 | an incomplete read keeps spilled file and window equal to everything received, leaves at least 4096 bytes for the next read, and fails only when the disk does |
| Session.Session.Finish | libsylph/session.c:1062-1115 | a complete transfer hands over the stream without its terminator and empties the buffer; each failure of the disk or of the handler has its outcome |
| Session.Session.ReadDataAsFile | libsylph/session.c:930-1115 | one callback: the stream grows by what was read; it completes exactly when the stream is terminated, delivers the text before the terminator, and otherwise keeps the whole stream |
| Session.Session.TakeLine | libsylph/session.c:765-810 | one line, or all there is, leaves the buffer; a whole line is handed over without its line end, and the bytes after it stay |
| Session.Session.ReadMsg | libsylph/session.c:718-810 | one callback of the line reader, with its outcomes for a closed, failed or empty read |
| Session.Session.TakeData | libsylph/session.c:855-923 | the pending bytes join the array, which is delivered without its terminator when its test succeeds |
| Session.Session.ReadData | libsylph/session.c:812-923 | one callback of the in-memory reader |
| Session.Session.WriteBuf | libsylph/session.c:1117-1161 | one write of a queued command sends a prefix of what is left and says whether anything remains |
| Session.Session.WriteData | libsylph/session.c:1165-1226 | one write of a file block: what is sent and what remains are together what remained before, also after a short write and its seek back |
| Session.ReceiveFile | libsylph/session.c:667-716 | any division of a terminated stream into reads, with any idle wake-ups, delivers exactly the text before the terminator and completes with the last byte |
| Session.SendFile | libsylph/session.c:588-624 | any division into accepted writes sends every byte of the file once and in order |
| PopFile.EditChunk | libsylph/pop.c:636-662 | the in-place edits of one chunk are the removal of one dot of a leading pair and of the CR before LF |
| PopFile.WriteMsgToFile | libsylph/pop.c:620-679 | the line loop writes the decoded text, chunk by chunk as fgets cuts it |
| PopFile.LineReturnsExactly | libsylph/pop.c:636-662 | a line of any length is stored as it was sent exactly under a condition on where its chunks end: with a leading dot, one chunk or dots up to the second byte of the last one; otherwise no CR of its own at the end of a chunk and no two dots at the start of the last one |
| PopFile.BodyReturnsExactly | libsylph/pop.c:620-679 | for every body without NUL, removing the dot stuffing of section 3 of RFC 1939 gives the body with LF for CR LF exactly when each of its lines meets that condition |
| PopFile.DecodeUndoesEncode | libsylph/pop.c:620-679 | a body of lines that fit the buffer, with their line end and the dot they may get, always comes back |
| PopFile.LongDotLineKeepsBothDots | libsylph/pop.c:652-654 | no line of 8189 bytes or more that starts with a single dot comes back |
| PopFile.CrAtChunkEndIsLost | libsylph/pop.c:647-648 | no line with a CR as its byte 8191 comes back, unless it starts with a dot |
| PopFile.WireTerminatedOnlyAtEnd | libsylph/session.c:989-1003 | a dot-stuffed body followed by the terminator is terminated at its last byte and never before |
| PopFile.RetrieveMessage | libsylph/pop.c:620-679 | from socket to file: however the stuffed message arrives, the stored file is the body with LF line ends exactly when its lines come back |
| Pop3Runs.LookupNextStops | libsylph/pop.c:681-730 | the search for the next message stops at the first one that is to be deleted or fetched and passes only messages that need neither, or logs out; which messages have to be deleted `Pop3Deletions.DeletesExactlyTheDue` says |
| Pop3Runs.LookupNextAccounts | libsylph/pop.c:681-730 | the size total grows by the sizes of exactly the messages passed over |
| Pop3Runs.StepKeepsShape | libsylph/pop.c:789-994 | every handler keeps the table of messages sized by the message count and the current message within it |
| Pop3Runs.StepSafe | libsylph/pop.c:789-994 | every handler keeps the safety invariant |
| Pop3Runs.ErrorsQuit | libsylph/pop.c:793-820 | every error reply is answered with QUIT, but for an unknown UIDL, after which LAST is tried, and an unknown LAST |
| Pop3Runs.SessionSafety | libsylph/pop.c:396-441 | in every run, whatever the server answers: at most one RETR and one DELE for each message, DELE only for a message accepted in this session or on file, no message accepted twice, the current message within bounds |
| Pop3Runs.CurrentNeverDecreases | libsylph/pop.c:681-730 | the current message never goes back while messages are processed |
| Pop3Runs.StepBurnsFuel | libsylph/pop.c:789-994 | each reply uses up a bounded amount of the work a session can still have |
| Pop3Runs.SessionTerminates | libsylph/pop.c:789-994 | no run is longer than 8 replies and three for each message |
| Pop3Delivery.ReadsBack | libsylph/pop.c:535-579 | an entry of the id file is found again with the time that is written there |
| Pop3Delivery.EntriesDistinct | libsylph/pop.c:581-618 | the id file names no message twice and only messages of the mailbox |
| Pop3Delivery.EntryWritten | libsylph/pop.c:581-618 | a received message that was not deleted is written to the id file |
| Pop3Delivery.SessionRemembers | libsylph/pop.c:302-347 | a session against a server with unique ids accepts no message that is on file, and leaves every message it accepted or found on file there, unless it has deleted it for good |
| Pop3Delivery.SafeOnceAccepted | libsylph/pop.c:581-618 | once a message has been accepted it stays on file, or gone, over all later sessions |
| Pop3Delivery.DeliveredAtMostOnce | libsylph/pop.c:396-427 | over any sequence of sessions, each ended in any way, with stable ids, a message is accepted in at most one of them |
| Pop3Accounts.TotalIsSumOfSizes | libsylph/pop.c:356-387 | after a session without errors in which LIST ran, the byte total is the sum of all listed sizes |
| Pop3Accounts.DeliversExactlyTheWanted | libsylph/pop.c:681-730 | a session without errors accepts exactly the messages that are new, not too large and not on file |
| Pop3WithoutIds.RefusedKeepsFile | libsylph/pop.c:581-618 | in every run in which UIDL is refused, whatever else happens, the ids count as unknown and the file of ids stays as it was; only an empty mailbox, of which it is not asked, clears it |
| Pop3WithoutIds.RefusedIgnoresTable | libsylph/pop.c:302-347 | such a run is the same with any other file of ids, but for the table itself |
| Pop3WithoutIds.WithoutUidlDeliversAgain | libsylph/pop.c:276-293 | every session without errors with a server that knows neither UIDL nor LAST accepts exactly the messages that are not empty and within the limit, whatever was accepted before |
| Pop3WithoutIds.LastDeliversTheRest | libsylph/pop.c:276-293 | with LAST in place of UIDL every session without errors accepts exactly the messages after the last one seen that are not empty and within the limit |
| Pop3Deletions.DeletesExactlyTheDue | libsylph/pop.c:681-730 | a session without errors deletes nothing before the first message that needs attention, and from there on exactly the messages that are marked for deletion on file, have been on the server for the days of the preference, or are due by what the store answered when it got them |
| Pop3Deletions.NextSessionKnowsTime | libsylph/pop.c:535-618 | what the next session reads for a message left on the server is the time on file before, or that of the session that accepted it |
| Pop3Client.Pop3Session.LookupNextMsg | libsylph/pop.c:681-730 | the loop over the messages is the search of the state machine |
| Pop3Client.Pop3Session.StatRecv | libsylph/pop.c:251-267 | the STAT reply sets up the table of messages as the state machine says |
| Pop3Client.Pop3Session.LastRecv | libsylph/pop.c:276-293 | the LAST reply sets the first new message |
| Pop3Client.Pop3Session.UidlDataRecv | libsylph/pop.c:302-347 | the loop over the UIDL listing records ids and times line by line |
| Pop3Client.Pop3Session.ListDataRecv | libsylph/pop.c:356-387 | the loop over the LIST listing records and sums the sizes |
| Pop3Client.Pop3Session.MsgDataRecv | libsylph/pop.c:396-427 | a retrieved message is stored, handed over and marked, with the outcome of each failure |
| Pop3Client.Pop3Session.DeleteRecv | libsylph/pop.c:436-441 | a confirmed DELE marks the message |
| Pop3Client.Pop3Session.RecvMsg | libsylph/pop.c:789-929 | the handler of status replies takes the step of the state machine |
| Pop3Client.Pop3Session.RecvData | libsylph/pop.c:931-994 | the handlers of data replies take the step of the state machine |
| Pop3Client.Pop3Session.WriteUidlList | libsylph/pop.c:581-618 | the loop writes the id file the state machine says, or leaves the old one |
| Pop3Client.GetUidlTable | libsylph/pop.c:535-579 | reading the id file gives each id its time, and the present time to a line without one |
| ThreadTree.RelinkAcyclic | libsylph/procmsg.c:1251-1256 | moving a node below one that is not in its own subtree keeps every node on a path to the root |
| ThreadTree.RelinkKeepsSubtree | libsylph/procmsg.c:1251-1256 | such a move leaves every other node in the subtrees it was in |
| ThreadTree.Tree.IsAncestor | libsylph/procmsg.c:1251-1252 | the ancestor test is true exactly for the nodes of the subtree |
| ThreadTree.Tree.InsertData | libsylph/procmsg.c:1218-1220 | a new message becomes a leaf below its parent, first or last |
| ThreadTree.Tree.Move | libsylph/procmsg.c:1253-1255 | unlinking and inserting moves one node and keeps the tree linked and acyclic |
| ThreadTree.Tree.AddAll | libsylph/procmsg.c:1207-1224 | the first loop puts each message below the first earlier one it replies to, and at top level exactly when there is none |
| ThreadTree.Tree.LookupParent | libsylph/procmsg.c:1235-1247 | the lookups give the wanted parent of `ThreadTree.WantedParentExactly` |
| ThreadTree.WantedParentExactly | libsylph/procmsg.c:1233-1246 | by the messages alone: the wanted parent is the first message with the id replied to, and only if no message has that id the first message with the nearest reference that any message has; there is none exactly when no message has any of these ids |
| ThreadTree.Tree.Settle | libsylph/procmsg.c:1233-1256 | a top-level message moves below its wanted parent unless that is missing, itself or below itself; what was stuck stays stuck |
| ThreadTree.Tree.CompleteThreads | libsylph/procmsg.c:1226-1258 | the second loop leaves at top level only messages whose wanted parent is missing or in their own subtree |
| ThreadTree.Tree.Build | libsylph/procmsg.c:1196-1258 | for every list of messages, with circular, missing and repeated ids: a tree with each message exactly once, every edge asked for by its message, and maximal |
| ThreadTree.TopLevelOnlyIfCircular | libsylph/procmsg.c:1244-1256 | a message whose wanted parent exists stays at top level only if following the wanted parents from that parent comes back to it |
| ImapFlags.ParseFlags | libsylph/imap.c:3331-3365 | the word loop over a FETCH flag list sets the message flags the words mean |
| ImapFlags.ParseImapFlags | libsylph/imap.c:3367-3395 | the word loop over a flag list fills the entry of the flag table |
| ImapFlags.ParsersAgree | libsylph/imap.c:3331-3395 | the two parsers agree on every flag list, whatever its words, case and spacing |
| ImapFlags.FlagsMean | libsylph/imap.c:3331-3365 | for every list of words with any white space: marked, replied and deleted are set exactly when a word starts with Flagged, Answered or Deleted after its backslash, in any case; unread when none starts with Seen; new when one starts with Recent and none with Seen; and the color is that of the last of the seven labels |
| ImapFlags.TableFlagsMean | libsylph/imap.c:3367-3395 | the same for the entry of the flag table |
| ImapFlags.EveryListIsWords | libsylph/imap.c:3354-3361 | every flag list is such a list of words |
| ImapSync.FolderItem.SetFlags | libsylph/procmsg.c:385-470 | each cached message takes over its mark, without the new bit when some message has none, a message without mark stays new, the three counters count the result, and the last number is the largest in the list |
| ImapSync.FolderItem.SyncFlags | libsylph/imap.c:1075-1155 | the loop drops vanished messages, follows the flags of the server, and keeps the counters equal to the counts of the list |
| ImapSync.FolderItem.SyncOne | libsylph/imap.c:1101-1154 | one message takes over the server flags and the counters move by the difference |
| ImapSync.SyncedIsUpToDate | libsylph/imap.c:1075-1155 | after the loop the cache holds only messages of the server, each in the state a fresh fetch would give, and no duplicates |
| ImapSync.SyncedHolds | libsylph/imap.c:1075-1155 | what remains of the cache has exactly the cached UIDs that the server still has |
| ImapSync.FirstNew | libsylph/imap.c:1157-1178 | the first UID of the server that is not cached is found |
| ImapSync.DeleteCached | libsylph/imap.c:2896-2934 | exactly the messages with UIDs in the range are removed |
| ImapSync.GetUncached | libsylph/imap.c:2738-2837 | the messages of the range are fetched in order and counted in |
| ImapSync.ResultAgreesExactly | libsylph/imap.c:1183-1201 | the list agrees with a fresh fetch, except exactly when nothing is new and the last UID is 2^32-1, so that the range to delete wraps |
| ImapSync.NothingDroppedExactly | libsylph/imap.c:1183-1190 | nothing that remained is thrown away exactly when none of it lies above the first new UID |
| ImapSync.Refresh | libsylph/imap.c:1157-1216 | the second half of the synchronisation gives the kept messages and the fetched ones, with the counters of both |
| ImapSync.SyncWithCache | libsylph/imap.c:1046-1216 | the whole synchronisation, in terms of cache and server: the list agrees with a fresh fetch exactly unless nothing is new and the last UID is 2^32-1, and the counters count it exactly when no cached message the server still has lies above the first new UID |
| ImapSync.GetMsgList | libsylph/imap.c:992-1254 | with or without a cache, and for every cache: exactly when the list is that of a fresh fetch, and exactly when the counters are those of the list; a mark queue makes the marks dirty |
| ImapSync.LastUidIsLost | libsylph/imap.c:1183-1190 | one cached message with UID 2^32-1: the list comes out empty |
| ImapSync.HoleIsCountedTwice | libsylph/imap.c:1183-1190 | a cached message above one that is not cached is thrown away and counted twice |
| SeqSet.ParsePrintedRange | libsylph/imap.c:5011-5040 | a printed range is read back as the range it stands for |
| SeqSet.ParsePrintedSet | libsylph/imap.c:4981-5053 | the text of a set parses back to its ranges |
| SeqSet.GetCount | libsylph/imap.c:5055-5084 | the count of a text is the number of UIDs its ranges cover |
| SeqSet.ComparesRightExactly | libsylph/procmsg.c:2399 | the comparison by number, a signed reading of an unsigned difference, orders two UIDs rightly exactly when they are less than 2^31 apart, or exactly that and in order |
| SeqSet.FarUidsCompareWrongly | libsylph/procmsg.c:2399 | of the UIDs 1 and 2^31+2 the comparison takes the second for the smaller |
| SeqSet.GetSeqSets | libsylph/imap.c:4981-5053 | for every list of different 32-bit UIDs, the emitted texts read back stand for each UID exactly once, in ascending order unless two are 2^31 or more apart; their counts add up to the number of messages; each keeps the limit and the length bound |
| SeqSet.TextsAreDisjoint | libsylph/imap.c:4981-5053 | no UID stands twice in one text, in one range or in two, nor in two texts |
| SeqSet.TextsReadBack | libsylph/imap.c:5055-5084 | the texts read back give their ranges, and their counts add up to the number of UIDs they stand for |
| FolderPaths.PartIsParent | libsylph/imap.c:2301-2324 | the string test selects exactly the folders whose parent is the item, so the selection divides any list by parent |
| FolderPaths.GetPartFolderList | libsylph/imap.c:2291-2329 | the loop returns the direct children in list order |
| FolderPaths.AddParents | libsylph/imap.c:2256-2281 | the inner loop adds every missing parent of one path, each once |
| FolderPaths.AddInterFolders | libsylph/imap.c:2215-2289 | the list is completed by the missing intermediate folders, each once and not selectable |
| FolderPaths.ClosureIsLeast | libsylph/imap.c:2215-2289 | what results is the least set with the listed paths in which every parent is present |
| FolderTree.Prune | libsylph/imap.c:1991-2031 | the first loop leaves exactly the specified children, in order |
| FolderTree.PrunedExactly | libsylph/imap.c:1991-2031 | a real child stays, with the listed flags, exactly when it is listed; a virtual one exactly when no folder is listed in its place; nothing comes in |
| FolderTree.FindOrAppend | libsylph/imap.c:2033-2049 | a listed folder is found among the children or appended once |
| FolderTree.ScanTreeRecursive | libsylph/imap.c:1975-2087 | the recursion ends; at every level the real children are exactly the listed direct children, each once; the folders that were there stay in place with their subtrees, virtual ones untouched, and new ones come after them |
| FolderAccounts.EachOnce | libsylph/imap.c:1975-2087 | a listed folder that can be reached occurs exactly once in the tree |
| FolderAccounts.NothingElse | libsylph/imap.c:1991-2031 | no folder that is not listed is left in the tree |
| FolderAccounts.ScanTree | libsylph/imap.c:1963-1966 | listing, completing and scanning: every path occurs once in the tree if its part below the root is in the least closed set of the listed ones, and not at all otherwise |
| MimeTree.Next | libsylph/procmime.c:141-170 | the step of the walk computes the successor by the children, sub, next, parent and main links alone |
| MimeTree.WalkTree | libsylph/procmime.c:141-170 | from the root the walk visits a fixed sequence of parts and then ends |
| MimeTree.WalkIsCompleteExactly | libsylph/procmime.c:141-170 | that sequence is every part once in pre-order exactly when no message nested directly in a nested message has a later sibling |
| MimeTree.NestedMessagesHideASibling | libsylph/procmime.c:141-170 | the smallest tree with a part the walk never reaches |
| MimeTree.Traverse | libsylph/procmime.c:141-170 | the loop of the callers visits that sequence |
| MimeTree.Insert | libsylph/procmime.c:94-111 | a part is appended after the last child and the links of the others stay |
| MimeTree.Scan | libsylph/procmime.c:241-395 | scanning a structure builds fresh distinct nodes linked as that structure in pre-order |
| MimeTree.ScanAndWalk | libsylph/procmime.c:213-239 | the fresh nodes are the tree of the scanned message, the walk visits the specified sequence of them, and that is all of them in order exactly under the condition above |
| Rfc2231.UnescapeUndoesEscape | libsylph/utils.c:2025-2043 | decoding undoes percent encoding for every byte string |
| Rfc2231.SafeGoesThrough | libsylph/codeconv.c:2466-2468 | the bytes that are not encoded are the letters, the digits, five signs, and DEL |
| Rfc2231.EncodeFilename | libsylph/codeconv.c:2470-2493 | the loop writes the encoded text into three bytes for each byte and a NUL |
| Rfc2231.ContinueSplits | libsylph/codeconv.c:2541-2562 | each line of the continuation form holds whole encoded characters, so no %XX is split, and the number of the next line is one higher |
| Rfc2231.EncodedLinesFit | libsylph/codeconv.c:2536-2566 | every line of the continuation form, semicolon included, has at most 76 characters, for a parameter name of at most 58 and name and character set of at most 68 together |
| Rfc2231.OneLineFitsExactly | libsylph/codeconv.c:2525-2534 | the one-line form is not measured with its character set: exactly when it stays within 76 characters |
| Rfc2231.LongCharsetOverflows | libsylph/codeconv.c:2525-2534 | a file name of ten characters in EUC-JP makes a line of 80 |
| Rfc2231.ConvEncodeFilename | libsylph/codeconv.c:2495-2567 | an ASCII name is printed in quotes, one that cannot be converted gives no result, and for the others the loop over the encoded text prints the one-line or the continuation form |
| MimeParams.FindParameterDelimiter | libsylph/procmime.c:451-493 | the scan finds the equals sign and the first stop outside quotes |
| MimeParams.DecodeXdigits | libsylph/utils.c:2025-2043 | the decoding loop computes the percent decoding, dropping a percent sign without two digits |
| MimeParams.TakeParameter | libsylph/procmime.c:573-703 | one name and value: stars, counts, character set, continuation and the two ways to give up |
| MimeParams.ParseMimeParameter | libsylph/procmime.c:508-730 | the loop over the parameters of a header |
| MimeParamsRoundTrip.FieldIsParsed | libsylph/procmime.c:560-582 | one parameter is cut, stripped and taken as its name and value, whatever follows its semicolon |
| MimeParamsRoundTrip.ParsingUndoesPrinting | libsylph/procmime.c:508-730 | for every byte string, parsing a header with the parameter printed for it gives it back byte for byte with its character set, in the one-line and the continuation form |
| MimeParamsRoundTrip.AsciiReturnsExactly | libsylph/codeconv.c:2509-2510 | an ASCII name is printed in quotes without escapes: it comes back up to its first quote, and as it was exactly when it holds none |
| MimeParamsRoundTrip.QuoteCutsName | libsylph/codeconv.c:2509-2510 | one name with a quote, and what comes back of it |
| MimeParamsLists.ListReturnsExactly | libsylph/procmime.c:508-730 | a header with any list of plain, quoted, extended and continued parameters: the parser gives back their names, values and character sets in order exactly when no continued value directly follows another or is converted in a character set of another parameter |
| MimeParamsLists.ListIsGot | libsylph/procmime.c:508-730 | what the parser gives for every such list, those included that do not come back |
| MimeParamsLists.PlainListReturns | libsylph/procmime.c:601-681 | every list without continued values comes back |
| MimeParamsLists.SecondSeriesIsLost | libsylph/procmime.c:566-580 | a continued value that directly follows another is lost, with everything after it |
| MimeParamsLists.CharsetIsTakenOver | libsylph/procmime.c:604-668 | a continued value is converted in the character set of an extended parameter right after it |
| Jis.HanToZen | libsylph/codeconv.c:388-449 | a half-width kana and its sound mark give a graphic two-byte code, and two characters are used only with a sound mark |
| Jis.HanToZenIs | libsylph/codeconv.c:418-448 | a kana becomes the full-width one, or with its sound mark the voiced or half-voiced one after it, which uses up the mark |
| Jis.KanaInOrder | libsylph/codeconv.c:388-400 | the plain table follows row 5 of JIS X 0208, kana by kana with the voiced and small forms between them |
| Jis.SmallPrecedesFull | libsylph/codeconv.c:388-400 | each small kana has the code before that of the full-size one |
| Jis.VoicedFollowsPlain | libsylph/codeconv.c:401-411 | the voiced table agrees with the plain one |
| Jis.HalfVoicedFollowsVoiced | libsylph/codeconv.c:413-416 | the half-voiced table agrees with the plain one |
| Jis.RenderedIsRead | libsylph/codeconv.c:186-269 | reading back what the shift macros and the encoder wrote gives the EUC form of the characters |
| Jis.EscapeIsRead | libsylph/codeconv.c:198-232 | each escape sequence of section 4 of RFC 1468, and those of JIS X 0201 kana and JIS X 0212, is read as the shift to its character set, in every state and whatever follows |
| Jis.UnknownEscapeIsDropped | libsylph/codeconv.c:198-232 | any other ESC is dropped with an error and leads to ASCII |
| Jis.LockingShiftIsRead | libsylph/codeconv.c:233-238 | SO shifts to kana and SI back, in every state |
| Jis.WritingIsRead | libsylph/codeconv.c:186-269 | whichever escape sequences a writer chooses at each shift, reading gives the EUC form of the characters |
| Jis.NoErrorExactlyOnEuc | libsylph/codeconv.c:451-551 | the encoder reports no error exactly on sequences of EUC-JP characters, as an independent grammar has them, with and without half-width kana |
| Jis.BadBytesAreReplaced | libsylph/codeconv.c:468-541 | what the encoder puts for bytes that are no character: one substitute or two, or none for a lone shift, and how many bytes it passes over |
| Jis.EucReadsAsMeantExactly | libsylph/codeconv.c:186-269 | for every byte string, valid or not, reading the output back gives the characters the encoder meant to write exactly when the input has no ESC, SO or SI |
| Jis.EucRoundTripsExactly | libsylph/codeconv.c:451-551 | with half-width kana allowed, conv_jistoeuc undoes conv_euctojis exactly on EUC-JP text without ESC, SO and SI |
| Jis.EucToJisWellFormedExactly | libsylph/codeconv.c:451-551 | for every byte string, valid or not: the output follows the formal syntax of RFC 1468, with every line break in the ASCII state and that state at the end, exactly when each run of text copied from the input, taken by itself, can be read up to the next shift and the last one goes back to ASCII |
| Jis.EucToJisIsWellFormed | libsylph/codeconv.c:451-551 | the corollary a caller can check: without ESC, SO and SI in the input the output follows the formal syntax of RFC 1468 |
| Jis.EscapesPassThrough | libsylph/codeconv.c:463-465 | an escape in the input goes through and can leave the reader in another state |
| Jis.SomeEscapesAreHarmless | libsylph/codeconv.c:463-465 | an escape to ASCII in the input goes through and leaves the output well-formed, but is lost when read |
| Jis.EucToJisFits | libsylph/codeconv.c:459-546 | the output has at most 3n+2 bytes and the NUL, by one byte in hand outside the ASCII state |
| Sjis.PairRoundTrips | libsylph/codeconv.c:553-558 | the index arithmetic and the row arithmetic are inverse on every pair with a lead byte in the two JIS ranges |
| Sjis.RowAndColumn | libsylph/codeconv.c:553-558 | the index of a pair is its JIS row and column |
| Sjis.IbmExtMoves | libsylph/codeconv.c:560-585 | an IBM extension character lands in the NEC rows and never comes back as it was |
| Sjis.IbmExtCollides | libsylph/codeconv.c:560-585 | two different IBM extension characters get the same code |
| Sjis.NoErrorExactlyOnSjis | libsylph/codeconv.c:587-685 | the encoder reports no error exactly on sequences of Shift_JIS characters, as an independent grammar has them |
| Sjis.BadBytesAreReplaced | libsylph/codeconv.c:601-675 | what the encoder puts for bytes that are no character, and how many it passes over |
| Sjis.EscapeIsRead | libsylph/codeconv.c:283-318 | each escape sequence that this reader knows, among them that of the user-defined characters, is read as the shift to its set |
| Sjis.UnknownEscapeIsDropped | libsylph/codeconv.c:283-318 | any other ESC, also that of JIS X 0212, is dropped with an error and leads to ASCII |
| Sjis.WritingIsRead | libsylph/codeconv.c:271-343 | whichever escape sequences a writer chooses at each shift, reading gives the Shift_JIS form of the characters |
| Sjis.UserDefinedIsRead | libsylph/codeconv.c:351-368 | the 20 rows of user-defined characters are read as the lead bytes 0xf0 to 0xf9 |
| Sjis.HighRowIsRead | libsylph/codeconv.c:330-343 | the rows beyond the 94 of JIS X 0208 are read as the lead bytes from 0xf0 on |
| Sjis.SjisReadsAsMeantExactly | libsylph/codeconv.c:271-343 | for every byte string, valid or not, reading the output back gives the characters the encoder meant to write exactly when the input has no ESC, SO or SI |
| Sjis.SjisRoundTripsExactly | libsylph/codeconv.c:587-685 | conv_jistosjis undoes conv_sjistojis exactly on Shift_JIS text without IBM extension characters and without ESC, SO and SI |
| Sjis.SjisToJisWellFormedExactly | libsylph/codeconv.c:587-685 | for every byte string, the output follows the formal syntax of RFC 1468 exactly when the runs of text copied from the input do |
| Sjis.AsciiIsWrittenAlike | libsylph/codeconv.c:596-600 | on ASCII the two encoders give the same output, so that an escape in the input does the same harm |
| Sjis.SjisToJisIsWellFormed | libsylph/codeconv.c:587-685 | the corollary a caller can check: without ESC, SO and SI in the input the output follows the formal syntax of RFC 1468 |
| Sjis.SjisToJisFits | libsylph/codeconv.c:596-682 | the output has at most 5n+3 bytes and the NUL |
| Sjis.PairsAgree | libsylph/codeconv.c:701-717 | the two row and column formulas agree on every pair |
| Sjis.SquareCommutesExactly | libsylph/codeconv.c:687-751 | conv_sjistoeuc equals conv_jistoeuc after conv_sjistojis exactly where no IBM extension character is read and there is no ESC, SO or SI |
| JisBuffers.ConvEucToJis | libsylph/codeconv.c:451-551 | the loop with its shift state writes the specified output inside a buffer of 3n+4 bytes, and reports an error exactly on what is not EUC-JP |
| JisBuffers.ConvSjisToJis | libsylph/codeconv.c:587-685 | the loop writes the specified output inside a buffer of 5n+4 bytes, and reports an error exactly on what is not Shift_JIS |
| JisBuffers.ConvJisToEuc | libsylph/codeconv.c:186-269 | the loop writes the specified output and error flag inside a buffer of 2n+1 bytes |
| JisBuffers.ConvJisToSjis | libsylph/codeconv.c:271-383 | the loop writes the specified output and error flag inside a buffer of 2n+1 bytes |
| JisBuffers.ConvSjisToEuc | libsylph/codeconv.c:687-751 | the loop writes the specified output and error flag inside a buffer of 2n+1 bytes |
| Md5Functions.F1IsF | libsylph/md5.c:209-211 | the shortened core function is F of section 3.4 of RFC 1321 |
| Md5Functions.F2IsG | libsylph/md5.c:212 | the shortened core function is G |
| Md5Transform.MD5Transform | libsylph/md5.c:224-305 | the 64 unrolled steps are the operations of the standard in table form |
| Md5.FoldAppends | libsylph/md5.c:130-151 | the chaining value of a concatenation is that of the second part continued from the first |
| Md5.CounterAdds | libsylph/md5.c:111-116 | the two words with their carry count the bits modulo 2^64 |
| Md5.CounterGivesRest | libsylph/md5.c:118 | the number of waiting bytes can be read off the counter |
| Md5.EndsInOneBlock | libsylph/md5.c:185-200 | the padding of a short rest is one last block |
| Md5.EndsInTwoBlocks | libsylph/md5.c:174-200 | the padding of a long rest takes a second block |
| Md5.MD5Context.Update | libsylph/md5.c:105-152 | after an update the context stands for the bytes so far and the new ones: chaining value, waiting bytes and counter |
| Md5.MD5Context.Final | libsylph/md5.c:159-204 | the digest is the one-shot digest of sections 3.1 to 3.5 of RFC 1321, and the context is cleared |
| Md5.DigestInPieces | libsylph/md5.c:482-504 | any sequence of updates gives the digest of the pieces put together |
| Md5.New | libsylph/md5.c:330-340 | the digest of one buffer |
| Md5Suite.LettersDigest | libsylph/md5.c:224-305 | the digest of the 26 small letters is that of the test suite in appendix A.5 of RFC 1321 |
| Md5.HmacGet | libsylph/md5_hmac.c:37-109 | the routine computes H(K XOR opad, H(K XOR ipad, text)) of section 2 of RFC 2104 for every key length |
| QuotedPrintable.EncodeLine | libsylph/quoted-printable.c:39-86 | the loop with its column counter writes the specified encoding |
| QuotedPrintable.EncodedLinesAreGood | libsylph/quoted-printable.c:39-86 | every line of the output is ended, has at most 76 characters and does not end in a space or tab |
| QuotedPrintable.EncodedIsPrintable | libsylph/quoted-printable.c:39-86 | the output consists of printable ASCII, blanks and line breaks |
| QuotedPrintable.PlainLineIsKept | libsylph/quoted-printable.c:39-86 | a short line of printable ASCII without equals signs stays as it is |
| QuotedPrintable.DecodeLineInPlace | libsylph/quoted-printable.c:88-114 | the line is decoded in its own array, the write position never passing the read position |
| QuotedPrintable.DecodeUndoesEncode | libsylph/quoted-printable.c:39-114 | decoding line by line gives the text with LF for CR LF and a final line break added if missing |
| QuotedPrintablePart.DecodePart | libsylph/procmime.c:981-1000 | the loop over the lines of a part, up to its boundary, with the empty line held back, writes the specified text |
| QuotedPrintablePart.WholeIsDecoded | libsylph/procmime.c:981-1000 | without a boundary every line is decoded and none is lost |
| QuotedPrintablePart.PartReturnsExactly | libsylph/procmime.c:981-1000 | a text encoded into a part of a multipart comes back, with LF for CR LF and ended, exactly when no line of the encoding looks like the boundary |
| QuotedPrintable.QDecodeUndoesQEncode | libsylph/quoted-printable.c:116-185 | Q decoding undoes Q encoding for every string |
| QuotedPrintable.QEncodeIsPrintableExactly | libsylph/quoted-printable.c:165-185 | the Q encoding is fit for an encoded word of section 4.2 of RFC 2047, without question mark, white space and control characters, exactly when the text has no DEL |
| QuotedPrintable.QPlainIsKept | libsylph/quoted-printable.c:165-185 | printable ASCII without the three special signs stays as it is |
| HexDigits.HexIsRead | libsylph/quoted-printable.c:187-213 | the hexadecimal digits and their values |
| QuotedPrintable.GetQEncodingLen | libsylph/quoted-printable.c:145-163 | the predicted length is the length of the encoding |
| QuotedPrintable.QEncodeInto | libsylph/quoted-printable.c:165-185 | the encoding fits a buffer of the predicted length |
| QuotedPrintable.DecodeQEncoding | libsylph/quoted-printable.c:116-143 | the loop computes the Q decoding |
| Mbox.BodyGoesThrough | libsylph/mbox.c:172-232 | no line of an exported body is taken for a separator, and empty lines held back come out in place |
| Mbox.BodyIsRead | libsylph/mbox.c:172-232 | a body is read back line by line, and exactly an empty last line is dropped |
| Mbox.ImportOfExport | libsylph/mbox.c:70-331 | importing the bytes of an exported file gives the same number of messages in order, each with its Return-Path line, its first line and its returned lines |
| Mbox.RoundTripExactly | libsylph/mbox.c:506-572 | on bytes, and unless a line or piece that fills the line buffer starts with From: behind its added header each message comes back byte for byte exactly when its last line is ended or fills the buffer and each line after the first, or piece of a longer line, survives |
| Mbox.LineSurvivesExactly | libsylph/mbox.c:174-224 | what one fgets gives returns unchanged exactly when it does not start with a quoted From and, if it starts with CR or LF, is just LF |
| Mbox.CrLineIsLost | libsylph/mbox.c:175-179 | a message with a line that starts with CR does not come back |
| Mbox.QuoteIsLost | libsylph/mbox.c:217-219 | a message with a line that starts with a quoted From does not come back |
| Mbox.UnendedLineIsEnded | libsylph/mbox.c:559-564 | a message whose last line has no LF comes back with one |
| Mbox.CrAtPieceStartIsLost | libsylph/mbox.c:175-179 | every message with a line longer than the line buffer whose second piece starts with CR fails to come back |
| Mbox.ShiftedPieceSplits | libsylph/mbox.c:559-563 | a long line that starts with From gets one byte more, so that another piece of it is taken for a separator: every message of this family is imported as two |
| Mbox.FittingIsExportable | libsylph/mbox.c:559-563 | if no long line starts with From, and a short one leaves room for its quote and LF, the import reads the pieces that the export wrote |
| Mbox.MessageReturnsExactly | libsylph/mbox.c:172-232 | the text of one message returns exactly when its last line is ended or fills the line buffer and all its lines and pieces after the first survive |
| Mbox.ReturnPathNamesSender | libsylph/mbox.c:156-171 | the added header names the sender of the separator line |
| Mbox.FromIsNoHeader | libsylph/utils.c:1343-1354 | a line that starts with From and a space is never a header |
| Mbox.ExportMessages | libsylph/mbox.c:506-572 | the loop writes separator, escaped lines and an LF for each message, the LF ending a last line that lacks it |
| Mbox.ReadRun | libsylph/mbox.c:181-204 | in a run of From lines either a separator is found or the last one was text |
| Mbox.ReadMessage | libsylph/mbox.c:172-232 | the loop over the lines of one message |
| Mbox.ImportDivides | libsylph/mbox.c:70-204 | any file, exported or not: it is taken exactly when its first line that is not empty starts with From and is not the last one, and has one message more than later lines that start with From and are followed by a header or a quoted From |
| Mbox.HeaderLineIs | libsylph/utils.c:1343-1354 | a header line has a colon after at least one character and before any space |
| Mbox.ImportFile | libsylph/mbox.c:70-331 | the whole import of the bytes of a file, and the files it refuses |
| Fgets.JoinOfLines | libsylph/mbox.c:559-563 | what fgets reads from a text without NUL is the text |
| Fgets.LinesOfText | libsylph/mbox.c:172-174 | from a text without NUL fgets gives whole lines and full buffers without LF, and at most one line that is not ended at the end |
| Fgets.ChunksBefore | libsylph/mbox.c:172-174 | lines and full buffers written one after another are read back as they were, whatever follows them |
| Fgets.LinesBefore | libsylph/mbox.c:172-174 | lines written one after another are read back as they were, whatever follows them |
| Base64.DecodeUndoesEncode | libsylph/base64.c:42-114 | decoding undoes encoding for every byte string |
| Base64.AlphabetIsTable | libsylph/base64.c:26-27 | the alphabet is Table 1 of section 6.8 of RFC 2045 |
| Base64.OnlyTheAlphabetIsRead | libsylph/base64.c:29-40 | no other character has a value |
| Base64.GroupIsNumber | libsylph/base64.c:47-72 | the characters of a group are the digits to the base 64 of the number that its bytes are to the base 256 |
| Base64.EncodeText | libsylph/base64.c:42-73 | the loop and its two endings write the encoding |
| Base64.DecodeText | libsylph/base64.c:75-114 | the loop decodes group by group and stops at the first bad one |
| Base64.EncodeLength | libsylph/base64.c:42-73 | the length of the encoding |
| Base64.FeedDivides | libsylph/base64.c:129-168 | one call of the streaming decoder gives a prefix of what is to come, and what it keeps with the later text encodes the rest |
| Base64.StreamingDecodes | libsylph/base64.c:129-168 | encoded text with line breaks anywhere, cut into pieces anywhere: no call fails and the outputs together are the original bytes |
| Base64.Base64Decoder.Decode | libsylph/base64.c:129-168 | one call with its kept characters; a bad character leaves the decoder as it was |
| Base64.DecodePieces | libsylph/procmime.c:1028-1040 | the loop over the pieces gives the original bytes |

## Left out

- Sockets, TLS, timeouts, main-loop tags, authentication and STLS: a read is any non-empty chunk of the size asked for, a write any accepted prefix.
- Files and memory: a file is a sequence of bytes, and allocation succeeds.
- POP3 replies are given parsed; the error texts, `skipped_num` and the byte counters for display are not modelled, nor is a LAST reply without a number, which leaves the variable unset.
- The products `size_limit * 1024` and the leave time in seconds are mathematical integers.
- Pop3Delivery.DeliveredAtMostOnce: asks for unique ids that are stable and for sessions without "get all", which is what section 7 of RFC 1939 and the preference promise.
- IMAP commands and replies as text, unparsable envelopes, a FETCH line without FLAGS, a mailbox that reports messages but lists no UIDs, and the sorting of the list by the key of the folder.
- ImapSync.SyncWithCache: says nothing of the new and deleted bits of single messages, which the code does not take from the server.
- SeqSet.GetCount: takes a number to start with a digit, where sscanf also takes white space and a sign before it; the printed sets have neither.
- SeqSet.GetSeqSets: is given the list as GLib's `g_slist_sort` left it; of a list with UIDs 2^31 or more apart, for which the comparison is no order, it asks only for the same UIDs.
- FolderTree.ScanTreeRecursive: works on values and returns the new subtree; updating the linked items in place, the special folders Inbox, Sent, Drafts, Queue and Trash, and the counters of unselectable folders are not captured.
- FolderAccounts.ScanTree: asks for listed paths without empty components and without the no-subfolders flag; with that flag `FolderTree.ScanTreeRecursive` still holds.
- The order of children below the top level of the thread tree.
- MIME boundaries in the text, sizes and offsets of parts and the bound on nesting: `MimeTree.Scan` is given the structure of the text.
- MimeParams.ParseMimeParameter: leaves out the repair of raw ISO-2022-JP; character sets and header words are recorded and not converted, and the language tag is not kept.
- MimeParamsLists.ListReturnsExactly: is for parameters without white space around the equals sign, names and character sets without the signs that the parser looks for, and extended values without a language tag.
- Pop3Deletions.DeletesExactlyTheDue: asks for a clock later than the four numbers that stand for marks, and for unique ids.
- Md5.HmacGet: takes the host as little-endian, where the byte reversal does nothing; makes no claim about the strength of the digest; and is for the two pad bytes of section 2 of RFC 2104 as they stand in the definition of `Md5.Hmac`; no digest with a key is worked out.
- MimeParamsRoundTrip.ParsingUndoesPrinting: asks for a parameter name of at most 58 token characters, for which the 80 places of the line buffer suffice.
- Jis.EucRoundTripsExactly: holds for half-width kana passed through; the conversion to full width loses their width by design.
- iconv, which is given by its result, UTF-8, modified UTF-7, the guess of an encoding, and `conv_encode_header`.
- QuotedPrintablePart.DecodePart: stops at the decoded text; the normalisation of line breaks that follows for text types, and the same loop for base64 and uuencode up to a boundary, are left out.
- Mbox.RoundTripExactly: asks for messages without NUL whose first line is a header, for separators that fit the line buffer, and for no line or piece of a line that starts with From and fills the buffer with its quote and the LF it may get; `Mbox.ShiftedPieceSplits` shows what such a line can do.
- Session.ReceiveData: the time limit and the progress notice of a transfer are left out, as in `Session.ReceiveFile`.
- mbox locking, filtering, junk detection, and the address extraction for the separator line; a read past a cancelled import.
- Threads of IMAP commands, user-interface callbacks, logging and Windows branches.
