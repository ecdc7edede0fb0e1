# GreenMail IMAP request core in Dafny

This project models the part of the GreenMail mock mail server that handles
IMAP4rev1 requests (RFC 2060). It has five parts:

- **`ImapRequestLineReader`** (`request_reader.dfy`). The client's bytes are a
  `seq<bv8>`, and a position records how much of the stream has been taken. The
  reader holds at most one look-ahead char (`nextSeen`/`nextChar`). Its
  primitives are `nextChar`, `consume`, `nextWordChar`, `eol`, `read`,
  `commandContinuationRequest` and `consumeLine`. A ghost `Cursor()` is the
  index of the next char the parser will see.
- **The SEARCH criteria parser** (`search_spec.dfy`, `search_command.dfy`).
  `search_spec.dfy` states what each parser step computes, as functions of the
  input and a cursor index. `search_command.dfy` holds the parser methods. They
  work on the shared reader with the loops of the original, and each is proved
  to agree with its function. The same file builds the id list of the untagged
  SEARCH response (RFC 2060 section 7.2.5).
- **`ImapSessionFolder`** (`session_folder.dfy`). This is the per-session view
  of a selected mailbox. It buffers expunge notifications, flag updates per
  MSN (message sequence number) and a size-changed flag, and hands them out on
  request. Beside it are the mailbox it watches (`MailFolder`, reduced to the
  attributes read here) and the session holding the selection.
- **SELECT and EXAMINE** (`select_command.dfy`). The command reads the mailbox
  name and the end of line, deselects, opens a view on the mailbox and returns
  the eight responses of RFC 2060 section 6.3.1 in order.
- **`GreenMailUtil`** (`greenmail_util.dfy`). This covers:
  - compressing a UID list into the ranges of an RFC 2060 section 9 `set`;
  - rendering those ranges as text;
  - the password generator;
  - the line counter.

Two modules support these parts. `wrappers.dfy` has `Option` and a `Result`
whose errors stand for the exceptions raised (`ProtocolException`,
`FolderException`, `IllegalStateException`, `StringIndexOutOfBoundsException`, a null folder). `text.dfy` renders
Java integers in decimal, joins and splits on a separator, and has the parsers
that prove those renderings unambiguous.

Source paths below are relative to the repository root.

## Model

| member | source | states |
|---|---|---|
| RequestReader.ImapRequestLineReader.constructor | source/java/com/icegreen/greenmail/imap/ImapRequestLineReader.java:63-67 | A new reader has taken nothing from the stream, buffers nothing and has written nothing. |
| RequestReader.ImapRequestLineReader.NextChar | source/java/com/icegreen/greenmail/imap/ImapRequestLineReader.java:99-119 | Returns the char at the cursor without moving the cursor. With a char buffered, it reads nothing more and returns that char again. At end of stream it fails with "Unexpected end of stream." and changes nothing. |
| RequestReader.ImapRequestLineReader.Consume | source/java/com/icegreen/greenmail/imap/ImapRequestLineReader.java:159-167 | Returns the char at the cursor and moves the cursor by exactly one. It takes a byte from the stream only when nothing was buffered, then clears the buffer. At end of stream it fails. |
| RequestReader.ImapRequestLineReader.NextWordChar | source/java/com/icegreen/greenmail/imap/ImapRequestLineReader.java:78-90 | Skips exactly the spaces: the cursor ends at `SkipSpaces`. It returns that char unconsumed. CR or LF fails with "Missing argument.", and end of stream fails too. |
| RequestReader.SkipSpaces | source/java/com/icegreen/greenmail/imap/ImapRequestLineReader.java:80-83 | The first index at or after `i` that is not a space, or the end. |
| RequestReader.ImapRequestLineReader.Eol | source/java/com/icegreen/greenmail/imap/ImapRequestLineReader.java:128-148 | Succeeds exactly when `EolAt` finds `SP* CR? LF`. The LF is then the buffered, unconsumed char. Every failure is a ProtocolException. |
| RequestReader.EolAtIff | source/java/com/icegreen/greenmail/imap/ImapRequestLineReader.java:128-148 | `EolAt` stops at `k` exactly when the bytes from the cursor to `k` are spaces, then at most one CR, then the LF at `k`. |
| RequestReader.ImapRequestLineReader.Read | source/java/com/icegreen/greenmail/imap/ImapRequestLineReader.java:177-200 | When the stream holds enough bytes, it fills all of `holder`: element k is byte k masked to 0..255. It then drops the buffered char. Otherwise it fails with "Unexpected end of stream." after copying what was there. |
| RequestReader.ImapRequestLineReader.CommandContinuationRequest | source/java/com/icegreen/greenmail/imap/ImapRequestLineReader.java:206-217 | Appends exactly the bytes `+`, space, CR, LF to the output and touches nothing else. |
| RequestReader.LineEnd | source/java/com/icegreen/greenmail/imap/ImapRequestLineReader.java:221-225 | The index of the first LF at or after the cursor, if there is one. |
| RequestReader.ImapRequestLineReader.ConsumeLine | source/java/com/icegreen/greenmail/imap/ImapRequestLineReader.java:219-227 | Consumes everything up to and including the first LF and nothing after it. Without an LF, it fails at end of stream. |
| SearchSpec.KeyKind | src/main/java/com/icegreen/greenmail/imap/commands/SearchCommand.java:171-172 | What a key takes after it, in any letter case. A key that is accepted is never empty. |
| SearchSpec.TrimFirstSpace | src/main/java/com/icegreen/greenmail/imap/commands/SearchCommand.java:255-262 | Consumes one space if one is next. It fails only at end of stream. |
| SearchSpec.KeyEnd | src/main/java/com/icegreen/greenmail/imap/commands/SearchCommand.java:163-168 | The key token ends at the first space, CR, LF or `)`. |
| SearchSpec.ExtractTerm | src/main/java/com/icegreen/greenmail/imap/commands/SearchCommand.java:151-179 | A criterion that parses consumes at least one char. |
| SearchSpec.ExprParams | src/main/java/com/icegreen/greenmail/imap/commands/SearchCommand.java:181-188 | Reads exactly `n` criteria as operands. |
| SearchSpec.StrParams | src/main/java/com/icegreen/greenmail/imap/commands/SearchCommand.java:190-253 | Reads exactly `n` string parameters, each unescaped with the corrected unescaping. |
| SearchSpec.Paren | src/main/java/com/icegreen/greenmail/imap/commands/SearchCommand.java:302-315 | A group that parses ends after the cursor. |
| SearchSpec.ParamScanShape | src/main/java/com/icegreen/greenmail/imap/commands/SearchCommand.java:208-250 | The raw parameter text never holds `)`, CR or LF, and holds a space only inside quotes. The scan stops before `)`, CR, LF or an unquoted space, or just after a closing quote. |
| SearchSpec.UnescapeEscape | src/main/java/com/icegreen/greenmail/imap/commands/SearchCommand.java:264-293 | Unescaping undoes the quoted-string escaping of RFC 2060 section 9 for every text. |
| SearchSpec.UnescapeFree | src/main/java/com/icegreen/greenmail/imap/commands/SearchCommand.java:275-291 | A prefix without backslashes passes through the unescaping unchanged. |
| SearchSpec.IndexFrom | src/main/java/com/icegreen/greenmail/imap/commands/SearchCommand.java:275 | The first index at or after `from` that holds the char, or the length when there is none. |
| SearchSpec.ClearParameterAsWrittenFails | src/main/java/com/icegreen/greenmail/imap/commands/SearchCommand.java:273-293 | The code as written fails exactly when the text ends in an odd run of backslashes. Otherwise it equals the intended unescaping. |
| SearchSpec.ClearParameterAsWrittenExample | src/main/java/com/icegreen/greenmail/imap/commands/SearchCommand.java:278-280 | The code as written fails on the parameter `a\`. |
| SearchSpec.TrailingAppend | src/main/java/com/icegreen/greenmail/imap/commands/SearchCommand.java:276-291 | How the trailing backslash run of a concatenation follows from its parts. |
| SearchSpec.CriteriaEmpty | src/main/java/com/icegreen/greenmail/imap/commands/SearchCommand.java:128-133 | Criteria that reach CR or LF after at most one leading space are null. |
| SearchSpec.CriteriaSingle | src/main/java/com/icegreen/greenmail/imap/commands/SearchCommand.java:128-148 | One criterion followed by the line end is the result itself. |
| SearchSpec.CriteriaLeftFold | src/main/java/com/icegreen/greenmail/imap/commands/SearchCommand.java:133-147 | After a first criterion `t1`, two more space-separated criteria ending the line give `And(And(t1, t2), t3)`. |
| SearchSpec.CriteriaLoopTwo | src/main/java/com/icegreen/greenmail/imap/commands/SearchCommand.java:133-147 | Two passes of the `searchTerm` loop fold both criteria onto the accumulator in order. |
| SearchSpec.CriteriaLoopNext | src/main/java/com/icegreen/greenmail/imap/commands/SearchCommand.java:133-147 | One pass of the `searchTerm` loop folds the criterion it read and continues after one trimmed space. |
| SearchSpec.ParenLoopCloses | src/main/java/com/icegreen/greenmail/imap/commands/SearchCommand.java:307-314 | A group that parses ends just after the `)` it consumed. |
| SearchSpec.ParenLoopNext | src/main/java/com/icegreen/greenmail/imap/commands/SearchCommand.java:307-312 | One pass of the `paren` loop folds the criterion read at the next word char onto the accumulator: the first one itself, later ones with `And`. |
| SearchSpec.ParenLoopTwo | src/main/java/com/icegreen/greenmail/imap/commands/SearchCommand.java:302-315 | Two criteria and the closing `)` are folded to the left, as outside a group: `( t1 SP t2 )` is `And(t1, t2)` for a non-null `t1`, and the group ends just after the `)`. |
| SearchSpec.ParenSpans | src/main/java/com/icegreen/greenmail/imap/commands/SearchCommand.java:302-315 | A group consumes both its `(` and its `)`. |
| SearchSpec.ParenEmpty | src/main/java/com/icegreen/greenmail/imap/commands/SearchCommand.java:302-315 | An empty group is null. |
| SearchSpec.ParenLineEnd | src/main/java/com/icegreen/greenmail/imap/commands/SearchCommand.java:306-311 | CR or LF before `)` fails with "Missing argument.". |
| SearchSpec.KeyTermShape | src/main/java/com/icegreen/greenmail/imap/commands/SearchCommand.java:163-188 | A key is the maximal non-empty run of chars other than space, CR, LF and `)`. NOT and OR get their operands as parsed criteria. Every other key gets as many string parameters as the key table says. |
| SearchSpec.QuotedParamRoundTrip | src/main/java/com/icegreen/greenmail/imap/commands/SearchCommand.java:197-251 | A quoted, escaped parameter reads back as the text the client meant. The closing quote is consumed. This holds for any text without `)`, CR or LF that does not end in a backslash. |
| SearchSpec.ParamQuoted | src/main/java/com/icegreen/greenmail/imap/commands/SearchCommand.java:202-251 | After a leading quote, the parameter is the unescaping of what the quoted scan collects, and it ends where that scan ends. |
| SearchSpec.QuotedScan | src/main/java/com/icegreen/greenmail/imap/commands/SearchCommand.java:202-250 | For an escaped text between quotes, the quoted scan collects exactly the escaped text and stops just after the closing quote. |
| SearchSpec.QuotedBackslashNotClosed | src/main/java/com/icegreen/greenmail/imap/commands/SearchCommand.java:223-231 | A quote after an escaped backslash does not close the parameter. `"a\\"` followed by CR reads as `a\"`, and the scan stops at CR. |
| SearchSpec.EscapeLast | src/main/java/com/icegreen/greenmail/imap/commands/SearchCommand.java:225 | Escaping keeps a text's last char a non-backslash. |
| SearchSpec.ScanEscaped | src/main/java/com/icegreen/greenmail/imap/commands/SearchCommand.java:208-250 | The scan of an escaped text stops exactly at its closing quote. |
| SearchCommand.TrimFirstSpace | src/main/java/com/icegreen/greenmail/imap/commands/SearchCommand.java:255-262 | Agrees with `SearchSpec.TrimFirstSpace` on the reader. |
| SearchCommand.SearchTerm | src/main/java/com/icegreen/greenmail/imap/commands/SearchCommand.java:126-149 | Returns the left fold of the criteria and leaves the cursor where `Criteria` says, or raises its error. |
| SearchCommand.ExtractSearchTerm | src/main/java/com/icegreen/greenmail/imap/commands/SearchCommand.java:151-179 | Agrees with `ExtractTerm`. |
| SearchCommand.KeyTerm | src/main/java/com/icegreen/greenmail/imap/commands/SearchCommand.java:163-178 | Agrees with `SearchSpec.KeyTerm`. |
| SearchCommand.ReadKey | src/main/java/com/icegreen/greenmail/imap/commands/SearchCommand.java:163-168 | Collects exactly the chars up to `KeyEnd`. It fails when the stream ends first. |
| SearchCommand.ExtractParameterExpression | src/main/java/com/icegreen/greenmail/imap/commands/SearchCommand.java:181-188 | Agrees with `ExprParams`. |
| SearchCommand.ExtractParameters | src/main/java/com/icegreen/greenmail/imap/commands/SearchCommand.java:190-253 | Agrees with `StrParams`. |
| SearchCommand.ExtractParameter | src/main/java/com/icegreen/greenmail/imap/commands/SearchCommand.java:197-251 | One pass of the `extractParameters` loop agrees with `Param`, which uses the corrected unescaping. |
| SearchCommand.ScanParameter | src/main/java/com/icegreen/greenmail/imap/commands/SearchCommand.java:208-250 | The char loop agrees with `ParamScan`: it collects the raw text and stops where the scan says, or fails at end of stream. |
| SearchCommand.ClearParameter | src/main/java/com/icegreen/greenmail/imap/commands/SearchCommand.java:273-293 | The in-place deletion loop, with its index guard corrected, returns `Unescape` of its input. |
| SearchCommand.Paren | src/main/java/com/icegreen/greenmail/imap/commands/SearchCommand.java:302-315 | Agrees with `SearchSpec.Paren`. |
| SearchCommand.IdListRoundTrip | src/main/java/com/icegreen/greenmail/imap/commands/SearchCommand.java:84-97 | The space-joined id list reads back as exactly the ids, in order. |
| SearchCommand.IdListSnoc | src/main/java/com/icegreen/greenmail/imap/commands/SearchCommand.java:86-96 | Each further id adds one space, or none for the first id, and its numeral. |
| SearchCommand.MsnsOf | src/main/java/com/icegreen/greenmail/imap/commands/SearchCommand.java:93-94 | Each found UID maps to its MSN. The list fails only if some found UID has no message. |
| SearchCommand.MsnsOfTotal | src/main/java/com/icegreen/greenmail/imap/commands/SearchCommand.java:93-94 | When every found UID names a message, the MSN list exists, and each MSN points back at its UID. |
| SearchCommand.MsnsOfPrefixFails | src/main/java/com/icegreen/greenmail/imap/commands/SearchCommand.java:87-96 | A UID without a message fails the whole list. |
| SearchCommand.BuildIdList | src/main/java/com/icegreen/greenmail/imap/commands/SearchCommand.java:85-97 | The found UIDs joined by single spaces when `useUids`. Otherwise their MSNs joined the same way, failing as `getMsn` does. |
| SearchCommand.DoProcess | src/main/java/com/icegreen/greenmail/imap/commands/SearchCommand.java:74-104 | A criteria error is returned as is, and a bad line end fails with a ProtocolException. On a deselected view it then fails as the null dereference in `folder.search` does, whatever was found. Otherwise it returns the criteria, the id list and `omitExpunged == !useUids`. A search by MSN fails with "No such message." when a found UID has no message. |
| SessionFolder.MsnOf | src/main/java/com/icegreen/greenmail/imap/ImapSessionFolder.java:72-75 | The MSN is the 1-based position of the first message with that UID. It fails exactly when no message has the UID. |
| SessionFolder.MailFolder.GetMsn | src/main/java/com/icegreen/greenmail/imap/ImapSessionFolder.java:72-75 | The search loop returns `MsnOf`. |
| SessionFolder.MailFolder.GetRecentCount | src/main/java/com/icegreen/greenmail/imap/ImapSessionFolder.java:160-162 | Returns the recent count, and clears it when `reset` is set. |
| SessionFolder.ImapSessionFolder.constructor | src/main/java/com/icegreen/greenmail/imap/ImapSessionFolder.java:59-65 | Opens the view with the given read-only mode and nothing pending. It registers the view as a listener of the folder. |
| SessionFolder.ImapSessionFolder.Deselect | src/main/java/com/icegreen/greenmail/imap/ImapSessionFolder.java:67-70 | Unregisters the view and nulls the folder. On an already deselected view it fails as the null dereference does. |
| SessionFolder.ImapSessionFolder.GetMsn | src/main/java/com/icegreen/greenmail/imap/ImapSessionFolder.java:72-75 | Passes the lookup to the folder. It fails once the view is deselected. |
| SessionFolder.ImapSessionFolder.IsReadonly | src/main/java/com/icegreen/greenmail/imap/ImapSessionFolder.java:93-95 | The mode fixed at construction. No method can change it. |
| SessionFolder.ImapSessionFolder.IsSizeChanged | src/main/java/com/icegreen/greenmail/imap/ImapSessionFolder.java:267-269 | The current size-changed flag. |
| SessionFolder.ImapSessionFolder.SetSizeChanged | src/main/java/com/icegreen/greenmail/imap/ImapSessionFolder.java:271-273 | Overwrites the flag and changes nothing else. |
| SessionFolder.ImapSessionFolder.Added | src/main/java/com/icegreen/greenmail/imap/ImapSessionFolder.java:131-133 | Sets the size-changed flag and changes nothing else. |
| SessionFolder.ImapSessionFolder.Expunged | src/main/java/com/icegreen/greenmail/imap/ImapSessionFolder.java:125-129 | Appends the MSN at the end of the pending list, keeping arrival order. |
| SessionFolder.ImapSessionFolder.FlagsUpdated | src/main/java/com/icegreen/greenmail/imap/ImapSessionFolder.java:135-138 | Keeps one entry per MSN: the new update replaces any earlier one for that MSN, and other entries stay. |
| SessionFolder.ImapSessionFolder.GetExpunged | src/main/java/com/icegreen/greenmail/imap/ImapSessionFolder.java:97-112 | Always empties the pending list. It returns the pending MSNs in arrival order, or fails with IllegalState after clearing when flag updates or a size change are pending. |
| SessionFolder.ImapSessionFolder.GetFlagUpdates | src/main/java/com/icegreen/greenmail/imap/ImapSessionFolder.java:114-123 | Returns one update per pending MSN, in strictly ascending MSN order, each the stored one. It then clears the map. On an empty map it returns an empty list. |
| SessionFolder.LeastExists | src/main/java/com/icegreen/greenmail/imap/ImapSessionFolder.java:57 | A non-empty set of MSNs has a least one, which the sorted map hands out first. |
| SessionFolder.ImapSessionFolder.CorrectForExpungedMessages | src/main/java/com/icegreen/greenmail/imap/ImapSessionFolder.java:177-187 | The backward loop adds one for each pending expunged MSN at or below its argument. |
| SessionFolder.ImapSessionFolder.GetFirstUnseen | src/main/java/com/icegreen/greenmail/imap/ImapSessionFolder.java:168-170 | The folder's first unseen MSN plus the number of pending expunged MSNs at or below it. It fails once deselected. |
| SessionFolder.CountAtMost | src/main/java/com/icegreen/greenmail/imap/ImapSessionFolder.java:180-185 | The correction never exceeds the number of pending expunges. |
| SessionFolder.CountAtMostSnoc | src/main/java/com/icegreen/greenmail/imap/ImapSessionFolder.java:125-129 | A new expunge notification raises the correction by one exactly when it is at or below the MSN. |
| SessionFolder.CountAtMostMonotone | src/main/java/com/icegreen/greenmail/imap/ImapSessionFolder.java:177-187 | The correction never decreases as the MSN grows. |
| SessionFolder.ImapSession.Deselect | source/java/com/icegreen/greenmail/imap/commands/SelectCommand.java:63 | Closes the selected view, if any. Afterwards nothing is selected, and no recent count changes. |
| SessionFolder.ImapSession.SetSelected | source/java/com/icegreen/greenmail/imap/commands/SelectCommand.java:100 | Selects a fresh view on the folder with the given read-only mode. |
| SelectCommand.MailboxSpec | source/java/com/icegreen/greenmail/imap/commands/SelectCommand.java:60 | A mailbox name that is read is a non-empty word, and something follows it before the stream ends. Failing to read one is a ProtocolException. |
| SelectCommand.MailboxSpecWord | source/java/com/icegreen/greenmail/imap/commands/SelectCommand.java:60 | A name is read exactly when a word follows the spaces before the stream ends. The name holds no space, CR or LF. |
| SelectCommand.WordSpec | source/java/com/icegreen/greenmail/imap/commands/SelectCommand.java:60 | A word that is read ends before the end of the stream, and its length is the number of chars consumed. |
| SelectCommand.ReadWord | source/java/com/icegreen/greenmail/imap/commands/SelectCommand.java:60 | The char loop agrees with `WordSpec`: it collects the chars up to the first space, CR or LF, or fails at end of stream. |
| SelectCommand.MailboxName | source/java/com/icegreen/greenmail/imap/commands/SelectCommand.java:60 | Agrees with `MailboxSpec` on the reader. |
| SelectCommand.Responses | source/java/com/icegreen/greenmail/imap/commands/SelectCommand.java:69-90 | There are always eight responses. |
| SelectCommand.ResponsesMeaning | source/java/com/icegreen/greenmail/imap/commands/SelectCommand.java:73-90 | `UNSEEN n` appears exactly when the first unseen is positive, and "No messages unseen" otherwise. The completion is last and carries READ-ONLY exactly when read-only, otherwise READ-WRITE. |
| SelectCommand.SelectMailbox | source/java/com/icegreen/greenmail/imap/commands/SelectCommand.java:93-102 | A missing or non-selectable mailbox is refused with a FolderException, and nothing is selected. Otherwise a fresh view with `readOnly` is selected and registered on the folder. |
| SelectCommand.DescribeSelection | source/java/com/icegreen/greenmail/imap/commands/SelectCommand.java:68-90 | Emits `Responses` for the new view, with the recent count read before a reset, in the fixed order. The count is reset only when asked. |
| SelectCommand.DoProcess | source/java/com/icegreen/greenmail/imap/commands/SelectCommand.java:56-91 | A name or end of line that fails to parse is a ProtocolException, the name's own error as is, and changes no selection, listener or recent count. Otherwise the old view is deselected and its mailbox stops notifying it. A missing or non-selectable mailbox leaves none selected and no recent count changed. A selectable one gets a fresh view, read-only exactly for EXAMINE, with its recent count reset exactly for SELECT. Its listeners become exactly the old ones, less the old view when it was the same mailbox, plus the new view. The responses are `Responses` of its attributes. No other mailbox changes its recent count or listeners. |
| SelectCommand.Reselect | source/java/com/icegreen/greenmail/imap/commands/SelectCommand.java:63-90 | The same outcome once the request line is read: the old view is removed from its mailbox's listeners, and the named mailbox is selected, gets exactly the new view added to its listeners, and is described, if it can be. No other mailbox is touched. |
| GreenMailUtil.SortSeq | src/main/java/com/icegreen/greenmail/util/GreenMailUtil.java:364-365 | The sorted copy is ascending and a permutation of the list. |
| GreenMailUtil.ConvertUidsToIdRangeArray | src/main/java/com/icegreen/greenmail/util/GreenMailUtil.java:357-392 | The ranges are canonical: each has lo ≤ hi, and neighbours are strictly ascending with a gap of at least one missing UID. Their union is exactly the set of given UIDs. A null or empty list gives no ranges. |
| GreenMailUtil.CompressCanonical | src/main/java/com/icegreen/greenmail/util/GreenMailUtil.java:367-389 | The loop's ranges over a sorted list are canonical and cover exactly its elements. Duplicates collapse. |
| GreenMailUtil.SortedCompression | src/main/java/com/icegreen/greenmail/util/GreenMailUtil.java:364-389 | Compressing the sorted copy of any list gives canonical ranges that cover exactly the UIDs in the list. |
| GreenMailUtil.CompressStateFresh | src/main/java/com/icegreen/greenmail/util/GreenMailUtil.java:386-389 | The range under construction is never among the finished ones, so the final `contains` test always appends it. |
| GreenMailUtil.SortSeqElems | src/main/java/com/icegreen/greenmail/util/GreenMailUtil.java:364-365 | Sorting the copy keeps the set of UIDs. |
| GreenMailUtil.IdRangeToString | src/main/java/com/icegreen/greenmail/util/GreenMailUtil.java:399-402 | The rendering is non-empty and holds no comma. |
| GreenMailUtil.IdRangeRoundTrip | src/main/java/com/icegreen/greenmail/util/GreenMailUtil.java:399-402 | `n` for a one-UID range and `lo:hi` otherwise both read back as the range. |
| GreenMailUtil.IdRangesRoundTrip | src/main/java/com/icegreen/greenmail/util/GreenMailUtil.java:404-418 | The comma-joined list reads back as the same ranges. |
| GreenMailUtil.JoinEnds | src/main/java/com/icegreen/greenmail/util/GreenMailUtil.java:408-415 | The joined string has no leading or trailing comma, and is empty exactly when there are no ranges. |
| GreenMailUtil.IdRangesToString | src/main/java/com/icegreen/greenmail/util/GreenMailUtil.java:404-418 | The loop builds the comma join. It is empty exactly for no ranges, has no comma at either end, and reads back as the ranges. |
| GreenMailUtil.UidsToRangeString | src/main/java/com/icegreen/greenmail/util/GreenMailUtil.java:394-397 | The composition of the two. The string reads back as canonical ranges covering exactly the given UIDs. |
| GreenMailUtil.Pick | src/main/java/com/icegreen/greenmail/util/GreenMailUtil.java:245-246 | The picked char is always from the generator's alphabet. |
| GreenMailUtil.PasswordGenerator.Random | src/main/java/com/icegreen/greenmail/util/GreenMailUtil.java:241-249 | Returns exactly max(n, 0) chars, each from the alphabet and picked with the counter value after its own increment. The counter advances by that many. |
| GreenMailUtil.PasswordGenerator.RandomPassword | src/main/java/com/icegreen/greenmail/util/GreenMailUtil.java:235-239 | Returns 5 to 7 chars from the alphabet. |
| GreenMailUtil.GetLineCount | src/main/java/com/icegreen/greenmail/util/GreenMailUtil.java:154-165 | The counting loop returns the number of lines `readLine` yields (`LinesFrom`). |
| GreenMailUtil.LineCountOfLines | src/main/java/com/icegreen/greenmail/util/GreenMailUtil.java:154-165 | Lines ended by CR, LF or CR LF count once each, and a final unterminated line once more. The empty string has no lines. |
| GreenMailUtil.LineStep | src/main/java/com/icegreen/greenmail/util/GreenMailUtil.java:158-160 | One line and its terminator count as one line. |
| Text.IntToStringRoundTrip | src/main/java/com/icegreen/greenmail/util/GreenMailUtil.java:401 | Java's decimal rendering of an integer reads back as the integer. |
| Text.SplitJoin | src/main/java/com/icegreen/greenmail/util/GreenMailUtil.java:404-418 | Splitting a join of non-empty parts free of the separator gives the parts back. |

## Left out

- **I/O.** The input stream is a byte sequence and the output stream is a byte sequence the reader appends to. Not modelled:
  - `IOException` ("Error reading from stream.") and the output flush;
  - the `debugBuffer` logging in `consume` and `debugRequest`;
  - short reads: the stream is taken to hand `read` as many bytes as it asks for while it has them.
- RequestReader.ImapRequestLineReader.Read: after end of stream the reader is not stated to be consistent. In the source the position has run to the end while an earlier look-ahead char may still be buffered.
- SearchSpec.Param / SearchCommand.ExtractParameter: the parser applies the corrected unescaping (see Findings). A parameter ending in an odd run of backslashes, such as `a\` in `SEARCH TEXT a\`, therefore parses, here to `Key("TEXT", ["a"])`, where the source throws StringIndexOutOfBoundsException. The same holds for `StrParams`, `SearchTerm` and `SearchCommand.DoProcess`, which are built on it. The code as written is kept as `SearchSpec.ClearParameterAsWritten`.
- **The search-term builder and matching.** `SearchTermBuilder`, the `jakarta.mail.search` terms and `folder.search` are not part of this model.
  - Criteria are a `Term` datatype: `Key(name, params)`, `Expr(name, operands)`, `And`, and `Absent` for the null term.
  - The builder's arity is a key table (`KeyKind`) built from the search keys of RFC 2060 section 6.4.4. A message sequence set used as a key takes nothing.
  - A name outside the table, or an empty name, is refused with "Invalid search key.". The builder's own refusal message is not known here.
  - The result of the folder's search is a parameter of `SearchCommand.DoProcess`.
- SearchCommand.DoProcess: `session.unsolicitedResponses` and the response writer are not part of this model. The method returns the `omitExpunged` flag it would pass, not the responses.
- `CommandParser.mailbox` and `CommandParser.endLine` are not part of this model.
  - `endLine` is modelled as the reader's `eol`.
  - The mailbox name is read as a plain word up to space, CR or LF. The quoted and literal forms of an `astring`, the atom-char check and the special case of `INBOX` are not modelled.
- The mailbox store is not part of this model. `MailFolder` keeps only what is read here:
  - its UIDs in MSN order;
  - the recent count, which `getRecentCount(true)` clears;
  - first unseen, UID validity, UID next, permanent flags and selectability;
  - its listeners.
  Resolving a name (`getMailbox`) is a map lookup that fails with "No such mailbox.". The session's `deselect` and `setSelected` are modelled on how `SelectCommand` uses them.
- **ImapSessionFolder pass-through methods** (`getMessages`, `appendMessage`, `store`, `search`, `copyMessage`, `setFlags`, `expunge`, `getName`, …) only delegate to the folder. They are left out. `msnsToUids` is a stub, and `mailboxDeleted` only asks the session to close the connection. The `synchronized` blocks are dropped, so the class is modelled sequentially.
- **Flags** are sets of flag names. `MessageFlags.format` and the text of the responses are not modelled. SELECT's responses are a datatype in the order they are sent.
- Long and int values are unbounded integers; no 32-bit or 64-bit overflow is modelled.
- GreenMailUtil.PasswordGenerator.Random: the static `generateCount` is an unbounded counter, so its 32-bit wrap-around and the negative remainder that would follow are not modelled. The draws of `java.util.Random` are a parameter.
- GreenMailUtil.PasswordGenerator.RandomPassword: the comment on `random()` promises 5 to 8 chars, but `nextInt(3) + 5` gives 5 to 7. The model follows the code.
- GreenMailUtil: the MIME, stream and transport helpers are not modelled: `copyStream`, `newMimeMessage`, `getBody`, `getHeaders`, `getWholeMessage`, `hasNonTextAttachments`, `sendTextEmail*`, `sendAttachmentEmail`, `getSession`, `getAddressList` and the `get*AsBytes` helpers.
- Behaviour of the SEARCH parser kept as the code has it:
  - A quote right after an escaped backslash does not close a quoted parameter (`SearchSpec.QuotedBackslashNotClosed`). The quoted round trip is therefore proved for texts that do not end in a backslash.
  - An unterminated quote ends at CR or LF without error.
  - A key followed by `()` is folded with a null operand (`And(t, Absent)`).
  - A space before the CR LF after the last criterion starts another criterion, whose empty key is refused.

## Findings

| source | as written | input that shows it | evidently intended | confidence | as-written member | corrected member |
|---|---|---|---|---|---|---|
| src/main/java/com/icegreen/greenmail/imap/commands/SearchCommand.java:278-280 | The guard `dirtyParam.length() >= fromIndex + 1` always holds. A backslash in the last position therefore makes `charAt(fromIndex + 1)` index past the end. | The parameter `a\` (unquoted `SEARCH TEXT a\`) raises StringIndexOutOfBoundsException. | A backslash is always deleted, and only the look-ahead read is guarded: `if (dirtyParam.length() > fromIndex + 1 && dirtyParam.charAt(fromIndex + 1) == '\\')` deletes and steps past the kept backslash, and the `else` branch still calls `deleteCharAt(fromIndex)`. `a\` then gives `a`. | not executed | SearchSpec.ClearParameterAsWritten, SearchSpec.ClearParameterAsWrittenFails, SearchSpec.ClearParameterAsWrittenExample | SearchCommand.ClearParameter, SearchSpec.UnescapeEscape |
