/** The SELECT and EXAMINE commands (RFC 2060 sections 6.3.1 and 6.3.2):
    read the mailbox name and the end of the line, drop the current
    selection, open a view on the named mailbox and describe it to the
    client in a fixed order of responses. */
module SelectCommand {
  import opened Wrappers
  import opened RequestReader
  import opened SessionFolder

  const NoSuchMailbox := FolderError("No such mailbox.")
  const Nonselectable := FolderError("Nonselectable mailbox.")

  /** How the tagged completion describes the selection. */
  datatype Access = ReadOnly | ReadWrite

  /** The responses of SELECT and EXAMINE, in the order they are sent. */
  datatype Response =
    | Exists(messages: nat)
    | Recent(recent: nat)
    | OkUnseen(firstUnseen: int)
    | OkNoUnseen
    | OkUidValidity(uidValidity: int)
    | OkUidNext(uidNext: int)
    | Flags(flags: set<string>)
    | OkPermanentFlags(permanentFlags: set<string>)
    | Completed(access: Access)

  /** The end of a mailbox name: the first space, CR or LF at or after `i`. */
  function WordEnd(s: seq<bv8>, i: nat): (k: nat)
    requires i <= |s|
    ensures i <= k <= |s|
    ensures forall j :: i <= j < k ==> CharAt(s, j) != ' ' && CharAt(s, j) != '\r' && CharAt(s, j) != '\n'
    ensures k < |s| ==> CharAt(s, k) == ' ' || CharAt(s, k) == '\r' || CharAt(s, k) == '\n'
    decreases |s| - i
  {
    if i == |s| || CharAt(s, i) == ' ' || CharAt(s, i) == '\r' || CharAt(s, i) == '\n' then i
    else WordEnd(s, i + 1)
  }

  /** The mailbox argument: the word after the spaces, which must be
      followed by something before the stream ends. */
  function MailboxSpec(s: seq<bv8>, i: nat): (r: Result<(string, nat)>)
    requires i <= |s|
    ensures r.Ok? ==> i < r.value.1 < |s| && |r.value.0| > 0
    ensures r.Err? ==> r.error.ProtocolError?
  {
    var j := SkipSpaces(s, i);
    if j == |s| then Err(EndOfStream)
    else if CharAt(s, j) == '\r' || CharAt(s, j) == '\n' then Err(MissingArgument)
    else
      var k := WordEnd(s, j);
      if k == |s| then Err(EndOfStream) else Ok((Chars(s[j..k]), k))
  }

  /** A mailbox name is read exactly when a word follows the spaces, and it
      holds no space, CR or LF. */
  lemma MailboxSpecWord(s: seq<bv8>, i: nat)
    requires i <= |s|
    ensures MailboxSpec(s, i).Ok? <==>
      var j := SkipSpaces(s, i);
      j < |s| && CharAt(s, j) != '\r' && CharAt(s, j) != '\n' && WordEnd(s, j) < |s|
    ensures MailboxSpec(s, i).Ok? ==>
      var name := MailboxSpec(s, i).value.0;
      forall k :: 0 <= k < |name| ==> name[k] != ' ' && name[k] != '\r' && name[k] != '\n'
  {
    var j := SkipSpaces(s, i);
    if MailboxSpec(s, i).Ok? {
      var k := WordEnd(s, j);
      var name := Chars(s[j..k]);
      forall m | 0 <= m < |name|
        ensures name[m] != ' ' && name[m] != '\r' && name[m] != '\n'
      {
        assert name[m] == CharAt(s, j + m);
      }
    }
  }

  /** The word at the cursor: the chars up to the next space, CR or LF,
      which must come before the stream ends. */
  function WordSpec(s: seq<bv8>, i: nat): (r: Result<(string, nat)>)
    requires i <= |s|
    ensures r.Ok? ==> i <= r.value.1 < |s| && |r.value.0| == r.value.1 - i
  {
    var k := WordEnd(s, i);
    if k == |s| then Err(EndOfStream) else Ok((Chars(s[i..k]), k))
  }

  /** The mailbox name as an atom read from the request. */
  method MailboxName(reader: ImapRequestLineReader) returns (r: Result<string>)
    requires reader.Valid()
    modifies reader
    ensures reader.Valid() && reader.output == old(reader.output)
    ensures Agrees(MailboxSpec(reader.input, old(reader.Cursor())), r, reader.Cursor())
  {
    var _ :- reader.NextWordChar();
    r := ReadWord(reader);
  }

  /** Collects the chars of the word at the cursor. */
  method ReadWord(reader: ImapRequestLineReader) returns (r: Result<string>)
    requires reader.Valid() && reader.Cursor() <= |reader.input|
    modifies reader
    ensures reader.Valid() && reader.output == old(reader.output)
    ensures Agrees(WordSpec(reader.input, old(reader.Cursor())), r, reader.Cursor())
  {
    ghost var s := reader.input;
    ghost var j := reader.Cursor();
    var next :- reader.NextChar();
    var name: string := "";
    while next != ' ' && next != '\r' && next != '\n'
      invariant reader.Valid() && reader.output == old(reader.output)
      invariant j <= reader.Cursor() < |s| && reader.input == s
      invariant |name| == reader.Cursor() - j
      invariant forall k :: 0 <= k < |name| ==> name[k] == CharAt(s, j + k)
      invariant WordEnd(s, reader.Cursor()) == WordEnd(s, j)
      invariant next == CharAt(s, reader.Cursor())
      decreases |s| - reader.Cursor()
    {
      name := name + [next];
      var _ := reader.Consume();
      next :- reader.NextChar();
    }
    assert name == Chars(s[j..reader.Cursor()]);
    return Ok(name);
  }

  /** What a client learns from a SELECT or EXAMINE of a mailbox. */
  function Responses(messages: nat, recent: nat, firstUnseen: int, uidValidity: int, uidNext: int,
                     permanentFlags: set<string>, readOnly: bool): (rs: seq<Response>)
    ensures |rs| == 8
  {
    [ Exists(messages),
      Recent(recent),
      if firstUnseen > 0 then OkUnseen(firstUnseen) else OkNoUnseen,
      OkUidValidity(uidValidity),
      OkUidNext(uidNext),
      Flags(permanentFlags),
      OkPermanentFlags(permanentFlags),
      Completed(if readOnly then ReadOnly else ReadWrite) ]
  }

  /** The response list names the first unseen message exactly when there
      is one, and its completion reports read-only access exactly for EXAMINE. */
  lemma ResponsesMeaning(messages: nat, recent: nat, firstUnseen: int, uidValidity: int, uidNext: int,
                         permanentFlags: set<string>, readOnly: bool)
    ensures var rs := Responses(messages, recent, firstUnseen, uidValidity, uidNext, permanentFlags, readOnly);
      && (OkUnseen(firstUnseen) in rs <==> firstUnseen > 0)
      && (OkNoUnseen in rs <==> firstUnseen <= 0)
      && (Completed(ReadOnly) in rs <==> readOnly)
      && (Completed(ReadWrite) in rs <==> !readOnly)
      && rs[|rs| - 1].Completed?
      && forall k :: 0 <= k < |rs| - 1 ==> !rs[k].Completed?
  {
    var rs := Responses(messages, recent, firstUnseen, uidValidity, uidNext, permanentFlags, readOnly);
    assert rs[2] == if firstUnseen > 0 then OkUnseen(firstUnseen) else OkNoUnseen;
    assert rs[7] == Completed(if readOnly then ReadOnly else ReadWrite);
  }

  /** `selectMailbox`: resolves the name and opens a view on the mailbox;
      a missing or non-selectable mailbox is refused. */
  method SelectMailbox(mailboxName: string, session: ImapSession, readOnly: bool) returns (r: Result<bool>)
    requires session.Valid() && session.selected == null
    modifies session, session.mailboxes.Values
    ensures session.Valid()
    ensures mailboxName !in session.mailboxes ==> r == Err(NoSuchMailbox) && session.selected == null
    ensures mailboxName in session.mailboxes && !session.mailboxes[mailboxName].selectable ==>
      r == Err(Nonselectable) && session.selected == null
    ensures mailboxName in session.mailboxes && session.mailboxes[mailboxName].selectable ==>
      var folder := session.mailboxes[mailboxName];
      && r == Ok(readOnly)
      && session.selected != null && fresh(session.selected)
      && session.selected.folder == folder && session.selected.readonly == readOnly
      && session.selected.expungedMsns == []
      && folder.listeners == old(folder.listeners) + {session.selected}
    ensures forall m :: m in session.mailboxes.Values ==> m.recentCount == old(m.recentCount)
    ensures forall m :: m in session.mailboxes.Values && (r.Err? || m != session.mailboxes[mailboxName]) ==>
      m.listeners == old(m.listeners)
  {
    if mailboxName !in session.mailboxes {
      return Err(NoSuchMailbox);
    }
    var folder := session.mailboxes[mailboxName];
    if !folder.selectable {
      return Err(Nonselectable);
    }
    session.SetSelected(folder, readOnly);
    return Ok(readOnly);
  }

  /** The part of `doProcess` after the selection: the responses that
      describe the newly opened view, with the recent count reset for SELECT. */
  method DescribeSelection(mailbox: ImapSessionFolder, resetRecent: bool) returns (responses: seq<Response>)
    requires mailbox.folder != null && mailbox.expungedMsns == []
    modifies mailbox.folder
    ensures mailbox.folder.listeners == old(mailbox.folder.listeners)
    ensures mailbox.folder.recentCount == if resetRecent then 0 else old(mailbox.folder.recentCount)
    ensures responses == Responses(|mailbox.folder.uids|, old(mailbox.folder.recentCount), mailbox.folder.firstUnseen,
                                   mailbox.folder.uidValidity, mailbox.folder.uidNext,
                                   mailbox.folder.permanentFlags, mailbox.readonly)
  {
    var folder := mailbox.folder;
    responses := [Exists(|folder.uids|)];
    var recent := folder.GetRecentCount(resetRecent);
    responses := responses + [Recent(recent)];

    var firstUnseen := mailbox.GetFirstUnseen();
    // a new view has no expunges to correct for
    assert firstUnseen == Ok(folder.firstUnseen);
    if firstUnseen.value > 0 {
      responses := responses + [OkUnseen(firstUnseen.value)];
    } else {
      responses := responses + [OkNoUnseen];
    }

    responses := responses + [OkUidValidity(folder.uidValidity)];
    responses := responses + [OkUidNext(folder.uidNext)];
    responses := responses + [Flags(folder.permanentFlags)];
    responses := responses + [OkPermanentFlags(folder.permanentFlags)];

    var readonly := mailbox.IsReadonly();
    if readonly {
      responses := responses + [Completed(ReadOnly)];
    } else {
      responses := responses + [Completed(ReadWrite)];
    }
  }

  /** The part of `doProcess` after the request line: deselects, then selects
      and describes the named mailbox. */
  method Reselect(name: string, session: ImapSession, isExamine: bool) returns (r: Result<seq<Response>>)
    requires session.Valid()
    modifies session, session.selected, session.mailboxes.Values
    ensures session.Valid()
    ensures old(session.selected) != null ==>
      && old(session.selected).folder == null
      && old(session.selected) !in old(session.selected.folder).listeners
    ensures name !in session.mailboxes ==> r == Err(NoSuchMailbox) && session.selected == null
    ensures name in session.mailboxes && !session.mailboxes[name].selectable ==>
      r == Err(Nonselectable) && session.selected == null
    ensures name in session.mailboxes && session.mailboxes[name].selectable ==>
      var folder := session.mailboxes[name];
      && session.selected != null && fresh(session.selected)
      && session.selected.folder == folder && session.selected.readonly == isExamine
      && folder.listeners ==
           (if old(session.selected) != null && old(session.selected.folder) == folder
            then old(folder.listeners) - {old(session.selected)} else old(folder.listeners)) + {session.selected}
      && folder.recentCount == (if isExamine then old(folder.recentCount) else 0)
      && r == Ok(Responses(|folder.uids|, old(folder.recentCount), folder.firstUnseen,
                           folder.uidValidity, folder.uidNext, folder.permanentFlags, isExamine))
    ensures old(session.selected) != null && (r.Err? || old(session.selected.folder) != session.mailboxes[name]) ==>
      old(session.selected.folder).listeners == old(session.selected.folder.listeners) - {old(session.selected)}
    // Only the new mailbox may have its recent count reset, and only the old
    // and the new one change listeners.
    ensures forall m :: m in session.mailboxes.Values ==>
      && (r.Err? || m != session.mailboxes[name] ==> m.recentCount == old(m.recentCount))
      && (((old(session.selected) == null || m != old(session.selected.folder))
           && (r.Err? || m != session.mailboxes[name]))
          ==> m.listeners == old(m.listeners))
  {
    session.Deselect();

    var _ :- SelectMailbox(name, session, isExamine);

    var responses := DescribeSelection(session.selected, !isExamine);
    return Ok(responses);
  }

  /** `doProcess`: SELECT when `isExamine` is false, EXAMINE when it is true. */
  method DoProcess(reader: ImapRequestLineReader, session: ImapSession, isExamine: bool)
    returns (r: Result<seq<Response>>)
    requires reader.Valid() && session.Valid()
    modifies reader, session, session.selected, session.mailboxes.Values
    ensures reader.Valid() && reader.output == old(reader.output)
    ensures session.Valid()
    // A request that does not parse changes no selection.
    ensures (|| MailboxSpec(reader.input, old(reader.Cursor())).Err?
             || EolAt(reader.input, MailboxSpec(reader.input, old(reader.Cursor())).value.1).None?) ==>
      && r.Err?
      && (MailboxSpec(reader.input, old(reader.Cursor())).Err? ==> r == Err(MailboxSpec(reader.input, old(reader.Cursor())).error))
      && r.error.ProtocolError?
      && session.selected == old(session.selected)
      && (session.selected != null ==> session.selected.folder == old(session.selected.folder))
      && forall m :: m in session.mailboxes.Values ==> m.listeners == old(m.listeners) && m.recentCount == old(m.recentCount)
    // Otherwise the old selection is gone, and the named mailbox is selected if it can be.
    ensures && MailboxSpec(reader.input, old(reader.Cursor())).Ok?
            && EolAt(reader.input, MailboxSpec(reader.input, old(reader.Cursor())).value.1).Some? ==>
      var name := MailboxSpec(reader.input, old(reader.Cursor())).value.0;
      && (old(session.selected) != null ==> old(session.selected).folder == null)
      && (name !in session.mailboxes ==> r == Err(NoSuchMailbox) && session.selected == null)
      && (name in session.mailboxes && !session.mailboxes[name].selectable ==>
            r == Err(Nonselectable) && session.selected == null)
      && (name in session.mailboxes && session.mailboxes[name].selectable ==>
            var folder := session.mailboxes[name];
            && session.selected != null && fresh(session.selected)
            && session.selected.folder == folder && session.selected.readonly == isExamine
            && folder.recentCount == (if isExamine then old(folder.recentCount) else 0)
            && r == Ok(Responses(|folder.uids|, old(folder.recentCount), folder.firstUnseen,
                                 folder.uidValidity, folder.uidNext, folder.permanentFlags, isExamine)))
    // The old view is no longer notified by its mailbox, and a new view is.
    ensures && MailboxSpec(reader.input, old(reader.Cursor())).Ok?
            && EolAt(reader.input, MailboxSpec(reader.input, old(reader.Cursor())).value.1).Some? ==>
      && (old(session.selected) != null ==> old(session.selected) !in old(session.selected.folder).listeners)
      && (r.Ok? ==> session.selected != null && session.selected in session.selected.folder.listeners)
    // Exactly those two listener changes happen.
    ensures && MailboxSpec(reader.input, old(reader.Cursor())).Ok?
            && EolAt(reader.input, MailboxSpec(reader.input, old(reader.Cursor())).value.1).Some? ==>
      var name := MailboxSpec(reader.input, old(reader.Cursor())).value.0;
      && (old(session.selected) != null && (r.Err? || old(session.selected.folder) != session.mailboxes[name]) ==>
            old(session.selected.folder).listeners == old(session.selected.folder.listeners) - {old(session.selected)})
      && (r.Ok? ==>
            var folder := session.mailboxes[name];
            folder.listeners ==
              (if old(session.selected) != null && old(session.selected.folder) == folder
               then old(folder.listeners) - {old(session.selected)} else old(folder.listeners)) + {session.selected})
    // No other mailbox is touched: only the new one may have its recent count
    // reset, and only the old and the new one change listeners.
    ensures && MailboxSpec(reader.input, old(reader.Cursor())).Ok?
            && EolAt(reader.input, MailboxSpec(reader.input, old(reader.Cursor())).value.1).Some? ==>
      var name := MailboxSpec(reader.input, old(reader.Cursor())).value.0;
      forall m :: m in session.mailboxes.Values ==>
        && (r.Err? || m != session.mailboxes[name] ==> m.recentCount == old(m.recentCount))
        && (((old(session.selected) == null || m != old(session.selected.folder))
             && (r.Err? || m != session.mailboxes[name]))
            ==> m.listeners == old(m.listeners))
  {
    var mailboxName :- MailboxName(reader);
    var _ :- reader.Eol();

    r := Reselect(mailboxName, session, isExamine);
  }
}
