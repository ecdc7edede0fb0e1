/** The per-session view of a selected mailbox (`ImapSessionFolder`), the
    mailbox behind it (`MailFolder`, reduced to what the view and the SELECT
    flow read) and the session that holds the selection. */
module SessionFolder {
  import opened Wrappers

  const NoSuchMessage := FolderError("No such message.")
  const NeedRenumbering := IllegalState("Need to do this properly...")

  /** What a `FlagUpdate` records: the message, its UID and its new flags. */
  datatype FlagUpdate = FlagUpdate(msn: int, uid: int, flags: set<string>)

  /** The message sequence number of `uid`: its 1-based position in the
      mailbox, or an error when no message has that UID. */
  function MsnOf(uids: seq<int>, uid: int): (r: Result<nat>)
    ensures r.Ok? ==> 0 < r.value <= |uids| && uids[r.value - 1] == uid && uid !in uids[..r.value - 1]
    ensures r.Err? ==> uid !in uids && r.error == NoSuchMessage
  {
    if |uids| == 0 then Err(NoSuchMessage)
    else if uids[0] == uid then Ok(1)
    else
      var m := MsnOf(uids[1..], uid);
      if m.Err? then m else
        assert uids[..m.value] == [uids[0]] + uids[1..][..m.value - 1];
        Ok(m.value + 1)
  }

  /** A mailbox as the view sees it. Only the recent count and the listener
      registrations change here. */
  class MailFolder {
    const name: string
    const selectable: bool
    /** The UIDs of the messages, in message sequence number order. */
    const uids: seq<int>
    const firstUnseen: int
    const uidValidity: int
    const uidNext: int
    const permanentFlags: set<string>
    var recentCount: nat
    var listeners: set<object>

    constructor (name: string, selectable: bool, uids: seq<int>, recentCount: nat,
                 firstUnseen: int, uidValidity: int, uidNext: int, permanentFlags: set<string>)
      ensures this.name == name && this.selectable == selectable && this.uids == uids
      ensures this.recentCount == recentCount && this.firstUnseen == firstUnseen
      ensures this.uidValidity == uidValidity && this.uidNext == uidNext
      ensures this.permanentFlags == permanentFlags && listeners == {}
    {
      this.name := name;
      this.selectable := selectable;
      this.uids := uids;
      this.recentCount := recentCount;
      this.firstUnseen := firstUnseen;
      this.uidValidity := uidValidity;
      this.uidNext := uidNext;
      this.permanentFlags := permanentFlags;
      listeners := {};
    }

    method AddListener(listener: object)
      modifies this
      ensures listeners == old(listeners) + {listener} && recentCount == old(recentCount)
    {
      listeners := listeners + {listener};
    }

    method RemoveListener(listener: object)
      modifies this
      ensures listeners == old(listeners) - {listener} && recentCount == old(recentCount)
    {
      listeners := listeners - {listener};
    }

    /** The number of recent messages; with `reset` they stop being recent. */
    method GetRecentCount(reset: bool) returns (n: nat)
      modifies this
      ensures n == old(recentCount) && listeners == old(listeners)
      ensures recentCount == if reset then 0 else old(recentCount)
    {
      n := recentCount;
      if reset {
        recentCount := 0;
      }
    }

    /** `getMsn`: the position of the first message with this UID. */
    method GetMsn(uid: int) returns (r: Result<nat>)
      ensures r == MsnOf(uids, uid)
    {
      for i := 0 to |uids|
        invariant uid !in uids[..i]
      {
        if uids[i] == uid {
          assert uids[..i + 1] == uids[..i] + [uid];
          return Ok(i + 1);
        }
        assert uids[..i + 1] == uids[..i] + [uids[i]];
      }
      assert uids[..|uids|] == uids;
      return Err(NoSuchMessage);
    }
  }

  /** How many of the pending expunged MSNs are at most `msn`. */
  function CountAtMost(expunged: seq<int>, msn: int): (n: nat)
    ensures n <= |expunged|
  {
    if expunged == [] then 0
    else (if expunged[0] <= msn then 1 else 0) + CountAtMost(expunged[1..], msn)
  }

  /** A new expunge notification moves the correction for `msn` up by one
      exactly when the expunged message was at or before `msn`. */
  lemma {:induction false} CountAtMostSnoc(expunged: seq<int>, e: int, msn: int)
    ensures CountAtMost(expunged + [e], msn) == CountAtMost(expunged, msn) + (if e <= msn then 1 else 0)
  {
    if expunged != [] {
      assert (expunged + [e])[1..] == expunged[1..] + [e];
      CountAtMostSnoc(expunged[1..], e, msn);
    }
  }

  /** The correction never decreases as the MSN grows. */
  lemma {:induction false} CountAtMostMonotone(expunged: seq<int>, a: int, b: int)
    requires a <= b
    ensures CountAtMost(expunged, a) <= CountAtMost(expunged, b)
  {
    if expunged != [] {
      CountAtMostMonotone(expunged[1..], a, b);
    }
  }

  /** `k` is the smallest of `keys`. */
  predicate IsLeast(k: int, keys: set<int>) {
    k in keys && forall j :: j in keys ==> k <= j
  }

  /** Every finite non-empty set of MSNs has a least element. */
  lemma {:induction false} LeastExists(keys: set<int>)
    requires keys != {}
    ensures exists k :: IsLeast(k, keys)
    decreases keys
  {
    if forall y :: y !in keys {
      // then keys would be empty
      assert false;
    }
    var x :| x in keys;
    var rest := keys - {x};
    if rest == {} {
      assert keys == {x};
      assert IsLeast(x, keys);
    } else {
      LeastExists(rest);
      var m :| IsLeast(m, rest);
      var least := if x < m then x else m;
      forall j | j in keys
        ensures least <= j
      {
        if j != x {
          assert j in rest;
        }
      }
      assert IsLeast(least, keys);
    }
  }

  /** Updates listed in strictly ascending MSN order. */
  predicate InMsnOrder(updates: seq<FlagUpdate>) {
    forall i, j :: 0 <= i < j < |updates| ==> updates[i].msn < updates[j].msn
  }

  class ImapSessionFolder {
    /** The mailbox viewed; null once deselected. */
    var folder: MailFolder?
    const readonly: bool
    var sizeChanged: bool
    /** Expunge notifications not yet reported to the client, in arrival order. */
    var expungedMsns: seq<int>
    /** The latest flag change per MSN not yet reported to the client. */
    var modifiedFlags: map<int, FlagUpdate>

    /** Each pending flag update is filed under its own MSN. */
    ghost predicate Valid()
      reads this
    {
      forall k :: k in modifiedFlags ==> modifiedFlags[k].msn == k
    }

    /** Opens a view on `folder` and registers it for the folder's notifications. */
    constructor (folder: MailFolder, readonly: bool)
      modifies folder
      ensures Valid() && this.folder == folder && this.readonly == readonly
      ensures !sizeChanged && expungedMsns == [] && modifiedFlags == map[]
      ensures folder.listeners == old(folder.listeners) + {this}
      ensures folder.recentCount == old(folder.recentCount)
    {
      this.folder := folder;
      this.readonly := readonly;
      sizeChanged := false;
      expungedMsns := [];
      modifiedFlags := map[];
      new;
      folder.AddListener(this);
    }

    /** `deselect`: unregisters the view and drops the folder; a second
        call finds no folder. */
    method Deselect() returns (r: Result<()>)
      modifies this, folder
      ensures old(folder) == null ==> r == Err(NullFolder) && folder == null
      ensures old(folder) != null ==>
        && r.Ok? && folder == null
        && old(folder).listeners == old(folder.listeners) - {this}
        && old(folder).recentCount == old(folder.recentCount)
      ensures sizeChanged == old(sizeChanged) && expungedMsns == old(expungedMsns)
      ensures modifiedFlags == old(modifiedFlags)
    {
      if folder == null {
        return Err(NullFolder);
      }
      folder.RemoveListener(this);
      folder := null;
      return Ok(());
    }

    /** `getMsn`, passed on to the folder. */
    method GetMsn(uid: int) returns (r: Result<nat>)
      ensures folder == null ==> r == Err(NullFolder)
      ensures folder != null ==> r == MsnOf(folder.uids, uid)
    {
      if folder == null {
        return Err(NullFolder);
      }
      r := folder.GetMsn(uid);
    }

    method IsReadonly() returns (b: bool)
      ensures b == readonly
    {
      return readonly;
    }

    method IsSizeChanged() returns (b: bool)
      ensures b == sizeChanged
    {
      return sizeChanged;
    }

    method SetSizeChanged(changed: bool)
      modifies this
      ensures sizeChanged == changed && folder == old(folder)
      ensures expungedMsns == old(expungedMsns) && modifiedFlags == old(modifiedFlags)
    {
      sizeChanged := changed;
    }

    /** `added`: a message arrived, so the mailbox size changed. */
    method Added(msn: int)
      modifies this
      ensures sizeChanged && folder == old(folder)
      ensures expungedMsns == old(expungedMsns) && modifiedFlags == old(modifiedFlags)
    {
      sizeChanged := true;
    }

    /** `expunged`: queues the notification behind the earlier ones. */
    method Expunged(msn: int)
      modifies this
      ensures expungedMsns == old(expungedMsns) + [msn]
      ensures folder == old(folder) && sizeChanged == old(sizeChanged) && modifiedFlags == old(modifiedFlags)
    {
      expungedMsns := expungedMsns + [msn];
    }

    /** `flagsUpdated`: records the change, replacing any earlier one for the same MSN. */
    method FlagsUpdated(msn: int, flags: set<string>, uid: int)
      requires Valid()
      modifies this
      ensures Valid()
      ensures modifiedFlags.Keys == old(modifiedFlags).Keys + {msn}
      ensures modifiedFlags[msn] == FlagUpdate(msn, uid, flags)
      ensures forall k :: k in old(modifiedFlags) && k != msn ==> modifiedFlags[k] == old(modifiedFlags)[k]
      ensures folder == old(folder) && sizeChanged == old(sizeChanged) && expungedMsns == old(expungedMsns)
    {
      modifiedFlags := modifiedFlags[msn := FlagUpdate(msn, uid, flags)];
    }

    /** `getExpunged`: hands out and clears the pending expunged MSNs; fails,
        after clearing them, while flag updates or a size change are pending. */
    method GetExpunged() returns (r: Result<seq<int>>)
      modifies this
      ensures expungedMsns == []
      ensures r == if old(modifiedFlags) == map[] && !old(sizeChanged) then Ok(old(expungedMsns)) else Err(NeedRenumbering)
      ensures folder == old(folder) && sizeChanged == old(sizeChanged) && modifiedFlags == old(modifiedFlags)
    {
      var msns := new int[|expungedMsns|];
      for i := 0 to msns.Length
        modifies msns
        invariant msns[..i] == expungedMsns[..i]
      {
        msns[i] := expungedMsns[i];
      }
      assert msns[..] == expungedMsns;
      expungedMsns := [];
      if !(modifiedFlags == map[] && !sizeChanged) {
        return Err(NeedRenumbering);
      }
      return Ok(msns[..]);
    }

    /** `getFlagUpdates`: hands out one update per MSN in ascending MSN
        order, as a sorted map iterates, and clears them. */
    method GetFlagUpdates() returns (updates: seq<FlagUpdate>)
      requires Valid()
      modifies this
      ensures Valid() && modifiedFlags == map[]
      ensures InMsnOrder(updates)
      ensures forall i :: 0 <= i < |updates| ==> updates[i].msn in old(modifiedFlags) && old(modifiedFlags)[updates[i].msn] == updates[i]
      ensures forall k :: k in old(modifiedFlags) ==> old(modifiedFlags)[k] in updates
      ensures folder == old(folder) && sizeChanged == old(sizeChanged) && expungedMsns == old(expungedMsns)
    {
      if modifiedFlags == map[] {
        return [];
      }
      var pending := modifiedFlags;
      updates := [];
      while pending != map[]
        modifies {}
        invariant forall k :: k in pending ==> k in modifiedFlags && pending[k] == modifiedFlags[k]
        invariant InMsnOrder(updates)
        invariant forall i :: 0 <= i < |updates| ==>
          updates[i].msn in modifiedFlags && modifiedFlags[updates[i].msn] == updates[i] && updates[i].msn !in pending
        invariant forall i, k :: 0 <= i < |updates| && k in pending ==> updates[i].msn < k
        invariant forall k :: k in modifiedFlags ==> k in pending || modifiedFlags[k] in updates
        decreases pending.Keys
      {
        LeastExists(pending.Keys);
        var k :| IsLeast(k, pending.Keys);
        assert pending[k].msn == k;
        updates := updates + [pending[k]];
        pending := pending - {k};
        assert forall j :: j in pending ==> k < j;
      }
      modifiedFlags := map[];
    }

    /** `correctForExpungedMessages`: shifts a mailbox MSN up by the pending
        expunges at or before it. */
    method CorrectForExpungedMessages(absoluteMsn: int) returns (correctedMsn: int)
      ensures correctedMsn == absoluteMsn + CountAtMost(expungedMsns, absoluteMsn)
    {
      correctedMsn := absoluteMsn;
      var i := |expungedMsns| - 1;
      while i >= 0
        invariant -1 <= i < |expungedMsns|
        invariant correctedMsn == absoluteMsn + CountAtMost(expungedMsns[i + 1..], absoluteMsn)
      {
        if expungedMsns[i] <= absoluteMsn {
          correctedMsn := correctedMsn + 1;
        }
        assert expungedMsns[i..][1..] == expungedMsns[i + 1..];
        i := i - 1;
      }
      assert expungedMsns[0..] == expungedMsns;
    }

    /** `getFirstUnseen`: the folder's first unseen MSN, corrected for the
        expunges the client has not been told about. */
    method GetFirstUnseen() returns (r: Result<int>)
      ensures folder == null ==> r == Err(NullFolder)
      ensures folder != null ==> r == Ok(folder.firstUnseen + CountAtMost(expungedMsns, folder.firstUnseen))
    {
      if folder == null {
        return Err(NullFolder);
      }
      var n := CorrectForExpungedMessages(folder.firstUnseen);
      return Ok(n);
    }
  }

  /** The session state the commands share: the mailboxes it can resolve
      and the current selection. */
  class ImapSession {
    const mailboxes: map<string, MailFolder>
    var selected: ImapSessionFolder?

    /** A selected view is open on one of the session's mailboxes. */
    ghost predicate Valid()
      reads this, selected
    {
      selected != null ==> selected.folder != null && selected.folder in mailboxes.Values
    }

    constructor (mailboxes: map<string, MailFolder>)
      ensures Valid() && this.mailboxes == mailboxes && selected == null
    {
      this.mailboxes := mailboxes;
      selected := null;
    }

    /** Closes the current view, if any; afterwards nothing is selected. */
    method Deselect()
      requires Valid()
      modifies this, selected, mailboxes.Values
      ensures Valid() && selected == null
      ensures old(selected) != null ==>
        && old(selected).folder == null
        && old(selected.folder).listeners == old(selected.folder.listeners) - {old(selected)}
      ensures forall m :: m in mailboxes.Values ==> m.recentCount == old(m.recentCount)
      ensures forall m :: m in mailboxes.Values && (old(selected) == null || m != old(selected.folder)) ==>
        m.listeners == old(m.listeners)
    {
      if selected != null {
        var _ := selected.Deselect();
        selected := null;
      }
    }

    /** Opens a new view on `folder` as the selection. */
    method SetSelected(folder: MailFolder, readonly: bool)
      requires folder in mailboxes.Values
      modifies this, folder
      ensures Valid() && selected != null && fresh(selected)
      ensures selected.folder == folder && selected.readonly == readonly
      ensures selected.expungedMsns == [] && selected.modifiedFlags == map[] && !selected.sizeChanged
      ensures folder.listeners == old(folder.listeners) + {selected}
      ensures folder.recentCount == old(folder.recentCount)
    {
      selected := new ImapSessionFolder(folder, readonly);
    }
  }
}
