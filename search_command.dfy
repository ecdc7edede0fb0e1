/** The SEARCH command (RFC 2060 section 6.4.4): the recursive-descent
    criteria parser working on the shared request reader, and the id list of
    the untagged SEARCH response (RFC 2060 section 7.2.5). Every parser method
    is proved to agree with its counterpart in module SearchSpec. */
module SearchCommand {
  import opened Wrappers
  import opened RequestReader
  import opened SearchSpec
  import opened Text
  import opened SessionFolder

  /** `trimFirstSpace` */
  method TrimFirstSpace(reader: ImapRequestLineReader) returns (r: Result<()>)
    requires reader.Valid()
    modifies reader
    ensures reader.Valid() && reader.output == old(reader.output)
    ensures var spec := SearchSpec.TrimFirstSpace(reader.input, old(reader.Cursor()));
      && (spec.Ok? ==> r.Ok? && reader.Cursor() == spec.value)
      && (spec.Err? ==> r == Err(spec.error))
  {
    var next :- reader.NextChar();
    if next == ' ' {
      var _ := reader.Consume();
    }
    return Ok(());
  }

  /** `searchTerm`: reads criteria until the char seen before the last
      `trimFirstSpace` is CR or LF, or the stream ends after a criterion. */
  method SearchTerm(reader: ImapRequestLineReader) returns (r: Result<Term>)
    requires reader.Valid()
    modifies reader
    ensures reader.Valid() && reader.output == old(reader.output)
    ensures Agrees(Criteria(reader.input, old(reader.Cursor())), r, reader.Cursor())
  {
    var resultTerm := Absent;
    var _ :- TrimFirstSpace(reader);
    var next :- reader.NextChar();
    while next != '\r' && next != '\n'
      invariant reader.Valid() && reader.output == old(reader.output)
      invariant reader.Cursor() <= |reader.input|
      invariant Criteria(reader.input, old(reader.Cursor())) == CriteriaLoop(reader.input, reader.Cursor(), next, resultTerm)
      decreases |reader.input| - reader.Cursor()
    {
      var searchTerm :- ExtractSearchTerm(reader);
      resultTerm := Fold(resultTerm, searchTerm);
      var n := reader.NextChar();
      if n.Err? {
        // it is end of line
        break;
      }
      next := n.value;
      var _ := TrimFirstSpace(reader);
    }
    return Ok(resultTerm);
  }

  /** `extractSearchTerm` */
  method ExtractSearchTerm(reader: ImapRequestLineReader) returns (r: Result<Term>)
    requires reader.Valid()
    modifies reader
    ensures reader.Valid() && reader.output == old(reader.output)
    ensures Agrees(ExtractTerm(reader.input, old(reader.Cursor())), r, reader.Cursor())
    decreases |reader.input| - reader.Cursor(), 3, 0
  {
    var _ :- TrimFirstSpace(reader);
    var next :- reader.NextChar();
    if next == '(' {
      r := Paren(reader);
      return;
    }
    r := KeyTerm(reader);
  }

  /** The key branch of `extractSearchTerm`: the key token, then the
      parameters the key expects. */
  method KeyTerm(reader: ImapRequestLineReader) returns (r: Result<Term>)
    requires reader.Valid()
    modifies reader
    ensures reader.Valid() && reader.output == old(reader.output)
    ensures Agrees(SearchSpec.KeyTerm(reader.input, old(reader.Cursor())), r, reader.Cursor())
    decreases |reader.input| - reader.Cursor(), 2, 1
  {
    ghost var s := reader.input;
    ghost var i := reader.Cursor();
    var sb :- ReadKey(reader);
    var kind :- KeyKind(sb);
    match kind
    case Terms(n) =>
      var operands :- ExtractParameterExpression(reader, n);
      return Ok(Expr(Upper(sb), operands));
    case Strings(n) =>
      var params :- ExtractParameters(reader, n);
      return Ok(Key(Upper(sb), params));
  }

  /** The loop of `extractSearchTerm` that collects the key token. */
  method ReadKey(reader: ImapRequestLineReader) returns (r: Result<string>)
    requires reader.Valid()
    modifies reader
    ensures reader.Valid() && reader.output == old(reader.output)
    ensures var k := KeyEnd(reader.input, old(reader.Cursor()));
      if k == |reader.input| then r == Err(EndOfStream)
      else r == Ok(Chars(reader.input[old(reader.Cursor())..k])) && reader.Cursor() == k
  {
    var sb: string := "";
    ghost var s := reader.input;
    ghost var i := reader.Cursor();
    var next :- reader.NextChar();
    while next != ' ' && next != '\r' && next != '\n' && next != ')'
      invariant reader.Valid() && reader.output == old(reader.output)
      invariant i <= reader.Cursor() < |s| && reader.input == s
      invariant |sb| == reader.Cursor() - i
      invariant forall k :: 0 <= k < |sb| ==> sb[k] == CharAt(s, i + k)
      invariant KeyEnd(s, reader.Cursor()) == KeyEnd(s, i)
      invariant next == CharAt(s, reader.Cursor())
      decreases |s| - reader.Cursor()
    {
      sb := sb + [next];
      var _ := reader.Consume();
      next :- reader.NextChar();
    }
    assert sb == Chars(s[i..reader.Cursor()]);
    return Ok(sb);
  }

  /** `extractParameterExpression`: the `n` criteria a NOT or OR expects. */
  method ExtractParameterExpression(reader: ImapRequestLineReader, n: nat) returns (r: Result<seq<Term>>)
    requires reader.Valid()
    modifies reader
    ensures reader.Valid() && reader.output == old(reader.output)
    ensures Agrees(ExprParams(reader.input, old(reader.Cursor()), n, []), r, reader.Cursor())
    decreases |reader.input| - reader.Cursor(), 4, n
  {
    var operands: seq<Term> := [];
    while |operands| < n
      invariant reader.Valid() && reader.output == old(reader.output)
      invariant old(reader.Cursor()) <= reader.Cursor() <= |reader.input| && |operands| <= n
      invariant ExprParams(reader.input, old(reader.Cursor()), n, []) ==
        ExprParams(reader.input, reader.Cursor(), n - |operands|, operands)
      decreases n - |operands|
    {
      var st :- ExtractSearchTerm(reader);
      operands := operands + [st];
    }
    return Ok(operands);
  }

  /** `extractParameters`: the `n` string parameters a key expects. */
  method ExtractParameters(reader: ImapRequestLineReader, n: nat) returns (r: Result<seq<string>>)
    requires reader.Valid()
    modifies reader
    ensures reader.Valid() && reader.output == old(reader.output)
    ensures Agrees(StrParams(reader.input, old(reader.Cursor()), n, []), r, reader.Cursor())
  {
    var params: seq<string> := [];
    while |params| < n
      invariant reader.Valid() && reader.output == old(reader.output)
      invariant reader.Cursor() <= |reader.input| && |params| <= n
      invariant StrParams(reader.input, old(reader.Cursor()), n, []) ==
        StrParams(reader.input, reader.Cursor(), n - |params|, params)
      decreases n - |params|
    {
      var param :- ExtractParameter(reader);
      params := params + [param];
    }
    return Ok(params);
  }

  /** One pass of the outer loop of `extractParameters`: an optionally quoted
      parameter, collected raw and then cleared of escapes. */
  method ExtractParameter(reader: ImapRequestLineReader) returns (r: Result<string>)
    requires reader.Valid()
    modifies reader
    ensures reader.Valid() && reader.output == old(reader.output)
    ensures Agrees(Param(reader.input, old(reader.Cursor())), r, reader.Cursor())
  {
    var _ :- TrimFirstSpace(reader);
    var next :- reader.NextChar();
    var startsWithQuote := false;
    if next == '"' {
      startsWithQuote := true;
      var _ := reader.Consume();
    }
    var sb :- ScanParameter(reader, startsWithQuote);
    var clean := ClearParameter(sb);
    return Ok(clean);
  }

  /** The inner loop of `extractParameters`: collects the raw parameter text. */
  method ScanParameter(reader: ImapRequestLineReader, startsWithQuote: bool) returns (r: Result<string>)
    requires reader.Valid()
    modifies reader
    ensures reader.Valid() && reader.output == old(reader.output)
    ensures Agrees(ParamScan(reader.input, old(reader.Cursor()), startsWithQuote, ""), r, reader.Cursor())
  {
    var sb: string := "";
    var needContinue := true;
    ghost var s := reader.input;
    ghost var i2 := reader.Cursor();
    while needContinue
      invariant reader.Valid() && reader.output == old(reader.output)
      invariant reader.Cursor() <= |s| && reader.input == s
      invariant needContinue ==> ParamScan(s, i2, startsWithQuote, "") == ParamScan(s, reader.Cursor(), startsWithQuote, sb)
      invariant !needContinue ==> ParamScan(s, i2, startsWithQuote, "") == Ok((sb, reader.Cursor()))
      decreases |s| - reader.Cursor(), if needContinue then 1 else 0
    {
      var next :- reader.NextChar();
      if next == ' ' {
        if !startsWithQuote {
          // parameter was ended
          needContinue := false;
          continue;
        }
      }
      if next == '"' {
        if |sb| == 0 || sb[|sb| - 1] != '\\' {
          // parameter was ended
          needContinue := false;
          var _ := reader.Consume();
          continue;
        }
      }
      if next == ')' {
        needContinue := false;
        continue;
      }
      if next == '\r' || next == '\n' {
        needContinue := false;
        continue;
      }
      sb := sb + [next];
      var _ := reader.Consume();
    }
    return Ok(sb);
  }

  /** `clearParameter`, with a backslash in the last position dropped like
      any other lone backslash. */
  method ClearParameter(dirtyParam: string) returns (clean: string)
    ensures clean == Unescape(dirtyParam)
  {
    var d := dirtyParam;
    var fromIndex: nat := IndexFrom(d, '\\', 0);
    SkipToBackslash(d, 0);
    assert d[..0] + Unescape(d[0..]) == Unescape(dirtyParam);
    while fromIndex < |d|
      invariant fromIndex <= |d|
      invariant fromIndex < |d| ==> d[fromIndex] == '\\'
      invariant Unescape(dirtyParam) == d[..fromIndex] + Unescape(d[fromIndex..])
      decreases |d| - fromIndex
    {
      DeleteBackslash(d, fromIndex);
      if fromIndex + 1 < |d| && d[fromIndex + 1] == '\\' {
        d := d[..fromIndex] + d[fromIndex + 1..];
        fromIndex := fromIndex + 1;
      } else {
        d := d[..fromIndex] + d[fromIndex + 1..];
      }
      SkipToBackslash(d, fromIndex);
      fromIndex := IndexFrom(d, '\\', fromIndex);
    }
    assert d[..fromIndex] == d;
    clean := d;
  }

  /** Deleting the backslash at `f` keeps what the text unescapes to; after
      an escaped backslash the search resumes past the kept one. */
  lemma DeleteBackslash(d: string, f: nat)
    requires f < |d| && d[f] == '\\'
    ensures var d' := d[..f] + d[f + 1..];
      var f' := if f + 1 < |d| && d[f + 1] == '\\' then f + 1 else f;
      f' <= |d'| && d[..f] + Unescape(d[f..]) == d'[..f'] + Unescape(d'[f'..])
  {
    var d' := d[..f] + d[f + 1..];
    var rest := d[f + 1..];
    assert d[f..] == ['\\'] + rest;
    if f + 1 < |d| && d[f + 1] == '\\' {
      assert d'[..f + 1] == d[..f] + ['\\'];
      assert d'[f + 1..] == rest[1..];
    } else {
      assert d'[..f] == d[..f];
      assert d'[f..] == rest;
    }
  }

  /** Skipping to the next backslash keeps what the text unescapes to. */
  lemma SkipToBackslash(d: string, f: nat)
    requires f <= |d|
    ensures var k := IndexFrom(d, '\\', f);
      d[..f] + Unescape(d[f..]) == d[..k] + Unescape(d[k..])
  {
    var k := IndexFrom(d, '\\', f);
    assert BackslashFree(d[f..k]);
    UnescapeFree(d[f..k], d[k..]);
    assert d[f..] == d[f..k] + d[k..];
    assert d[..k] == d[..f] + d[f..k];
  }

  /** `paren`: consumes `(`, folds the criteria up to `)` and consumes it. */
  method Paren(reader: ImapRequestLineReader) returns (r: Result<Term>)
    requires reader.Valid() && reader.Cursor() < |reader.input| && CharAt(reader.input, reader.Cursor()) == '('
    modifies reader
    ensures reader.Valid() && reader.output == old(reader.output)
    ensures Agrees(SearchSpec.Paren(reader.input, old(reader.Cursor())), r, reader.Cursor())
    decreases |reader.input| - reader.Cursor(), 2, 0
  {
    var _ := reader.Consume();
    var resultTerm := Absent;
    ParenLoopSkip(reader.input, reader.Cursor(), resultTerm);
    var next :- reader.NextWordChar();
    while next != ')'
      invariant reader.Valid() && reader.output == old(reader.output)
      invariant old(reader.Cursor()) < reader.Cursor() < |reader.input|
      invariant SkipSpaces(reader.input, reader.Cursor()) == reader.Cursor()
      invariant next == CharAt(reader.input, reader.Cursor()) && next != '\r' && next != '\n'
      invariant SearchSpec.Paren(reader.input, old(reader.Cursor())) == ParenLoop(reader.input, reader.Cursor(), resultTerm)
      decreases |reader.input| - reader.Cursor()
    {
      var searchTerm :- ExtractSearchTerm(reader);
      resultTerm := Fold(resultTerm, searchTerm);
      ParenLoopSkip(reader.input, reader.Cursor(), resultTerm);
      next :- reader.NextWordChar();
    }
    var _ := reader.Consume();
    return Ok(resultTerm);
  }

  /** `nextWordChar` lands where the group loop would skip to. */
  lemma ParenLoopSkip(s: seq<bv8>, i: nat, acc: Term)
    requires i <= |s|
    ensures SkipSpaces(s, SkipSpaces(s, i)) == SkipSpaces(s, i)
    ensures ParenLoop(s, i, acc) == ParenLoop(s, SkipSpaces(s, i), acc)
  {
  }

  // The SEARCH response.

  /** The decimal numerals of `ids`, in order. */
  function Numerals(ids: seq<int>): (ns: seq<string>)
    ensures |ns| == |ids|
    ensures forall k :: 0 <= k < |ids| ==> ns[k] == IntToString(ids[k])
  {
    seq(|ids|, k requires 0 <= k < |ids| => IntToString(ids[k]))
  }

  /** The id list of the SEARCH response: the numerals joined by single spaces. */
  function IdList(ids: seq<int>): string {
    Join(Numerals(ids), ' ')
  }

  /** One more id extends the list by a space, unless it is the first, and its numeral. */
  lemma IdListSnoc(ids: seq<int>, id: int)
    ensures IdList(ids + [id]) == (if ids == [] then "" else IdList(ids) + " ") + IntToString(id)
  {
    assert Numerals(ids + [id]) == Numerals(ids) + [IntToString(id)];
    if ids != [] {
      JoinSnoc(Numerals(ids), IntToString(id), ' ');
    }
  }

  /** The numbers the fields of a response line stand for, if each is one. */
  function ParseFields(fields: seq<string>): Option<seq<int>> {
    if fields == [] then Some([])
    else
      var n := ParseInt(fields[0]);
      var rest := ParseFields(fields[1..]);
      if n.None? || rest.None? then None else Some([n.value] + rest.value)
  }

  /** What a client reads from an id list: its space-separated numbers. */
  function ParseIdList(s: string): Option<seq<int>> {
    ParseFields(Split(s, ' '))
  }

  lemma {:induction false} ParseNumerals(ids: seq<int>)
    ensures ParseFields(Numerals(ids)) == Some(ids)
  {
    if ids != [] {
      IntToStringRoundTrip(ids[0]);
      assert Numerals(ids)[1..] == Numerals(ids[1..]);
      ParseNumerals(ids[1..]);
      assert [ids[0]] + ids[1..] == ids;
    }
  }

  /** The id list reads back as exactly the ids, in order: no number is
      lost, split or merged with its neighbour. */
  lemma IdListRoundTrip(ids: seq<int>)
    ensures ParseIdList(IdList(ids)) == Some(ids)
  {
    forall k | 0 <= k < |ids|
      ensures Free(Numerals(ids)[k], ' ')
    {
      IntToStringFree(ids[k], ' ');
    }
    SplitJoin(Numerals(ids), ' ');
    ParseNumerals(ids);
  }

  /** The MSN of each found UID, in order; fails at the first UID that
      names no message. */
  function MsnsOf(uids: seq<int>, found: seq<int>): (r: Result<seq<int>>)
    ensures r.Ok? ==> |r.value| == |found| && forall k :: 0 <= k < |found| ==> MsnOf(uids, found[k]) == Ok(r.value[k])
    ensures r.Err? ==> r.error == NoSuchMessage && exists k :: 0 <= k < |found| && found[k] !in uids
  {
    if found == [] then Ok([])
    else
      var init := MsnsOf(uids, found[..|found| - 1]);
      if init.Err? then init
      else
        var m := MsnOf(uids, found[|found| - 1]);
        if m.Err? then Err(m.error) else Ok(init.value + [m.value])
  }

  /** The MSNs found are exactly the UIDs found, when every UID names a message. */
  lemma {:induction false} MsnsOfTotal(uids: seq<int>, found: seq<int>)
    requires forall k :: 0 <= k < |found| ==> found[k] in uids
    ensures MsnsOf(uids, found).Ok?
    ensures forall k :: 0 <= k < |found| ==> uids[MsnsOf(uids, found).value[k] - 1] == found[k]
  {
    if found != [] {
      MsnsOfTotal(uids, found[..|found| - 1]);
    }
  }

  /** A UID without a message fails the whole list, not just the prefix that holds it. */
  lemma {:induction false} MsnsOfPrefixFails(uids: seq<int>, found: seq<int>, j: nat)
    requires j <= |found| && MsnsOf(uids, found[..j]).Err?
    ensures MsnsOf(uids, found).Err?
    decreases |found| - j
  {
    if j < |found| {
      var init := found[..|found| - 1];
      assert init[..j] == found[..j];
      MsnsOfPrefixFails(uids, init, j);
    } else {
      assert found[..j] == found;
    }
  }

  lemma MsnsOfStep(uids: seq<int>, found: seq<int>, i: nat)
    requires i < |found| && MsnsOf(uids, found[..i]).Ok? && MsnOf(uids, found[i]).Ok?
    ensures MsnsOf(uids, found[..i + 1]) == Ok(MsnsOf(uids, found[..i]).value + [MsnOf(uids, found[i]).value])
  {
    assert found[..i + 1][..i] == found[..i];
  }

  lemma MsnsOfStepFails(uids: seq<int>, found: seq<int>, i: nat)
    requires i < |found| && MsnsOf(uids, found[..i]).Ok? && MsnOf(uids, found[i]).Err?
    ensures MsnsOf(uids, found).Err?
  {
    assert found[..i + 1][..i] == found[..i];
    MsnsOfPrefixFails(uids, found, i + 1);
  }

  /** What the SEARCH response carries: the criteria handed to the folder's
      search, the id list, and whether expunge notifications are withheld. */
  datatype SearchResponse = SearchResponse(criteria: Term, idList: string, omitExpunged: bool)

  /** The id list built in `doProcess`: the found UIDs themselves, or each
      one's MSN asked of the selected view. */
  method BuildIdList(view: ImapSessionFolder, found: seq<int>, useUids: bool) returns (r: Result<string>)
    ensures useUids ==> r == Ok(IdList(found))
    ensures !useUids && view.folder != null ==>
      r == (var msns := MsnsOf(view.folder.uids, found); if msns.Err? then Err(msns.error) else Ok(IdList(msns.value)))
    ensures !useUids && view.folder == null ==> r == if found == [] then Ok("") else Err(NullFolder)
  {
    var idList := "";
    ghost var ids: seq<int> := [];
    for i := 0 to |found|
      invariant useUids ==> ids == found[..i]
      invariant !useUids && view.folder != null ==> MsnsOf(view.folder.uids, found[..i]) == Ok(ids)
      invariant !useUids && view.folder == null ==> i == 0
      invariant idList == IdList(ids) && |ids| == i
    {
      var id := found[i];
      if !useUids {
        var msn := view.GetMsn(found[i]);
        if msn.Err? {
          if view.folder != null {
            MsnsOfStepFails(view.folder.uids, found, i);
          }
          return Err(msn.error);
        }
        MsnsOfStep(view.folder.uids, found, i);
        id := msn.value;
      } else {
        assert found[..i + 1] == found[..i] + [found[i]];
      }
      if i > 0 {
        idList := idList + " ";
      }
      idList := idList + IntToString(id);
      IdListSnoc(ids, id);
      ids := ids + [id];
    }
    assert found[..|found|] == found;
    return Ok(idList);
  }

  /** `doProcess(…, useUids)`: parses the criteria and the end of line, then
      answers with the id list of what the search found; expunge
      notifications are withheld only from a search by MSN. */
  method DoProcess(reader: ImapRequestLineReader, view: ImapSessionFolder, found: seq<int>, useUids: bool)
    returns (r: Result<SearchResponse>)
    requires reader.Valid()
    modifies reader
    ensures reader.Valid() && reader.output == old(reader.output)
    ensures Criteria(reader.input, old(reader.Cursor())).Err? ==>
      r == Err(Criteria(reader.input, old(reader.Cursor())).error)
    ensures Criteria(reader.input, old(reader.Cursor())).Ok? ==>
      var (term, end) := Criteria(reader.input, old(reader.Cursor())).value;
      && (EolAt(reader.input, end).None? ==> r.Err? && r.error.ProtocolError?)
      && (EolAt(reader.input, end).Some? && r.Ok? ==>
            r.value.criteria == term && r.value.omitExpunged == !useUids)
      && (EolAt(reader.input, end).Some? && view.folder == null ==> r == Err(NullFolder))
      && (EolAt(reader.input, end).Some? && view.folder != null && useUids ==>
            r == Ok(SearchResponse(term, IdList(found), false)))
      && (EolAt(reader.input, end).Some? && !useUids && view.folder != null && MsnsOf(view.folder.uids, found).Ok? ==>
            r == Ok(SearchResponse(term, IdList(MsnsOf(view.folder.uids, found).value), true)))
      && (EolAt(reader.input, end).Some? && !useUids && view.folder != null && MsnsOf(view.folder.uids, found).Err? ==>
            r == Err(NoSuchMessage))
  {
    var searchTerm :- SearchTerm(reader);
    var _ :- reader.Eol();
    // `folder.search` dereferences the view's folder whatever it finds
    if view.folder == null {
      return Err(NullFolder);
    }
    var idList :- BuildIdList(view, found, useUids);
    var omitExpunged := !useUids;
    return Ok(SearchResponse(searchTerm, idList, omitExpunged));
  }
}
