/** The computational helpers of `GreenMailUtil`: compressing a UID list into
    the ranges of an RFC 2060 section 9 `set`, rendering those ranges, the
    random password generator and the line counter. */
module GreenMailUtil {
  import opened Wrappers
  import opened Text

  /** `com.icegreen.greenmail.imap.commands.IdRange`: the inclusive range lo..hi. */
  datatype IdRange = IdRange(lo: int, hi: int)

  // ---------------------------------------------------------------------
  // Sorting (java.util.Collections.sort), as a function on values
  // ---------------------------------------------------------------------

  predicate Sorted(s: seq<int>) {
    forall i, j :: 0 <= i < j < |s| ==> s[i] <= s[j]
  }

  function InsertSorted(x: int, s: seq<int>): (r: seq<int>)
    requires Sorted(s)
    ensures Sorted(r)
    ensures multiset(r) == multiset(s) + multiset{x}
    ensures |r| == |s| + 1 && r[0] == if s == [] || x <= s[0] then x else s[0]
  {
    if s == [] then [x]
    else if x <= s[0] then [x] + s
    else
      var r' := InsertSorted(x, s[1..]);
      assert s == [s[0]] + s[1..];
      [s[0]] + r'
  }

  /** An ascending permutation of `s`. */
  function SortSeq(s: seq<int>): (r: seq<int>)
    ensures Sorted(r) && multiset(r) == multiset(s)
  {
    if s == [] then []
    else
      assert s == [s[0]] + s[1..];
      InsertSorted(s[0], SortSeq(s[1..]))
  }

  // ---------------------------------------------------------------------
  // convertUidsToIdRangeArray
  // ---------------------------------------------------------------------

  /** The UIDs the inclusive range `r` denotes. */
  predicate InSpan(r: IdRange, x: int) {
    r.lo <= x <= r.hi
  }

  /** Some range of `rs` holds the UID `x`. */
  predicate Covers(rs: seq<IdRange>, x: int) {
    exists k :: 0 <= k < |rs| && InSpan(rs[k], x)
  }

  /** Non-empty ranges in ascending order, any two separated by a gap of at
      least one missing UID, so that no two of them could be merged. */
  predicate Canonical(rs: seq<IdRange>) {
    && (forall k :: 0 <= k < |rs| ==> rs[k].lo <= rs[k].hi)
    && (forall j, k :: 0 <= j < k < |rs| ==> rs[j].hi + 1 < rs[k].lo)
  }

  /** One iteration of the loop over the sorted UIDs: the finished ranges and
      the range under construction, after looking at `uid`. */
  function Step(ids: seq<IdRange>, current: IdRange, uid: int): (seq<IdRange>, IdRange) {
    if uid == current.hi then (ids, current)
    else if uid > current.hi && uid == current.hi + 1 then (ids, IdRange(current.lo, uid))
    else (ids + [current], IdRange(uid, uid))
  }

  /** The loop state after looking at every element of the non-empty `s`. */
  function CompressState(s: seq<int>): (seq<IdRange>, IdRange)
    requires |s| > 0
  {
    if |s| == 1 then ([], IdRange(s[0], s[0]))
    else
      var st := CompressState(s[..|s| - 1]);
      Step(st.0, st.1, s[|s| - 1])
  }

  /** The ranges the loop returns for the sorted list `s`. */
  function Compress(s: seq<int>): seq<IdRange> {
    if s == [] then [] else CompressState(s).0 + [CompressState(s).1]
  }

  lemma CoversSnoc(rs: seq<IdRange>, r: IdRange, x: int)
    ensures Covers(rs + [r], x) <==> Covers(rs, x) || InSpan(r, x)
  {
    var t := rs + [r];
    if Covers(t, x) {
      var k :| 0 <= k < |t| && InSpan(t[k], x);
      if k < |rs| {
        assert t[k] == rs[k];
      }
    }
    if Covers(rs, x) {
      var k :| 0 <= k < |rs| && InSpan(rs[k], x);
      assert t[k] == rs[k];
    }
    if InSpan(r, x) {
      assert t[|rs|] == r;
    }
  }

  /** The range under construction always ends at the last UID looked at. */
  lemma {:induction false} CompressStateLast(s: seq<int>)
    requires |s| > 0
    ensures CompressState(s).1.hi == s[|s| - 1]
    ensures CompressState(s).1.lo <= CompressState(s).1.hi
  {
    if |s| > 1 {
      CompressStateLast(s[..|s| - 1]);
    }
  }

  /** The ranges after looking at a list cover exactly its elements. */
  lemma {:induction false} CompressStateCovers(s: seq<int>)
    requires |s| > 0
    ensures var st := CompressState(s); forall x :: Covers(st.0 + [st.1], x) <==> x in s
  {
    var (ids, cur) := CompressState(s);
    if |s| == 1 {
      forall x
        ensures Covers(ids + [cur], x) <==> x in s
      {
        CoversSnoc([], cur, x);
        assert [] + [cur] == ids + [cur];
      }
    } else {
      var p := s[..|s| - 1];
      var last := s[|s| - 1];
      CompressStateCovers(p);
      CompressStateLast(p);
      var (ids0, cur0) := CompressState(p);
      assert s == p + [last];
      assert p[|p| - 1] == cur0.hi;
      forall x
        ensures Covers(ids + [cur], x) <==> x in s
      {
        assert x in s <==> x in p || x == last;
        if last == cur0.hi {
        } else if last == cur0.hi + 1 {
          CoversSnoc(ids0, cur, x);
          CoversSnoc(ids0, cur0, x);
        } else {
          CoversSnoc(ids0 + [cur0], cur, x);
        }
      }
    }
  }

  /** On sorted input the ranges stay canonical. */
  lemma {:induction false} CompressStateCanonical(s: seq<int>)
    requires |s| > 0 && Sorted(s)
    ensures var st := CompressState(s); Canonical(st.0 + [st.1])
  {
    if |s| > 1 {
      var p := s[..|s| - 1];
      var x := s[|s| - 1];
      CompressStateCanonical(p);
      CompressStateLast(p);
      var (ids0, cur0) := CompressState(p);
      var prev := ids0 + [cur0];
      assert forall j :: 0 <= j < |ids0| ==> prev[j] == ids0[j];
      assert prev[|ids0|] == cur0;
      assert forall j :: 0 <= j < |ids0| ==> ids0[j].hi + 1 < cur0.lo;
      assert x >= cur0.hi;
      if x == cur0.hi {
      } else if x == cur0.hi + 1 {
        var nw := ids0 + [IdRange(cur0.lo, x)];
        assert forall j :: 0 <= j < |ids0| ==> nw[j] == ids0[j];
      } else {
        var nw := prev + [IdRange(x, x)];
        assert forall j :: 0 <= j < |prev| ==> nw[j] == prev[j];
        assert forall j :: 0 <= j < |prev| ==> prev[j].hi + 1 < x;
      }
    }
  }

  /** The ranges built from a sorted list are canonical and cover exactly its elements. */
  lemma CompressCanonical(s: seq<int>)
    requires Sorted(s)
    ensures Canonical(Compress(s))
    ensures forall x :: Covers(Compress(s), x) <==> x in s
  {
    if s != [] {
      CompressStateCanonical(s);
      CompressStateCovers(s);
    }
  }

  function ListOf(uids: Option<seq<int>>): seq<int> {
    if uids.None? then [] else uids.value
  }

  /** `convertUidsToIdRangeArray`: the sorted, maximal, disjoint ranges whose
      union is the set of given UIDs (a null list counts as empty). */
  method ConvertUidsToIdRangeArray(uids: Option<seq<int>>) returns (ranges: seq<IdRange>)
    ensures ranges == Compress(SortSeq(ListOf(uids)))
    ensures Canonical(ranges)
    ensures forall x :: Covers(ranges, x) <==> x in ListOf(uids)
    ensures ListOf(uids) == [] <==> ranges == []
  {
    if uids.None? || |uids.value| == 0 {
      CompressCanonical([]);
      return [];
    }
    var uidsLocal := SortSeq(uids.value);
    var ids: seq<IdRange> := [];
    var currentIdRange := IdRange(uidsLocal[0], uidsLocal[0]);
    for i := 0 to |uidsLocal|
      invariant (ids, currentIdRange) == CompressState(uidsLocal[..if i == 0 then 1 else i])
    {
      var uid := uidsLocal[i];
      if i > 0 {
        CompressStatePrefix(uidsLocal, i);
      }
      if uid == currentIdRange.hi {
      } else if uid > currentIdRange.hi && uid == currentIdRange.hi + 1 {
        currentIdRange := IdRange(currentIdRange.lo, uid);
      } else {
        ids := ids + [currentIdRange];
        currentIdRange := IdRange(uid, uid);
      }
    }
    assert uidsLocal[..|uidsLocal|] == uidsLocal;
    CompressStateFresh(uidsLocal);
    if currentIdRange !in ids {
      ids := ids + [currentIdRange];
    }
    ranges := ids;
    SortedCompression(uids.value);
  }

  /** One more element of the sorted list is one more loop iteration. */
  lemma CompressStatePrefix(s: seq<int>, i: nat)
    requires 1 <= i < |s|
    ensures CompressState(s[..i + 1]) == Step(CompressState(s[..i]).0, CompressState(s[..i]).1, s[i])
  {
    assert s[..i + 1][..i] == s[..i];
  }

  /** Sorting first, the ranges are canonical and cover exactly the UIDs. */
  lemma SortedCompression(s: seq<int>)
    ensures Canonical(Compress(SortSeq(s)))
    ensures forall x :: Covers(Compress(SortSeq(s)), x) <==> x in s
  {
    CompressCanonical(SortSeq(s));
    SortSeqElems(s);
  }

  /** The range under construction is never among the finished ones, so the
      final `contains` test always lets it be appended. */
  lemma CompressStateFresh(s: seq<int>)
    requires |s| > 0 && Sorted(s)
    ensures CompressState(s).1 !in CompressState(s).0
  {
    var (ids, cur) := CompressState(s);
    CompressStateCanonical(s);
    var all := ids + [cur];
    assert forall k :: 0 <= k < |ids| ==> all[k] == ids[k];
    assert all[|ids|] == cur;
    assert forall k :: 0 <= k < |ids| ==> ids[k].hi < cur.lo;
  }

  lemma SortSeqElems(s: seq<int>)
    ensures forall x :: x in SortSeq(s) <==> x in s
  {
    var r := SortSeq(s);
    assert forall x :: x in r <==> x in multiset(s);
  }

  // ---------------------------------------------------------------------
  // idRangeToString, idRangesToString, uidsToRangeString
  // ---------------------------------------------------------------------

  /** `idRangeToString`: `n` for a one-element range, otherwise `lo:hi`. */
  function IdRangeToString(r: IdRange): (s: string)
    ensures |s| > 0 && Free(s, ',')
  {
    IntToStringFree(r.lo, ',');
    IntToStringFree(r.hi, ',');
    if r.hi == r.lo then IntToString(r.lo) else IntToString(r.lo) + ":" + IntToString(r.hi)
  }

  /** The rendering of every range, in order. */
  function RangeStrings(rs: seq<IdRange>): (parts: seq<string>)
    ensures |parts| == |rs|
    ensures forall k :: 0 <= k < |rs| ==> parts[k] == IdRangeToString(rs[k])
  {
    if rs == [] then [] else [IdRangeToString(rs[0])] + RangeStrings(rs[1..])
  }

  /** Reads back one range rendered by `IdRangeToString`. */
  function ParseIdRange(s: string): Option<IdRange> {
    var k := FieldEnd(s, ':', 0);
    if k == |s| then
      (match ParseInt(s) case Some(n) => Some(IdRange(n, n)) case None => None)
    else
      match (ParseInt(s[..k]), ParseInt(s[k + 1..]))
      case (Some(lo), Some(hi)) => Some(IdRange(lo, hi))
      case _ => None
  }

  /** Reads back a comma-separated list of ranges. */
  function ParseIdRanges(s: string): Option<seq<IdRange>> {
    ParseEach(Split(s, ','))
  }

  function ParseEach(parts: seq<string>): Option<seq<IdRange>> {
    if parts == [] then Some([])
    else
      var r := ParseIdRange(parts[0]);
      var rs := ParseEach(parts[1..]);
      if r.Some? && rs.Some? then Some([r.value] + rs.value) else None
  }

  /** A rendered range reads back as itself. */
  lemma IdRangeRoundTrip(r: IdRange)
    ensures ParseIdRange(IdRangeToString(r)) == Some(r)
  {
    var a := IntToString(r.lo);
    IntToStringRoundTrip(r.lo);
    IntToStringRoundTrip(r.hi);
    IntToStringFree(r.lo, ':');
    IntToStringFree(r.hi, ':');
    if r.hi == r.lo {
      assert FieldEnd(a, ':', 0) == |a|;
    } else {
      var s := a + ":" + IntToString(r.hi);
      assert s[|a|] == ':';
      assert forall j :: 0 <= j < |a| ==> s[j] == a[j];
      assert FieldEnd(s, ':', 0) == |a|;
      assert s[..|a|] == a;
      assert s[|a| + 1..] == IntToString(r.hi);
    }
  }

  lemma {:induction false} ParseEachRoundTrip(rs: seq<IdRange>)
    ensures ParseEach(RangeStrings(rs)) == Some(rs)
  {
    if rs != [] {
      var parts := RangeStrings(rs);
      IdRangeRoundTrip(rs[0]);
      ParseEachRoundTrip(rs[1..]);
      assert parts[1..] == RangeStrings(rs[1..]);
      assert rs == [rs[0]] + rs[1..];
    }
  }

  /** The comma-joined string of a range list reads back as that list. */
  lemma IdRangesRoundTrip(rs: seq<IdRange>)
    ensures ParseIdRanges(Join(RangeStrings(rs), ',')) == Some(rs)
  {
    SplitJoin(RangeStrings(rs), ',');
    ParseEachRoundTrip(rs);
  }

  /** A join of non-empty parts neither starts nor ends with the separator
      unless a part does, and is empty exactly when there are no parts. */
  lemma {:induction false} JoinEnds(parts: seq<string>, sep: char)
    requires forall k :: 0 <= k < |parts| ==> |parts[k]| > 0 && Free(parts[k], sep)
    ensures var s := Join(parts, sep);
      && (s == "" <==> parts == [])
      && (s != "" ==> s[0] != sep && s[|s| - 1] != sep)
  {
    if |parts| > 1 {
      JoinEnds(parts[1..], sep);
      var s := Join(parts, sep);
      assert s[0] == parts[0][0];
      assert s[|s| - 1] == Join(parts[1..], sep)[|Join(parts[1..], sep)| - 1];
    }
  }

  /** `idRangesToString`: the renderings of the ranges, joined by commas. */
  method IdRangesToString(idRanges: seq<IdRange>) returns (s: string)
    ensures s == Join(RangeStrings(idRanges), ',')
    ensures s == "" <==> idRanges == []
    ensures s != "" ==> s[0] != ',' && s[|s| - 1] != ','
    ensures ParseIdRanges(s) == Some(idRanges)
  {
    var sb := "";
    for i := 0 to |idRanges|
      invariant sb == Join(RangeStrings(idRanges[..i]), ',')
      invariant |sb| > 0 <==> i > 0
    {
      if |sb| > 0 {
        sb := sb + ",";
      }
      var part := IdRangeToString(idRanges[i]);
      assert RangeStrings(idRanges[..i + 1]) == RangeStrings(idRanges[..i]) + [part];
      if i > 0 {
        JoinSnoc(RangeStrings(idRanges[..i]), part, ',');
      }
      sb := sb + part;
    }
    assert idRanges[..|idRanges|] == idRanges;
    s := sb;
    JoinEnds(RangeStrings(idRanges), ',');
    IdRangesRoundTrip(idRanges);
  }

  /** `uidsToRangeString`: the UID list compressed and rendered; the string
      reads back as canonical ranges covering exactly the given UIDs. */
  method UidsToRangeString(uids: Option<seq<int>>) returns (s: string)
    ensures s == Join(RangeStrings(Compress(SortSeq(ListOf(uids)))), ',')
    ensures match ParseIdRanges(s)
      case Some(rs) => Canonical(rs) && forall x :: Covers(rs, x) <==> x in ListOf(uids)
      case None => false
  {
    var ranges := ConvertUidsToIdRangeArray(uids);
    s := IdRangesToString(ranges);
  }

  // ---------------------------------------------------------------------
  // random
  // ---------------------------------------------------------------------

  /** Letters and digits without the easily confused 1, l, I, 0, O and Q. */
  const GenerateSet: string := "abcdefghijkmnopqrstuvwxyzABCDEFGHJKLMNPRSTUVWXYZ23456789"

  function Max0(n: int): nat {
    if n > 0 then n else 0
  }

  /** The character the generator picks for a draw of `r.nextInt(56)` when the
      counter has just been incremented to `count`. */
  function Pick(draw: nat, count: nat): (c: char)
    requires draw < |GenerateSet|
    ensures c in GenerateSet
  {
    GenerateSet[(draw + count) % |GenerateSet|]
  }

  /** The process-wide state of the password generator (`generateCount`). */
  class PasswordGenerator {
    var generateCount: nat

    constructor ()
      ensures generateCount == 0
    {
      generateCount := 0;
    }

    /** `random(nbrOfLetters)`; `draws` are the successive results of
        `r.nextInt(56)`. */
    method Random(nbrOfLetters: int, draws: seq<nat>) returns (s: string)
      requires |draws| >= nbrOfLetters
      requires forall k :: 0 <= k < |draws| ==> draws[k] < |GenerateSet|
      modifies this
      ensures |s| == Max0(nbrOfLetters)
      ensures generateCount == old(generateCount) + Max0(nbrOfLetters)
      ensures forall k :: 0 <= k < |s| ==> s[k] == Pick(draws[k], old(generateCount) + k + 1)
      ensures forall k :: 0 <= k < |s| ==> s[k] in GenerateSet
    {
      var ret := "";
      var n := nbrOfLetters;
      while n > 0
        invariant |ret| == Max0(nbrOfLetters) - Max0(n)
        invariant generateCount == old(generateCount) + |ret|
        invariant forall k :: 0 <= k < |ret| ==> ret[k] == Pick(draws[k], old(generateCount) + k + 1)
      {
        generateCount := generateCount + 1;
        var pos := (draws[|ret|] + generateCount) % |GenerateSet|;
        ret := ret + [GenerateSet[pos]];
        n := n - 1;
      }
      s := ret;
    }

    /** `random()`: `lengthDraw` is the result of `r.nextInt(3)`. */
    method RandomPassword(lengthDraw: nat, draws: seq<nat>) returns (s: string)
      requires lengthDraw < 3
      requires |draws| >= lengthDraw + 5
      requires forall k :: 0 <= k < |draws| ==> draws[k] < |GenerateSet|
      modifies this
      ensures 5 <= |s| <= 7 && |s| == lengthDraw + 5
      ensures generateCount == old(generateCount) + |s|
      ensures forall k :: 0 <= k < |s| ==> s[k] in GenerateSet
    {
      s := Random(lengthDraw + 5, draws);
    }
  }

  // ---------------------------------------------------------------------
  // getLineCount
  // ---------------------------------------------------------------------

  predicate IsBreak(c: char) {
    c == '\n' || c == '\r'
  }

  /** The index of the first CR or LF at or after `i`, or `|s|`. */
  function BreakIndex(s: string, i: nat): (r: nat)
    requires i <= |s|
    ensures i <= r <= |s|
    ensures forall j :: i <= j < r ==> !IsBreak(s[j])
    ensures r < |s| ==> IsBreak(s[r])
    decreases |s| - i
  {
    if i == |s| || IsBreak(s[i]) then i else BreakIndex(s, i + 1)
  }

  /** Where `BufferedReader.readLine` leaves off after reading the line that
      starts at `i`: past its CR, LF or CR LF terminator. */
  function NextLine(s: string, i: nat): (r: nat)
    requires i < |s|
    ensures i < r <= |s|
  {
    var e := BreakIndex(s, i);
    if e == |s| then e
    else if s[e] == '\r' && e + 1 < |s| && s[e + 1] == '\n' then e + 2
    else e + 1
  }

  /** The number of lines `readLine` yields from position `i` on. */
  function LinesFrom(s: string, i: nat): nat
    requires i <= |s|
    decreases |s| - i
  {
    if i == |s| then 0 else 1 + LinesFrom(s, NextLine(s, i))
  }

  /** `getLineCount`: counts the lines `readLine` yields. */
  method GetLineCount(str: string) returns (ret: nat)
    ensures ret == LinesFrom(str, 0)
  {
    ret := 0;
    var pos := 0;
    while pos < |str|
      invariant pos <= |str|
      invariant ret + LinesFrom(str, pos) == LinesFrom(str, 0)
      decreases |str| - pos
    {
      // readLine: scan to the terminator, then past it
      var e := pos;
      while e < |str| && !IsBreak(str[e])
        invariant pos <= e <= |str|
        invariant BreakIndex(str, e) == BreakIndex(str, pos)
      {
        e := e + 1;
      }
      assert e == BreakIndex(str, pos);
      if e < |str| {
        if str[e] == '\r' && e + 1 < |str| && str[e + 1] == '\n' {
          e := e + 2;
        } else {
          e := e + 1;
        }
      }
      assert e == NextLine(str, pos);
      pos := e;
      ret := ret + 1;
    }
  }

  /** Lines without CR or LF, each followed by the terminator `t`. */
  function Terminated(lines: seq<string>, t: string): string {
    if lines == [] then "" else lines[0] + t + Terminated(lines[1..], t)
  }

  predicate IsTerminator(t: string) {
    t == "\n" || t == "\r" || t == "\r\n"
  }

  /** Counting from `|p| + i` in `p + q` is counting from `i` in `q`. */
  lemma {:induction false} LinesFromShift(p: string, q: string, i: nat)
    requires i <= |q|
    ensures LinesFrom(p + q, |p| + i) == LinesFrom(q, i)
    decreases |q| - i
  {
    var s := p + q;
    if i < |q| {
      BreakIndexShift(p, q, i);
      var e := BreakIndex(q, i);
      if e < |q| {
        assert s[|p| + e] == q[e];
        if e + 1 < |q| {
          assert s[|p| + e + 1] == q[e + 1];
        }
      }
      assert NextLine(s, |p| + i) == |p| + NextLine(q, i);
      LinesFromShift(p, q, NextLine(q, i));
    }
  }

  lemma {:induction false} BreakIndexShift(p: string, q: string, i: nat)
    requires i <= |q|
    ensures BreakIndex(p + q, |p| + i) == |p| + BreakIndex(q, i)
    decreases |q| - i
  {
    if i < |q| {
      assert (p + q)[|p| + i] == q[i];
      BreakIndexShift(p, q, i + 1);
    }
  }

  predicate BreakFree(l: string) {
    forall j :: 0 <= j < |l| ==> !IsBreak(l[j])
  }

  /** One line and its terminator count as one line. */
  lemma LineStep(l: string, t: string, rest: string)
    requires IsTerminator(t) && BreakFree(l)
    requires t == "\r" && rest != [] ==> rest[0] != '\n'
    ensures LinesFrom(l + t + rest, 0) == 1 + LinesFrom(rest, 0)
  {
    var s := l + t + rest;
    assert s == (l + t) + rest;
    assert forall j :: 0 <= j < |l| ==> s[j] == l[j];
    assert s[|l|] == t[0];
    assert BreakIndex(s, 0) == |l|;
    if t == "\r" && rest != [] {
      assert s[|l| + 1] == rest[0];
    }
    assert NextLine(s, 0) == |l + t|;
    LinesFromShift(l + t, rest, 0);
  }

  /** What follows a terminated line never starts with LF. */
  lemma NoLeadingLF(lines: seq<string>, t: string, last: string)
    requires IsTerminator(t)
    requires forall k :: 0 <= k < |lines| ==> BreakFree(lines[k])
    requires BreakFree(last)
    ensures var s := Terminated(lines, t) + last; s != [] ==> s[0] != '\n' || t != "\r"
  {
    var s := Terminated(lines, t) + last;
    if lines != [] && t == "\r" {
      assert s == lines[0] + t + (Terminated(lines[1..], t) + last);
      if |lines[0]| > 0 { assert s[0] == lines[0][0]; } else { assert s[0] == '\r'; }
    } else if lines == [] && last != [] {
      assert s[0] == last[0];
    }
  }

  /** Lines terminated by CR, LF or CR LF count once each; a final line
      without terminator counts once more, and the empty string has none. */
  lemma {:induction false} LineCountOfLines(lines: seq<string>, t: string, last: string)
    requires IsTerminator(t)
    requires forall k :: 0 <= k < |lines| ==> BreakFree(lines[k])
    requires BreakFree(last)
    ensures LinesFrom(Terminated(lines, t) + last, 0) == |lines| + (if last == "" then 0 else 1)
  {
    if lines == [] {
      if last != "" {
        assert BreakIndex(last, 0) == |last|;
      }
    } else {
      var rest := Terminated(lines[1..], t) + last;
      assert Terminated(lines, t) + last == lines[0] + t + rest;
      NoLeadingLF(lines[1..], t, last);
      LineStep(lines[0], t, rest);
      LineCountOfLines(lines[1..], t, last);
    }
  }
}
