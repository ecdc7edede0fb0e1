/** What the SEARCH criteria parser computes, stated as functions of the byte
    stream and the cursor index at which a parse step starts. Each function
    returns the parsed value with the cursor index at which the step leaves
    the reader, or the error it raises. The imperative parser in module
    SearchCommand is proved to agree with these functions. */
module SearchSpec {
  import opened Wrappers
  import opened RequestReader

  /** A search criterion; `Absent` is the null term the parser folds from. */
  datatype Term =
    | Absent
    | Key(name: string, params: seq<string>)
    | Expr(name: string, operands: seq<Term>)
    | And(left: Term, right: Term)

  /** `resultTerm == null ? searchTerm : new AndTerm(resultTerm, searchTerm)` */
  function Fold(acc: Term, t: Term): Term {
    if acc == Absent then t else And(acc, t)
  }

  /** How many parameters a search key takes, and of which kind. */
  datatype Arity = Strings(n: nat) | Terms(n: nat)

  function UpperChar(c: char): char {
    if 'a' <= c <= 'z' then (c as int - 32) as char else c
  }

  function Upper(s: string): (u: string)
    ensures |u| == |s|
    ensures forall k :: 0 <= k < |s| ==> u[k] == UpperChar(s[k])
  {
    if s == [] then [] else [UpperChar(s[0])] + Upper(s[1..])
  }

  /** The search keys of RFC 2060 section 6.4.4 with what each expects. */
  const KeyTable: seq<(string, Arity)> := [
    ("ALL", Strings(0)), ("ANSWERED", Strings(0)), ("DELETED", Strings(0)),
    ("DRAFT", Strings(0)), ("FLAGGED", Strings(0)), ("NEW", Strings(0)),
    ("OLD", Strings(0)), ("RECENT", Strings(0)), ("SEEN", Strings(0)),
    ("UNANSWERED", Strings(0)), ("UNDELETED", Strings(0)), ("UNDRAFT", Strings(0)),
    ("UNFLAGGED", Strings(0)), ("UNSEEN", Strings(0)),
    ("BCC", Strings(1)), ("BEFORE", Strings(1)), ("BODY", Strings(1)),
    ("CC", Strings(1)), ("FROM", Strings(1)), ("KEYWORD", Strings(1)),
    ("LARGER", Strings(1)), ("ON", Strings(1)), ("SENTBEFORE", Strings(1)),
    ("SENTON", Strings(1)), ("SENTSINCE", Strings(1)), ("SINCE", Strings(1)),
    ("SMALLER", Strings(1)), ("SUBJECT", Strings(1)), ("TEXT", Strings(1)),
    ("TO", Strings(1)), ("UID", Strings(1)), ("UNKEYWORD", Strings(1)),
    ("HEADER", Strings(2)),
    ("NOT", Terms(1)), ("OR", Terms(2))]

  /** The entry of `table` for `key`, if any. */
  function Lookup(key: string, table: seq<(string, Arity)>): (r: Option<Arity>)
    decreases |table|
  {
    if table == [] then None
    else if table[0].0 == key then Some(table[0].1)
    else Lookup(key, table[1..])
  }

  /** A message sequence set used as a key: digits, `:`, `*` and `,`. */
  predicate IsSequenceSet(name: string) {
    |name| > 0 && forall k :: 0 <= k < |name| ==> ('0' <= name[k] <= '9' || name[k] == ':' || name[k] == '*' || name[k] == ',')
  }

  /** The search-term builder's table: what a key (in any letter case)
      expects after it. Names outside RFC 2060 section 6.4.4 are refused. */
  function KeyKind(name: string): (r: Result<Arity>)
    ensures r.Ok? ==> |name| > 0
  {
    var key := Upper(name);
    if IsSequenceSet(key) then Ok(Strings(0))
    else
      var entry := Lookup(key, KeyTable);
      if key != [] && entry.Some? then Ok(entry.value) else Err(ProtocolError("Invalid search key."))
  }

  /** `nextChar` as a function of the cursor. */
  function Peek(s: seq<bv8>, i: nat): (r: Result<char>)
    requires i <= |s|
    ensures r.Ok? <==> i < |s|
  {
    if i < |s| then Ok(CharAt(s, i)) else Err(EndOfStream)
  }

  /** `trimFirstSpace`: consumes one space if one is next. */
  function TrimFirstSpace(s: seq<bv8>, i: nat): (r: Result<nat>)
    requires i <= |s|
    ensures r.Ok? <==> i < |s|
    ensures r.Ok? ==> r.value < |s| || CharAt(s, i) == ' '
    ensures r.Ok? ==> r.value == if CharAt(s, i) == ' ' then i + 1 else i
  {
    var c :- Peek(s, i);
    Ok(if c == ' ' then i + 1 else i)
  }

  predicate EndsKey(c: char) {
    c == ' ' || c == '\r' || c == '\n' || c == ')'
  }

  /** The end of the key token: the first space, CR, LF or `)` at or after `i`. */
  function KeyEnd(s: seq<bv8>, i: nat): (k: nat)
    requires i <= |s|
    ensures i <= k <= |s|
    ensures forall j :: i <= j < k ==> !EndsKey(CharAt(s, j))
    ensures k < |s| ==> EndsKey(CharAt(s, k))
    decreases |s| - i
  {
    if i == |s| || EndsKey(CharAt(s, i)) then i else KeyEnd(s, i + 1)
  }

  /** `searchTerm`: the criteria of the rest of the line, left-folded with `And`. */
  function Criteria(s: seq<bv8>, i: nat): Result<(Term, nat)>
    requires i <= |s|
  {
    var i1 :- TrimFirstSpace(s, i);
    var next :- Peek(s, i1);
    CriteriaLoop(s, i1, next, Absent)
  }

  /** The loop of `searchTerm`; `next` is the char seen before the last
      `trimFirstSpace`, which is what the loop condition tests. */
  function CriteriaLoop(s: seq<bv8>, i: nat, next: char, acc: Term): (r: Result<(Term, nat)>)
    requires i <= |s|
    ensures r.Ok? ==> i <= r.value.1 <= |s|
    decreases |s| - i
  {
    if next == '\r' || next == '\n' then Ok((acc, i))
    else
      var t := ExtractTerm(s, i);
      if t.Err? then Err(t.error)
      else if t.value.1 == |s| then Ok((Fold(acc, t.value.0), t.value.1))
      else
        var c := CharAt(s, t.value.1);
        CriteriaLoop(s, if c == ' ' then t.value.1 + 1 else t.value.1, c, Fold(acc, t.value.0))
  }

  /** `extractSearchTerm`: a parenthesised group, or a key with its parameters. */
  function ExtractTerm(s: seq<bv8>, i: nat): (r: Result<(Term, nat)>)
    requires i <= |s|
    ensures r.Ok? ==> i < r.value.1 <= |s|
    decreases |s| - i, 3, 0
  {
    var i1 := TrimFirstSpace(s, i);
    if i1.Err? then Err(i1.error)
    else if i1.value == |s| then Err(EndOfStream)
    else if CharAt(s, i1.value) == '(' then Paren(s, i1.value)
    else KeyTerm(s, i1.value)
  }

  /** A key token (the maximal run of chars other than space, CR, LF and
      `)`), looked up in the key table, followed by what the key expects. */
  function KeyTerm(s: seq<bv8>, i: nat): (r: Result<(Term, nat)>)
    requires i <= |s|
    ensures r.Ok? ==> i < r.value.1 <= |s|
    decreases |s| - i, 2, 1
  {
    var k := KeyEnd(s, i);
    if k == |s| then Err(EndOfStream)
    else
      var name := Chars(s[i..k]);
      var kind := KeyKind(name);
      if kind.Err? then Err(kind.error)
      else if kind.value.Terms? then
        var e := ExprParams(s, k, kind.value.n, []);
        if e.Err? then Err(e.error) else Ok((Expr(Upper(name), e.value.0), e.value.1))
      else
        var p := StrParams(s, k, kind.value.n, []);
        if p.Err? then Err(p.error) else Ok((Key(Upper(name), p.value.0), p.value.1))
  }

  /** `extractParameterExpression`: `n` more criteria as operands of NOT or
      OR, appended to the operands `acc` already read. */
  function ExprParams(s: seq<bv8>, i: nat, n: nat, acc: seq<Term>): (r: Result<(seq<Term>, nat)>)
    requires i <= |s|
    ensures r.Ok? ==> i <= r.value.1 <= |s| && |r.value.0| == |acc| + n
    decreases |s| - i, 4, n
  {
    if n == 0 then Ok((acc, i))
    else
      var t := ExtractTerm(s, i);
      if t.Err? then Err(t.error) else ExprParams(s, t.value.1, n - 1, acc + [t.value.0])
  }

  /** `paren`: consumes `(`, left-folds the criteria up to `)` and consumes it. */
  function Paren(s: seq<bv8>, i: nat): (r: Result<(Term, nat)>)
    requires i < |s| && CharAt(s, i) == '('
    ensures r.Ok? ==> i < r.value.1 <= |s|
    decreases |s| - i, 2, 0
  {
    ParenLoop(s, i + 1, Absent)
  }

  function ParenLoop(s: seq<bv8>, i: nat, acc: Term): (r: Result<(Term, nat)>)
    requires i <= |s|
    ensures r.Ok? ==> i < r.value.1 <= |s|
    decreases |s| - i, 4, 0
  {
    // nextWordChar
    var j := SkipSpaces(s, i);
    if j == |s| then Err(EndOfStream)
    else if CharAt(s, j) == '\r' || CharAt(s, j) == '\n' then Err(MissingArgument)
    else if CharAt(s, j) == ')' then Ok((acc, j + 1))
    else
      var t := ExtractTerm(s, j);
      if t.Err? then Err(t.error) else ParenLoop(s, t.value.1, Fold(acc, t.value.0))
  }

  /** `extractParameters`: `n` more string parameters, each unescaped,
      appended to the parameters `acc` already read. */
  function StrParams(s: seq<bv8>, i: nat, n: nat, acc: seq<string>): (r: Result<(seq<string>, nat)>)
    requires i <= |s|
    ensures r.Ok? ==> i <= r.value.1 <= |s| && |r.value.0| == |acc| + n
    decreases n
  {
    if n == 0 then Ok((acc, i))
    else
      var p := Param(s, i);
      if p.Err? then Err(p.error) else StrParams(s, p.value.1, n - 1, acc + [p.value.0])
  }

  /** One pass of the loop of `extractParameters`. */
  function Param(s: seq<bv8>, i: nat): (r: Result<(string, nat)>)
    requires i <= |s|
    ensures r.Ok? ==> i <= r.value.1 <= |s|
  {
    var i1 :- TrimFirstSpace(s, i);
    var next :- Peek(s, i1);
    var quoted := next == '"';
    var p :- ParamScan(s, if quoted then i1 + 1 else i1, quoted, "");
    Ok((Unescape(p.0), p.1))
  }

  /** A quote ends a parameter unless the text so far ends in a backslash. */
  predicate ClosesQuote(sb: string) {
    |sb| == 0 || sb[|sb| - 1] != '\\'
  }

  /** The inner loop of `extractParameters`, collecting the raw text `sb`.
      It stops before a `)`, CR or LF and before a space outside quotes, and
      after a closing quote, which it consumes. */
  function ParamScan(s: seq<bv8>, i: nat, quoted: bool, sb: string): (r: Result<(string, nat)>)
    requires i <= |s|
    ensures r.Ok? ==> i <= r.value.1 <= |s|
    decreases |s| - i
  {
    if i == |s| then Err(EndOfStream)
    else
      var c := CharAt(s, i);
      if c == ' ' && !quoted then Ok((sb, i))
      else if c == '"' && ClosesQuote(sb) then Ok((sb, i + 1))
      else if c == ')' || c == '\r' || c == '\n' then Ok((sb, i))
      else ParamScan(s, i + 1, quoted, sb + [c])
  }

  /** The raw text extends what was collected by chars that are never `)`,
      CR or LF, nor a space outside quotes; the scan stops before one of
      those or just after a quote that closes the text. */
  lemma {:induction false} ParamScanShape(s: seq<bv8>, i: nat, quoted: bool, sb: string)
    requires i <= |s|
    ensures var r := ParamScan(s, i, quoted, sb);
      r.Ok? ==>
        && |sb| <= |r.value.0| && r.value.0[..|sb|] == sb
        && (forall k :: |sb| <= k < |r.value.0| ==> r.value.0[k] !in ")\r\n" && (!quoted ==> r.value.0[k] != ' '))
        && (|| (r.value.1 < |s| && CharAt(s, r.value.1) in ")\r\n")
            || (r.value.1 < |s| && !quoted && CharAt(s, r.value.1) == ' ')
            || (i < r.value.1 && CharAt(s, r.value.1 - 1) == '"' && ClosesQuote(r.value.0)))
    decreases |s| - i
  {
    if i < |s| {
      var c := CharAt(s, i);
      if !(c == ' ' && !quoted) && !(c == '"' && ClosesQuote(sb)) && c !in ")\r\n" {
        ParamScanShape(s, i + 1, quoted, sb + [c]);
        var r := ParamScan(s, i + 1, quoted, sb + [c]);
        if r.Ok? {
          assert r.value.0[..|sb|] == r.value.0[..|sb| + 1][..|sb|];
        }
      }
    }
  }

  /** `clearParameter` as evidently intended: a backslash escapes the char
      after it, so `\\` stands for one backslash and any other backslash is
      dropped, a trailing one included. */
  function Unescape(t: string): string
    decreases |t|
  {
    if t == [] then []
    else if t[0] == '\\' then
      if |t| >= 2 && t[1] == '\\' then ['\\'] + Unescape(t[2..]) else Unescape(t[1..])
    else [t[0]] + Unescape(t[1..])
  }

  /** How a client writes `x` inside a quoted string (RFC 2060 section 9):
      a backslash before each quote and each backslash. */
  function Escape(x: string): (e: string)
    ensures |e| >= |x|
  {
    if x == [] then []
    else if x[0] == '\\' || x[0] == '"' then ['\\', x[0]] + Escape(x[1..])
    else [x[0]] + Escape(x[1..])
  }

  /** Unescaping undoes escaping. */
  lemma {:induction false} UnescapeEscape(x: string)
    ensures Unescape(Escape(x)) == x
    decreases |x|
  {
    if x != [] {
      UnescapeEscape(x[1..]);
      var e := Escape(x);
      if x[0] == '\\' || x[0] == '"' {
        assert e[2..] == Escape(x[1..]);
      } else {
        assert e[1..] == Escape(x[1..]);
      }
      assert x == [x[0]] + x[1..];
    }
  }

  predicate BackslashFree(t: string) {
    forall k :: 0 <= k < |t| ==> t[k] != '\\'
  }

  /** Text without backslashes passes through unchanged. */
  lemma {:induction false} UnescapeFree(a: string, x: string)
    requires BackslashFree(a)
    ensures Unescape(a + x) == a + Unescape(x)
    decreases |a|
  {
    if a != [] {
      var ax := a + x;
      assert ax[0] == a[0] != '\\';
      assert ax[1..] == a[1..] + x;
      UnescapeFree(a[1..], x);
      assert Unescape(ax) == [a[0]] + Unescape(ax[1..]);
      assert a == [a[0]] + a[1..];
    } else {
      assert a + x == x;
    }
  }

  /** The first index at or after `from` holding `c`, or `|d|` (Java's
      `indexOf(c, from)` with -1 written as `|d|`). */
  function IndexFrom(d: string, c: char, from: nat): (k: nat)
    ensures from <= |d| ==> from <= k <= |d|
    ensures from > |d| ==> k == |d|
    ensures k < |d| ==> d[k] == c
    ensures forall j :: from <= j < k ==> d[j] != c
    decreases |d| - from
  {
    if from >= |d| then |d|
    else if d[from] == c then from
    else IndexFrom(d, c, from + 1)
  }

  /** `clearParameter` as written, from the search position `from`. The guard
      `length() >= fromIndex + 1` always holds, so a backslash in the last
      position makes `charAt(fromIndex + 1)` index past the end. */
  function ClearParameterAsWritten(d: string, from: nat): Result<string>
    decreases |d| - from
  {
    var k := IndexFrom(d, '\\', from);
    if k == |d| then Ok(d)
    else if k + 1 >= |d| then Err(IndexError)
    else if d[k + 1] == '\\' then ClearParameterAsWritten(d[..k] + d[k + 1..], k + 1)
    else ClearParameterAsWritten(d[..k] + d[k + 1..], k)
  }

  /** The length of the run of backslashes that ends `t`. */
  function TrailingBackslashes(t: string): (n: nat)
    ensures n <= |t|
    decreases |t|
  {
    if t == [] || t[|t| - 1] != '\\' then 0 else 1 + TrailingBackslashes(t[..|t| - 1])
  }

  lemma {:induction false} TrailingAppend(x: string, y: string)
    ensures TrailingBackslashes(x + y) ==
      if TrailingBackslashes(y) == |y| then |y| + TrailingBackslashes(x) else TrailingBackslashes(y)
    decreases |y|
  {
    if y != [] {
      assert (x + y)[..|x + y| - 1] == x + y[..|y| - 1];
      TrailingAppend(x, y[..|y| - 1]);
    } else {
      assert x + y == x;
    }
  }

  /** The as-written `clearParameter` fails exactly when its text ends in an
      odd run of backslashes, and otherwise agrees with `Unescape`. */
  lemma ClearParameterAsWrittenFails(d: string)
    ensures ClearParameterAsWritten(d, 0).Err? <==> TrailingBackslashes(d) % 2 == 1
    ensures ClearParameterAsWritten(d, 0).Ok? ==> ClearParameterAsWritten(d, 0) == Ok(Unescape(d))
  {
    ClearAsWrittenFrom([], d);
    assert [] + d == d;
    assert [] + Unescape(d) == Unescape(d);
  }

  const IndexError := IndexOutOfBounds("String index out of range")

  lemma {:induction false} ClearAsWrittenFrom(p: string, t: string)
    ensures ClearParameterAsWritten(p + t, |p|) == ClearExpected(p, t)
    decreases |t|, 1
  {
    var d := p + t;
    var k := IndexFrom(d, '\\', |p|);
    if k == |d| {
      ClearNoBackslash(p, t);
    } else {
      var a := d[|p|..k];
      var rest := d[k + 1..];
      SplitAtBackslash(p, t, k, a, rest);
      if rest == [] {
        ClearLoneLast(p, a, t);
      } else if rest[0] == '\\' {
        ClearDoubleFrom(p, a, rest[1..], t);
      } else {
        ClearLoneFrom(p, a, rest, t);
      }
    }
  }

  /** The text starts with a backslash-free run and an escaped backslash. */
  lemma {:induction false} ClearDoubleFrom(p: string, a: string, t': string, t: string)
    requires BackslashFree(a) && t == a + (['\\', '\\'] + t')
    requires IndexFrom(p + t, '\\', |p|) == |p| + |a|
    ensures ClearParameterAsWritten(p + t, |p|) == ClearExpected(p, t)
    decreases |t|, 0
  {
    ClearAsWrittenFrom(p + a + ['\\'], t');
    DoubleUnfold(p, a, t', t);
    DoubleExpected(p, a, t', t);
  }

  /** The text starts with a backslash-free run and a backslash escaping another char. */
  lemma {:induction false} ClearLoneFrom(p: string, a: string, rest: string, t: string)
    requires BackslashFree(a) && rest != [] && rest[0] != '\\' && t == a + (['\\'] + rest)
    requires IndexFrom(p + t, '\\', |p|) == |p| + |a|
    ensures ClearParameterAsWritten(p + t, |p|) == ClearExpected(p, t)
    decreases |t|, 0
  {
    ClearAsWrittenFrom(p + a, rest);
    LoneUnfold(p, a, rest, t);
    LoneExpected(p, a, rest, t);
  }

  /** How the text splits around the first backslash after the prefix. */
  lemma SplitAtBackslash(p: string, t: string, k: nat, a: string, rest: string)
    requires k == IndexFrom(p + t, '\\', |p|) && k < |p + t|
    requires a == (p + t)[|p|..k] && rest == (p + t)[k + 1..]
    ensures BackslashFree(a) && t == a + (['\\'] + rest) && k == |p| + |a|
    ensures rest != [] && rest[0] == '\\' ==> t == a + (['\\', '\\'] + rest[1..])
  {
    var d := p + t;
    assert BackslashFree(a) by {
      forall m | 0 <= m < |a|
        ensures a[m] != '\\'
      {
        assert a[m] == d[|p| + m];
      }
    }
    assert t == a + (['\\'] + rest) by {
      SliceAround(d, |p|, k);
      assert d[|p|..] == t;
    }
    if rest != [] && rest[0] == '\\' {
      assert ['\\'] + rest == ['\\', '\\'] + rest[1..] by {
        assert rest == ['\\'] + rest[1..];
      }
    }
  }

  /** A suffix of a text splits around any char in it. */
  lemma SliceAround(d: string, q: nat, k: nat)
    requires q <= k < |d|
    ensures d[q..] == d[q..k] + ([d[k]] + d[k + 1..])
  {
    assert d[q..] == d[q..k] + d[k..];
    assert d[k..] == [d[k]] + d[k + 1..];
  }

  lemma ClearNoBackslash(p: string, t: string)
    requires IndexFrom(p + t, '\\', |p|) == |p + t|
    ensures ClearParameterAsWritten(p + t, |p|) == ClearExpected(p, t)
  {
    var d := p + t;
    assert t == d[|p|..];
    assert BackslashFree(t);
    UnescapeFree(t, []);
    assert t + [] == t;
  }

  lemma ClearLoneLast(p: string, a: string, t: string)
    requires BackslashFree(a) && t == a + ['\\']
    requires IndexFrom(p + t, '\\', |p|) == |p| + |a|
    ensures ClearParameterAsWritten(p + t, |p|) == ClearExpected(p, t)
  {
    TrailingAppend(a, ['\\']);
    assert TrailingBackslashes(['\\']) == 1;
    TrailingAppend([], a);
    assert [] + a == a;
  }

  /** What the as-written code yields from a processed prefix `p` and the rest `t`. */
  function ClearExpected(p: string, t: string): Result<string> {
    if TrailingBackslashes(t) % 2 == 1 then Err(IndexError) else Ok(p + Unescape(t))
  }

  lemma DoubleExpected(p: string, a: string, t': string, t: string)
    requires BackslashFree(a) && t == a + (['\\', '\\'] + t')
    ensures ClearExpected(p + a + ['\\'], t') == ClearExpected(p, t)
  {
    DoubleUnescape(a, t', t);
    DoubleTrailing(a, t', t);
    assert p + Unescape(t) == p + a + ['\\'] + Unescape(t');
  }

  lemma DoubleUnfold(p: string, a: string, t': string, t: string)
    requires t == a + (['\\', '\\'] + t')
    requires IndexFrom(p + t, '\\', |p|) == |p| + |a|
    ensures ClearParameterAsWritten(p + t, |p|) == ClearParameterAsWritten(p + a + ['\\'] + t', |p + a + ['\\']|)
  {
    var d := p + t;
    var k := |p| + |a|;
    assert d[k + 1] == '\\';
    assert d[..k] + d[k + 1..] == p + a + ['\\'] + t';
  }

  lemma DoubleUnescape(a: string, t': string, t: string)
    requires BackslashFree(a) && t == a + (['\\', '\\'] + t')
    ensures Unescape(t) == a + ['\\'] + Unescape(t')
  {
    UnescapeFree(a, ['\\', '\\'] + t');
    assert (['\\', '\\'] + t')[2..] == t';
  }

  lemma PlusTwoParity(n: nat)
    ensures (n + 2) % 2 == n % 2
  {
  }

  lemma DoubleTrailing(a: string, t': string, t: string)
    requires BackslashFree(a) && t == a + (['\\', '\\'] + t')
    ensures TrailingBackslashes(t) % 2 == TrailingBackslashes(t') % 2
  {
    var y := ['\\', '\\'] + t';
    TrailingAppend(a, y);
    TrailingAppend(['\\', '\\'], t');
    assert TrailingBackslashes(['\\', '\\']) == 2 by {
      assert ['\\', '\\'][..1] == ['\\'];
    }
    assert TrailingBackslashes(a) == 0 by {
      if a != [] {
        assert a[|a| - 1] != '\\';
      }
    }
    if TrailingBackslashes(t') == |t'| {
      assert TrailingBackslashes(y) == |y|;
      assert TrailingBackslashes(t) == TrailingBackslashes(t') + 2;
      PlusTwoParity(TrailingBackslashes(t'));
    } else {
      assert TrailingBackslashes(y) == TrailingBackslashes(t') < |y|;
      assert TrailingBackslashes(t) == TrailingBackslashes(t');
    }
  }

  lemma LoneExpected(p: string, a: string, rest: string, t: string)
    requires BackslashFree(a) && t == a + (['\\'] + rest) && |rest| > 0 && rest[0] != '\\'
    ensures ClearExpected(p + a, rest) == ClearExpected(p, t)
  {
    LoneUnescape(a, rest, t);
    LoneTrailing(a, rest, t);
    assert p + Unescape(t) == p + a + Unescape(rest);
  }

  lemma LoneUnfold(p: string, a: string, rest: string, t: string)
    requires t == a + (['\\'] + rest) && |rest| > 0 && rest[0] != '\\'
    requires IndexFrom(p + t, '\\', |p|) == |p| + |a|
    ensures ClearParameterAsWritten(p + t, |p|) == ClearParameterAsWritten(p + a + rest, |p + a|)
  {
    var d := p + t;
    var k := |p| + |a|;
    assert d[k + 1] == rest[0];
    assert d[..k] + d[k + 1..] == p + a + rest;
  }

  lemma LoneUnescape(a: string, rest: string, t: string)
    requires BackslashFree(a) && t == a + (['\\'] + rest) && |rest| > 0 && rest[0] != '\\'
    ensures Unescape(t) == a + Unescape(rest)
  {
    UnescapeFree(a, ['\\'] + rest);
    assert (['\\'] + rest)[1..] == rest;
  }

  lemma LoneTrailing(a: string, rest: string, t: string)
    requires BackslashFree(a) && t == a + (['\\'] + rest) && |rest| > 0 && rest[0] != '\\'
    ensures TrailingBackslashes(t) == TrailingBackslashes(rest)
  {
    TrailingAppend(a, ['\\'] + rest);
    TrailingAppend(['\\'], rest);
    RunShorter(rest);
  }

  /** A text that starts with a non-backslash is not all backslashes. */
  lemma {:induction false} RunShorter(t: string)
    requires |t| > 0 && t[0] != '\\'
    ensures TrailingBackslashes(t) < |t|
    decreases |t|
  {
    if |t| > 1 && t[|t| - 1] == '\\' {
      RunShorter(t[..|t| - 1]);
    }
  }

  // Properties of the criteria parser.

  /** Criteria that reach CR or LF after at most one leading space are null. */
  lemma CriteriaEmpty(s: seq<bv8>, i: nat)
    requires i < |s|
    requires CharAt(s, i) in "\r\n" || (CharAt(s, i) == ' ' && i + 1 < |s| && CharAt(s, i + 1) in "\r\n")
    ensures Criteria(s, i) == Ok((Absent, if CharAt(s, i) == ' ' then i + 1 else i))
  {
  }

  /** A single criterion followed by CR or LF is the result itself. */
  lemma CriteriaSingle(s: seq<bv8>, i: nat, t1: Term, j1: nat)
    requires i < |s| && CharAt(s, i) != ' ' && !IsLineEnd(CharAt(s, i))
    requires ExtractTerm(s, i) == Ok((t1, j1)) && j1 < |s| && IsLineEnd(CharAt(s, j1))
    ensures Criteria(s, i) == Ok((t1, j1))
  {
    CriteriaStart(s, i);
    CriteriaLoopNext(s, i, CharAt(s, i), Absent, t1, j1);
    CriteriaLoopEnd(s, j1, CharAt(s, j1), t1);
  }

  /** Once a first criterion `acc` is read, two more space-separated
      criteria ending the line are folded to the left onto it. */
  lemma CriteriaLeftFold(s: seq<bv8>, i: nat, acc: Term, t2: Term, j2: nat, t3: Term, j3: nat)
    requires i <= |s| && acc != Absent
    requires ExtractTerm(s, i) == Ok((t2, j2)) && j2 < |s| && CharAt(s, j2) == ' '
    requires ExtractTerm(s, j2 + 1) == Ok((t3, j3)) && j3 < |s| && IsLineEnd(CharAt(s, j3))
    ensures CriteriaLoop(s, i, ' ', acc) == Ok((And(And(acc, t2), t3), j3))
  {
    CriteriaLoopTwo(s, i, ' ', acc, t2, j2, t3, j3);
    CriteriaLoopEnd(s, j3, CharAt(s, j3), And(And(acc, t2), t3));
  }

  lemma CriteriaLoopTwo(s: seq<bv8>, i: nat, next: char, acc: Term, t2: Term, j2: nat, t3: Term, j3: nat)
    requires i <= |s| && !IsLineEnd(next)
    requires ExtractTerm(s, i) == Ok((t2, j2)) && j2 < |s| && CharAt(s, j2) == ' '
    requires ExtractTerm(s, j2 + 1) == Ok((t3, j3)) && j3 < |s|
    ensures CriteriaLoop(s, i, next, acc) ==
      CriteriaLoop(s, if CharAt(s, j3) == ' ' then j3 + 1 else j3, CharAt(s, j3), Fold(Fold(acc, t2), t3))
  {
    CriteriaLoopNext(s, i, next, acc, t2, j2);
  }

  predicate IsLineEnd(c: char) {
    c == '\r' || c == '\n'
  }

  lemma CriteriaStart(s: seq<bv8>, i: nat)
    requires i < |s| && CharAt(s, i) != ' '
    ensures Criteria(s, i) == CriteriaLoop(s, i, CharAt(s, i), Absent)
  {
  }

  lemma CriteriaLoopEnd(s: seq<bv8>, i: nat, next: char, acc: Term)
    requires i <= |s| && IsLineEnd(next)
    ensures CriteriaLoop(s, i, next, acc) == Ok((acc, i))
  {
  }

  /** One pass of the loop of `searchTerm` after a criterion not at the end. */
  lemma CriteriaLoopNext(s: seq<bv8>, i: nat, next: char, acc: Term, t: Term, j: nat)
    requires i <= |s| && !IsLineEnd(next)
    requires ExtractTerm(s, i) == Ok((t, j)) && j < |s|
    ensures CriteriaLoop(s, i, next, acc) ==
      CriteriaLoop(s, if CharAt(s, j) == ' ' then j + 1 else j, CharAt(s, j), Fold(acc, t))
  {
    assert ExtractTerm(s, i) == Ok((t, j));
    if CharAt(s, j) == ' ' {
      assert CriteriaLoop(s, i, next, acc) == CriteriaLoop(s, j + 1, ' ', Fold(acc, t));
    } else {
      assert CriteriaLoop(s, i, next, acc) == CriteriaLoop(s, j, CharAt(s, j), Fold(acc, t));
    }
  }

  /** A successful group ends just after the `)` it consumed. */
  lemma {:induction false} ParenLoopCloses(s: seq<bv8>, i: nat, acc: Term)
    requires i <= |s|
    ensures ParenLoop(s, i, acc).Ok? ==> CharAt(s, ParenLoop(s, i, acc).value.1 - 1) == ')'
    decreases |s| - i
  {
    var j := SkipSpaces(s, i);
    if j < |s| && CharAt(s, j) !in ")\r\n" {
      var t := ExtractTerm(s, j);
      if t.Ok? {
        ParenLoopCloses(s, t.value.1, Fold(acc, t.value.0));
      }
    }
  }

  /** A group consumes its `(` and its `)`. */
  lemma ParenSpans(s: seq<bv8>, i: nat)
    requires i < |s| && CharAt(s, i) == '('
    ensures Paren(s, i).Ok? ==> i + 2 <= Paren(s, i).value.1 && CharAt(s, Paren(s, i).value.1 - 1) == ')'
  {
    ParenLoopCloses(s, i + 1, Absent);
  }

  /** An empty group is null. */
  lemma ParenEmpty(s: seq<bv8>, i: nat)
    requires i < |s| && CharAt(s, i) == '('
    requires SkipSpaces(s, i + 1) < |s| && CharAt(s, SkipSpaces(s, i + 1)) == ')'
    ensures Paren(s, i) == Ok((Absent, SkipSpaces(s, i + 1) + 1))
  {
  }

  /** Reaching CR or LF inside a group is an error. */
  lemma ParenLineEnd(s: seq<bv8>, i: nat, acc: Term)
    requires i <= |s| && SkipSpaces(s, i) < |s| && CharAt(s, SkipSpaces(s, i)) in "\r\n"
    ensures ParenLoop(s, i, acc) == Err(MissingArgument)
  {
  }

  /** One pass of the loop of `paren`: the criterion read at the next word
      char is folded onto the group's accumulator. */
  lemma ParenLoopNext(s: seq<bv8>, i: nat, acc: Term, t: Term, j: nat)
    requires i <= |s| && SkipSpaces(s, i) < |s| && CharAt(s, SkipSpaces(s, i)) !in ")\r\n"
    requires ExtractTerm(s, SkipSpaces(s, i)) == Ok((t, j))
    ensures ParenLoop(s, i, acc) == ParenLoop(s, j, Fold(acc, t))
  {
    var e := ExtractTerm(s, SkipSpaces(s, i));
    assert !e.Err? && e.value == (t, j);
  }

  /** Two passes of the loop of `paren` and its closing `)`: the criteria
      are folded to the left onto the accumulator, as `searchTerm` folds them
      outside a group. A group `( t1 SP t2 )`, whose loop starts after the
      `(` with the null term, is therefore `And(t1, t2)`. */
  lemma ParenLoopTwo(s: seq<bv8>, i: nat, acc: Term, t1: Term, j1: nat, t2: Term, j2: nat)
    requires i <= |s| && SkipSpaces(s, i) < |s| && CharAt(s, SkipSpaces(s, i)) !in ")\r\n"
    requires ExtractTerm(s, SkipSpaces(s, i)) == Ok((t1, j1))
    requires SkipSpaces(s, j1) < |s| && CharAt(s, SkipSpaces(s, j1)) !in ")\r\n"
    requires ExtractTerm(s, SkipSpaces(s, j1)) == Ok((t2, j2))
    requires SkipSpaces(s, j2) < |s| && CharAt(s, SkipSpaces(s, j2)) == ')'
    ensures ParenLoop(s, i, acc) == Ok((Fold(Fold(acc, t1), t2), SkipSpaces(s, j2) + 1))
    ensures acc == Absent && t1 != Absent ==> ParenLoop(s, i, acc) == Ok((And(t1, t2), SkipSpaces(s, j2) + 1))
  {
    ParenLoopNext(s, i, acc, t1, j1);
    ParenLoopNext(s, j1, Fold(acc, t1), t2, j2);
    ParenLoopClose(s, j2, Fold(Fold(acc, t1), t2));
  }

  /** The loop of `paren` stops at `)`, consuming it and keeping the fold. */
  lemma ParenLoopClose(s: seq<bv8>, i: nat, acc: Term)
    requires i <= |s| && SkipSpaces(s, i) < |s| && CharAt(s, SkipSpaces(s, i)) == ')'
    ensures ParenLoop(s, i, acc) == Ok((acc, SkipSpaces(s, i) + 1))
  {
  }

  /** A key is the maximal non-empty run of chars other than space, CR, LF and
      `)`; an expression key yields its operands and any other key its string
      parameters, as many as the key table says. */
  lemma KeyTermShape(s: seq<bv8>, i: nat)
    requires i <= |s|
    ensures var r := KeyTerm(s, i);
      var k := KeyEnd(s, i);
      r.Ok? ==>
        && i < k < |s|
        && KeyKind(Chars(s[i..k])).Ok?
        && (match KeyKind(Chars(s[i..k])).value
            case Terms(n) =>
              r.value.0.Expr? && r.value.0.name == Upper(Chars(s[i..k])) && |r.value.0.operands| == n
            case Strings(n) =>
              r.value.0.Key? && r.value.0.name == Upper(Chars(s[i..k])) && |r.value.0.params| == n)
  {
  }

  // Quoted parameters.

  /** The bytes from `i` on spell `w`. */
  predicate Spells(s: seq<bv8>, i: nat, w: string) {
    i + |w| <= |s| && forall k :: 0 <= k < |w| ==> CharAt(s, i + k) == w[k]
  }

  /** Chars a parameter can hold whatever its quoting. */
  predicate ParamText(x: string) {
    forall k :: 0 <= k < |x| ==> x[k] !in ")\r\n"
  }

  /** Spelling a word from `i` spells each of its suffixes further on. */
  lemma SpellsShift(s: seq<bv8>, i: nat, w: string, n: nat)
    requires Spells(s, i, w) && n <= |w|
    ensures Spells(s, i + n, w[n..])
  {
    forall k | 0 <= k < |w| - n
      ensures CharAt(s, i + n + k) == w[n..][k]
    {
      assert CharAt(s, i + (n + k)) == w[n + k];
    }
  }

  /** A char that neither ends nor closes the parameter is collected. */
  lemma ScanStep(s: seq<bv8>, i: nat, quoted: bool, sb: string)
    requires i < |s|
    requires !(CharAt(s, i) == ' ' && !quoted) && !(CharAt(s, i) == '"' && ClosesQuote(sb))
    requires CharAt(s, i) !in ")\r\n"
    ensures ParamScan(s, i, quoted, sb) == ParamScan(s, i + 1, quoted, sb + [CharAt(s, i)])
  {
  }

  lemma {:induction false} ScanEscaped(s: seq<bv8>, i: nat, x: string, sb: string)
    requires Spells(s, i, Escape(x) + ['"']) && ParamText(x)
    requires ClosesQuote(sb + Escape(x))
    ensures ParamScan(s, i, true, sb) == Ok((sb + Escape(x), i + |Escape(x)| + 1))
    decreases |x|, 1
  {
    if x == [] {
      assert CharAt(s, i) == (Escape(x) + ['"'])[0];
      assert sb + Escape(x) == sb;
    } else if x[0] == '\\' || x[0] == '"' {
      ScanEscapedPair(s, i, x, sb);
    } else {
      ScanEscapedPlain(s, i, x, sb);
    }
  }

  /** A backslash or quote is escaped as a pair of chars. */
  lemma {:induction false} ScanEscapedPair(s: seq<bv8>, i: nat, x: string, sb: string)
    requires x != [] && (x[0] == '\\' || x[0] == '"')
    requires Spells(s, i, Escape(x) + ['"']) && ParamText(x)
    requires ClosesQuote(sb + Escape(x))
    ensures ParamScan(s, i, true, sb) == Ok((sb + Escape(x), i + |Escape(x)| + 1))
    decreases |x|, 0
  {
    var e := Escape(x);
    var e' := Escape(x[1..]);
    var w := e + ['"'];
    assert e == ['\\', x[0]] + e';
    assert w[2..] == e' + ['"'];
    SpellsShift(s, i, w, 2);
    assert CharAt(s, i) == w[0] == '\\';
    assert CharAt(s, i + 1) == w[1] == x[0];
    assert sb + ['\\'] + [x[0]] + e' == sb + e;
    ScanStep(s, i, true, sb);
    ScanStep(s, i + 1, true, sb + ['\\']);
    ScanEscaped(s, i + 2, x[1..], sb + ['\\'] + [x[0]]);
  }

  /** Any other char stands for itself. */
  lemma {:induction false} ScanEscapedPlain(s: seq<bv8>, i: nat, x: string, sb: string)
    requires x != [] && x[0] != '\\' && x[0] != '"'
    requires Spells(s, i, Escape(x) + ['"']) && ParamText(x)
    requires ClosesQuote(sb + Escape(x))
    ensures ParamScan(s, i, true, sb) == Ok((sb + Escape(x), i + |Escape(x)| + 1))
    decreases |x|, 0
  {
    var e := Escape(x);
    var e' := Escape(x[1..]);
    var w := e + ['"'];
    assert e == [x[0]] + e';
    assert w[1..] == e' + ['"'];
    SpellsShift(s, i, w, 1);
    assert CharAt(s, i) == w[0] == x[0];
    assert sb + [x[0]] + e' == sb + e;
    assert x[0] !in ")\r\n";
    ScanStep(s, i, true, sb);
    ScanEscaped(s, i + 1, x[1..], sb + [x[0]]);
  }

  lemma {:induction false} EscapeLast(x: string)
    requires x != [] && x[|x| - 1] != '\\'
    ensures Escape(x) != [] && Escape(x)[|Escape(x)| - 1] != '\\'
    decreases |x|
  {
    if |x| > 1 {
      EscapeLast(x[1..]);
    }
  }

  /** A parameter a client writes as a quoted string (a quote, the escaped
      text, a quote) is read back as the text, as long as the text holds no
      `)`, CR or LF and does not end in a backslash. */
  lemma QuotedParamRoundTrip(s: seq<bv8>, i: nat, x: string)
    requires Spells(s, i, ['"'] + Escape(x) + ['"']) && ParamText(x)
    requires x == [] || x[|x| - 1] != '\\'
    ensures Param(s, i) == Ok((x, i + |Escape(x)| + 2))
  {
    QuotedScan(s, i, x);
    ParamQuoted(s, i, Escape(x), i + |Escape(x)| + 2);
    UnescapeEscape(x);
  }

  /** The scan of a quoted, escaped text collects exactly the escaped text. */
  lemma QuotedScan(s: seq<bv8>, i: nat, x: string)
    requires Spells(s, i, ['"'] + Escape(x) + ['"']) && ParamText(x)
    requires x == [] || x[|x| - 1] != '\\'
    ensures i < |s| && CharAt(s, i) == '"'
    ensures ParamScan(s, i + 1, true, []) == Ok((Escape(x), i + |Escape(x)| + 2))
  {
    var e := Escape(x);
    assert i < |s| && CharAt(s, i) == '"' && Spells(s, i + 1, e + ['"']) by {
      assert ['"'] + e + ['"'] == ['"'] + (e + ['"']);
      SpellsTail(s, i, '"', e + ['"']);
    }
    assert [] + e == e;
    assert ClosesQuote([] + e) by {
      if x != [] {
        EscapeLast(x);
      }
    }
    ScanEscaped(s, i + 1, x, []);
  }

  lemma SpellsTail(s: seq<bv8>, i: nat, c: char, v: string)
    requires Spells(s, i, [c] + v)
    ensures i < |s| && CharAt(s, i) == c && Spells(s, i + 1, v)
  {
    assert ([c] + v)[0] == c;
    assert ([c] + v)[1..] == v;
    SpellsShift(s, i, [c] + v, 1);
  }

  /** A parameter opening with a quote is the unescaped text the quoted scan collects. */
  lemma ParamQuoted(s: seq<bv8>, i: nat, raw: string, j: nat)
    requires i < |s| && CharAt(s, i) == '"'
    requires ParamScan(s, i + 1, true, []) == Ok((raw, j))
    ensures Param(s, i) == Ok((Unescape(raw), j))
  {
  }

  /** A quoted text ending in an escaped backslash is not closed by its
      quote: the quote is kept and the parameter runs on to the line end. */
  lemma QuotedBackslashNotClosed(s: seq<bv8>, i: nat)
    requires Spells(s, i, ['"', 'a', '\\', '\\', '"', '\r'])
    ensures Param(s, i) == Ok((['a', '\\', '"'], i + 5))
  {
    var w := ['"', 'a', '\\', '\\', '"', '\r'];
    assert CharAt(s, i) == w[0];
    assert CharAt(s, i + 1) == w[1];
    assert CharAt(s, i + 2) == w[2];
    assert CharAt(s, i + 3) == w[3];
    assert CharAt(s, i + 4) == w[4];
    assert CharAt(s, i + 5) == w[5];
    assert ParamScan(s, i + 5, true, ['a', '\\', '\\', '"']) == Ok((['a', '\\', '\\', '"'], i + 5));
    assert !ClosesQuote(['a', '\\', '\\']);
    assert ['a', '\\', '\\'] + [CharAt(s, i + 4)] == ['a', '\\', '\\', '"'];
    assert ParamScan(s, i + 4, true, ['a', '\\', '\\']) == Ok((['a', '\\', '\\', '"'], i + 5));
    assert ['a', '\\'] + [CharAt(s, i + 3)] == ['a', '\\', '\\'];
    assert ParamScan(s, i + 3, true, ['a', '\\']) == Ok((['a', '\\', '\\', '"'], i + 5));
    assert ['a'] + [CharAt(s, i + 2)] == ['a', '\\'];
    assert ParamScan(s, i + 2, true, ['a']) == Ok((['a', '\\', '\\', '"'], i + 5));
    assert [] + [CharAt(s, i + 1)] == ['a'];
    assert ParamScan(s, i + 1, true, []) == Ok((['a', '\\', '\\', '"'], i + 5));
    ParamQuoted(s, i, ['a', '\\', '\\', '"'], i + 5);
    assert Unescape(['a', '\\', '\\', '"']) == ['a', '\\', '"'];
  }

  /** The as-written `clearParameter` fails on a parameter ending in one backslash. */
  lemma ClearParameterAsWrittenExample()
    ensures ClearParameterAsWritten("a\\", 0).Err?
  {
    ClearParameterAsWrittenFails("a\\");
    assert TrailingBackslashes("a\\") == 1 by {
      assert "a\\"[..1] == "a";
    }
  }
}
