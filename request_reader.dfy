/** `ImapRequestLineReader`: a cursor over the client's byte stream holding at
    most one character of look-ahead (`nextSeen`/`nextChar`), with the
    primitives the command parsers are built from. */
module RequestReader {
  import opened Wrappers

  /** `(char) next` for a byte the stream delivered: a char in 0..255. */
  function ToChar(b: bv8): (c: char)
    ensures c as int < 256
  {
    (b as int) as char
  }

  function CharAt(s: seq<bv8>, i: nat): char
    requires i < |s|
  {
    ToChar(s[i])
  }

  /** The chars the bytes stand for. */
  function Chars(s: seq<bv8>): (cs: seq<char>)
    ensures |cs| == |s|
    ensures forall k :: 0 <= k < |s| ==> cs[k] == ToChar(s[k])
  {
    seq(|s|, k requires 0 <= k < |s| => ToChar(s[k]))
  }

  const EndOfStream := ProtocolError("Unexpected end of stream.")
  const MissingArgument := ProtocolError("Missing argument.")
  const ExpectedEol := ProtocolError("Expected end-of-line, found more characters.")

  /** The first index at or after `i` not holding a space, or `|s|`. */
  function SkipSpaces(s: seq<bv8>, i: nat): (j: nat)
    requires i <= |s|
    ensures i <= j <= |s|
    ensures forall k :: i <= k < j ==> CharAt(s, k) == ' '
    ensures j < |s| ==> CharAt(s, j) != ' '
    decreases |s| - i
  {
    if i == |s| || CharAt(s, i) != ' ' then i else SkipSpaces(s, i + 1)
  }

  /** Where `eol` stops: the index of the LF ending `SP* CR? LF` at `i`. */
  function EolAt(s: seq<bv8>, i: nat): Option<nat>
    requires i <= |s|
  {
    var j := SkipSpaces(s, i);
    var k := if j < |s| && CharAt(s, j) == '\r' then j + 1 else j;
    if k < |s| && CharAt(s, k) == '\n' then Some(k) else None
  }

  /** The bytes from `i` to `k` are spaces, then at most one CR, then the LF at `k`. */
  predicate IsEolText(s: seq<bv8>, i: nat, k: nat) {
    && i <= k < |s|
    && CharAt(s, k) == '\n'
    && (forall j :: i <= j < k ==> CharAt(s, j) == ' ' || (j == k - 1 && CharAt(s, j) == '\r'))
  }

  /** `eol` accepts exactly the texts `SP* CR? LF`, stopping at their LF. */
  lemma EolAtIff(s: seq<bv8>, i: nat, k: nat)
    requires i <= |s|
    ensures EolAt(s, i) == Some(k) <==> IsEolText(s, i, k)
  {
    var j := SkipSpaces(s, i);
    if IsEolText(s, i, k) {
      // the spaces run up to k or to the CR just before it
      if j < k {
        assert CharAt(s, j) != ' ';
        assert j == k - 1 && CharAt(s, j) == '\r';
      }
    }
  }

  /** The index of the first LF at or after `i`, if there is one. */
  function LineEnd(s: seq<bv8>, i: nat): (r: Option<nat>)
    requires i <= |s|
    ensures r.Some? ==> i <= r.value < |s| && CharAt(s, r.value) == '\n'
    ensures r.Some? ==> forall j :: i <= j < r.value ==> CharAt(s, j) != '\n'
    ensures r.None? ==> forall j :: i <= j < |s| ==> CharAt(s, j) != '\n'
    decreases |s| - i
  {
    if i == |s| then None
    else if CharAt(s, i) == '\n' then Some(i)
    else LineEnd(s, i + 1)
  }

  /** A parser method agrees with its specification: on success it returns
      the specified value and leaves the cursor where the specification
      says; on failure it raises the same error. */
  ghost predicate Agrees<T>(spec: Result<(T, nat)>, r: Result<T>, cursor: nat) {
    match spec
    case Ok(p) => r == Ok(p.0) && cursor == p.1
    case Err(e) => r == Err(e)
  }

  class ImapRequestLineReader {
    /** Everything the client sends; the stream hands it out in order. */
    const input: seq<bv8>
    /** How many bytes have been taken from the stream. */
    var pos: nat
    var nextSeen: bool
    var nextChar: char
    /** Everything written back to the client. */
    var output: seq<bv8>

    /** A buffered char is the last byte taken from the stream. */
    ghost predicate Valid()
      reads this
    {
      && pos <= |input|
      && (nextSeen ==> 0 < pos && nextChar == CharAt(input, pos - 1))
    }

    /** The index of the next char the parser will see. */
    ghost function Cursor(): nat
      reads this
      requires Valid()
    {
      if nextSeen then pos - 1 else pos
    }

    constructor (input: seq<bv8>)
      ensures Valid() && this.input == input
      ensures pos == 0 && !nextSeen && output == []
    {
      this.input := input;
      pos := 0;
      nextSeen := false;
      nextChar := 0 as char;
      output := [];
    }

    /** `nextChar`: the char at the cursor, read from the stream only when
        none is buffered; fails at end of stream. */
    method NextChar() returns (r: Result<char>)
      requires Valid()
      modifies this
      ensures Valid() && output == old(output) && Cursor() == old(Cursor())
      ensures r == if old(Cursor()) < |input| then Ok(CharAt(input, old(Cursor()))) else Err(EndOfStream)
      ensures r.Ok? ==> nextSeen && nextChar == r.value
      ensures old(nextSeen) ==> pos == old(pos) && nextSeen && r == Ok(old(nextChar))
      ensures r.Err? ==> pos == old(pos) && nextSeen == old(nextSeen)
    {
      if !nextSeen {
        if pos == |input| {
          return Err(EndOfStream);
        }
        var next := input[pos];
        pos := pos + 1;
        nextSeen := true;
        nextChar := ToChar(next);
      }
      return Ok(nextChar);
    }

    /** `consume`: returns the char at the cursor and moves past it. */
    method Consume() returns (r: Result<char>)
      requires Valid()
      modifies this
      ensures Valid() && output == old(output)
      ensures r == if old(Cursor()) < |input| then Ok(CharAt(input, old(Cursor()))) else Err(EndOfStream)
      ensures r.Ok? ==> Cursor() == old(Cursor()) + 1 && !nextSeen && nextChar == 0 as char
      ensures r.Ok? ==> pos == old(pos) + (if old(nextSeen) then 0 else 1)
      ensures r.Err? ==> Cursor() == old(Cursor())
    {
      var current :- NextChar();
      nextSeen := false;
      nextChar := 0 as char;
      return Ok(current);
    }

    /** `nextWordChar`: skips spaces and returns, without consuming it, the
        first other char; fails on CR, LF or end of stream. */
    method NextWordChar() returns (r: Result<char>)
      requires Valid()
      modifies this
      ensures Valid() && output == old(output)
      ensures Cursor() == SkipSpaces(input, old(Cursor()))
      ensures r == if Cursor() == |input| then Err(EndOfStream)
                   else if CharAt(input, Cursor()) in "\r\n" then Err(MissingArgument)
                   else Ok(CharAt(input, Cursor()))
      ensures Cursor() < |input| ==> nextSeen
    {
      var next :- NextChar();
      while next == ' '
        invariant Valid() && output == old(output)
        invariant old(Cursor()) <= Cursor() < |input|
        invariant SkipSpaces(input, Cursor()) == SkipSpaces(input, old(Cursor()))
        invariant nextSeen && next == nextChar == CharAt(input, Cursor())
        decreases |input| - Cursor()
      {
        var _ := Consume();
        next :- NextChar();
      }
      if next == '\r' || next == '\n' {
        return Err(MissingArgument);
      }
      return Ok(next);
    }

    /** `eol`: consumes `SP* CR?` and checks that an LF follows, leaving it
        as the look-ahead char. */
    method Eol() returns (r: Result<()>)
      requires Valid()
      modifies this
      ensures Valid() && output == old(output)
      ensures r.Ok? <==> EolAt(input, old(Cursor())).Some?
      ensures r.Ok? ==> Cursor() == EolAt(input, old(Cursor())).value && nextSeen && nextChar == '\n'
      ensures r.Err? ==> r.error.ProtocolError?
    {
      var next :- NextChar();
      while next == ' '
        invariant Valid() && output == old(output)
        invariant old(Cursor()) <= Cursor() < |input|
        invariant SkipSpaces(input, Cursor()) == SkipSpaces(input, old(Cursor()))
        invariant nextSeen && next == nextChar == CharAt(input, Cursor())
        decreases |input| - Cursor()
      {
        var _ := Consume();
        next :- NextChar();
      }
      if next == '\r' {
        var _ := Consume();
        next :- NextChar();
      }
      if next != '\n' {
        return Err(ExpectedEol);
      }
      return Ok(());
    }

    /** `read(holder)`: fills `holder` with the next `holder.Length` bytes of
        the stream, each masked to 0..255, and drops any buffered char. The
        stream hands out as many bytes as are asked for while it has them. */
    method Read(holder: array<char>) returns (r: Result<()>)
      requires Valid()
      modifies this, holder
      ensures output == old(output)
      ensures old(pos) + holder.Length <= |input| ==>
        && r.Ok? && Valid() && !nextSeen && nextChar == 0 as char
        && pos == old(pos) + holder.Length
        && holder[..] == Chars(input[old(pos)..pos])
      ensures old(pos) + holder.Length > |input| ==>
        && r == Err(EndOfStream) && pos == |input|
        && nextSeen == old(nextSeen) && nextChar == old(nextChar)
        && holder[..|input| - old(pos)] == Chars(input[old(pos)..])
    {
      var readTotal := 0;
      while readTotal < holder.Length
        invariant pos <= |input| && pos == old(pos) + readTotal && readTotal <= holder.Length
        invariant output == old(output)
        invariant nextSeen == old(nextSeen) && nextChar == old(nextChar)
        invariant forall k :: 0 <= k < readTotal ==> holder[k] == CharAt(input, old(pos) + k)
        decreases holder.Length - readTotal
      {
        // input.read(bytes, 0, holder.length - readTotal) returns -1 at end of stream
        if pos == |input| {
          assert holder[..readTotal] == Chars(input[old(pos)..]);
          return Err(EndOfStream);
        }
        var count := if |input| - pos < holder.Length - readTotal then |input| - pos else holder.Length - readTotal;
        var bytes := input[pos..pos + count];
        pos := pos + count;
        var i := 0;
        while i < count
          modifies holder
          invariant 0 <= i <= count && readTotal + count - i <= holder.Length
          invariant pos == old(pos) + readTotal + count - i
          invariant forall k :: 0 <= k < readTotal ==> holder[k] == CharAt(input, old(pos) + k)
        {
          holder[readTotal] := ToChar(bytes[i]);
          readTotal := readTotal + 1;
          i := i + 1;
        }
      }
      assert holder[..] == Chars(input[old(pos)..pos]);
      nextSeen := false;
      nextChar := 0 as char;
      return Ok(());
    }

    /** `commandContinuationRequest`: writes `+`, space, CR, LF. */
    method CommandContinuationRequest() returns (r: Result<()>)
      modifies this
      ensures r.Ok?
      ensures output == old(output) + [0x2B, 0x20, 0x0D, 0x0A]
      ensures pos == old(pos) && nextSeen == old(nextSeen) && nextChar == old(nextChar)
    {
      output := output + [0x2B, 0x20, 0x0D, 0x0A];
      return Ok(());
    }

    /** `consumeLine`: consumes everything up to and including the first LF. */
    method ConsumeLine() returns (r: Result<()>)
      requires Valid()
      modifies this
      ensures Valid() && output == old(output)
      ensures match LineEnd(input, old(Cursor()))
        case Some(k) => r.Ok? && Cursor() == k + 1 && !nextSeen
        case None => r.Err? && Cursor() == |input|
    {
      var next :- NextChar();
      while next != '\n'
        invariant Valid() && output == old(output)
        invariant old(Cursor()) <= Cursor() < |input|
        invariant LineEnd(input, Cursor()) == LineEnd(input, old(Cursor()))
        invariant nextSeen && next == nextChar == CharAt(input, Cursor())
        decreases |input| - Cursor()
      {
        var _ := Consume();
        next :- NextChar();
      }
      var _ := Consume();
      return Ok(());
    }
  }
}
