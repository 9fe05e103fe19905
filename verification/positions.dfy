/** Line, column and byte positions of a scanner, and the byte offset diagnostics compute back. */
module Positions {

  /** UTF-8 length of a scalar value, section 3 of RFC 3629. */
  function Width(c: char): (w: nat)
    ensures 1 <= w <= 4
  {
    var code := c as int;
    if code < 0x80 then 1 else if code < 0x800 then 2 else if code < 0x1_0000 then 3 else 4
  }

  // ---------------------------------------------------------------- the encoding the widths belong to

  /** The bytes of a scalar value, section 3 of RFC 3629: a lead byte that tells how many
      continuation bytes, of six bits each, follow it. */
  function Encode(c: char): (b: seq<nat>)
    ensures b != []
  {
    var code := c as int;
    if code < 0x80 then [code]
    else if code < 0x800 then [0xC0 + code / 64, Continuation(code)]
    else if code < 0x1_0000 then [0xE0 + code / 64 / 64, Continuation(code / 64), Continuation(code)]
    else [0xF0 + code / 64 / 64 / 64, Continuation(code / 64 / 64), Continuation(code / 64), Continuation(code)]
  }

  function Continuation(bits: nat): nat {
    0x80 + bits % 64
  }

  /** How long an encoding is, told from its lead byte. */
  function Led(lead: int): nat {
    if lead < 0x80 then 1 else if lead < 0xE0 then 2 else if lead < 0xF0 then 3 else 4
  }

  /** The scalar value of the encoding at the head of some bytes. */
  function Decode(b: seq<nat>): int
    requires b != [] && Led(b[0]) <= |b|
  {
    var lead: int := b[0];
    if Led(lead) == 1 then lead
    else if Led(b[0]) == 2 then Joined(lead - 0xC0, b[1])
    else if Led(b[0]) == 3 then Joined(Joined(lead - 0xE0, b[1]), b[2])
    else Joined(Joined(Joined(lead - 0xF0, b[1]), b[2]), b[3])
  }

  function Joined(high: int, continuation: int): int {
    high * 64 + (continuation - 0x80)
  }

  lemma JoinSplit(bits: nat)
    ensures Joined(bits / 64, Continuation(bits)) == bits
    ensures 0x80 <= Continuation(bits) < 0xC0
  {
  }

  lemma LedByWidth(c: char)
    ensures |Encode(c)| == Width(c) == Led(Encode(c)[0])
    ensures Encode(c)[0] < 256 && !(0x80 <= Encode(c)[0] < 0xC0)
  {
  }

  /** The width is the length of the encoding, the lead byte tells it, every byte fits eight bits and
      is a continuation exactly behind the lead, and what follows does not disturb decoding. */
  lemma WidthIsEncodedLength(c: char, rest: seq<nat>)
    ensures |Encode(c)| == Width(c) == Led(Encode(c)[0])
    ensures Decode(Encode(c) + rest) == c as int
    ensures forall i :: 0 <= i < |Encode(c)| ==> Encode(c)[i] < 256 && (0x80 <= Encode(c)[i] < 0xC0 <==> i > 0)
  {
    var code := c as int;
    LedByWidth(c);
    JoinSplit(code);
    JoinSplit(code / 64);
    JoinSplit(code / 64 / 64);
    assert forall i :: 0 <= i < |Encode(c)| ==> (Encode(c) + rest)[i] == Encode(c)[i];
  }

  function EncodeAll(s: seq<char>): seq<nat> {
    if s == [] then [] else Encode(s[0]) + EncodeAll(s[1..])
  }

  /** The bytes counted for a text are the length of its encoding. */
  lemma {:induction false} BytesAreEncoded(s: seq<char>)
    ensures Bytes(s) == |EncodeAll(s)|
  {
    if s != [] {
      WidthIsEncodedLength(s[0], []);
      BytesAreEncoded(s[1..]);
    }
  }

  function Bytes(s: seq<char>): nat {
    if s == [] then 0 else Width(s[0]) + Bytes(s[1..])
  }

  lemma {:induction false} BytesConcat(a: seq<char>, b: seq<char>)
    ensures Bytes(a + b) == Bytes(a) + Bytes(b)
  {
    if a == [] {
      assert a + b == b;
    } else {
      assert (a + b)[1..] == a[1..] + b;
      BytesConcat(a[1..], b);
    }
  }

  datatype Position = Position(line: nat, column: nat, byte: nat) {
    function Over(c: char): Position {
      if c == '\n' then Position(line + 1, 1, byte + Width(c)) else Position(line, column + 1, byte + Width(c))
    }

    /** A position found in a suffix, seen from the start: columns only shift on the first line. */
    function Then(inner: Position): Position
      requires inner.line >= 1 && inner.column >= 1
    {
      Position(line + (inner.line - 1),
               if inner.line == 1 then column + (inner.column - 1) else inner.column,
               byte + inner.byte)
    }
  }

  const ORIGIN := Position(1, 1, 0)

  /** Where a scanner stands after its first i characters. */
  function PosAt(s: seq<char>, i: nat): (p: Position)
    requires i <= |s|
    ensures p.line >= 1 && p.column >= 1
  {
    if i == 0 then ORIGIN else PosAt(s, i - 1).Over(s[i - 1])
  }

  lemma {:induction false} PosBytes(s: seq<char>, i: nat)
    requires i <= |s|
    ensures PosAt(s, i).byte == Bytes(s[..i])
  {
    if i > 0 {
      PosBytes(s, i - 1);
      assert s[..i] == s[..i - 1] + [s[i - 1]];
      BytesConcat(s[..i - 1], [s[i - 1]]);
      assert Bytes([s[i - 1]]) == Width(s[i - 1]);
    }
  }

  /** Positions compose: scanning a suffix from its own origin and shifting is scanning on. */
  lemma {:induction false} PosCompose(s: seq<char>, p: nat, q: nat)
    requires p + q <= |s|
    ensures PosAt(s, p + q) == PosAt(s, p).Then(PosAt(s[p..], q))
    decreases q
  {
    if q > 0 {
      PosCompose(s, p, q - 1);
      assert s[p..][q - 1] == s[p + q - 1];
    }
  }

  /** Only the characters scanned so far decide the position. */
  lemma {:induction false} PosPrefix(s: seq<char>, t: seq<char>, i: nat)
    requires i <= |s| && i <= |t| && s[..i] == t[..i]
    ensures PosAt(s, i) == PosAt(t, i)
  {
    if i > 0 {
      assert s[..i - 1] == s[..i][..i - 1] && t[..i - 1] == t[..i][..i - 1];
      assert s[i - 1] == s[..i][i - 1] && t[i - 1] == t[..i][i - 1];
      PosPrefix(s, t, i - 1);
    }
  }

  lemma {:induction false} PosIncreases(s: seq<char>, i: nat, j: nat)
    requires i < j <= |s|
    ensures PosAt(s, i).byte < PosAt(s, j).byte
    decreases j
  {
    if i < j - 1 {
      PosIncreases(s, i, j - 1);
    }
  }

  // ---------------------------------------------------------------- byte offsets

  /** Characters up to and including the first newline, or all of them. */
  function FirstLine(s: seq<char>): (n: nat)
    ensures n <= |s| && (s != [] ==> n > 0)
  {
    if s == [] then 0 else if s[0] == '\n' then 1 else 1 + FirstLine(s[1..])
  }

  /** A newline ends the first line, and nothing before it is one. */
  lemma {:induction false} FirstLineEnds(s: seq<char>)
    ensures forall i :: 0 <= i < FirstLine(s) - 1 ==> s[i] != '\n'
    ensures FirstLine(s) < |s| ==> s[FirstLine(s) - 1] == '\n'
  {
    if s != [] && s[0] != '\n' {
      FirstLineEnds(s[1..]);
    }
  }

  /** Number of characters in the first k lines, terminators included. */
  function LinesLength(s: seq<char>, k: nat): (n: nat)
    ensures n <= |s|
    decreases k
  {
    if k == 0 then 0 else FirstLine(s) + LinesLength(s[FirstLine(s)..], k - 1)
  }

  /** The byte offset of a one-based line and column, as diagnostics compute it. */
  function ByteOffset(source: seq<char>, line: nat, column: nat): nat {
    var start := LinesLength(source, if line == 0 then 0 else line - 1);
    var text := source[start..];
    var skip := if column == 0 then 0 else column - 1;
    var offset := Bytes(source[..start]) + if skip < |text| then Bytes(text[..skip]) else Bytes(text);
    if offset < Bytes(source) then offset else Bytes(source)
  }

  lemma {:induction false} NoNewline(s: seq<char>, i: nat)
    requires i <= |s| && forall k :: 0 <= k < i ==> s[k] != '\n'
    ensures PosAt(s, i).line == 1 && PosAt(s, i).column == i + 1
  {
    if i > 0 {
      NoNewline(s, i - 1);
    }
  }

  /** The line of p starts at the character its column counts from. */
  predicate Leads(s: seq<char>, p: Position, i: nat) {
    p.line >= 1 && p.column >= 1 && LinesLength(s, p.line - 1) + (p.column - 1) == i
  }

  lemma LeadsOn(s: seq<char>, outer: Position, inner: Position, i: nat)
    requires FirstLine(s) <= i && Leads(s[FirstLine(s)..], inner, i - FirstLine(s))
    requires outer.line == inner.line + 1 && outer.column == inner.column
    ensures Leads(s, outer, i)
  {
    assert LinesLength(s, inner.line) == FirstLine(s) + LinesLength(s[FirstLine(s)..], inner.line - 1);
  }

  lemma {:induction false} LineOfPosition(s: seq<char>, i: nat)
    requires i <= |s|
    ensures Leads(s, PosAt(s, i), i)
    decreases |s|
  {
    var n := FirstLine(s);
    FirstLineEnds(s);
    if i < n || s == [] || s[n - 1] != '\n' {
      NoNewline(s, i);
    } else {
      AfterFirstLine(s, i);
      LineOfPosition(s[n..], i - n);
      LeadsOn(s, PosAt(s, i), PosAt(s[n..], i - n), i);
    }
  }

  /** Past the first line, positions are those in the rest of the text, one line further down. */
  lemma AfterFirstLine(s: seq<char>, i: nat)
    requires s != [] && s[FirstLine(s) - 1] == '\n' && FirstLine(s) <= i <= |s|
    ensures var inner := PosAt(s[FirstLine(s)..], i - FirstLine(s));
            PosAt(s, i).line == inner.line + 1 && PosAt(s, i).column == inner.column
  {
    var n := FirstLine(s);
    FirstLineEnds(s);
    NoNewline(s, n - 1);
    assert PosAt(s, n).line == 2 && PosAt(s, n).column == 1;
    PosCompose(s, n, i - n);
  }

  lemma SplitBytes(s: seq<char>, start: nat, skip: nat)
    requires start + skip <= |s|
    ensures Bytes(s[..start + skip]) == Bytes(s[..start]) + Bytes(s[start..][..skip])
    ensures Bytes(s[..start + skip]) <= Bytes(s)
  {
    assert s[..start + skip] == s[..start] + s[start..][..skip];
    BytesConcat(s[..start], s[start..][..skip]);
    assert s == s[..start + skip] + s[start + skip..];
    BytesConcat(s[..start + skip], s[start + skip..]);
  }

  lemma OffsetOfLine(source: seq<char>, p: Position, i: nat)
    requires i <= |source| && Leads(source, p, i)
    ensures ByteOffset(source, p.line, p.column) == Bytes(source[..i])
  {
    var start := LinesLength(source, p.line - 1);
    SplitBytes(source, start, p.column - 1);
    if i == |source| {
      assert source[start..][..p.column - 1] == source[start..];
    }
  }

  /** From every scanner position, at any character, at the end of the source or after a
      trailing newline, the line and column lead back to the scanner's byte index. */
  lemma ByteOffsetInvertsPosition(source: seq<char>, i: nat)
    requires i <= |source|
    ensures var p := PosAt(source, i);
            ByteOffset(source, p.line, p.column) == p.byte
  {
    LineOfPosition(source, i);
    OffsetOfLine(source, PosAt(source, i), i);
    PosBytes(source, i);
  }

  /** Whatever the line and column, known to the source or not, the offset is that of a character or
      of the end: columns count on from the start of the line, past its end too, and stop at
      the end of the source. */
  lemma ByteOffsetIsOfCharacter(source: seq<char>, line: nat, column: nat)
    ensures var start := LinesLength(source, if line == 0 then 0 else line - 1);
            var at := start + if column == 0 then 0 else column - 1;
            ByteOffset(source, line, column) == Bytes(source[..if at < |source| then at else |source|])
  {
    var start := LinesLength(source, if line == 0 then 0 else line - 1);
    var skip := if column == 0 then 0 else column - 1;
    if start + skip < |source| {
      SplitBytes(source, start, skip);
    } else {
      SplitBytes(source, start, |source| - start);
      assert source[start..][..|source| - start] == source[start..];
    }
    assert source[..|source|] == source;
  }

  /** The first k lines end behind their k-th newline, or the text has fewer. */
  lemma {:induction false} LinesEndAtNewlines(s: seq<char>, k: nat)
    ensures LinesLength(s, k) < |s| ==> PosAt(s, LinesLength(s, k)) == Position(k + 1, 1, Bytes(s[..LinesLength(s, k)]))
    decreases k
  {
    var n := LinesLength(s, k);
    if k == 0 {
      assert s[..0] == [];
    } else {
      FirstLineEnds(s);
      var f := FirstLine(s);
      if n < |s| {
        LinesEndAtNewlines(s[f..], k - 1);
        AfterFirstLine(s, n);
        PosBytes(s, n);
      }
    }
  }
}
