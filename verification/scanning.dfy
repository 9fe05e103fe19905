/** What the lexer recognizes, as functions of a text and a character index. */
module Scanning {

  import opened Prelude

  datatype Kind =
    | Newline
    | ModuleDoc(raw: seq<char>)
    | Doc(raw: seq<char>)
    | Integer(value: nat)
    | Float(digits: seq<char>)
    | Interpolated(interior: seq<char>)
    | Str(content: seq<char>)
    | CodePoint(scalar: char)
    | Symbol(name: seq<char>)
    | Word(name: seq<char>)
    | Punct(spelling: seq<char>)
    | Eof

  /** A token and the characters it covers. */
  datatype Token = Token(kind: Kind, start: nat, end: nat)

  datatype Reason =
    | UnexpectedCharacter | ExpectedClose | ExponentDigits | OutOfRange
    | UnterminatedString | UnterminatedEscape | UnknownEscape
    | UnterminatedCodePointEscape | UnterminatedCodePoint | NotOneScalar
    | UnterminatedTriple | UnterminatedComment

  datatype Scan = Done(kind: Option<Kind>, next: nat) | Failed(reason: Reason, at: nat)

  datatype Lexed = Tokens(tokens: seq<Token>, stop: nat) | Fault(reason: Reason, at: nat)

  datatype Step = Skip(to: nat) | Close | Stuck(reason: Reason, at: nat)

  datatype Group = Digit | WordPart | InLine

  const MAX_INTEGER: nat := 0x7fff_ffff_ffff_ffff

  predicate IsDigit(c: char) {
    '0' <= c <= '9'
  }

  function DigitsValue(s: seq<char>): nat {
    if s == [] then 0
    else 10 * DigitsValue(s[..|s| - 1]) + if IsDigit(s[|s| - 1]) then s[|s| - 1] as int - '0' as int else 0
  }

  function StringEscape(c: char): Option<char> {
    if c == 'n' then Some('\n') else if c == 'r' then Some('\r') else if c == 't' then Some('\t')
    else if c == '"' || c == '\\' then Some(c) else None
  }

  function CodePointEscape(c: char): Option<char> {
    if c == '\'' then Some(c) else StringEscape(c)
  }

  /** How many characters the operator starting with c takes, given the one that follows; zero if none does. */
  function PunctLength(c: char, next: Option<char>): nat {
    if c == '?' then (if next == Some('?') then 2 else 0)
    else if c in "(){}[]^~,.+*/" then 1
    else if c in "|&:" then (if next == Some(c) then 2 else 1)
    else if c == '-' then (if next == Some('>') then 2 else 1)
    else if c in "=!<>" then (if next == Some('=') then 2 else 1)
    else 0
  }

  /** Depth of open braces after a token starting with c; a stray closing brace leaves zero. */
  function BracesAfter(c: char, braces: nat): nat {
    if c == '{' then braces + 1 else if c == '}' && braces > 0 then braces - 1 else braces
  }

  /** A source text, with the letters beyond ASCII that count as alphabetic. */
  datatype Text = Text(chars: seq<char>, letters: set<char>) {

    function At(i: nat): Option<char> {
      if i < |chars| then Some(chars[i]) else None
    }

    predicate Is(i: nat, c: char) {
      At(i) == Some(c)
    }

    predicate IsWordStart(c: char) {
      c == '_' || 'a' <= c <= 'z' || 'A' <= c <= 'Z' || (c as int >= 0x80 && c in letters)
    }

    predicate IsWordPart(c: char) {
      IsWordStart(c) || IsDigit(c) || c == '?'
    }

    predicate In(c: char, group: Group) {
      match group
      case Digit => IsDigit(c)
      case WordPart => IsWordPart(c)
      case InLine => c != '\n'
    }

    predicate InAt(i: nat, group: Group) {
      i < |chars| && In(chars[i], group)
    }

    predicate WordStartAt(i: nat) {
      i < |chars| && IsWordStart(chars[i])
    }

    function Suffix(p: nat): Text
      requires p <= |chars|
    {
      Text(chars[p..], letters)
    }

    function Prefix(n: nat): Text
      requires n <= |chars|
    {
      Text(chars[..n], letters)
    }

    /** End of the longest run of one class. */
    function Run(i: nat, group: Group): (r: nat)
      requires i <= |chars|
      ensures i <= r <= |chars|
      decreases |chars| - i
    {
      if InAt(i, group) then Run(i + 1, group) else i
    }

    // -------------------------------------------------------------- single tokens

    function Number(i: nat): (r: Scan)
      requires i < |chars| && IsDigit(chars[i])
      ensures r.Done? ==> i < r.next <= |chars|
    {
      var mantissa := Mantissa(i);
      if Is(mantissa, 'e') || Is(mantissa, 'E') then Exponent(i, mantissa)
      else if HasPoint(i) then Done(Some(Float(chars[i..mantissa])), mantissa)
      else if DigitsValue(chars[i..mantissa]) > MAX_INTEGER then Failed(OutOfRange, i)
      else Done(Some(Integer(DigitsValue(chars[i..mantissa]))), mantissa)
    }

    /** A point belongs to a number only when a digit follows it. */
    predicate HasPoint(i: nat)
      requires i <= |chars|
    {
      Is(Run(i, Digit), '.') && InAt(Run(i, Digit) + 1, Digit)
    }

    function Mantissa(i: nat): (r: nat)
      requires i < |chars| && IsDigit(chars[i])
      ensures i < r <= |chars|
    {
      if HasPoint(i) then Run(Run(i, Digit) + 1, Digit) else Run(i, Digit)
    }

    function Exponent(i: nat, mark: nat): (r: Scan)
      requires i <= mark < |chars|
      ensures r.Done? ==> mark < r.next <= |chars|
    {
      var sign := if Is(mark + 1, '+') || Is(mark + 1, '-') then mark + 2 else mark + 1;
      if !InAt(sign, Digit) then Failed(ExponentDigits, i)
      else Done(Some(Float(chars[i..Run(sign, Digit)])), Run(sign, Digit))
    }

    function String(i: nat): (r: Scan)
      requires i < |chars|
      ensures r.Done? ==> i < r.next <= |chars|
    {
      StringFrom(i + 1, i, [])
    }

    function StringFrom(p: nat, start: nat, content: seq<char>): (r: Scan)
      requires p <= |chars|
      ensures r.Done? ==> p < r.next <= |chars|
      decreases |chars| - p
    {
      if p == |chars| then Failed(UnterminatedString, start)
      else if chars[p] == '"' then Done(Some(Str(content)), p + 1)
      else if chars[p] == '\n' then Failed(UnterminatedString, start)
      else if chars[p] == '\\' then
        if p + 1 == |chars| then Failed(UnterminatedEscape, start)
        else if StringEscape(chars[p + 1]).None? then Failed(UnknownEscape, p + 2)
        else StringFrom(p + 2, start, content + [StringEscape(chars[p + 1]).value])
      else StringFrom(p + 1, start, content + [chars[p]])
    }

    function CodePointLiteral(i: nat): (r: Scan)
      requires i < |chars|
      ensures r.Done? ==> i < r.next <= |chars|
    {
      if Is(i + 1, '\\') then
        if At(i + 2).None? then Failed(UnterminatedCodePointEscape, i)
        else if CodePointEscape(chars[i + 2]).None? then Failed(UnknownEscape, i)
        else if !Is(i + 3, '\'') then Failed(NotOneScalar, i)
        else Done(Some(CodePoint(CodePointEscape(chars[i + 2]).value)), i + 4)
      else if At(i + 1).None? then Failed(UnterminatedCodePoint, i)
      else if !Is(i + 2, '\'') then Failed(NotOneScalar, i)
      else Done(Some(CodePoint(chars[i + 1])), i + 3)
    }

    /** Two slashes start a comment, which documents if a slash or an exclamation mark follows. */
    function LineComment(i: nat): (r: Scan)
      requires Is(i, '/') && Is(i + 1, '/')
      ensures r.Done? && i < r.next <= |chars|
    {
      if Is(i + 2, '!') then DocLine(i, true)
      else if Is(i + 2, '/') then DocLine(i, false)
      else Done(None, Run(i + 2, InLine))
    }

    function SymbolName(i: nat): (r: Scan)
      requires WordStartAt(i + 1)
      ensures r.Done? && i < r.next <= |chars|
    {
      Done(Some(Symbol(chars[i + 1..Run(i + 2, WordPart)])), Run(i + 2, WordPart))
    }

    function Identifier(i: nat): (r: Scan)
      requires i < |chars|
      ensures r.Done? && i < r.next <= |chars|
    {
      Done(Some(Word(chars[i..Run(i + 1, WordPart)])), Run(i + 1, WordPart))
    }

    function Operator(i: nat): (r: Scan)
      requires i < |chars|
      ensures r.Done? ==> i < r.next <= |chars|
    {
      var n := PunctLength(chars[i], At(i + 1));
      if n == 0 then Failed(UnexpectedCharacter, i)
      else Done(Some(Punct(chars[i..i + n])), i + n)
    }

    function DocLine(i: nat, inner: bool): (r: Scan)
      requires i + 3 <= |chars|
      ensures r.Done? && i < r.next <= |chars|
    {
      var text := if Is(i + 3, ' ') then i + 4 else i + 3;
      var end := Run(text, InLine);
      Done(Some(if inner then ModuleDoc(chars[text..end]) else Doc(chars[text..end])), end)
    }

    /** A comment documents when a star follows its opening. */
    function BlockComment(i: nat): (r: Scan)
      requires i + 2 <= |chars|
      ensures r.Done? ==> i < r.next <= |chars|
    {
      CommentFrom(i + 2, 1, i, Is(i + 2, '*'), [])
    }

    /** Comments nest: a closing mark ends the innermost open one. */
    function CommentFrom(p: nat, depth: nat, start: nat, documentation: bool, raw: seq<char>): (r: Scan)
      requires p <= |chars| && depth > 0
      ensures r.Done? ==> p < r.next <= |chars|
      decreases |chars| - p
    {
      if p == |chars| then Failed(UnterminatedComment, start)
      else if Is(p, '/') && Is(p + 1, '*') then CommentFrom(p + 2, depth + 1, start, documentation, raw)
      else if Is(p, '*') && Is(p + 1, '/') then
        if depth == 1 then Done(if documentation then Some(Doc(raw)) else None, p + 2)
        else CommentFrom(p + 2, depth - 1, start, documentation, raw)
      else CommentFrom(p + 1, depth, start, documentation, if documentation then raw + [chars[p]] else raw)
    }

    predicate TripleQuote(p: nat) {
      Is(p, '"') && Is(p + 1, '"') && Is(p + 2, '"')
    }

    /** The interior of a triple-quoted string, up to its closing quotes. */
    function TripleFrom(p: nat, start: nat): (r: Scan)
      requires start + 3 <= p <= |chars|
      ensures r.Done? ==> p < r.next <= |chars|
      decreases |chars|, |chars| - p, 1
    {
      if p == |chars| then Failed(UnterminatedTriple, start)
      else
        match TripleStep(p)
        case Skip(to) => TripleFrom(to, start)
        case Close => Done(Some(Interpolated(chars[start + 3..p])), p + 3)
        case Stuck(reason, at) => Failed(reason, at)
    }

    /** One step inside a triple-quoted string.  A substitution is skipped by lexing what
        follows it, on its own, until its closing mark. */
    function TripleStep(p: nat): (r: Step)
      requires 0 < p < |chars|
      ensures r.Skip? ==> p < r.to <= |chars|
      ensures r.Close? ==> p + 3 <= |chars|
      decreases |chars|, |chars| - p, 0
    {
      if Is(p, '%') && Is(p + 1, '%') then Skip(p + 2)
      else if Is(p, '%') && Is(p + 1, '{') then
        match Suffix(p + 2).LexFrom(0, 0, true)
        case Fault(reason, at) => Stuck(reason, p + 2 + at)
        case Tokens(_, stop) => Skip(p + 2 + stop + 2)
      else if Is(p, '%') && WordStartAt(p + 1) then
        var end := Run(p + 2, WordPart);
        Skip(if Is(end, '%') then end + 1 else end)
      else if TripleQuote(p) then Close
      else if chars[p] == '\\' && p + 1 < |chars| then Skip(p + 2)
      else Skip(p + 1)
    }

    // -------------------------------------------------------------- the main loop

    /** One step of the main loop: a token, or blank space or a plain comment without one. */
    function ScanAt(i: nat): (r: Scan)
      requires i < |chars|
      ensures r.Done? ==> i < r.next <= |chars|
      decreases |chars|, |chars| - i, 2
    {
      var c := chars[i];
      if c == ' ' || c == '\t' || c == '\r' then Done(None, i + 1)
      else if c == '\n' then Done(Some(Newline), i + 1)
      else if c == '/' && Is(i + 1, '/') then LineComment(i)
      else if c == '/' && Is(i + 1, '*') then BlockComment(i)
      else if IsDigit(c) then Number(i)
      else if TripleQuote(i) then TripleFrom(i + 3, i)
      else if c == '"' then String(i)
      else if c == '\'' then CodePointLiteral(i)
      else if c == ':' && WordStartAt(i + 1) then SymbolName(i)
      else if IsWordStart(c) then Identifier(i)
      else Operator(i)
    }

    predicate ClosesHere(i: nat) {
      Is(i, '}') && Is(i + 1, '%')
    }

    /** Tokens from index i on, to the end of the text or, in an interpolation, to a closing
        mark met between tokens outside any braces. */
    function LexFrom(i: nat, braces: nat, interpolation: bool): (r: Lexed)
      requires i <= |chars|
      ensures r.Tokens? ==> i <= r.stop <= |chars|
      ensures r.Tokens? && interpolation ==> ClosesHere(r.stop)
      decreases |chars|, |chars| - i, 3
    {
      if i == |chars| then
        if interpolation then Fault(ExpectedClose, i) else Tokens([Token(Eof, i, i)], i)
      else if interpolation && braces == 0 && ClosesHere(i) then Tokens([Token(Eof, i, i)], i)
      else
        match ScanAt(i)
        case Failed(reason, at) => Fault(reason, at)
        case Done(kind, next) =>
          match LexFrom(next, BracesAfter(chars[i], braces), interpolation)
          case Fault(reason, at) => Fault(reason, at)
          case Tokens(rest, stop) =>
            Tokens(if kind.Some? then [Token(kind.value, i, next)] + rest else rest, stop)
    }

    function Lex(): Lexed {
      LexFrom(0, 0, false)
    }

    function LexInterpolation(): Lexed {
      LexFrom(0, 0, true)
    }
  }
}
