/** The scanner itself: it advances an index with its line, column and byte position, and
    re-enters itself on the rest of the source inside a triple-quoted string. */
module Lexers {
  import opened Prelude
  import opened Positions
  import opened Scanning
  import opened LexerLaws

  /** A token as the parser sees it: one-based line and column, and a byte range. */
  datatype Placed = Placed(kind: Kind, line: nat, column: nat, from: nat, to: nat)

  datatype LexError = LexError(reason: Reason, line: int, column: int)

  datatype Result<T> = Ok(value: T) | Err(error: LexError)

  function Place(text: Text, kind: Kind, start: nat, end: nat): Placed
    requires start <= end <= |text.chars|
  {
    var p := PosAt(text.chars, start);
    Placed(kind, p.line, p.column, p.byte, PosAt(text.chars, end).byte)
  }

  predicate InText(text: Text, tokens: seq<Token>) {
    forall i :: 0 <= i < |tokens| ==> tokens[i].start <= tokens[i].end <= |text.chars|
  }

  function PlaceAll(text: Text, tokens: seq<Token>): (r: seq<Placed>)
    requires InText(text, tokens)
  {
    seq(|tokens|, i requires 0 <= i < |tokens| => Place(text, tokens[i].kind, tokens[i].start, tokens[i].end))
  }

  function ErrorAt(text: Text, reason: Reason, at: nat): LexError
    requires at <= |text.chars|
  {
    var p := PosAt(text.chars, at);
    LexError(reason, p.line, p.column)
  }

  /** A scanner that started at `start` returned what the text holds there and stands behind it. */
  predicate Yields(text: Text, scan: Scan, start: nat, result: Result<Option<Placed>>, index: nat) {
    match scan
    case Done(kind, next) =>
      && start <= next <= |text.chars| && index == next
      && result == Ok(if kind.Some? then Some(Place(text, kind.value, start, next)) else None)
    case Failed(reason, at) =>
      at <= |text.chars| && result == Err(ErrorAt(text, reason, at))
  }

  class Lexer {
    const text: Text
    var index: nat
    var line: nat
    var column: nat
    var byteIndex: nat

    /** The counters always describe the character index. */
    ghost predicate Valid()
      reads this
    {
      index <= |text.chars| && Position(line, column, byteIndex) == PosAt(text.chars, index)
    }

    constructor (text: Text)
      ensures Valid() && this.text == text && index == 0
    {
      this.text := text;
      index, line, column, byteIndex := 0, 1, 1, 0;
    }

    method Advance() returns (c: Option<char>)
      requires Valid()
      modifies this
      ensures Valid() && c == text.At(old(index))
      ensures index == old(index) + if c.Some? then 1 else 0
    {
      c := text.At(index);
      if c.Some? {
        index := index + 1;
        byteIndex := byteIndex + Width(c.value);
        if c.value == '\n' {
          line, column := line + 1, 1;
        } else {
          column := column + 1;
        }
      }
    }

    method AdvanceBy(n: nat)
      requires Valid() && index + n <= |text.chars|
      modifies this
      ensures Valid() && index == old(index) + n
    {
      for k := 0 to n
        invariant Valid() && index == old(index) + k
      {
        var _ := Advance();
      }
    }

    method AdvanceWhile(group: Group)
      requires Valid()
      modifies this
      ensures Valid() && index == text.Run(old(index), group)
    {
      while text.InAt(index, group)
        invariant Valid() && text.Run(index, group) == text.Run(old(index), group)
        decreases |text.chars| - index
      {
        var _ := Advance();
      }
    }

    method AdvanceMantissa() returns (isFloat: bool)
      requires Valid() && index < |text.chars| && IsDigit(text.chars[index])
      modifies this
      ensures Valid() && index == text.Mantissa(old(index)) && isFloat == text.HasPoint(old(index))
    {
      AdvanceWhile(Digit);
      isFloat := text.Is(index, '.') && text.InAt(index + 1, Digit);
      if isFloat {
        var _ := Advance();
        AdvanceWhile(Digit);
      }
    }

    /** False when no digit follows the exponent mark and its sign. */
    method AdvanceExponent(ghost start: nat) returns (ok: bool)
      requires Valid() && start <= index < |text.chars|
      modifies this
      ensures Valid() && index > old(index)
      ensures ok <==> text.Exponent(start, old(index)).Done?
      ensures ok ==> text.Exponent(start, old(index)) == Done(Some(Float(text.chars[start..index])), index)
    {
      var _ := Advance();
      if text.Is(index, '+') || text.Is(index, '-') {
        var _ := Advance();
      }
      ok := text.InAt(index, Digit);
      AdvanceWhile(Digit);
    }

    method Number() returns (r: Result<Option<Placed>>)
      requires Valid() && index < |text.chars| && IsDigit(text.chars[index])
      modifies this
      ensures Valid() && Yields(text, text.Number(old(index)), old(index), r, index)
    {
      var start, startLine, startColumn, offset := index, line, column, byteIndex;
      var isFloat := AdvanceMantissa();
      if text.Is(index, 'e') || text.Is(index, 'E') {
        isFloat := true;
        var ok := AdvanceExponent(start);
        if !ok {
          return Err(LexError(ExponentDigits, startLine, startColumn));
        }
      }
      var digits := text.chars[start..index];
      if isFloat {
        return Ok(Some(Placed(Float(digits), startLine, startColumn, offset, byteIndex)));
      }
      if DigitsValue(digits) > MAX_INTEGER {
        return Err(LexError(OutOfRange, startLine, startColumn));
      }
      return Ok(Some(Placed(Integer(DigitsValue(digits)), startLine, startColumn, offset, byteIndex)));
    }

    method String() returns (r: Result<Option<Placed>>)
      requires Valid() && index < |text.chars|
      modifies this
      ensures Valid() && Yields(text, text.String(old(index)), old(index), r, index)
    {
      ghost var start := index;
      var startLine, startColumn, offset := line, column, byteIndex;
      var _ := Advance();
      var content: seq<char> := [];
      while index < |text.chars|
        invariant Valid() && start < index
        invariant text.StringFrom(index, start, content) == text.String(start)
        decreases |text.chars| - index
      {
        var c := text.chars[index];
        if c == '"' {
          var _ := Advance();
          return Ok(Some(Placed(Str(content), startLine, startColumn, offset, byteIndex)));
        }
        if c == '\n' {
          return Err(LexError(UnterminatedString, startLine, startColumn));
        }
        if c == '\\' {
          var _ := Advance();
          var escaped := Advance();
          if escaped.None? {
            return Err(LexError(UnterminatedEscape, startLine, startColumn));
          }
          var meaning := StringEscape(escaped.value);
          if meaning.None? {
            return Err(LexError(UnknownEscape, line, column));
          }
          content := content + [meaning.value];
        } else {
          content := content + [c];
          var _ := Advance();
        }
      }
      return Err(LexError(UnterminatedString, startLine, startColumn));
    }

    method CodePointLiteral() returns (r: Result<Option<Placed>>)
      requires Valid() && index < |text.chars|
      modifies this
      ensures Valid() && Yields(text, text.CodePointLiteral(old(index)), old(index), r, index)
    {
      var startLine, startColumn, offset := line, column, byteIndex;
      var _ := Advance();
      var value: char;
      if text.Is(index, '\\') {
        var _ := Advance();
        var escaped := Advance();
        if escaped.None? {
          return Err(LexError(UnterminatedCodePointEscape, startLine, startColumn));
        }
        var meaning := CodePointEscape(escaped.value);
        if meaning.None? {
          return Err(LexError(UnknownEscape, startLine, startColumn));
        }
        value := meaning.value;
      } else {
        var c := Advance();
        if c.None? {
          return Err(LexError(UnterminatedCodePoint, startLine, startColumn));
        }
        value := c.value;
      }
      if !text.Is(index, '\'') {
        return Err(LexError(NotOneScalar, startLine, startColumn));
      }
      var _ := Advance();
      return Ok(Some(Placed(CodePoint(value), startLine, startColumn, offset, byteIndex)));
    }

    method Identifier() returns (r: Result<Option<Placed>>)
      requires Valid() && index < |text.chars|
      modifies this
      ensures Valid() && Yields(text, text.Identifier(old(index)), old(index), r, index)
    {
      var start, startLine, startColumn, offset := index, line, column, byteIndex;
      var _ := Advance();
      AdvanceWhile(WordPart);
      return Ok(Some(Placed(Word(text.chars[start..index]), startLine, startColumn, offset, byteIndex)));
    }

    method SymbolName() returns (r: Result<Option<Placed>>)
      requires Valid() && text.WordStartAt(index + 1)
      modifies this
      ensures Valid() && Yields(text, text.SymbolName(old(index)), old(index), r, index)
    {
      var startLine, startColumn, offset := line, column, byteIndex;
      var _ := Advance();
      var start := index;
      var _ := Advance();
      AdvanceWhile(WordPart);
      return Ok(Some(Placed(Symbol(text.chars[start..index]), startLine, startColumn, offset, byteIndex)));
    }

    method Operator() returns (r: Result<Option<Placed>>)
      requires Valid() && index < |text.chars|
      modifies this
      ensures Valid() && Yields(text, text.Operator(old(index)), old(index), r, index)
    {
      var start, startLine, startColumn, offset := index, line, column, byteIndex;
      var n := PunctLength(text.chars[index], text.At(index + 1));
      if n == 0 {
        return Err(LexError(UnexpectedCharacter, startLine, startColumn));
      }
      AdvanceBy(n);
      return Ok(Some(Placed(Punct(text.chars[start..index]), startLine, startColumn, offset, byteIndex)));
    }

    method LineComment() returns (r: Result<Option<Placed>>)
      requires Valid() && text.Is(index, '/') && text.Is(index + 1, '/')
      modifies this
      ensures Valid() && Yields(text, text.LineComment(old(index)), old(index), r, index)
    {
      var startLine, startColumn, offset := line, column, byteIndex;
      var inner, outer := text.Is(index + 2, '!'), text.Is(index + 2, '/');
      if !inner && !outer {
        AdvanceBy(2);
        AdvanceWhile(InLine);
        return Ok(None);
      }
      AdvanceBy(3);
      if text.Is(index, ' ') {
        var _ := Advance();
      }
      var start := index;
      AdvanceWhile(InLine);
      var raw := text.chars[start..index];
      return Ok(Some(Placed(if inner then ModuleDoc(raw) else Doc(raw), startLine, startColumn, offset, byteIndex)));
    }

    method BlockComment() returns (r: Result<Option<Placed>>)
      requires Valid() && index + 2 <= |text.chars|
      modifies this
      ensures Valid() && Yields(text, text.BlockComment(old(index)), old(index), r, index)
    {
      ghost var start := index;
      var startLine, startColumn, offset := line, column, byteIndex;
      AdvanceBy(2);
      var documentation := text.Is(index, '*');
      var depth := 1;
      var raw: seq<char> := [];
      while index < |text.chars|
        invariant Valid() && start < index && depth > 0
        invariant text.CommentFrom(index, depth, start, documentation, raw) == text.BlockComment(start)
        decreases |text.chars| - index
      {
        if text.Is(index, '/') && text.Is(index + 1, '*') {
          depth := depth + 1;
          AdvanceBy(2);
        } else if text.Is(index, '*') && text.Is(index + 1, '/') {
          AdvanceBy(2);
          depth := depth - 1;
          if depth == 0 {
            return Ok(if documentation then Some(Placed(Doc(raw), startLine, startColumn, offset, byteIndex)) else None);
          }
        } else {
          if documentation {
            raw := raw + [text.chars[index]];
          }
          var _ := Advance();
        }
      }
      return Err(LexError(UnterminatedComment, startLine, startColumn));
    }

    /** Moves to the character at which the scanner has the given byte position. */
    method AdvanceToByte(end: nat, ghost target: nat)
      requires Valid() && index <= target <= |text.chars| && PosAt(text.chars, target).byte == end
      modifies this
      ensures Valid() && index == target
    {
      while byteIndex < end
        invariant Valid() && index <= target
        decreases target - index
      {
        var _ := Advance();
      }
      if index < target {
        PosIncreases(text.chars, index, target);
      }
    }

    /** A new lexer, on the rest of the source. */
    method LexRest(rest: Text) returns (lexed: Result<seq<Placed>>)
      requires |rest.chars| < |text.chars|
      ensures Answers(rest, rest.LexInterpolation(), lexed)
      decreases |rest.chars|, 5
    {
      var inner := new Lexer(rest);
      lexed := inner.LexUntil(true);
    }

    /** A substitution is lexed by a new lexer on the rest of the source.  Its errors are moved
        to their absolute position; on success the scan resumes behind the closing mark. */
    method SkipSubstitution() returns (r: Result<()>)
      requires Valid() && 0 < index
      modifies this
      ensures Valid()
      ensures match text.Suffix(old(index)).LexInterpolation()
              case Tokens(_, stop) => r == Ok(()) && index == old(index) + stop + 2
              case Fault(reason, at) => old(index) + at <= |text.chars| && r == Err(ErrorAt(text, reason, old(index) + at))
      decreases |text.chars|, 0
    {
      var rest := text.Suffix(index);
      var lexed := LexRest(rest);
      if lexed.Err? {
        FaultPosition(text, index, lexed);
        var error := lexed.error;
        if error.line == 1 {
          error := error.(column := error.column + (column - 1));
        }
        return Err(error.(line := error.line + (line - 1)));
      }
      MarkPosition(text, index, lexed);
      var tokens := lexed.value;
      AdvanceToByte(byteIndex + tokens[|tokens| - 1].from + 2, index + rest.LexInterpolation().stop + 2);
      return Ok(());
    }

    /** One step inside a triple-quoted string; true when the closing quotes are next. */
    method TripleAdvance() returns (r: Result<bool>)
      requires Valid() && 0 < index < |text.chars|
      modifies this
      ensures Valid()
      ensures match text.TripleStep(old(index))
              case Skip(to) => r == Ok(false) && index == to
              case Close => r == Ok(true) && index == old(index)
              case Stuck(reason, at) => at <= |text.chars| && r == Err(ErrorAt(text, reason, at))
      decreases |text.chars|, 1
    {
      var c := text.chars[index];
      if c == '%' && text.Is(index + 1, '%') {
        AdvanceBy(2);
      } else if c == '%' && text.Is(index + 1, '{') {
        AdvanceBy(2);
        var skipped := SkipSubstitution();
        if skipped.Err? {
          return Err(skipped.error);
        }
      } else if c == '%' && text.WordStartAt(index + 1) {
        AdvanceBy(2);
        AdvanceWhile(WordPart);
        if text.Is(index, '%') {
          var _ := Advance();
        }
      } else if text.TripleQuote(index) {
        return Ok(true);
      } else {
        var _ := Advance();
        if c == '\\' {
          var _ := Advance();
        }
      }
      return Ok(false);
    }

    /** An interpolated string, substitutions included. */
    method TripleQuoted() returns (r: Result<Option<Placed>>)
      requires Valid() && text.TripleQuote(index)
      modifies this
      ensures Valid() && Yields(text, text.TripleFrom(old(index) + 3, old(index)), old(index), r, index)
      decreases |text.chars|, 2
    {
      ghost var start := index;
      var startLine, startColumn, offset := line, column, byteIndex;
      AdvanceBy(3);
      var interior := index;
      while index < |text.chars|
        invariant Valid() && interior == start + 3 <= index
        invariant text.TripleFrom(index, start) == text.TripleFrom(start + 3, start)
        decreases |text.chars| - index
      {
        var step := TripleAdvance();
        if step.Err? {
          return Err(step.error);
        }
        if step.value {
          var value := text.chars[interior..index];
          AdvanceBy(3);
          return Ok(Some(Placed(Interpolated(value), startLine, startColumn, offset, byteIndex)));
        }
      }
      return Err(LexError(UnterminatedTriple, startLine, startColumn));
    }

    /** One round of the main loop. */
    method ScanOne() returns (r: Result<Option<Placed>>)
      requires Valid() && index < |text.chars|
      modifies this
      ensures Valid() && Yields(text, text.ScanAt(old(index)), old(index), r, index)
      decreases |text.chars|, 3
    {
      var startLine, startColumn, offset := line, column, byteIndex;
      var c := text.chars[index];
      if c == ' ' || c == '\t' || c == '\r' {
        var _ := Advance();
        r := Ok(None);
      } else if c == '\n' {
        var _ := Advance();
        r := Ok(Some(Placed(Newline, startLine, startColumn, offset, byteIndex)));
      } else if c == '/' && text.Is(index + 1, '/') {
        r := LineComment();
      } else if c == '/' && text.Is(index + 1, '*') {
        r := BlockComment();
      } else if IsDigit(c) {
        r := Number();
      } else if text.TripleQuote(index) {
        r := TripleQuoted();
      } else if c == '"' {
        r := String();
      } else if c == '\'' {
        r := CodePointLiteral();
      } else if c == ':' && text.WordStartAt(index + 1) {
        r := SymbolName();
      } else if text.IsWordStart(c) {
        r := Identifier();
      } else {
        r := Operator();
      }
    }

    method LexUntil(interpolation: bool) returns (r: Result<seq<Placed>>)
      requires Valid() && index == 0
      modifies this
      ensures Answers(text, text.LexFrom(0, 0, interpolation), r)
      decreases |text.chars|, 4
    {
      ghost var tokens: seq<Token> := [];
      var out: seq<Placed> := [];
      var braces := 0;
      while index < |text.chars| && !(interpolation && braces == 0 && text.ClosesHere(index))
        invariant Valid()
        invariant InText(text, tokens) && out == PlaceAll(text, tokens)
        invariant text.LexFrom(0, 0, interpolation) == Prepend(tokens, text.LexFrom(index, braces, interpolation))
        decreases |text.chars| - index
      {
        ghost var start, depth, before := index, braces, tokens;
        braces := BracesAfter(text.chars[index], braces);
        var scanned := ScanOne();
        if scanned.Err? {
          return Err(scanned.error);
        }
        if scanned.value.Some? {
          PlaceOneMore(text, tokens, Token(text.ScanAt(start).kind.value, start, index));
          out := out + [scanned.value.value];
          tokens := tokens + [Token(text.ScanAt(start).kind.value, start, index)];
        }
        PrependStep(text, before, start, depth, interpolation);
      }
      if interpolation && index == |text.chars| {
        return Err(LexError(ExpectedClose, line, column));
      }
      PlaceOneMore(text, tokens, Token(Eof, index, index));
      return Ok(out + [Placed(Eof, line, column, byteIndex, byteIndex)]);
    }
  }

  function Prepend(tokens: seq<Token>, lexed: Lexed): Lexed {
    match lexed
    case Fault(_, _) => lexed
    case Tokens(rest, stop) => Tokens(tokens + rest, stop)
  }

  lemma PlaceOneMore(text: Text, tokens: seq<Token>, token: Token)
    requires InText(text, tokens) && token.start <= token.end <= |text.chars|
    ensures InText(text, tokens + [token])
    ensures PlaceAll(text, tokens + [token]) == PlaceAll(text, tokens) + [Place(text, token.kind, token.start, token.end)]
  {
  }

  lemma PrependStep(t: Text, tokens: seq<Token>, i: nat, braces: nat, interpolation: bool)
    requires i < |t.chars| && !(interpolation && braces == 0 && t.ClosesHere(i)) && t.ScanAt(i).Done?
    ensures var scan := t.ScanAt(i);
            var rest := t.LexFrom(scan.next, BracesAfter(t.chars[i], braces), interpolation);
            Prepend(tokens, t.LexFrom(i, braces, interpolation)) ==
            Prepend(if scan.kind.Some? then tokens + [Token(scan.kind.value, i, scan.next)] else tokens, rest)
  {
    var scan := t.ScanAt(i);
    var rest := t.LexFrom(scan.next, BracesAfter(t.chars[i], braces), interpolation);
    if scan.kind.Some? && rest.Tokens? {
      assert tokens + ([Token(scan.kind.value, i, scan.next)] + rest.tokens)
          == tokens + [Token(scan.kind.value, i, scan.next)] + rest.tokens;
    }
  }

  /** Tokens or an error, at the positions the text gives them. */
  predicate Answers(text: Text, lexed: Lexed, r: Result<seq<Placed>>) {
    match lexed
    case Tokens(tokens, _) => InText(text, tokens) && r == Ok(PlaceAll(text, tokens))
    case Fault(reason, at) => at <= |text.chars| && r == Err(ErrorAt(text, reason, at))
  }

  /** An error reported for a substitution, moved by the position where the substitution
      starts, is at its position in the whole text. */
  lemma FaultPosition(t: Text, p: nat, r: Result<seq<Placed>>)
    requires p <= |t.chars| && r.Err? && Answers(t.Suffix(p), t.Suffix(p).LexInterpolation(), r)
    ensures var fault := t.Suffix(p).LexInterpolation();
            var base := PosAt(t.chars, p);
            && fault.Fault? && p + fault.at <= |t.chars|
            && ErrorAt(t, fault.reason, p + fault.at) ==
               LexError(fault.reason, r.error.line + (base.line - 1),
                        if r.error.line == 1 then r.error.column + (base.column - 1) else r.error.column)
  {
    PosCompose(t.chars, p, t.Suffix(p).LexInterpolation().at);
  }

  /** The byte position two past the closing mark of a substitution. */
  lemma MarkPosition(t: Text, p: nat, r: Result<seq<Placed>>)
    requires p <= |t.chars| && r.Ok? && Answers(t.Suffix(p), t.Suffix(p).LexInterpolation(), r)
    ensures var lexed := t.Suffix(p).LexInterpolation();
            && lexed.Tokens? && p + lexed.stop + 2 <= |t.chars| && r.value != []
            && PosAt(t.chars, p + lexed.stop + 2).byte == PosAt(t.chars, p).byte + r.value[|r.value| - 1].from + 2
  {
    var Tokens(tokens, stop) := t.Suffix(p).LexInterpolation();
    TokensTile(t.Suffix(p), 0, 0, true);
    LastPlaced(t.Suffix(p), tokens, stop);
    MarkByte(t, p, stop);
  }

  lemma MarkByte(t: Text, p: nat, stop: nat)
    requires p <= |t.chars| && stop <= |t.chars| - p && t.Suffix(p).ClosesHere(stop)
    ensures p + stop + 2 <= |t.chars|
    ensures PosAt(t.chars, p + stop + 2).byte == PosAt(t.chars, p).byte + PosAt(t.Suffix(p).chars, stop).byte + 2
  {
    PosCompose(t.chars, p, stop);
    MarkWidth(t.chars, p + stop);
  }

  lemma LastPlaced(t: Text, tokens: seq<Token>, stop: nat)
    requires stop <= |t.chars| && Tiles(t, tokens, 0, stop) && InText(t, tokens)
    ensures var placed := PlaceAll(t, tokens);
            placed != [] && placed[|placed| - 1].from == PosAt(t.chars, stop).byte
  {
    LastToken(t, tokens, 0, stop);
  }

  lemma MarkWidth(s: seq<char>, i: nat)
    requires i + 2 <= |s| && s[i] == '}' && s[i + 1] == '%'
    ensures PosAt(s, i + 2).byte == PosAt(s, i).byte + 2
  {
    assert PosAt(s, i + 2) == PosAt(s, i + 1).Over('%');
    assert PosAt(s, i + 1) == PosAt(s, i).Over('}');
  }

  lemma {:induction false} LastToken(t: Text, tokens: seq<Token>, from: nat, stop: nat)
    requires Tiles(t, tokens, from, stop)
    ensures tokens[|tokens| - 1] == Token(Eof, stop, stop)
  {
    if |tokens| > 1 {
      LastToken(t, tokens[1..], tokens[0].end, stop);
    }
  }

  method Lex(source: Text) returns (r: Result<seq<Placed>>)
    ensures Answers(source, source.Lex(), r)
  {
    var lexer := new Lexer(source);
    r := lexer.LexUntil(false);
  }

  method LexInterpolation(source: Text) returns (r: Result<seq<Placed>>)
    ensures Answers(source, source.LexInterpolation(), r)
  {
    var lexer := new Lexer(source);
    r := lexer.LexUntil(true);
  }

  // ---------------------------------------------------------------- what callers rely on

  /** A successful interpolation returns, positions included, what lexing exactly the text
      before its closing mark returns. */
  lemma InterpolationLexesPrefix(t: Text, whole: Result<seq<Placed>>, cut: Result<seq<Placed>>)
    requires t.LexInterpolation().Tokens?
    requires Answers(t, t.LexInterpolation(), whole)
    requires var u := t.Prefix(t.LexInterpolation().stop); Answers(u, u.Lex(), cut)
    ensures whole == cut
  {
    var Tokens(tokens, stop) := t.LexInterpolation();
    var u := t.Prefix(stop);
    InterpolationIsPrefix(t);
    forall i | 0 <= i < |tokens|
      ensures Place(t, tokens[i].kind, tokens[i].start, tokens[i].end) == Place(u, tokens[i].kind, tokens[i].start, tokens[i].end)
    {
      PosPrefix(t.chars, u.chars, tokens[i].start);
      PosPrefix(t.chars, u.chars, tokens[i].end);
    }
    assert PlaceAll(t, tokens) == PlaceAll(u, tokens);
  }

  /** Each token's byte range is on character boundaries, and its line and column lead back
      to the byte at which it starts. */
  lemma RangeOnBoundaries(t: Text, r: Result<seq<Placed>>, a: nat)
    requires t.Lex().Tokens? && Answers(t, t.Lex(), r) && a < |r.value|
    ensures var token := t.Lex().tokens[a];
            r.value[a].from == Bytes(t.chars[..token.start]) && r.value[a].to == Bytes(t.chars[..token.end])
    ensures ByteOffset(t.chars, r.value[a].line, r.value[a].column) == r.value[a].from
  {
    var token := t.Lex().tokens[a];
    PosBytes(t.chars, token.start);
    PosBytes(t.chars, token.end);
    ByteOffsetInvertsPosition(t.chars, token.start);
  }

  /** Byte ranges are disjoint and in order, and all but the last are nonempty. */
  lemma RangesInOrder(t: Text, r: Result<seq<Placed>>, a: nat, b: nat)
    requires t.Lex().Tokens? && Answers(t, t.Lex(), r) && a < b < |r.value|
    ensures r.value[a].from < r.value[a].to <= r.value[b].from
  {
    var Tokens(tokens, stop) := t.Lex();
    TokensTile(t, 0, 0, false);
    TilesAreOrdered(t, tokens, 0, stop, a, b);
    PosIncreases(t.chars, tokens[a].start, tokens[a].end);
    if tokens[a].end < tokens[b].start {
      PosIncreases(t.chars, tokens[a].end, tokens[b].start);
    }
  }

  /** The last token is the empty end mark behind the last byte. */
  lemma LastRange(t: Text, r: Result<seq<Placed>>)
    requires t.Lex().Tokens? && Answers(t, t.Lex(), r)
    ensures r.value != []
    ensures var last := r.value[|r.value| - 1];
            last.kind == Eof && last.from == last.to == Bytes(t.chars)
  {
    var Tokens(tokens, stop) := t.Lex();
    TokensTile(t, 0, 0, false);
    LastToken(t, tokens, 0, stop);
    PosBytes(t.chars, stop);
    assert t.chars[..stop] == t.chars;
  }
}
