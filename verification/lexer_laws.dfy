/** What lexing promises: the text before an interpolation's closing mark lexes on its own to
    the same tokens, and tokens tile the text up to blanks and plain comments. */
module LexerLaws {
  import opened Prelude
  import opened Scanning

  // ---------------------------------------------------------------- cutting a text at a closing brace

  /** A text that continues with a closing brace after n characters. */
  ghost predicate Cut(t: Text, n: nat) {
    n < |t.chars| && t.chars[n] == '}'
  }

  lemma {:induction false} RunLocal(t: Text, n: nat, i: nat, g: Group)
    requires Cut(t, n) && i <= n && t.Run(i, g) <= n
    ensures t.Prefix(n).Run(i, g) == t.Run(i, g)
    decreases n - i
  {
    if t.InAt(i, g) && i < n {
      RunLocal(t, n, i + 1, g);
    }
  }

  lemma SliceLocal(t: Text, n: nat, i: nat, j: nat)
    requires i <= j <= n <= |t.chars|
    ensures t.Prefix(n).chars[i..j] == t.chars[i..j]
  {
  }

  lemma PointLocal(t: Text, n: nat, i: nat)
    requires Cut(t, n) && i < n && IsDigit(t.chars[i]) && t.Mantissa(i) <= n
    ensures t.Prefix(n).HasPoint(i) == t.HasPoint(i)
    ensures t.Prefix(n).Mantissa(i) == t.Mantissa(i)
  {
    RunLocal(t, n, i, Digit);
    if t.HasPoint(i) {
      RunLocal(t, n, t.Run(i, Digit) + 1, Digit);
    }
  }

  lemma ExponentLocal(t: Text, n: nat, i: nat, mark: nat)
    requires Cut(t, n) && i <= mark < n && t.Exponent(i, mark).Done? && t.Exponent(i, mark).next <= n
    ensures t.Prefix(n).Exponent(i, mark) == t.Exponent(i, mark)
  {
    var sign := if t.Is(mark + 1, '+') || t.Is(mark + 1, '-') then mark + 2 else mark + 1;
    RunLocal(t, n, sign, Digit);
    SliceLocal(t, n, i, t.Run(sign, Digit));
  }

  lemma NumberLocal(t: Text, n: nat, i: nat)
    requires Cut(t, n) && i < n && IsDigit(t.chars[i]) && t.Number(i).Done? && t.Number(i).next <= n
    ensures t.Prefix(n).Number(i) == t.Number(i)
  {
    var mantissa := t.Mantissa(i);
    PointLocal(t, n, i);
    if t.Is(mantissa, 'e') || t.Is(mantissa, 'E') {
      ExponentLocal(t, n, i, mantissa);
    } else {
      SliceLocal(t, n, i, mantissa);
    }
  }

  lemma {:induction false} StringLocal(t: Text, n: nat, p: nat, start: nat, content: seq<char>)
    requires Cut(t, n) && p <= n
    requires t.StringFrom(p, start, content).Done? && t.StringFrom(p, start, content).next <= n
    ensures t.Prefix(n).StringFrom(p, start, content) == t.StringFrom(p, start, content)
    decreases n - p
  {
    if t.chars[p] == '"' {
    } else if t.chars[p] == '\\' {
      StringLocal(t, n, p + 2, start, content + [StringEscape(t.chars[p + 1]).value]);
    } else {
      StringLocal(t, n, p + 1, start, content + [t.chars[p]]);
    }
  }

  lemma {:induction false} CommentLocal(t: Text, n: nat, p: nat, depth: nat, start: nat, documentation: bool, raw: seq<char>)
    requires Cut(t, n) && p <= n && depth > 0
    requires t.CommentFrom(p, depth, start, documentation, raw).Done?
    requires t.CommentFrom(p, depth, start, documentation, raw).next <= n
    ensures t.Prefix(n).CommentFrom(p, depth, start, documentation, raw) == t.CommentFrom(p, depth, start, documentation, raw)
    decreases n - p
  {
    if t.Is(p, '/') && t.Is(p + 1, '*') {
      CommentLocal(t, n, p + 2, depth + 1, start, documentation, raw);
    } else if t.Is(p, '*') && t.Is(p + 1, '/') {
      if depth > 1 {
        CommentLocal(t, n, p + 2, depth - 1, start, documentation, raw);
      }
    } else {
      CommentLocal(t, n, p + 1, depth, start, documentation, if documentation then raw + [t.chars[p]] else raw);
    }
  }

  lemma {:induction false} TripleLocal(t: Text, n: nat, p: nat, start: nat)
    requires Cut(t, n) && start + 3 <= p <= n
    requires t.TripleFrom(p, start).Done? && t.TripleFrom(p, start).next <= n
    ensures t.Prefix(n).TripleFrom(p, start) == t.TripleFrom(p, start)
    decreases |t.chars|, n - p, 1
  {
    assert p < n;
    match t.TripleStep(p) {
      case Skip(to) =>
        TripleStepLocal(t, n, p);
        TripleLocal(t, n, to, start);
      case Close =>
        TripleStepLocal(t, n, p);
        SliceLocal(t, n, start + 3, p);
      case Stuck(_, _) =>
    }
  }

  lemma {:induction false} TripleStepLocal(t: Text, n: nat, p: nat)
    requires Cut(t, n) && 0 < p < n && !t.TripleStep(p).Stuck?
    requires t.TripleStep(p).Skip? ==> t.TripleStep(p).to <= n
    requires t.TripleStep(p).Close? ==> p + 3 <= n
    ensures t.Prefix(n).TripleStep(p) == t.TripleStep(p)
    decreases |t.chars|, n - p, 0
  {
    StartLocal(t, n, p);
    assert t.Prefix(n).chars[p] == t.chars[p];
    if t.Is(p, '%') && t.Is(p + 1, '%') {
    } else if t.Is(p, '%') && t.Is(p + 1, '{') {
      SubstitutionLocal(t, n, p + 2);
    } else if t.Is(p, '%') && t.WordStartAt(p + 1) {
      RunLocal(t, n, p + 2, WordPart);
    }
  }

  /** A substitution that closes before the cut is lexed the same way from its own start. */
  lemma {:induction false} SubstitutionLocal(t: Text, n: nat, p: nat)
    requires Cut(t, n) && 0 < p <= n
    requires t.Suffix(p).LexFrom(0, 0, true).Tokens? && p + t.Suffix(p).LexFrom(0, 0, true).stop + 2 <= n
    ensures t.Prefix(n).Suffix(p).LexFrom(0, 0, true) == t.Suffix(p).LexFrom(0, 0, true)
    decreases |t.chars|, n - p, 0
  {
    var inner := t.Suffix(p);
    assert inner.chars[n - p] == t.chars[n];
    LexLocal(inner, n - p, 0, 0);
    assert t.Prefix(n).Suffix(p) == inner.Prefix(n - p);
  }

  lemma LineCommentLocal(t: Text, n: nat, i: nat)
    requires Cut(t, n) && t.Is(i, '/') && t.Is(i + 1, '/') && t.LineComment(i).next <= n
    ensures i + 1 < n && t.Prefix(n).LineComment(i) == t.LineComment(i)
  {
    var text := if t.Is(i + 3, ' ') then i + 4 else i + 3;
    if t.Is(i + 2, '!') || t.Is(i + 2, '/') {
      RunLocal(t, n, text, InLine);
      SliceLocal(t, n, text, t.Run(text, InLine));
    } else {
      RunLocal(t, n, i + 2, InLine);
    }
  }

  lemma NamesLocal(t: Text, n: nat, i: nat)
    requires Cut(t, n) && i < n
    ensures t.Identifier(i).next <= n ==> t.Prefix(n).Identifier(i) == t.Identifier(i)
    ensures t.WordStartAt(i + 1) && t.SymbolName(i).next <= n ==>
              i + 1 < n && t.Prefix(n).SymbolName(i) == t.SymbolName(i)
  {
    if t.Identifier(i).next <= n {
      RunLocal(t, n, i + 1, WordPart);
      SliceLocal(t, n, i, t.Run(i + 1, WordPart));
    }
    if t.WordStartAt(i + 1) && t.SymbolName(i).next <= n {
      RunLocal(t, n, i + 2, WordPart);
      SliceLocal(t, n, i + 1, t.Run(i + 2, WordPart));
    }
  }

  lemma OperatorLocal(t: Text, n: nat, i: nat)
    requires Cut(t, n) && i < n && t.Operator(i).Done? && t.Operator(i).next <= n
    ensures t.Prefix(n).Operator(i) == t.Operator(i)
  {
    SliceLocal(t, n, i, t.Operator(i).next);
  }

  lemma CodePointLocal(t: Text, n: nat, i: nat)
    requires Cut(t, n) && i < n && t.CodePointLiteral(i).Done? && t.CodePointLiteral(i).next <= n
    ensures t.Prefix(n).CodePointLiteral(i) == t.CodePointLiteral(i)
  {
  }

  /** Which token starts at i is decided by the same tests on both sides of the cut. */
  lemma StartLocal(t: Text, n: nat, i: nat)
    requires Cut(t, n) && i < n
    ensures t.Prefix(n).At(i + 1) == if i + 1 < n then t.At(i + 1) else None
    ensures i + 1 == n ==> t.At(i + 1) == Some('}')
    ensures i + 1 < n ==> t.Prefix(n).TripleQuote(i) == t.TripleQuote(i)
    ensures i + 1 == n ==> !t.Prefix(n).TripleQuote(i) && !t.TripleQuote(i)
    ensures t.Prefix(n).WordStartAt(i + 1) == t.WordStartAt(i + 1)
  {
  }

  /** A token that ends before the cut is scanned the same way when the text ends at the cut. */
  lemma {:induction false} ScanLocal(t: Text, n: nat, i: nat)
    requires Cut(t, n) && i < n && t.ScanAt(i).Done? && t.ScanAt(i).next <= n
    ensures t.Prefix(n).ScanAt(i) == t.ScanAt(i)
    decreases |t.chars|, n - i, 2
  {
    var c := t.chars[i];
    assert t.Prefix(n).chars[i] == c;
    StartLocal(t, n, i);
    if c == ' ' || c == '\t' || c == '\r' || c == '\n' {
    } else if c == '/' && t.Is(i + 1, '/') {
      LineCommentLocal(t, n, i);
    } else if c == '/' && t.Is(i + 1, '*') {
      CommentLocal(t, n, i + 2, 1, i, t.Is(i + 2, '*'), []);
      assert t.Prefix(n).Is(i + 2, '*') == t.Is(i + 2, '*');
    } else if IsDigit(c) {
      NumberLocal(t, n, i);
    } else if t.TripleQuote(i) {
      TripleLocal(t, n, i + 3, i);
    } else if c == '"' {
      StringLocal(t, n, i + 1, i, []);
    } else if c == '\'' {
      CodePointLocal(t, n, i);
    } else if t.IsWordStart(c) || (c == ':' && t.WordStartAt(i + 1)) {
      NamesLocal(t, n, i);
    } else {
      OperatorLocal(t, n, i);
    }
  }

  /** An interpolation that closes before the cut lexes the same way when the text ends at the cut. */
  lemma {:induction false} LexLocal(t: Text, n: nat, i: nat, braces: nat)
    requires Cut(t, n) && i <= n
    requires t.LexFrom(i, braces, true).Tokens? && t.LexFrom(i, braces, true).stop + 2 <= n
    ensures t.Prefix(n).LexFrom(i, braces, true) == t.LexFrom(i, braces, true)
    decreases |t.chars|, n - i, 3
  {
    if !(braces == 0 && t.ClosesHere(i)) {
      var next := t.ScanAt(i).next;
      assert i < n;
      ScanLocal(t, n, i);
      LexLocal(t, n, next, BracesAfter(t.chars[i], braces));
    }
  }

  // ---------------------------------------------------------------- interpolation

  /** A successful interpolation closes at a mark, and lexing exactly the text before it gives
      the same tokens, ending at the same place. */
  lemma InterpolationIsPrefix(t: Text)
    requires t.LexInterpolation().Tokens?
    ensures var stop := t.LexInterpolation().stop;
            t.ClosesHere(stop) && t.Prefix(stop).Lex() == t.LexInterpolation()
  {
    var stop := t.LexInterpolation().stop;
    PrefixFrom(t, stop, 0, 0);
  }

  lemma {:induction false} PrefixFrom(t: Text, stop: nat, i: nat, braces: nat)
    requires i <= stop < |t.chars| && t.LexFrom(i, braces, true).Tokens? && t.LexFrom(i, braces, true).stop == stop
    ensures t.Prefix(stop).LexFrom(i, braces, false) == t.LexFrom(i, braces, true)
    decreases stop - i
  {
    var u := t.Prefix(stop);
    if !(braces == 0 && t.ClosesHere(i)) {
      var next := t.ScanAt(i).next;
      assert Cut(t, stop);
      ScanLocal(t, stop, i);
      PrefixFrom(t, stop, next, BracesAfter(t.chars[i], braces));
      BracesIrrelevant(u, next, BracesAfter(t.chars[i], braces), BracesAfter(u.chars[i], braces));
    }
  }

  /** Outside interpolations the brace depth decides nothing. */
  lemma {:induction false} BracesIrrelevant(t: Text, i: nat, a: nat, b: nat)
    requires i <= |t.chars|
    ensures t.LexFrom(i, a, false) == t.LexFrom(i, b, false)
    decreases |t.chars| - i
  {
    if i < |t.chars| && t.ScanAt(i).Done? {
      BracesIrrelevant(t, t.ScanAt(i).next, BracesAfter(t.chars[i], a), BracesAfter(t.chars[i], b));
    }
  }

  function Track(braces: nat, token: Token): nat {
    if token.kind == Punct("{") then braces + 1
    else if token.kind == Punct("}") && braces > 0 then braces - 1
    else braces
  }

  /** Depth of open braces after some tokens; a stray closing brace leaves zero. */
  function Depth(braces: nat, tokens: seq<Token>): nat
    decreases |tokens|
  {
    if tokens == [] then braces else Depth(Track(braces, tokens[0]), tokens[1..])
  }

  /** This token is a closing brace directly before a percent sign. */
  predicate LooksClosed(t: Text, token: Token) {
    token.kind == Punct("}") && t.Is(token.start + 1, '%')
  }

  lemma ScanBraces(t: Text, i: nat, braces: nat)
    requires i < |t.chars| && t.ScanAt(i).Done?
    ensures match t.ScanAt(i).kind
            case None => BracesAfter(t.chars[i], braces) == braces
            case Some(k) =>
              && Track(braces, Token(k, i, t.ScanAt(i).next)) == BracesAfter(t.chars[i], braces)
              && (k == Punct("}") ==> t.chars[i] == '}')
  {
    var scan := t.ScanAt(i);
    if scan.kind.Some? && scan.kind.value.Punct? {
      PunctIsOperator(t, i);
      OperatorBraces(t, i);
    }
  }

  lemma PunctIsOperator(t: Text, i: nat)
    requires i < |t.chars| && t.ScanAt(i).Done? && t.ScanAt(i).kind.Some? && t.ScanAt(i).kind.value.Punct?
    ensures t.ScanAt(i) == t.Operator(i)
  {
    TripleSpeaks(t, i);
    if t.chars[i] == '/' && t.Is(i + 1, '*') {
      SilentComment(t, i + 2, 1, i, t.Is(i + 2, '*'), []);
    }
  }

  lemma OperatorBraces(t: Text, i: nat)
    requires i < |t.chars| && t.Operator(i).Done?
    ensures t.Operator(i).kind.Some? && t.Operator(i).kind.value.Punct?
    ensures var spelling := t.Operator(i).kind.value.spelling;
            spelling != [] && spelling[0] == t.chars[i] && (t.chars[i] in "{}" ==> |spelling| == 1)
  {
  }

  /** The tokens end outside any braces, and every earlier token that looks like the mark
      is inside some. */
  predicate EndsAtMark(t: Text, braces: nat, ts: seq<Token>) {
    && ts != [] && ts[|ts| - 1].kind == Eof
    && Depth(braces, ts[..|ts| - 1]) == 0
    && forall k :: 0 <= k < |ts| - 1 && LooksClosed(t, ts[k]) ==> Depth(braces, ts[..k]) > 0
  }

  lemma EndsAtMarkPrepend(t: Text, braces: nat, first: Token, rest: seq<Token>)
    requires EndsAtMark(t, Track(braces, first), rest)
    requires LooksClosed(t, first) ==> braces > 0
    ensures EndsAtMark(t, braces, [first] + rest)
  {
    var ts := [first] + rest;
    forall k | 0 < k <= |rest| ensures Depth(braces, ts[..k]) == Depth(Track(braces, first), rest[..k - 1]) {
      assert ts[..k][1..] == rest[..k - 1];
    }
  }

  /** The mark is found between tokens, outside any braces, and is the first such mark. */
  lemma {:induction false} FirstMarkOutsideBraces(t: Text, i: nat, braces: nat)
    requires i <= |t.chars| && t.LexFrom(i, braces, true).Tokens?
    ensures EndsAtMark(t, braces, t.LexFrom(i, braces, true).tokens)
    decreases |t.chars| - i
  {
    var ts := t.LexFrom(i, braces, true).tokens;
    if braces == 0 && t.ClosesHere(i) {
      assert ts == [Token(Eof, i, i)];
      assert ts[..0] == [];
    } else {
      var scan := t.ScanAt(i);
      var after := BracesAfter(t.chars[i], braces);
      FirstMarkOutsideBraces(t, scan.next, after);
      ScanBraces(t, i, braces);
      if scan.kind.Some? {
        var first := Token(scan.kind.value, i, scan.next);
        var rest := t.LexFrom(scan.next, after, true).tokens;
        assert ts == [first] + rest;
        EndsAtMarkPrepend(t, braces, first, rest);
      }
    }
  }

  // ---------------------------------------------------------------- tokens tile the text

  predicate Opens(t: Text, p: nat) {
    t.Is(p, '/') && t.Is(p + 1, '*')
  }

  predicate Shuts(t: Text, p: nat) {
    t.Is(p, '*') && t.Is(p + 1, '/')
  }

  /** The rest of a block comment: characters and whole nested comments, then its closing mark. */
  ghost predicate Inside(t: Text, p: nat, end: nat)
    decreases end - p
  {
    && p < end <= |t.chars|
    && if Opens(t, p) then exists m :: p + 2 <= m < end && Inside(t, p + 2, m) && Inside(t, m, end)
       else if Shuts(t, p) then end == p + 2
       else Inside(t, p + 1, end)
  }

  /** The depth counter finds exactly the balanced end. */
  lemma {:induction false} CounterBalances(t: Text, p: nat, depth: nat, start: nat, doc: bool, raw: seq<char>)
    returns (m: nat, raw': seq<char>)
    requires p <= |t.chars| && depth > 0 && t.CommentFrom(p, depth, start, doc, raw).Done?
    ensures var end := t.CommentFrom(p, depth, start, doc, raw).next;
            && p < m <= end && Inside(t, p, m)
            && (depth == 1 ==> m == end)
            && (depth > 1 ==> t.CommentFrom(m, depth - 1, start, doc, raw') == t.CommentFrom(p, depth, start, doc, raw))
    decreases |t.chars| - p
  {
    if Opens(t, p) {
      var inner, raw1 := CounterBalances(t, p + 2, depth + 1, start, doc, raw);
      m, raw' := CounterBalances(t, inner, depth, start, doc, raw1);
      assert Inside(t, p + 2, inner) && Inside(t, inner, m);
    } else if Shuts(t, p) {
      m, raw' := p + 2, raw;
    } else {
      m, raw' := CounterBalances(t, p + 1, depth, start, doc, if doc then raw + [t.chars[p]] else raw);
    }
  }

  /** One piece of what may stand between tokens. */
  ghost predicate Filler(t: Text, i: nat, j: nat) {
    && i < j <= |t.chars|
    && (|| (j == i + 1 && t.chars[i] in " \t\r")
        || PlainLine(t, i, j)
        || (Opens(t, i) && !t.Is(i + 2, '*') && Inside(t, i + 2, j)))
  }

  /** A line comment that is not documentation, up to the end of its line. */
  ghost predicate PlainLine(t: Text, i: nat, j: nat)
    requires i < j <= |t.chars|
  {
    && t.Is(i, '/') && t.Is(i + 1, '/') && !t.Is(i + 2, '/') && !t.Is(i + 2, '!')
    && (forall k :: i <= k < j ==> t.chars[k] != '\n')
    && (j < |t.chars| ==> t.chars[j] == '\n')
  }

  ghost predicate Gap(t: Text, i: nat, j: nat)
    decreases j - i
  {
    i == j || exists k :: i < k <= j && Filler(t, i, k) && Gap(t, k, j)
  }

  /** Nonempty tokens in order, separated by gaps, and a final end mark of no width. */
  ghost predicate Tiles(t: Text, tokens: seq<Token>, from: nat, stop: nat) {
    && tokens != []
    && Gap(t, from, tokens[0].start)
    && if |tokens| == 1 then tokens[0] == Token(Eof, stop, stop)
       else
         && tokens[0].start < tokens[0].end <= stop && tokens[0].kind != Eof
         && Tiles(t, tokens[1..], tokens[0].end, stop)
  }

  lemma {:induction false} RunStays(t: Text, i: nat, g: Group)
    requires i <= |t.chars|
    ensures forall k :: i <= k < t.Run(i, g) ==> t.In(t.chars[k], g)
    ensures t.Run(i, g) < |t.chars| ==> !t.In(t.chars[t.Run(i, g)], g)
    decreases |t.chars| - i
  {
    if t.InAt(i, g) {
      RunStays(t, i + 1, g);
    }
  }

  lemma SilentScanIsFiller(t: Text, i: nat)
    requires i < |t.chars| && t.ScanAt(i).Done? && t.ScanAt(i).kind.None?
    ensures Filler(t, i, t.ScanAt(i).next)
  {
    var c := t.chars[i];
    if c == '/' && t.Is(i + 1, '/') {
      RunStays(t, i + 2, InLine);
    } else if c == '/' && t.Is(i + 1, '*') {
      var m, _ := CounterBalances(t, i + 2, 1, i, t.Is(i + 2, '*'), []);
      SilentComment(t, i + 2, 1, i, t.Is(i + 2, '*'), []);
    } else {
      TripleSpeaks(t, i);
    }
  }

  lemma {:induction false} SilentComment(t: Text, p: nat, depth: nat, start: nat, doc: bool, raw: seq<char>)
    requires p <= |t.chars| && depth > 0 && t.CommentFrom(p, depth, start, doc, raw).Done?
    ensures t.CommentFrom(p, depth, start, doc, raw).kind.None? <==> !doc
    ensures doc ==> t.CommentFrom(p, depth, start, doc, raw).kind.value.Doc?
    decreases |t.chars| - p
  {
    if Opens(t, p) {
      SilentComment(t, p + 2, depth + 1, start, doc, raw);
    } else if Shuts(t, p) {
      if depth > 1 {
        SilentComment(t, p + 2, depth - 1, start, doc, raw);
      }
    } else {
      SilentComment(t, p + 1, depth, start, doc, if doc then raw + [t.chars[p]] else raw);
    }
  }

  lemma TripleSpeaks(t: Text, i: nat)
    requires i < |t.chars|
    ensures t.TripleQuote(i) && t.ScanAt(i).Done? ==> t.ScanAt(i).kind.Some? && t.ScanAt(i).kind.value.Interpolated?
    ensures t.String(i).Done? ==> t.String(i).kind.Some? && t.String(i).kind.value.Str?
  {
    if t.TripleQuote(i) {
      TripleKind(t, i + 3, i);
    }
    StringKind(t, i + 1, i, []);
  }

  lemma {:induction false} TripleKind(t: Text, p: nat, start: nat)
    requires start + 3 <= p <= |t.chars|
    ensures t.TripleFrom(p, start).Done? ==> t.TripleFrom(p, start).kind.Some? && t.TripleFrom(p, start).kind.value.Interpolated?
    decreases |t.chars| - p
  {
    if p < |t.chars| && t.TripleStep(p).Skip? {
      TripleKind(t, t.TripleStep(p).to, start);
    }
  }

  lemma {:induction false} StringKind(t: Text, p: nat, start: nat, content: seq<char>)
    requires p <= |t.chars|
    ensures t.StringFrom(p, start, content).Done? ==>
              t.StringFrom(p, start, content).kind.Some? && t.StringFrom(p, start, content).kind.value.Str?
    decreases |t.chars| - p
  {
    if p < |t.chars| && t.chars[p] != '"' && t.chars[p] != '\n' {
      if t.chars[p] != '\\' {
        StringKind(t, p + 1, start, content + [t.chars[p]]);
      } else if p + 1 < |t.chars| && StringEscape(t.chars[p + 1]).Some? {
        StringKind(t, p + 2, start, content + [StringEscape(t.chars[p + 1]).value]);
      }
    }
  }

  lemma ScanIsNotEof(t: Text, i: nat)
    requires i < |t.chars| && t.ScanAt(i).Done? && t.ScanAt(i).kind.Some?
    ensures t.ScanAt(i).kind.value != Eof
  {
    TripleSpeaks(t, i);
    if t.chars[i] == '/' && t.Is(i + 1, '*') {
      SilentComment(t, i + 2, 1, i, t.Is(i + 2, '*'), []);
    }
  }

  /** On success the tokens tile the text: what lies between them is only spaces, tabs, carriage
      returns and balanced comments that do not document anything. */
  lemma {:induction false} TokensTile(t: Text, i: nat, braces: nat, interpolation: bool)
    requires i <= |t.chars| && t.LexFrom(i, braces, interpolation).Tokens?
    ensures var r := t.LexFrom(i, braces, interpolation);
            Tiles(t, r.tokens, i, r.stop) && (!interpolation ==> r.stop == |t.chars|)
    decreases |t.chars| - i
  {
    if i < |t.chars| && !(interpolation && braces == 0 && t.ClosesHere(i)) {
      var scan := t.ScanAt(i);
      var after := BracesAfter(t.chars[i], braces);
      TokensTile(t, scan.next, after, interpolation);
      var rest := t.LexFrom(scan.next, after, interpolation).tokens;
      if scan.kind.Some? {
        ScanIsNotEof(t, i);
        TilesEnd(t, rest, scan.next, t.LexFrom(scan.next, after, interpolation).stop);
        assert ([Token(scan.kind.value, i, scan.next)] + rest)[1..] == rest;
      } else {
        SilentScanIsFiller(t, i);
        TilesEnd(t, rest, scan.next, t.LexFrom(scan.next, after, interpolation).stop);
        assert Gap(t, i, rest[0].start);
      }
    }
  }

  lemma {:induction false} TilesEnd(t: Text, tokens: seq<Token>, from: nat, stop: nat)
    requires Tiles(t, tokens, from, stop)
    ensures from <= tokens[0].start <= stop
  {
    GapForward(t, from, tokens[0].start);
  }

  lemma GapForward(t: Text, i: nat, j: nat)
    requires Gap(t, i, j)
    ensures i <= j
  {
  }

  /** Tokens are disjoint and strictly ordered, and all but the last are nonempty. */
  lemma {:induction false} TilesAreOrdered(t: Text, tokens: seq<Token>, from: nat, stop: nat, a: nat, b: nat)
    requires Tiles(t, tokens, from, stop) && a < b < |tokens|
    ensures from <= tokens[a].start < tokens[a].end <= tokens[b].start <= tokens[b].end <= stop
    decreases b
  {
    GapForward(t, from, tokens[0].start);
    if a > 0 {
      TilesAreOrdered(t, tokens[1..], tokens[0].end, stop, a - 1, b - 1);
    } else if b > 1 {
      TilesAreOrdered(t, tokens[1..], tokens[0].end, stop, 0, b - 1);
    } else {
      TilesEnd(t, tokens[1..], tokens[0].end, stop);
    }
  }
}
