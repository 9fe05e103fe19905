/** The lexical grammar, said without scanning: which stretch of a text is a token of which kind, and
    what may be skipped.  The scanner is proved to find exactly these. */
module Grammar {
  import opened Prelude
  import opened Scanning
  import opened LexerLaws

  predicate StartsWith(t: Text, i: nat, s: seq<char>) {
    i + |s| <= |t.chars| && t.chars[i..i + |s|] == s
  }

  // ---------------------------------------------------------------- operators

  predicate IsSingle(c: char) {
    || c == '(' || c == ')' || c == '{' || c == '}' || c == '[' || c == ']'
    || c == '|' || c == '&' || c == '^' || c == '~' || c == ',' || c == ':' || c == '.'
    || c == '+' || c == '-' || c == '*' || c == '/' || c == '=' || c == '!' || c == '<' || c == '>'
  }

  predicate IsDouble(c: char, d: char) {
    || (c == '?' && d == '?') || (c == '|' && d == '|') || (c == '&' && d == '&') || (c == ':' && d == ':')
    || (c == '-' && d == '>')
    || (c == '=' && d == '=') || (c == '!' && d == '=') || (c == '<' && d == '=') || (c == '>' && d == '=')
  }

  /** The operators of the language. */
  predicate IsOperator(s: seq<char>) {
    (|s| == 1 && IsSingle(s[0])) || (|s| == 2 && IsDouble(s[0], s[1]))
  }

  /** An operator of the language stands here, and no longer one does. */
  ghost predicate OperatorAt(t: Text, i: nat, s: seq<char>) {
    && IsOperator(s) && StartsWith(t, i, s)
    && forall o :: IsOperator(o) && StartsWith(t, i, o) ==> |o| <= |s|
  }

  lemma LengthMeans(c: char, next: Option<char>)
    ensures PunctLength(c, next) == 2 <==> next.Some? && IsDouble(c, next.value)
    ensures PunctLength(c, next) == 1 <==> IsSingle(c) && !(next.Some? && IsDouble(c, next.value))
    ensures PunctLength(c, next) <= 2
  {
  }

  lemma OperatorFits(t: Text, i: nat, o: seq<char>)
    requires i < |t.chars|
    ensures IsOperator(o) && StartsWith(t, i, o) <==>
            || (|o| == 1 && o == [t.chars[i]] && IsSingle(t.chars[i]))
            || (i + 1 < |t.chars| && o == [t.chars[i], t.chars[i + 1]] && IsDouble(t.chars[i], t.chars[i + 1]))
  {
    if |o| == 1 {
      assert StartsWith(t, i, o) <==> o == [t.chars[i]] by {
        assert t.chars[i..i + 1] == [t.chars[i]];
      }
    } else if |o| == 2 && i + 1 < |t.chars| {
      assert t.chars[i..i + 2] == [t.chars[i], t.chars[i + 1]];
    }
  }

  /** Operators take their longest spelling, and no operator stands where the scanner finds none. */
  lemma OperatorIsLongest(t: Text, i: nat)
    requires i < |t.chars|
    ensures match t.Operator(i)
            case Done(kind, next) =>
              kind.Some? && kind.value.Punct? && next == i + |kind.value.spelling| && OperatorAt(t, i, kind.value.spelling)
            case Failed(reason, at) =>
              reason == UnexpectedCharacter && at == i && forall o :: IsOperator(o) ==> !StartsWith(t, i, o)
  {
    LengthMeans(t.chars[i], t.At(i + 1));
    var n := PunctLength(t.chars[i], t.At(i + 1));
    forall o | IsOperator(o) && StartsWith(t, i, o) ensures 1 <= |o| <= n {
      OperatorFits(t, i, o);
    }
    if n > 0 {
      OperatorFits(t, i, t.chars[i..i + n]);
    }
  }

  lemma OperatorIsUnique(t: Text, i: nat, s: seq<char>, o: seq<char>)
    requires OperatorAt(t, i, s) && OperatorAt(t, i, o)
    ensures s == o
  {
    assert |s| <= |o| && |o| <= |s|;
  }

  // ---------------------------------------------------------------- words

  predicate IsLetter(t: Text, c: char) {
    c == '_' || 'a' <= c <= 'z' || 'A' <= c <= 'Z' || (c as int >= 128 && c in t.letters)
  }

  predicate IsDecimal(c: char) {
    c == '0' || c == '1' || c == '2' || c == '3' || c == '4' || c == '5' || c == '6' || c == '7' || c == '8' || c == '9'
  }

  /** A word: a letter or underscore, then letters, underscores, digits and question marks, up to
      the first other character. */
  predicate WordAt(t: Text, i: nat, next: nat) {
    && i < next <= |t.chars| && IsLetter(t, t.chars[i])
    && (forall k :: i < k < next ==> IsLetter(t, t.chars[k]) || IsDecimal(t.chars[k]) || t.chars[k] == '?')
    && (next < |t.chars| ==> !(IsLetter(t, t.chars[next]) || IsDecimal(t.chars[next]) || t.chars[next] == '?'))
  }

  lemma WordIsRun(t: Text, i: nat, next: nat)
    requires i < |t.chars|
    ensures WordAt(t, i, next) <==> t.IsWordStart(t.chars[i]) && next == t.Run(i + 1, WordPart)
  {
    RunStays(t, i + 1, WordPart);
    if WordAt(t, i, next) {
      RunEnds(t, i + 1, next, WordPart);
    }
  }

  /** A run is decided by its members and by what stands behind it. */
  lemma {:induction false} RunEnds(t: Text, i: nat, next: nat, g: Group)
    requires i <= next <= |t.chars| && forall k :: i <= k < next ==> t.In(t.chars[k], g)
    requires next < |t.chars| ==> !t.In(t.chars[next], g)
    ensures t.Run(i, g) == next
    decreases next - i
  {
    if i < next {
      RunEnds(t, i + 1, next, g);
    }
  }

  // ---------------------------------------------------------------- numbers

  predicate DigitsIn(t: Text, a: nat, b: nat) {
    a < b <= |t.chars| && forall k :: a <= k < b ==> IsDecimal(t.chars[k])
  }

  predicate ExponentMark(t: Text, a: nat) {
    t.Is(a, 'e') || t.Is(a, 'E')
  }

  predicate ExponentIn(t: Text, a: nat, b: nat) {
    ExponentMark(t, a) && (DigitsIn(t, a + 1, b) || ((t.Is(a + 1, '+') || t.Is(a + 1, '-')) && DigitsIn(t, a + 2, b)))
  }

  /** Digits up to p, perhaps a point and digits up to q, perhaps an exponent up to the end. */
  predicate NumberIn(t: Text, i: nat, p: nat, q: nat, end: nat) {
    && DigitsIn(t, i, p)
    && (q == p || (t.Is(p, '.') && DigitsIn(t, p + 1, q)))
    && (end == q || ExponentIn(t, q, end))
  }

  /** The longest number that starts here. */
  ghost predicate LongestNumber(t: Text, i: nat, p: nat, q: nat, end: nat) {
    && NumberIn(t, i, p, q, end)
    && forall p': nat, q': nat, end': nat :: NumberIn(t, i, p', q', end') ==> end' <= end
  }

  lemma DigitsRun(t: Text, a: nat, b: nat)
    requires DigitsIn(t, a, b)
    ensures b <= t.Run(a, Digit) && DigitsIn(t, a, t.Run(a, Digit))
  {
    RunStays(t, a, Digit);
    assert t.Run(a, Digit) < b ==> IsDecimal(t.chars[t.Run(a, Digit)]);
    assert t.Run(a, Digit) > a;
  }

  lemma RunDigits(t: Text, a: nat)
    requires t.InAt(a, Digit)
    ensures DigitsIn(t, a, t.Run(a, Digit))
    ensures t.Run(a, Digit) < |t.chars| ==> !IsDecimal(t.chars[t.Run(a, Digit)])
  {
    RunStays(t, a, Digit);
    assert t.Run(a, Digit) > a;
  }

  /** Where the scanner's mantissa ends, and where its exponent does, if it has one. */
  function MantissaEnd(t: Text, i: nat): (q: nat)
    requires t.InAt(i, Digit)
    ensures i < q <= |t.chars|
  {
    t.Mantissa(i)
  }

  function NumberEnd(t: Text, i: nat): nat
    requires t.InAt(i, Digit)
  {
    var q := MantissaEnd(t, i);
    if !ExponentMark(t, q) then q
    else
      var sign := if t.Is(q + 1, '+') || t.Is(q + 1, '-') then q + 2 else q + 1;
      if t.InAt(sign, Digit) then t.Run(sign, Digit) else q
  }

  lemma ScannedNumber(t: Text, i: nat)
    requires t.InAt(i, Digit)
    ensures NumberIn(t, i, t.Run(i, Digit), MantissaEnd(t, i), NumberEnd(t, i))
  {
    RunDigits(t, i);
    var p, q := t.Run(i, Digit), MantissaEnd(t, i);
    if t.HasPoint(i) {
      RunDigits(t, p + 1);
    }
    if ExponentMark(t, q) {
      var sign := if t.Is(q + 1, '+') || t.Is(q + 1, '-') then q + 2 else q + 1;
      if t.InAt(sign, Digit) {
        RunDigits(t, sign);
      }
    }
  }

  lemma ExponentEnds(t: Text, i: nat, end: nat)
    requires t.InAt(i, Digit) && ExponentIn(t, MantissaEnd(t, i), end)
    ensures end <= NumberEnd(t, i)
  {
    var q := MantissaEnd(t, i);
    if DigitsIn(t, q + 1, end) {
      DigitsRun(t, q + 1, end);
      assert IsDecimal(t.chars[q + 1]);
    } else {
      DigitsRun(t, q + 2, end);
      assert IsDecimal(t.chars[q + 2]);
    }
  }

  /** No number that starts here goes on past the scanner's. */
  lemma NumberBound(t: Text, i: nat, p: nat, q: nat, end: nat)
    requires t.InAt(i, Digit) && NumberIn(t, i, p, q, end)
    ensures p <= t.Run(i, Digit) && q <= MantissaEnd(t, i) && end <= NumberEnd(t, i)
    ensures end == NumberEnd(t, i) ==> p == t.Run(i, Digit) && q == MantissaEnd(t, i)
  {
    var p0, q0 := t.Run(i, Digit), MantissaEnd(t, i);
    DigitsRun(t, i, p);
    RunDigits(t, i);
    if t.HasPoint(i) {
      RunDigits(t, p0 + 1);
    }
    if p < p0 {
      assert IsDecimal(t.chars[p]);
    } else {
      if q > p {
        DigitsRun(t, p + 1, q);
        assert IsDecimal(t.chars[p + 1]);
      }
      if q < q0 {
        assert q == p ==> t.Is(q, '.');
        assert q > p ==> IsDecimal(t.chars[q]);
      } else if end > q {
        ExponentEnds(t, i, end);
      }
    }
  }

  /** One number is the longest. */
  lemma SomeNumberIsLongest(t: Text, i: nat)
    requires t.InAt(i, Digit)
    ensures LongestNumber(t, i, t.Run(i, Digit), MantissaEnd(t, i), NumberEnd(t, i))
  {
    ScannedNumber(t, i);
    forall p: nat, q: nat, end: nat | NumberIn(t, i, p, q, end) ensures end <= NumberEnd(t, i) {
      NumberBound(t, i, p, q, end);
    }
  }

  /** The scanner takes the longest number; it refuses it exactly if a mark of an exponent without
      digits follows, or if it is an integer beyond 64 bits. */
  lemma NumberIsLongest(t: Text, i: nat, p: nat, q: nat, end: nat)
    requires t.InAt(i, Digit) && LongestNumber(t, i, p, q, end)
    ensures t.Number(i) ==
            if end == q && ExponentMark(t, q) then Failed(ExponentDigits, i)
            else if end > p then Done(Some(Float(t.chars[i..end])), end)
            else if DigitsValue(t.chars[i..end]) > 9223372036854775807 then Failed(OutOfRange, i)
            else Done(Some(Integer(DigitsValue(t.chars[i..end]))), end)
  {
    SomeNumberIsLongest(t, i);
    NumberBound(t, i, p, q, end);
    NumberBound(t, i, t.Run(i, Digit), MantissaEnd(t, i), NumberEnd(t, i));
    NumberScan(t, i);
  }

  lemma NumberScan(t: Text, i: nat)
    requires t.InAt(i, Digit)
    ensures var q, end := MantissaEnd(t, i), NumberEnd(t, i);
            t.Number(i) ==
            if end == q && ExponentMark(t, q) then Failed(ExponentDigits, i)
            else if end > t.Run(i, Digit) then Done(Some(Float(t.chars[i..end])), end)
            else if DigitsValue(t.chars[i..end]) > 9223372036854775807 then Failed(OutOfRange, i)
            else Done(Some(Integer(DigitsValue(t.chars[i..end]))), end)
  {
    var q := MantissaEnd(t, i);
    if t.HasPoint(i) {
      assert q > t.Run(i, Digit);
    } else {
      assert q == t.Run(i, Digit);
    }
    if ExponentMark(t, q) {
      assert t.Number(i) == t.Exponent(i, q);
    }
  }

  function DigitOf(n: nat): char
    requires n < 10
  {
    "0123456789"[n]
  }

  /** A natural number in decimal. */
  function Decimal(n: nat): (s: seq<char>)
    ensures s != []
  {
    if n < 10 then [DigitOf(n)] else Decimal(n / 10) + [DigitOf(n % 10)]
  }

  /** Reading a number back gives the number written. */
  lemma {:induction false} DecimalRoundTrip(n: nat)
    ensures DigitsValue(Decimal(n)) == n
  {
    if n < 10 {
      assert DigitsValue([DigitOf(n)][..0]) == 0;
    } else {
      DecimalRoundTrip(n / 10);
      assert Decimal(n)[..|Decimal(n)| - 1] == Decimal(n / 10);
    }
  }

  // ---------------------------------------------------------------- strings and code points

  /** What the letter behind a backslash stands for. */
  predicate Stands(e: char, c: char) {
    || (e == 'n' && c == '\n') || (e == 'r' && c == '\r') || (e == 't' && c == '\t')
    || (e == '"' && c == '"') || (e == '\\' && c == '\\')
  }

  /** The inside of a string from p to the end, and the content it stands for. */
  predicate Body(t: Text, p: nat, end: nat, content: seq<char>)
    decreases |content|
  {
    && p <= end <= |t.chars|
    && if content == [] then p == end
       else
         && p < end
         && if t.chars[p] == '\\' then p + 2 <= end && Stands(t.chars[p + 1], content[0]) && Body(t, p + 2, end, content[1..])
            else t.chars[p] != '"' && t.chars[p] != '\n' && content[0] == t.chars[p] && Body(t, p + 1, end, content[1..])
  }

  predicate IsEscape(e: char) {
    e == 'n' || e == 'r' || e == 't' || e == '"' || e == '\\'
  }

  lemma EscapeStands(e: char, c: char)
    ensures Stands(e, c) <==> StringEscape(e) == Some(c)
    ensures IsEscape(e) <==> StringEscape(e).Some?
  {
  }

  /** A body in quotes is scanned as a string with its content ... */
  lemma {:induction false} BodyIsScanned(t: Text, p: nat, end: nat, content: seq<char>, start: nat, before: seq<char>)
    requires Body(t, p, end, content) && t.Is(end, '"')
    ensures t.StringFrom(p, start, before) == Done(Some(Str(before + content)), end + 1)
    decreases |content|
  {
    if content == [] {
      assert before + content == before;
    } else if t.chars[p] == '\\' {
      EscapeStands(t.chars[p + 1], content[0]);
      BodyIsScanned(t, p + 2, end, content[1..], start, before + [content[0]]);
      assert before + [content[0]] + content[1..] == before + content;
    } else {
      BodyIsScanned(t, p + 1, end, content[1..], start, before + [content[0]]);
      assert before + [content[0]] + content[1..] == before + content;
    }
  }

  /** ... and the scanner stops behind a body: at its closing quote, at the end of the line or text, or
      at a backslash that nothing, or nothing known, follows. */
  lemma {:induction false} StringStop(t: Text, p: nat, start: nat, before: seq<char>) returns (end: nat, content: seq<char>)
    requires p <= |t.chars|
    ensures Body(t, p, end, content)
    ensures match t.StringFrom(p, start, before)
            case Done(kind, next) => kind == Some(Str(before + content)) && t.Is(end, '"') && next == end + 1
            case Failed(reason, at) =>
              || (reason == UnterminatedString && at == start && (end == |t.chars| || t.chars[end] == '\n'))
              || (reason == UnterminatedEscape && at == start && t.Is(end, '\\') && end + 1 == |t.chars|)
              || (reason == UnknownEscape && at == end + 2 && t.Is(end, '\\') && end + 1 < |t.chars|
                  && !IsEscape(t.chars[end + 1]))
    decreases |t.chars| - p
  {
    end, content := p, [];
    assert before + [] == before;
    if p < |t.chars| && t.chars[p] != '"' && t.chars[p] != '\n' {
      if t.chars[p] != '\\' {
        end, content := StringStop(t, p + 1, start, before + [t.chars[p]]);
        assert before + [t.chars[p]] + content == before + ([t.chars[p]] + content);
        content := [t.chars[p]] + content;
      } else if p + 1 < |t.chars| {
        EscapeStands(t.chars[p + 1], ' ');
        if StringEscape(t.chars[p + 1]).Some? {
          var c := StringEscape(t.chars[p + 1]).value;
          EscapeStands(t.chars[p + 1], c);
          end, content := StringStop(t, p + 2, start, before + [c]);
          assert before + [c] + content == before + ([c] + content);
          content := [c] + content;
        }
      }
    }
  }

  /** One character in single quotes, or an escape, which may also be a single quote. */
  predicate CodePointAt(t: Text, i: nat, c: char, next: nat) {
    && t.Is(i, '\'')
    && if t.Is(i + 1, '\\') then
         && i + 2 < |t.chars| && (Stands(t.chars[i + 2], c) || (t.chars[i + 2] == '\'' && c == '\''))
         && t.Is(i + 3, '\'') && next == i + 4
       else t.Is(i + 1, c) && t.Is(i + 2, '\'') && next == i + 3
  }

  lemma CodePointIsScanned(t: Text, i: nat, c: char, next: nat)
    requires t.Is(i, '\'')
    ensures t.CodePointLiteral(i) == Done(Some(CodePoint(c)), next) <==> CodePointAt(t, i, c, next)
    ensures t.CodePointLiteral(i).Done? ==> t.CodePointLiteral(i).kind.Some? && t.CodePointLiteral(i).kind.value.CodePoint?
    ensures t.CodePointLiteral(i).Failed? ==> t.CodePointLiteral(i).at == i
  {
    if t.Is(i + 1, '\\') && i + 2 < |t.chars| {
      EscapeStands(t.chars[i + 2], c);
    }
  }

  /** Why a code-point literal is refused. */
  lemma CodePointFault(t: Text, i: nat)
    requires t.Is(i, '\'') && t.CodePointLiteral(i).Failed?
    ensures var escaped := t.Is(i + 1, '\\');
            match t.CodePointLiteral(i).reason
            case UnterminatedCodePoint => i + 1 == |t.chars|
            case UnterminatedCodePointEscape => escaped && i + 2 == |t.chars|
            case UnknownEscape => escaped && i + 2 < |t.chars| && t.chars[i + 2] != '\'' && !IsEscape(t.chars[i + 2])
            case NotOneScalar => i + 1 < |t.chars| && !t.Is(if escaped then i + 3 else i + 2, '\'')
            case _ => false
  {
    if t.Is(i + 1, '\\') && i + 2 < |t.chars| {
      EscapeStands(t.chars[i + 2], ' ');
    }
  }

  // ---------------------------------------------------------------- comments

  /** The line from a ends at b. */
  predicate LineEnds(t: Text, a: nat, b: nat) {
    && a <= b <= |t.chars|
    && (forall k :: a <= k < b ==> t.chars[k] != '\n')
    && (b < |t.chars| ==> t.chars[b] == '\n')
  }

  lemma LineIsRun(t: Text, a: nat, b: nat)
    requires a <= |t.chars|
    ensures LineEnds(t, a, b) <==> b == t.Run(a, InLine)
  {
    RunStays(t, a, InLine);
    if LineEnds(t, a, b) {
      RunEnds(t, a, b, InLine);
    }
  }

  /** Two slashes and a mark, perhaps a space, then the text of the line. */
  predicate DocLineAt(t: Text, i: nat, mark: char, raw: seq<char>, next: nat) {
    && t.Is(i, '/') && t.Is(i + 1, '/') && t.Is(i + 2, mark)
    && var text := if t.Is(i + 3, ' ') then i + 4 else i + 3;
       LineEnds(t, text, next) && raw == t.chars[text..next]
  }

  /** The characters of a comment without its marks. */
  function Unmarked(t: Text, p: nat, end: nat): seq<char>
    requires end <= |t.chars|
    decreases end - p
  {
    if p >= end then []
    else if p + 2 <= end && (Opens(t, p) || Shuts(t, p)) then Unmarked(t, p + 2, end)
    else [t.chars[p]] + Unmarked(t, p + 1, end)
  }

  lemma {:induction false} UnmarkedSplit(t: Text, p: nat, m: nat, end: nat)
    requires Inside(t, p, m) && m <= end <= |t.chars|
    ensures Unmarked(t, p, end) == Unmarked(t, p, m) + Unmarked(t, m, end)
    decreases m - p
  {
    if Opens(t, p) {
      var k :| p + 2 <= k < m && Inside(t, p + 2, k) && Inside(t, k, m);
      UnmarkedSplit(t, p + 2, k, end);
      UnmarkedSplit(t, p + 2, k, m);
      UnmarkedSplit(t, k, m, end);
    } else if !Shuts(t, p) {
      UnmarkedSplit(t, p + 1, m, end);
    }
  }

  function Kept(doc: bool, raw: seq<char>, more: seq<char>): seq<char> {
    if doc then raw + more else raw
  }

  lemma KeptTwice(doc: bool, raw: seq<char>, a: seq<char>, b: seq<char>)
    ensures Kept(doc, Kept(doc, raw, a), b) == Kept(doc, raw, a + b)
  {
    assert raw + a + b == raw + (a + b);
  }

  /** What scanning from inside a comment gives, if the innermost open one ends at m. */
  predicate EndsInner(t: Text, p: nat, m: nat, depth: nat, start: nat, doc: bool, raw: seq<char>)
    requires p <= |t.chars| && m <= |t.chars| && depth > 0
  {
    var raw' := Kept(doc, raw, Unmarked(t, p, m));
    t.CommentFrom(p, depth, start, doc, raw) ==
    if depth == 1 then Done(if doc then Some(Doc(raw')) else None, m) else t.CommentFrom(m, depth - 1, start, doc, raw')
  }

  lemma NestedEnds(t: Text, p: nat, k: nat, m: nat, depth: nat, start: nat, doc: bool, raw: seq<char>)
    requires depth > 0 && Opens(t, p) && p + 2 <= k <= m <= |t.chars|
    requires Unmarked(t, p + 2, m) == Unmarked(t, p + 2, k) + Unmarked(t, k, m) && p + 2 <= m
    requires EndsInner(t, p + 2, k, depth + 1, start, doc, raw)
    requires EndsInner(t, k, m, depth, start, doc, Kept(doc, raw, Unmarked(t, p + 2, k)))
    ensures EndsInner(t, p, m, depth, start, doc, raw)
  {
    KeptTwice(doc, raw, Unmarked(t, p + 2, k), Unmarked(t, k, m));
    assert t.CommentFrom(p, depth, start, doc, raw) == t.CommentFrom(p + 2, depth + 1, start, doc, raw);
  }

  /** A balanced comment is scanned to its end, and a documenting one yields what is between its marks. */
  lemma {:induction false} InsideIsScanned(t: Text, p: nat, m: nat, depth: nat, start: nat, doc: bool, raw: seq<char>)
    requires Inside(t, p, m) && depth > 0
    ensures EndsInner(t, p, m, depth, start, doc, raw)
    decreases m - p
  {
    if Opens(t, p) {
      var k :| p + 2 <= k < m && Inside(t, p + 2, k) && Inside(t, k, m);
      InsideIsScanned(t, p + 2, k, depth + 1, start, doc, raw);
      InsideIsScanned(t, k, m, depth, start, doc, Kept(doc, raw, Unmarked(t, p + 2, k)));
      UnmarkedSplit(t, p + 2, k, m);
      NestedEnds(t, p, k, m, depth, start, doc, raw);
    } else if Shuts(t, p) {
      assert Unmarked(t, p, m) == [] && raw + [] == raw;
    } else {
      InsideIsScanned(t, p + 1, m, depth, start, doc, Kept(doc, raw, [t.chars[p]]));
      KeptTwice(doc, raw, [t.chars[p]], Unmarked(t, p + 1, m));
    }
  }

  lemma {:induction false} CommentFault(t: Text, p: nat, depth: nat, start: nat, doc: bool, raw: seq<char>)
    requires p <= |t.chars| && depth > 0 && t.CommentFrom(p, depth, start, doc, raw).Failed?
    ensures t.CommentFrom(p, depth, start, doc, raw) == Failed(UnterminatedComment, start)
    decreases |t.chars| - p
  {
    if p < |t.chars| {
      if Opens(t, p) {
        CommentFault(t, p + 2, depth + 1, start, doc, raw);
      } else if Shuts(t, p) {
        CommentFault(t, p + 2, depth - 1, start, doc, raw);
      } else {
        CommentFault(t, p + 1, depth, start, doc, if doc then raw + [t.chars[p]] else raw);
      }
    }
  }

  /** A block comment is scanned exactly if it is balanced; it documents exactly if a star follows
      its opening. */
  lemma BlockIsScanned(t: Text, i: nat, next: nat)
    requires Opens(t, i)
    ensures var doc := t.Is(i + 2, '*');
            match t.BlockComment(i)
            case Failed(reason, at) => reason == UnterminatedComment && at == i && !Inside(t, i + 2, next)
            case Done(kind, end) =>
              && (Inside(t, i + 2, next) <==> next == end)
              && kind == if doc then Some(Doc(Unmarked(t, i + 2, end))) else None
  {
    var doc := t.Is(i + 2, '*');
    if Inside(t, i + 2, next) {
      InsideIsScanned(t, i + 2, next, 1, i, doc, []);
      assert [] + Unmarked(t, i + 2, next) == Unmarked(t, i + 2, next);
    }
    if t.BlockComment(i).Done? {
      var m, _ := CounterBalances(t, i + 2, 1, i, doc, []);
      InsideIsScanned(t, i + 2, m, 1, i, doc, []);
      assert [] + Unmarked(t, i + 2, m) == Unmarked(t, i + 2, m);
    } else {
      CommentFault(t, i + 2, 1, i, doc, []);
    }
  }

  // ---------------------------------------------------------------- triple-quoted strings

  predicate ThreeQuotes(t: Text, i: nat) {
    t.Is(i, '"') && t.Is(i + 1, '"') && t.Is(i + 2, '"')
  }

  predicate LetterAt(t: Text, i: nat) {
    i < |t.chars| && IsLetter(t, t.chars[i])
  }

  /** A substitution: what follows its opening lexes, by itself, up to its own closing mark. */
  predicate SubstitutionAt(t: Text, p: nat, q: nat) {
    && t.Is(p, '%') && t.Is(p + 1, '{')
    && var lexed := t.Suffix(p + 2).LexInterpolation();
       lexed.Tokens? && q == p + 2 + lexed.stop + 2
  }

  /** A piece of the inside of a triple-quoted string: a doubled percent sign, a substitution, a name
      behind a percent sign that another may close, an escaped character, or any other one. */
  ghost predicate Piece(t: Text, p: nat, q: nat) {
    && p < |t.chars|
    && (|| (t.Is(p, '%') && t.Is(p + 1, '%') && q == p + 2)
        || SubstitutionAt(t, p, q)
        || (t.Is(p, '%') && exists w: nat :: WordAt(t, p + 1, w) && q == if t.Is(w, '%') then w + 1 else w)
        || (t.Is(p, '\\') && p + 1 < |t.chars| && q == p + 2)
        || (q == p + 1 && !ThreeQuotes(t, p) && !(t.Is(p, '\\') && p + 1 < |t.chars|)
            && !(t.Is(p, '%') && (t.Is(p + 1, '%') || t.Is(p + 1, '{') || LetterAt(t, p + 1)))))
  }

  lemma PieceIsStep(t: Text, p: nat, q: nat)
    requires 0 < p < |t.chars|
    ensures Piece(t, p, q) <==> t.TripleStep(p) == Skip(q)
  {
    if t.Is(p, '%') && t.WordStartAt(p + 1) {
      var w := t.Run(p + 2, WordPart);
      WordIsRun(t, p + 1, w);
      if v: nat :| WordAt(t, p + 1, v) && q == if t.Is(v, '%') then v + 1 else v {
        WordIsRun(t, p + 1, v);
      }
    }
  }

  lemma StepCloses(t: Text, p: nat)
    requires 0 < p < |t.chars|
    ensures t.TripleStep(p).Close? <==> ThreeQuotes(t, p)
    ensures t.TripleStep(p).Stuck? <==>
            t.Is(p, '%') && t.Is(p + 1, '{') && t.Suffix(p + 2).LexInterpolation().Fault?
    ensures t.TripleStep(p).Stuck? ==>
              t.TripleStep(p).reason == t.Suffix(p + 2).LexInterpolation().reason
              && t.TripleStep(p).at == p + 2 + t.Suffix(p + 2).LexInterpolation().at
  {
  }

  /** Piece by piece from p to the end. */
  ghost predicate Interior(t: Text, p: nat, end: nat)
    decreases end - p
  {
    p == end || exists q: nat :: p < q <= end && Piece(t, p, q) && Interior(t, q, end)
  }

  lemma {:induction false} InteriorIsScanned(t: Text, p: nat, start: nat, end: nat)
    requires start + 3 <= p <= end <= |t.chars| && Interior(t, p, end) && ThreeQuotes(t, end)
    ensures t.TripleFrom(p, start) == Done(Some(Interpolated(t.chars[start + 3..end])), end + 3)
    decreases end - p
  {
    if p == end {
      StepCloses(t, p);
    } else {
      var q: nat :| p < q <= end && Piece(t, p, q) && Interior(t, q, end);
      PieceIsStep(t, p, q);
      InteriorIsScanned(t, q, start, end);
    }
  }

  /** The scanner stops behind such an interior: at three quotes, at the end of the text, or at a
      substitution that does not lex, whose error it passes on. */
  lemma {:induction false} InteriorStop(t: Text, p: nat, start: nat) returns (end: nat)
    requires start + 3 <= p <= |t.chars|
    ensures p <= end <= |t.chars| && Interior(t, p, end)
    ensures match t.TripleFrom(p, start)
            case Done(kind, next) => ThreeQuotes(t, end) && kind == Some(Interpolated(t.chars[start + 3..end])) && next == end + 3
            case Failed(reason, at) =>
              || (end == |t.chars| && reason == UnterminatedTriple && at == start)
              || (end + 2 <= |t.chars| && t.Is(end, '%') && t.Is(end + 1, '{')
                  && var lexed := t.Suffix(end + 2).LexInterpolation();
                     lexed.Fault? && reason == lexed.reason && at == end + 2 + lexed.at)
    decreases |t.chars| - p
  {
    end := p;
    if p < |t.chars| {
      StepCloses(t, p);
      if t.TripleStep(p).Skip? {
        var q := t.TripleStep(p).to;
        PieceIsStep(t, p, q);
        end := InteriorStop(t, q, start);
      }
    }
  }

  // ---------------------------------------------------------------- tokens

  predicate CommentOpens(t: Text, i: nat) {
    t.Is(i, '/') && (t.Is(i + 1, '/') || t.Is(i + 1, '*'))
  }

  /** A token of this kind from i up to next. */
  ghost predicate TokenAt(t: Text, i: nat, kind: Kind, next: nat) {
    match kind
    case Newline => t.Is(i, '\n') && next == i + 1
    case ModuleDoc(raw) => DocLineAt(t, i, '!', raw, next)
    case Doc(raw) =>
      || DocLineAt(t, i, '/', raw, next)
      || (Opens(t, i) && t.Is(i + 2, '*') && Inside(t, i + 2, next) && raw == Unmarked(t, i + 2, next))
    case Integer(value) =>
      LongestNumber(t, i, next, next, next) && !ExponentMark(t, next)
      && value == DigitsValue(t.chars[i..next]) && value <= 9223372036854775807
    case Float(digits) =>
      exists p: nat, q: nat :: FloatBy(t, i, p, q, digits, next)
    case Interpolated(interior) =>
      && ThreeQuotes(t, i) && i + 6 <= next <= |t.chars| && Interior(t, i + 3, next - 3) && ThreeQuotes(t, next - 3)
      && interior == t.chars[i + 3..next - 3]
    case Str(content) => t.Is(i, '"') && !ThreeQuotes(t, i) && i + 2 <= next && Body(t, i + 1, next - 1, content) && t.Is(next - 1, '"')
    case CodePoint(c) => CodePointAt(t, i, c, next)
    case Symbol(name) => t.Is(i, ':') && WordAt(t, i + 1, next) && name == t.chars[i + 1..next]
    case Word(name) => WordAt(t, i, next) && name == t.chars[i..next]
    case Punct(spelling) =>
      && i < |t.chars| && OperatorAt(t, i, spelling) && next == i + |spelling|
      && !CommentOpens(t, i) && !(t.Is(i, ':') && LetterAt(t, i + 1))
    case Eof => false
  }

  /** The scanner found exactly this: a token of the grammar, a piece of filler, or neither. */
  ghost predicate Agrees(t: Text, i: nat, scan: Scan, kind: Kind, next: nat) {
    && (scan == Done(Some(kind), next) <==> TokenAt(t, i, kind, next))
    && (scan == Done(None, next) <==> Filler(t, i, next))
  }

  lemma BlankAgrees(t: Text, i: nat, kind: Kind, next: nat)
    requires i < |t.chars| && IsBlank(t.chars[i])
    ensures Agrees(t, i, t.ScanAt(i), kind, next)
  {
    NoNumberAt(t, i);
    NoOperatorAt(t, i);
  }

  lemma NoNumberAt(t: Text, i: nat)
    requires i < |t.chars| && !IsDecimal(t.chars[i])
    ensures forall p: nat, q: nat, end: nat :: !NumberIn(t, i, p, q, end)
  {
  }

  lemma NoOperatorAt(t: Text, i: nat)
    requires i < |t.chars| && !IsSingle(t.chars[i]) && t.chars[i] != '?'
    ensures forall s :: !OperatorAt(t, i, s)
  {
    forall s ensures !OperatorAt(t, i, s) {
      OperatorFits(t, i, s);
    }
  }

  lemma SlashAgrees(t: Text, i: nat, kind: Kind, next: nat)
    requires CommentOpens(t, i)
    ensures Agrees(t, i, t.ScanAt(i), kind, next)
  {
    NoNumberAt(t, i);
    if t.Is(i + 1, '/') {
      LineAgrees(t, i, kind, next);
    } else {
      BlockIsScanned(t, i, next);
    }
  }

  lemma OnlyLine(t: Text, i: nat, kind: Kind, next: nat)
    requires t.Is(i, '/') && t.Is(i + 1, '/')
    ensures t.ScanAt(i) == t.LineComment(i)
    ensures TokenAt(t, i, kind, next) <==>
            (kind.ModuleDoc? && DocLineAt(t, i, '!', kind.raw, next)) || (kind.Doc? && DocLineAt(t, i, '/', kind.raw, next))
    ensures Filler(t, i, next) <==> !t.Is(i + 2, '/') && !t.Is(i + 2, '!') && LineEnds(t, i + 2, next)
  {
    NoNumberAt(t, i);
    if i < next <= |t.chars| && PlainLine(t, i, next) {
      assert next > i + 1;
    }
  }

  lemma LineAgrees(t: Text, i: nat, kind: Kind, next: nat)
    requires t.Is(i, '/') && t.Is(i + 1, '/')
    ensures Agrees(t, i, t.ScanAt(i), kind, next)
  {
    OnlyLine(t, i, kind, next);
    if t.Is(i + 2, '!') || t.Is(i + 2, '/') {
      LineIsRun(t, if t.Is(i + 3, ' ') then i + 4 else i + 3, next);
    } else {
      LineIsRun(t, i + 2, next);
    }
  }

  lemma OnlyNumber(t: Text, i: nat, kind: Kind, next: nat)
    requires t.InAt(i, Digit)
    ensures t.ScanAt(i) == t.Number(i)
    ensures !Filler(t, i, next) && (TokenAt(t, i, kind, next) ==> kind.Integer? || kind.Float?)
  {
    NoOperatorAt(t, i);
  }

  lemma IntegerAgrees(t: Text, i: nat, value: nat, next: nat)
    requires t.InAt(i, Digit)
    ensures t.Number(i) == Done(Some(Integer(value)), next) <==> TokenAt(t, i, Integer(value), next)
  {
    var p, q, end := t.Run(i, Digit), MantissaEnd(t, i), NumberEnd(t, i);
    SomeNumberIsLongest(t, i);
    NumberIsLongest(t, i, p, q, end);
    NumberBound(t, i, p, q, end);
    if LongestNumber(t, i, next, next, next) {
      NumberBound(t, i, next, next, next);
    }
  }

  ghost predicate FloatBy(t: Text, i: nat, p: nat, q: nat, digits: seq<char>, next: nat) {
    LongestNumber(t, i, p, q, next) && p < next && !(next == q && ExponentMark(t, q)) && digits == t.chars[i..next]
  }

  lemma FloatAgrees(t: Text, i: nat, digits: seq<char>, next: nat)
    requires t.InAt(i, Digit)
    ensures t.Number(i) == Done(Some(Float(digits)), next) <==> TokenAt(t, i, Float(digits), next)
  {
    var p, q, end := t.Run(i, Digit), MantissaEnd(t, i), NumberEnd(t, i);
    SomeNumberIsLongest(t, i);
    NumberIsLongest(t, i, p, q, end);
    if TokenAt(t, i, Float(digits), next) {
      var p': nat, q': nat :| FloatBy(t, i, p', q', digits, next);
      NumberBound(t, i, p', q', next);
    }
    if t.Number(i) == Done(Some(Float(digits)), next) {
      assert FloatBy(t, i, p, q, digits, next);
    }
  }

  lemma DigitAgrees(t: Text, i: nat, kind: Kind, next: nat)
    requires t.InAt(i, Digit)
    ensures Agrees(t, i, t.ScanAt(i), kind, next)
  {
    OnlyNumber(t, i, kind, next);
    if kind.Integer? {
      IntegerAgrees(t, i, kind.value, next);
    } else if kind.Float? {
      FloatAgrees(t, i, kind.digits, next);
    }
  }

  lemma OnlyString(t: Text, i: nat, kind: Kind, next: nat)
    requires t.Is(i, '"') && !ThreeQuotes(t, i)
    ensures t.ScanAt(i) == t.String(i)
    ensures !Filler(t, i, next) && (TokenAt(t, i, kind, next) ==> kind.Str?)
  {
    NoNumberAt(t, i);
    NoOperatorAt(t, i);
  }

  lemma QuoteAgrees(t: Text, i: nat, kind: Kind, next: nat)
    requires t.Is(i, '"') && !ThreeQuotes(t, i)
    ensures Agrees(t, i, t.ScanAt(i), kind, next)
  {
    OnlyString(t, i, kind, next);
    if TokenAt(t, i, kind, next) {
      BodyIsScanned(t, i + 1, next - 1, kind.content, i, []);
      assert [] + kind.content == kind.content;
    } else {
      var end, content := StringStop(t, i + 1, i, []);
      assert [] + content == content;
    }
  }

  lemma OnlyInterpolated(t: Text, i: nat, kind: Kind, next: nat)
    requires ThreeQuotes(t, i)
    ensures !Filler(t, i, next) && (TokenAt(t, i, kind, next) ==> kind.Interpolated?)
  {
    NoNumberAt(t, i);
    NoOperatorAt(t, i);
  }

  lemma InterpolatedAgrees(t: Text, i: nat, interior: seq<char>, next: nat)
    requires ThreeQuotes(t, i)
    ensures t.TripleFrom(i + 3, i) == Done(Some(Interpolated(interior)), next) <==> TokenAt(t, i, Interpolated(interior), next)
  {
    if TokenAt(t, i, Interpolated(interior), next) {
      InteriorIsScanned(t, i + 3, i, next - 3);
    }
    if t.TripleFrom(i + 3, i) == Done(Some(Interpolated(interior)), next) {
      InterpolatedToken(t, i, interior, next);
    }
  }

  lemma InterpolatedToken(t: Text, i: nat, interior: seq<char>, next: nat)
    requires ThreeQuotes(t, i) && t.TripleFrom(i + 3, i) == Done(Some(Interpolated(interior)), next)
    ensures TokenAt(t, i, Interpolated(interior), next)
  {
    var end := InteriorStop(t, i + 3, i);
    assert end == next - 3;
  }

  lemma TripleAgrees(t: Text, i: nat, kind: Kind, next: nat)
    requires ThreeQuotes(t, i)
    ensures Agrees(t, i, t.ScanAt(i), kind, next)
  {
    OnlyInterpolated(t, i, kind, next);
    assert t.ScanAt(i) == t.TripleFrom(i + 3, i);
    TripleKind(t, i + 3, i);
    if kind.Interpolated? {
      InterpolatedAgrees(t, i, kind.interior, next);
    }
  }

  lemma CodePointAgrees(t: Text, i: nat, kind: Kind, next: nat)
    requires t.Is(i, '\'')
    ensures Agrees(t, i, t.ScanAt(i), kind, next)
  {
    NoNumberAt(t, i);
    NoOperatorAt(t, i);
    CodePointIsScanned(t, i, if kind.CodePoint? then kind.scalar else ' ', next);
  }

  lemma SymbolAgrees(t: Text, i: nat, kind: Kind, next: nat)
    requires t.Is(i, ':') && LetterAt(t, i + 1)
    ensures Agrees(t, i, t.ScanAt(i), kind, next)
  {
    NoNumberAt(t, i);
    WordIsRun(t, i + 1, next);
  }

  lemma WordAgrees(t: Text, i: nat, kind: Kind, next: nat)
    requires LetterAt(t, i)
    ensures Agrees(t, i, t.ScanAt(i), kind, next)
  {
    NoNumberAt(t, i);
    NoOperatorAt(t, i);
    WordIsRun(t, i, next);
  }

  predicate IsBlank(c: char) {
    c == ' ' || c == '\t' || c == '\r' || c == '\n'
  }

  predicate OperatorPlace(t: Text, i: nat) {
    && i < |t.chars| && !IsBlank(t.chars[i]) && t.chars[i] != '"' && t.chars[i] != '\'' && !IsDecimal(t.chars[i]) && !LetterAt(t, i)
    && !CommentOpens(t, i) && !(t.Is(i, ':') && LetterAt(t, i + 1))
  }

  lemma OnlyOperator(t: Text, i: nat, kind: Kind, next: nat)
    requires OperatorPlace(t, i)
    ensures !Filler(t, i, next) && (TokenAt(t, i, kind, next) ==> kind.Punct?)
  {
    NoNumberAt(t, i);
  }

  lemma OperatorScanned(t: Text, i: nat)
    requires OperatorPlace(t, i)
    ensures t.ScanAt(i) == t.Operator(i)
  {
  }

  lemma OperatorAgrees(t: Text, i: nat, kind: Kind, next: nat)
    requires OperatorPlace(t, i)
    ensures Agrees(t, i, t.ScanAt(i), kind, next)
  {
    OnlyOperator(t, i, kind, next);
    OperatorScanned(t, i);
    OperatorIsLongest(t, i);
    if kind.Punct? {
      SpellingAgrees(t, i, kind.spelling, next);
    }
  }

  lemma SpellingAgrees(t: Text, i: nat, spelling: seq<char>, next: nat)
    requires i < |t.chars|
    ensures t.Operator(i) == Done(Some(Punct(spelling)), next) <==> OperatorAt(t, i, spelling) && next == i + |spelling|
  {
    OperatorIsLongest(t, i);
    if OperatorAt(t, i, spelling) && t.Operator(i).Done? {
      OperatorIsUnique(t, i, spelling, t.Operator(i).kind.value.spelling);
    }
  }

  /** At every place of every text the scanner recognizes exactly what the grammar has there: this
      token up to this end, this filler, or, if it fails, nothing at all. */
  lemma ScanIsGrammar(t: Text, i: nat, kind: Kind, next: nat)
    requires i < |t.chars|
    ensures t.ScanAt(i) == Done(Some(kind), next) <==> TokenAt(t, i, kind, next)
    ensures t.ScanAt(i) == Done(None, next) <==> Filler(t, i, next)
  {
    var c := t.chars[i];
    if IsBlank(c) {
      BlankAgrees(t, i, kind, next);
    } else if CommentOpens(t, i) {
      SlashAgrees(t, i, kind, next);
    } else if IsDecimal(c) {
      DigitAgrees(t, i, kind, next);
    } else if ThreeQuotes(t, i) {
      TripleAgrees(t, i, kind, next);
    } else if c == '"' {
      QuoteAgrees(t, i, kind, next);
    } else if c == '\'' {
      CodePointAgrees(t, i, kind, next);
    } else if c == ':' && LetterAt(t, i + 1) {
      SymbolAgrees(t, i, kind, next);
    } else if LetterAt(t, i) {
      WordAgrees(t, i, kind, next);
    } else {
      OperatorAgrees(t, i, kind, next);
    }
  }

  ghost predicate InGrammar(t: Text, token: Token) {
    token.kind == Eof || (token.start < |t.chars| && TokenAt(t, token.start, token.kind, token.end))
  }

  lemma ScannedInGrammar(t: Text, i: nat)
    requires i < |t.chars| && t.ScanAt(i).Done? && t.ScanAt(i).kind.Some?
    ensures InGrammar(t, Token(t.ScanAt(i).kind.value, i, t.ScanAt(i).next))
  {
    ScanIsGrammar(t, i, t.ScanAt(i).kind.value, t.ScanAt(i).next);
  }

  /** The tokens of a text are tokens of the grammar at their places. */
  lemma {:induction false} TokensAreGrammar(t: Text, i: nat, braces: nat, interpolation: bool)
    requires i <= |t.chars| && t.LexFrom(i, braces, interpolation).Tokens?
    ensures forall token :: token in t.LexFrom(i, braces, interpolation).tokens ==> InGrammar(t, token)
    decreases |t.chars| - i
  {
    if i < |t.chars| && !(interpolation && braces == 0 && t.ClosesHere(i)) {
      TokensAreGrammar(t, t.ScanAt(i).next, BracesAfter(t.chars[i], braces), interpolation);
      if t.ScanAt(i).kind.Some? {
        ScannedInGrammar(t, i);
      }
    }
  }

  ghost predicate NothingAt(t: Text, i: nat) {
    (forall kind, next :: !TokenAt(t, i, kind, next)) && forall next: nat :: !Filler(t, i, next)
  }

  lemma FailedAtNothing(t: Text, i: nat)
    requires i < |t.chars| && t.ScanAt(i).Failed?
    ensures NothingAt(t, i)
  {
    forall kind, next ensures !TokenAt(t, i, kind, next) {
      ScanIsGrammar(t, i, kind, next);
    }
    forall next: nat ensures !Filler(t, i, next) {
      ScanIsGrammar(t, i, Eof, next);
    }
  }

  /** A text whose scan fails has nothing of the grammar where it fails: the fault is that of a place
      reached by tokens and filler at which no token and no filler stands. */
  lemma {:induction false} FaultIsReal(t: Text, i: nat, braces: nat, interpolation: bool) returns (at: nat)
    requires i <= |t.chars| && t.LexFrom(i, braces, interpolation).Fault?
    ensures i <= at <= |t.chars|
    ensures at == |t.chars| ==> interpolation && t.LexFrom(i, braces, interpolation) == Fault(ExpectedClose, at)
    ensures at < |t.chars| ==>
              && t.ScanAt(at).Failed? && t.LexFrom(i, braces, interpolation) == Fault(t.ScanAt(at).reason, t.ScanAt(at).at)
              && NothingAt(t, at)
    decreases |t.chars| - i
  {
    at := i;
    if i < |t.chars| && t.ScanAt(i).Done? {
      at := FaultIsReal(t, t.ScanAt(i).next, BracesAfter(t.chars[i], braces), interpolation);
    } else if i < |t.chars| {
      FailedAtNothing(t, i);
    }
  }
}
