// The scanner of double-quoted scalars: ScanScalar as ScanQuotedScalar configures it.
module ScanScalar {
  import opened Common
  import opened Exp

  // A position, or -1 for none.
  type Position = p: int | -1 <= p

  predicate IsBlank(ch: Byte)
  {
    ch == SPACE || ch == TAB
  }

  // The length of the line break at p, 0 if there is none.
  function BreakLength(text: seq<Byte>, p: nat): (n: nat)
    ensures n > 0 ==> p + n <= |text| && text[p + n - 1] == LF
  {
    if At(text, p) == LF then 1 else if At(text, p) == CR && At(text, p + 1) == LF then 2 else 0
  }

  // Three dashes or three dots at p, followed by a blank, a break or the end.
  predicate IsDocIndicator(text: seq<Byte>, p: nat)
  {
    && (At(text, p) == 45 || At(text, p) == 46) && At(text, p) == At(text, p + 1) == At(text, p + 2)
    && (IsBlank(At(text, p + 3)) || BreakLength(text, p + 3) > 0 || At(text, p + 3) == EOF)
  }

  predicate AtColumn0(text: seq<Byte>, p: nat)
  {
    0 < p <= |text| && text[p - 1] == LF
  }

  function SkipBlanks(text: seq<Byte>, p: nat): (q: nat)
    requires p <= |text|
    ensures p <= q <= |text| && (q < |text| ==> !IsBlank(text[q]))
    ensures forall i :: p <= i < q ==> IsBlank(text[i])
    decreases |text| - p
  {
    if p < |text| && IsBlank(text[p]) then SkipBlanks(text, p + 1) else p
  }

  // The end of a line: how much of the scalar stays when trailing blanks go, and the length of the
  // scalar after the last escape, -1 before any.
  datatype Line = Line(pos: nat, scalar: seq<Byte>, keep: nat, lastEscaped: Position, escapedNewline: bool)

  // Reads up to the closing quote, a line break or the end.
  function ScanLine(text: seq<Byte>, p: nat, scalar: seq<Byte>, keep: nat, lastEscaped: Position): (r: Outcome<Line>)
    requires p <= |text| && keep <= |scalar|
    ensures r.Ok? ==> r.value.keep <= |r.value.scalar|
    ensures r.Ok? ==> p <= r.value.pos <= |text|
    ensures r.Ok? ==> forall i :: p <= i < r.value.pos ==> text[i] != LF
    ensures r.Ok? && r.value.pos < |text| ==> text[r.value.pos] == QUOTE || BreakLength(text, r.value.pos) > 0
    ensures r.Failed? ==> r.failure != EofInScalar
    decreases |text| - p
  {
    if p == |text| || text[p] == QUOTE || BreakLength(text, p) > 0 then Ok(Line(p, scalar, keep, lastEscaped, false))
    else if AtColumn0(text, p) && IsDocIndicator(text, p) then Failed(DocInScalar)
    else if text[p] == BACKSLASH && BreakLength(text, p + 1) > 0 then
      Ok(Line(p + 1, scalar, |scalar|, |scalar|, true))
    else if text[p] == BACKSLASH then
      var e := EscapeAt(text, p);
      if e.Failed? then Failed(e.failure)
      else
        var more := scalar + e.value.bytes;
        ScanLine(text, e.value.next, more, |more|, |more|)
    else ScanLine(text, p + 1, scalar + [text[p]], if IsBlank(text[p]) then keep else |scalar| + 1, lastEscaped)
  }

  // The whole scalar before chomping; closed tells whether a closing quote ended it.
  datatype Scanned = Scanned(pos: nat, scalar: seq<Byte>, lastEscaped: Position, closed: bool)

  // Line after line. A break between lines becomes a space, a newline if the next line is empty, and
  // nothing after an empty line or an escaped break.
  function ScanLines(
      text: seq<Byte>, p: nat, scalar: seq<Byte>, lastEscaped: Position, emptyLine: bool): (r: Outcome<Scanned>)
    requires p <= |text|
    ensures r.Ok? ==> p <= r.value.pos <= |text| && (!r.value.closed ==> r.value.pos == |text|)
    decreases |text| - p
  {
    if p == |text| then Ok(Scanned(p, scalar, lastEscaped, false))
    else
      var l := ScanLine(text, p, scalar, |scalar|, lastEscaped);
      if l.Failed? then Failed(l.failure)
      else if l.value.pos == |text| then Failed(EofInScalar)
      else if text[l.value.pos] == QUOTE then Ok(Scanned(l.value.pos + 1, l.value.scalar, l.value.lastEscaped, true))
      else
        var q := NextLine(text, l.value.pos);
        var nextEmptyLine := BreakLength(text, q) > 0;
        ScanLines(text, q, Folded(l.value, emptyLine, nextEmptyLine), l.value.lastEscaped, nextEmptyLine)
  }

  // Past the break and the blanks after it.
  function NextLine(text: seq<Byte>, p: nat): (q: nat)
    requires p <= |text| && BreakLength(text, p) > 0
    ensures p < q <= |text|
  {
    SkipBlanks(text, p + BreakLength(text, p))
  }

  function Folded(l: Line, emptyLine: bool, nextEmptyLine: bool): seq<Byte>
    requires l.keep <= |l.scalar|
  {
    var s := l.scalar[..l.keep];
    if nextEmptyLine then s + [LF] else if !emptyLine && !l.escapedNewline then s + [SPACE] else s
  }

  // The last position that holds something else, -1 if there is none.
  function FindLastNotOf(s: seq<Byte>, ch: Byte): (p: int)
    ensures -1 <= p < |s| && (p >= 0 ==> s[p] != ch) && forall i :: p < i < |s| ==> s[i] == ch
  {
    if s == [] then -1 else if s[|s| - 1] != ch then |s| - 1 else FindLastNotOf(s[..|s| - 1], ch)
  }

  // CLIP: of the newlines at the end, at most one that was not escaped stays.
  function Clip(scalar: seq<Byte>, lastEscaped: Position): seq<Byte>
  {
    var found := FindLastNotOf(scalar, LF);
    var p := if found < lastEscaped then lastEscaped else found;
    if p == -1 then [] else if p + 1 < |scalar| then scalar[..p + 2] else scalar
  }

  // The value of the scalar whose opening quote ends at p, and what follows it.
  function Scan(text: seq<Byte>, p: nat): Outcome<Scanned>
    requires p <= |text|
  {
    var r := ScanLines(text, p, [], -1, false);
    if r.Failed? then r
    else Ok(r.value.(scalar := Clip(r.value.scalar, r.value.lastEscaped)))
  }

  // The inner loop.
  method ReadLine(INPUT: Stream, scalar: seq<Byte>, lastEscaped: Position) returns (r: Outcome<Line>)
    requires INPUT.Valid() && EOF !in INPUT.text && (INPUT.column == 0 <==> AtColumn0(INPUT.text, INPUT.pos))
    modifies INPUT
    ensures INPUT.Valid() && r == ScanLine(INPUT.text, old(INPUT.pos), scalar, |scalar|, lastEscaped)
    ensures r.Ok? ==> INPUT.pos == r.value.pos && (INPUT.column == 0 <==> AtColumn0(INPUT.text, INPUT.pos))
  {
    var s, keep: nat, last: Position := scalar, |scalar|, lastEscaped;
    ghost var text := INPUT.text;
    while INPUT.More() && INPUT.Peek() != QUOTE && BreakLength(INPUT.text, INPUT.pos) == 0
      invariant INPUT.Valid() && keep <= |s| && (INPUT.column == 0 <==> AtColumn0(text, INPUT.pos))
      invariant ScanLine(text, INPUT.pos, s, keep, last)
             == ScanLine(text, old(INPUT.pos), scalar, |scalar|, lastEscaped)
      decreases |text| - INPUT.pos
    {
      if INPUT.column == 0 && IsDocIndicator(INPUT.text, INPUT.pos) {
        return Failed(DocInScalar);
      }
      if INPUT.Peek() == BACKSLASH && BreakLength(INPUT.text, INPUT.pos + 1) > 0 {
        var slash := INPUT.Get();
        return Ok(Line(INPUT.pos, s, |s|, |s|, true));
      }
      if INPUT.Peek() == BACKSLASH {
        var e := Escape(INPUT);
        if e.Failed? {
          return Failed(e.failure);
        }
        s := s + e.value;
        keep, last := |s|, |s|;
      } else {
        var ch := INPUT.Get();
        s := s + [ch];
        if !IsBlank(ch) {
          keep := |s|;
        }
      }
    }
    r := Ok(Line(INPUT.pos, s, keep, last, false));
  }

  // The line break and the blanks of the next line.
  method EatBreak(INPUT: Stream)
    requires INPUT.Valid() && BreakLength(INPUT.text, INPUT.pos) > 0
    modifies INPUT
    ensures INPUT.Valid() && INPUT.pos == NextLine(INPUT.text, old(INPUT.pos))
    ensures INPUT.column == 0 <==> AtColumn0(INPUT.text, INPUT.pos)
  {
    ghost var text := INPUT.text;
    INPUT.Eat(BreakLength(INPUT.text, INPUT.pos));
    while INPUT.More() && IsBlank(INPUT.Peek())
      invariant INPUT.Valid() && (INPUT.column == 0 <==> AtColumn0(text, INPUT.pos))
      invariant SkipBlanks(text, INPUT.pos) == NextLine(text, old(INPUT.pos))
      decreases |text| - INPUT.pos
    {
      INPUT.Eat(1);
    }
  }

  method ScanScalar(INPUT: Stream) returns (r: Outcome<seq<Byte>>)
    requires INPUT.Valid() && EOF !in INPUT.text && (INPUT.column == 0 <==> AtColumn0(INPUT.text, INPUT.pos))
    modifies INPUT
    ensures INPUT.Valid() && var spec := Scan(INPUT.text, old(INPUT.pos));
            if spec.Ok? then r == Ok(spec.value.scalar) && INPUT.pos == spec.value.pos else r == Failed(spec.failure)
  {
    hide ScanLine, FindLastNotOf;
    var scalar: seq<Byte>, lastEscapedChar: Position, emptyLine, closed := [], -1, false, false;
    ghost var text := INPUT.text;
    while !closed && INPUT.More()
      invariant INPUT.Valid() && (!closed ==> (INPUT.column == 0 <==> AtColumn0(text, INPUT.pos)))
      invariant ScanLines(text, old(INPUT.pos), [], -1, false)
             == if closed then Ok(Scanned(INPUT.pos, scalar, lastEscapedChar, true))
                else ScanLines(text, INPUT.pos, scalar, lastEscapedChar, emptyLine)
      decreases !closed, |text| - INPUT.pos
    {
      var line := ReadLine(INPUT, scalar, lastEscapedChar);
      if line.Failed? {
        return Failed(line.failure);
      }
      if !INPUT.More() {
        return Failed(EofInScalar);
      }
      lastEscapedChar := line.value.lastEscaped;
      if INPUT.Peek() == QUOTE {
        INPUT.Eat(1);
        scalar, closed := line.value.scalar, true;
      } else {
        EatBreak(INPUT);
        var nextEmptyLine := BreakLength(INPUT.text, INPUT.pos) > 0;
        scalar := Folded(line.value, emptyLine, nextEmptyLine);
        emptyLine := nextEmptyLine;
      }
    }
    r := Ok(Clip(scalar, lastEscapedChar));
  }

  // A double-quoted scalar with its opening quote.
  method ScanQuotedScalar(INPUT: Stream) returns (r: Outcome<seq<Byte>>)
    requires INPUT.Valid() && EOF !in INPUT.text && INPUT.Peek() == QUOTE
    modifies INPUT
    ensures INPUT.Valid() && var spec := Scan(INPUT.text, old(INPUT.pos) + 1);
            if spec.Ok? then r == Ok(spec.value.scalar) && INPUT.pos == spec.value.pos else r == Failed(spec.failure)
  {
    var quote := INPUT.Get();
    r := ScanScalar(INPUT);
  }
}
