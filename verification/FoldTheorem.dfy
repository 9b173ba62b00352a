// Line folding in double-quoted scalars (section 6.5 of YAML 1.2), stated on words and gaps.
module FoldTheorem {
  import opened Common
  import opened Exp
  import opened ScanScalar
  import opened ScalarTheorem

  // A run of ordinary characters that ends in a visible one.
  predicate IsWord(w: seq<Byte>)
  {
    w != [] && !IsBlank(w[|w| - 1]) && forall i :: 0 <= i < |w| ==> Plain(w[i])
  }

  predicate AllBlank(t: seq<Byte>)
  {
    forall i :: 0 <= i < |t| ==> IsBlank(t[i])
  }

  // A line break of either form, and the blanks that the next line begins with.
  datatype Row = Row(carriageReturn: bool, blanks: seq<Byte>)

  function Break(r: Row): (s: seq<Byte>)
    ensures 1 <= |s| <= 2
  {
    if r.carriageReturn then [CR, LF] else [LF]
  }

  function Gap(rows: seq<Row>): seq<Byte>
  {
    if rows == [] then [] else Break(rows[0]) + rows[0].blanks + Gap(rows[1..])
  }

  predicate AllRows(rows: seq<Row>)
  {
    forall i :: 0 <= i < |rows| ==> AllBlank(rows[i].blanks)
  }

  function Newlines(n: nat): (s: seq<Byte>)
    ensures |s| == n
  {
    if n == 0 then [] else [LF] + Newlines(n - 1)
  }

  // One break reads as a space, n + 1 breaks as n newlines.
  function Glue(breaks: nat): seq<Byte>
    requires breaks >= 1
  {
    if breaks == 1 then [SPACE] else Newlines(breaks - 1)
  }

  predicate Stands(text: seq<Byte>, p: nat, s: seq<Byte>)
  {
    p + |s| <= |text| && text[p..p + |s|] == s
  }

  lemma StandsSum(text: seq<Byte>, p: nat, a: seq<Byte>, b: seq<Byte>)
    requires Stands(text, p, a + b)
    ensures Stands(text, p, a) && Stands(text, p + |a|, b)
  {
    SliceOfSum(text, p, a, b);
  }

  lemma {:induction false} WordRead(text: seq<Byte>, p: nat, w: seq<Byte>, scalar: seq<Byte>, keep: nat, last: Position)
    requires IsWord(w) && Stands(text, p, w) && keep <= |scalar| && !(AtColumn0(text, p) && IsDocIndicator(text, p))
    ensures ScanLine(text, p, scalar, keep, last) == ScanLine(text, p + |w|, scalar + w, |scalar + w|, last)
    ensures text[p + |w| - 1] != LF
    decreases |w|
  {
    StandsSum(text, p, [w[0]], w[1..]) by { assert [w[0]] + w[1..] == w; }
    assert text[p] == text[p..p + 1][0] == w[0];
    CharStep(text, p, scalar, keep, last);
    hide ScanLine, Stands, IsDocIndicator, BreakLength, IsBlank;
    if |w| > 1 {
      WordRead(text, p + 1, w[1..], scalar + [w[0]], if IsBlank(w[0]) then keep else |scalar| + 1, last);
      assert scalar + [w[0]] + w[1..] == scalar + w;
    } else {
      assert scalar + w == scalar + [w[0]];
    }
  }

  lemma BlankStep(text: seq<Byte>, p: nat, scalar: seq<Byte>, keep: nat, last: Position)
    requires 0 < p < |text| && IsBlank(text[p]) && text[p - 1] != LF && keep <= |scalar|
    ensures ScanLine(text, p, scalar, keep, last) == ScanLine(text, p + 1, scalar + [text[p]], keep, last)
  {
  }

  lemma {:induction false} BlanksRead(
      text: seq<Byte>, p: nat, t: seq<Byte>, scalar: seq<Byte>, keep: nat, last: Position)
    requires AllBlank(t) && Stands(text, p, t) && keep <= |scalar| && p > 0 && text[p - 1] != LF
    ensures ScanLine(text, p, scalar, keep, last) == ScanLine(text, p + |t|, scalar + t, keep, last)
    decreases |t|
  {
    if t == [] {
      assert scalar + t == scalar;
    } else {
      StandsSum(text, p, [t[0]], t[1..]) by { assert [t[0]] + t[1..] == t; }
      assert text[p] == text[p..p + 1][0] == t[0];
      BlankStep(text, p, scalar, keep, last);
      hide ScanLine, Stands, BreakLength, IsDocIndicator;
      BlanksRead(text, p + 1, t[1..], scalar + [t[0]], keep, last);
      assert scalar + [t[0]] + t[1..] == scalar + t;
    }
  }

  lemma {:induction false} BlanksSkipped(text: seq<Byte>, p: nat, t: seq<Byte>)
    requires AllBlank(t) && Stands(text, p, t) && p + |t| < |text| && !IsBlank(text[p + |t|])
    ensures SkipBlanks(text, p) == p + |t|
    decreases |t|
  {
    if t != [] {
      StandsSum(text, p, [t[0]], t[1..]) by { assert [t[0]] + t[1..] == t; }
      assert text[p] == text[p..p + 1][0] == t[0];
      BlanksSkipped(text, p + 1, t[1..]);
    }
  }

  lemma BreakStands(text: seq<Byte>, b: nat, r: Row)
    requires Stands(text, b, Break(r))
    ensures BreakLength(text, b) == |Break(r)| && b < |text| && !IsBlank(text[b])
  {
    assert text[b] == text[b..b + |Break(r)|][0];
    if r.carriageReturn {
      assert text[b + 1] == text[b..b + |Break(r)|][1];
    }
  }

  // One line that ends in a break at b.
  lemma LineStep(
      text: seq<Byte>, p: nat, scalar: seq<Byte>, last: Position, emptyLine: bool, l: Line, r: Row)
    requires p < |text| && ScanLine(text, p, scalar, |scalar|, last) == Ok(l)
    requires Stands(text, l.pos, Break(r) + r.blanks) && AllBlank(r.blanks)
    requires var q := l.pos + |Break(r)| + |r.blanks|; q < |text| && !IsBlank(text[q])
    ensures l.keep <= |l.scalar|
    ensures var q := l.pos + |Break(r)| + |r.blanks|;
            var next := BreakLength(text, q) > 0;
            && ScanLines(text, p, scalar, last, emptyLine)
            == ScanLines(
                 text, q,
                 l.scalar[..l.keep] + (if next then [LF] else if emptyLine || l.escapedNewline then [] else [SPACE]),
                 l.lastEscaped, next)
  {
    hide ScanLine;
    StandsSum(text, l.pos, Break(r), r.blanks);
    BreakStands(text, l.pos, r);
    BlanksSkipped(text, l.pos + |Break(r)|, r.blanks);
    assert l.scalar[..l.keep] + [] == l.scalar[..l.keep];
    assert text[l.pos] != QUOTE;
  }

  lemma AtBreak(text: seq<Byte>, p: nat, scalar: seq<Byte>, keep: nat, last: Position)
    requires p < |text| && BreakLength(text, p) > 0 && keep <= |scalar|
    ensures ScanLine(text, p, scalar, keep, last) == Ok(Line(p, scalar, keep, last, false))
  {
  }

  // A break behind a slash: what stands before it is all kept.
  lemma AtEscapedBreak(text: seq<Byte>, p: nat, scalar: seq<Byte>, keep: nat, last: Position)
    requires p < |text| && text[p] == BACKSLASH && BreakLength(text, p + 1) > 0 && keep <= |scalar|
    ensures ScanLine(text, p, scalar, keep, last) == Ok(Line(p + 1, scalar, |scalar|, |scalar|, true))
  {
  }

  // What follows the blanks of a line in a gap: the next break, or the character after the gap.
  lemma GapStart(text: seq<Byte>, q: nat, rows: seq<Row>)
    requires Stands(text, q, Gap(rows)) && q + |Gap(rows)| < |text|
    requires !IsBlank(text[q + |Gap(rows)|]) && BreakLength(text, q + |Gap(rows)|) == 0
    ensures q < |text| && !IsBlank(text[q])
    ensures (BreakLength(text, q) > 0 <==> rows != [])
  {
    if rows != [] {
      GapSplit(rows);
      StandsSum(text, q, Break(rows[0]) + rows[0].blanks, Gap(rows[1..]));
      StandsSum(text, q, Break(rows[0]), rows[0].blanks);
      BreakStands(text, q, rows[0]);
    }
  }

  lemma GapSplit(rows: seq<Row>)
    requires rows != []
    ensures Gap(rows) == Break(rows[0]) + rows[0].blanks + Gap(rows[1..])
  {
  }

  lemma GapUnfold(text: seq<Byte>, b: nat, rows: seq<Row>)
    requires rows != [] && Stands(text, b, Gap(rows))
    requires var q := b + |Gap(rows)|; q < |text| && !IsBlank(text[q]) && BreakLength(text, q) == 0
    ensures var r := rows[0];
            var q := b + |Break(r)| + |r.blanks|;
            && b < |text| && BreakLength(text, b) > 0
            && Stands(text, b, Break(r) + r.blanks) && Stands(text, q, Gap(rows[1..]))
            && q + |Gap(rows[1..])| == b + |Gap(rows)| && q < |text| && !IsBlank(text[q])
            && (BreakLength(text, q) > 0 <==> |rows| > 1)
  {
    hide *;
    var r := rows[0];
    GapSplit(rows);
    StandsSum(text, b, Break(r) + r.blanks, Gap(rows[1..]));
    StandsSum(text, b, Break(r), r.blanks);
    BreakStands(text, b, r);
    GapStart(text, b + |Break(r)| + |r.blanks|, rows[1..]);
  }

  // The empty lines of a gap, after its first break.
  lemma {:induction false} EmptyLines(text: seq<Byte>, p: nat, rows: seq<Row>, scalar: seq<Byte>, last: Position)
    requires AllRows(rows) && rows != [] && Stands(text, p, Gap(rows))
    requires var q := p + |Gap(rows)|; q < |text| && !IsBlank(text[q]) && BreakLength(text, q) == 0
    ensures ScanLines(text, p, scalar, last, true)
         == ScanLines(text, p + |Gap(rows)|, scalar + Newlines(|rows| - 1), last, false)
    decreases |rows|
  {
    hide IsBlank, Gap, Stands, ScanLines, ScanLine, BreakLength, AllBlank, Break;
    GapUnfold(text, p, rows);
    AtBreak(text, p, scalar, |scalar|, last);
    LineStep(text, p, scalar, last, true, Line(p, scalar, |scalar|, last, false), rows[0]);
    assert scalar[..|scalar|] == scalar;
    Rest(text, p, rows, scalar, last);
  }

  // After the first line of a gap: nothing more, or empty lines.
  lemma Rest(text: seq<Byte>, b: nat, rows: seq<Row>, scalar: seq<Byte>, last: Position)
    requires AllRows(rows) && rows != [] && Stands(text, b, Gap(rows))
    requires var q := b + |Gap(rows)|; q < |text| && !IsBlank(text[q]) && BreakLength(text, q) == 0
    ensures b + |Break(rows[0])| + |rows[0].blanks| <= |text|
    ensures var q := b + |Break(rows[0])| + |rows[0].blanks|;
            ScanLines(text, q, scalar + (if |rows| > 1 then [LF] else []), last, |rows| > 1)
            == ScanLines(text, b + |Gap(rows)|, scalar + Newlines(|rows| - 1), last, false)
    decreases |rows|, 0
  {
    hide IsBlank, Gap, Stands, ScanLines, ScanLine, BreakLength, AllBlank, Break;
    GapUnfold(text, b, rows);
    var q := b + |Break(rows[0])| + |rows[0].blanks|;
    if |rows| > 1 {
      EmptyLines(text, q, rows[1..], scalar + [LF], last);
      assert scalar + [LF] + Newlines(|rows| - 2) == scalar + Newlines(|rows| - 1);
    } else {
      GapNone(rows[1..]);
      assert scalar + [] == scalar + Newlines(0);
    }
  }

  lemma GapNone(rows: seq<Row>)
    requires rows == []
    ensures Gap(rows) == []
  {
  }

  // A word, blanks and a gap: the blanks on both sides of the breaks go.
  lemma LineFolds(
      text: seq<Byte>, p: nat, w: seq<Byte>, t: seq<Byte>, rows: seq<Row>, scalar: seq<Byte>, last: Position)
    requires IsWord(w) && AllBlank(t) && rows != [] && AllRows(rows)
    requires Stands(text, p, w + t + Gap(rows)) && !(AtColumn0(text, p) && IsDocIndicator(text, p))
    requires var q := p + |w + t + Gap(rows)|; q < |text| && !IsBlank(text[q]) && BreakLength(text, q) == 0
    ensures ScanLines(text, p, scalar, last, false)
         == ScanLines(text, p + |w + t + Gap(rows)|, scalar + w + Glue(|rows|), last, false)
  {
    hide *;
    WordLine(text, p, w, t, scalar, last, Gap(rows));
    var b := p + |w| + |t|;
    GapUnfold(text, b, rows);
    AtBreak(text, b, scalar + w + t, |scalar + w|, last);
    LineStep(text, p, scalar, last, false, Line(b, scalar + w + t, |scalar + w|, last, false), rows[0]) by {
      OneRow(rows);
    }
    assert (scalar + w + t)[..|scalar + w|] == scalar + w;
    GlueOf(|rows|);
    if |rows| > 1 {
      Rest(text, b, rows, scalar + w, last);
    } else {
      GapSplit(rows);
      GapNone(rows[1..]);
    }
  }

  // With a slash before the first break no space is put in, and the blanks before the slash stay.
  lemma EscapedLineFolds(
      text: seq<Byte>, p: nat, w: seq<Byte>, t: seq<Byte>, rows: seq<Row>, scalar: seq<Byte>, last: Position)
    requires IsWord(w) && AllBlank(t) && rows != [] && AllRows(rows)
    requires Stands(text, p, w + t + ([BACKSLASH] + Gap(rows))) && !(AtColumn0(text, p) && IsDocIndicator(text, p))
    requires var q := p + |w + t + ([BACKSLASH] + Gap(rows))|;
             q < |text| && !IsBlank(text[q]) && BreakLength(text, q) == 0
    ensures var s := scalar + w + t;
            ScanLines(text, p, scalar, last, false)
            == ScanLines(text, p + |w + t + ([BACKSLASH] + Gap(rows))|, s + Newlines(|rows| - 1), |s|, false)
  {
    hide *;
    var s := scalar + w + t;
    WordLine(text, p, w, t, scalar, last, [BACKSLASH] + Gap(rows));
    var b := p + |w| + |t|;
    StandsFirst(text, b, BACKSLASH, Gap(rows));
    StandsSum(text, b, [BACKSLASH], Gap(rows));
    GapUnfold(text, b + 1, rows);
    AtEscapedBreak(text, b, s, |scalar + w|, last);
    OneRow(rows);
    LineStep(text, p, scalar, last, false, Line(b + 1, s, |s|, |s|, true), rows[0]);
    assert s[..|s|] == s;
    Rest(text, b + 1, rows, s, |s|);
  }

  lemma OneRow(rows: seq<Row>)
    requires AllRows(rows) && rows != []
    ensures AllBlank(rows[0].blanks)
  {
  }

  lemma StandsFirst(text: seq<Byte>, p: nat, b: Byte, rest: seq<Byte>)
    requires Stands(text, p, [b] + rest)
    ensures p < |text| && text[p] == b
  {
    assert text[p] == text[p..p + |[b] + rest|][0];
  }

  lemma GlueOf(breaks: nat)
    requires breaks >= 1
    ensures Glue(breaks) == if breaks == 1 then [SPACE] else Newlines(breaks - 1)
    ensures Newlines(0) == []
  {
  }

  lemma WordLine(
      text: seq<Byte>, p: nat, w: seq<Byte>, t: seq<Byte>, scalar: seq<Byte>, last: Position, after: seq<Byte>)
    requires IsWord(w) && AllBlank(t) && Stands(text, p, w + t + after)
    requires !(AtColumn0(text, p) && IsDocIndicator(text, p))
    ensures ScanLine(text, p, scalar, |scalar|, last)
         == ScanLine(text, p + |w| + |t|, scalar + w + t, |scalar + w|, last)
    ensures Stands(text, p + |w| + |t|, after) && p < |text|
  {
    hide IsDocIndicator, ScanLine;
    StandsSum(text, p, w + t, after);
    StandsSum(text, p, w, t);
    WordRead(text, p, w, scalar, |scalar|, last);
    BlanksRead(text, p + |w|, t, scalar + w, |scalar + w|, last);
  }

  // A slash before the break: the two words are joined.
  lemma EscapedBreakJoins()
    ensures var text := [97, 98, BACKSLASH, LF, 99, 100, QUOTE];
            Scan(text, 0) == Ok(Scanned(7, [97, 98, 99, 100], 2, true))
  {
    hide Stands, ScanLine, ScanLines, Clip, IsDocIndicator, BreakLength;
    var text := [97, 98, BACKSLASH, LF, 99, 100, QUOTE];
    Joined(text);
    EscapedLineFolds(text, 0, [97, 98], [], [Row(false, [])], [], -1);
    WordRead(text, 4, [99, 100], [97, 98], 2, 2);
    AtQuote(text, 6, [97, 98, 99, 100], 4, 2);
    Ends(text, 4, [97, 98], 2);
  }

  lemma Joined(text: seq<Byte>)
    requires text == [97, 98, BACKSLASH, LF, 99, 100, QUOTE]
    ensures [97, 98] + [] + ([BACKSLASH] + Gap([Row(false, [])])) == [97, 98, BACKSLASH, LF]
    ensures Stands(text, 0, [97, 98, BACKSLASH, LF]) && Stands(text, 4, [99, 100])
    ensures BreakLength(text, 4) == 0 && !AtColumn0(text, 0) && !IsDocIndicator(text, 4)
    ensures [] + [97, 98] + [] == [97, 98] && [97, 98] + Newlines(0) == [97, 98]
    ensures [97, 98] + [99, 100] == [97, 98, 99, 100]
    ensures Clip([97, 98, 99, 100], 2) == [97, 98, 99, 100]
  {
    GapSplit([Row(false, [])]);
    GapNone([Row(false, [])][1..]);
  }

  lemma AtQuote(text: seq<Byte>, p: nat, scalar: seq<Byte>, keep: nat, last: Position)
    requires p < |text| && text[p] == QUOTE && keep <= |scalar|
    ensures ScanLine(text, p, scalar, keep, last) == Ok(Line(p, scalar, keep, last, false))
  {
  }

  lemma Ends(text: seq<Byte>, p: nat, scalar: seq<Byte>, last: Position)
    requires p < |text| && ScanLine(text, p, scalar, |scalar|, last).Ok?
    requires var l := ScanLine(text, p, scalar, |scalar|, last).value; l.pos < |text| && text[l.pos] == QUOTE
    ensures var l := ScanLine(text, p, scalar, |scalar|, last).value;
            ScanLines(text, p, scalar, last, false) == Ok(Scanned(l.pos + 1, l.scalar, l.lastEscaped, true))
  {
  }

  // Three dashes or dots, and then a blank, a break or the end.
  lemma DocIndicatorIff(text: seq<Byte>, p: nat)
    requires EOF !in text
    ensures IsDocIndicator(text, p) <==>
              && (Stands(text, p, ['-' as int, '-' as int, '-' as int])
                  || Stands(text, p, ['.' as int, '.' as int, '.' as int]))
              && (p + 3 == |text| || text[p + 3] == ' ' as int || text[p + 3] == '\t' as int
                  || text[p + 3] == '\n' as int || Stands(text, p + 3, ['\r' as int, '\n' as int]))
  {
    if p + 3 <= |text| {
      var s := text[p..p + 3];
      assert s == [text[p], text[p + 1], text[p + 2]];
    }
    if p + 5 <= |text| {
      assert text[p + 3..p + 5] == [text[p + 3], text[p + 4]];
    }
    NotEof(text, p);
    NotEof(text, p + 1);
    NotEof(text, p + 2);
    NotEof(text, p + 3);
  }

  lemma NotEof(text: seq<Byte>, p: nat)
    requires EOF !in text
    ensures At(text, p) == EOF <==> p >= |text|
  {
    if p < |text| { assert text[p] in text; }
  }

  // At the beginning of a line it ends the scan.
  lemma DocIndicatorFails(text: seq<Byte>, p: nat, scalar: seq<Byte>, last: Position, emptyLine: bool)
    requires p < |text| && AtColumn0(text, p) && IsDocIndicator(text, p)
    ensures ScanLines(text, p, scalar, last, emptyLine) == Failed(DocInScalar)
  {
  }

  // Of n newlines at the end of other text one stays; behind an escape, up to two more than were escaped.
  lemma ClipIs(body: seq<Byte>, n: nat, last: Position)
    requires (body == [] || body[|body| - 1] != LF) && last <= |body| + n
    ensures var most := if last < |body| then 1 else last - |body| + 2;
            Clip(body + Newlines(n), last)
            == if body == [] && last == -1 then [] else body + Newlines(if n < most then n else most)
  {
    hide FindLastNotOf, Newlines;
    var s := body + Newlines(n);
    AllNewlines(n);
    var found := FindLastNotOf(s, LF);
    assert forall i :: |body| <= i < |s| ==> s[i] == Newlines(n)[i - |body|] == LF;
    assert body != [] ==> s[|body| - 1] == body[|body| - 1];
    assert found == |body| - 1;
    var most := if last < |body| then 1 else last - |body| + 2;
    var m := if n < most then n else most;
    FewerNewlines(n, m);
    assert s[..|body| + m] == body + Newlines(n)[..m];
    assert m == n ==> s[..|body| + m] == s;
  }

  lemma {:induction false} AllNewlines(n: nat)
    ensures forall i :: 0 <= i < n ==> Newlines(n)[i] == LF
  {
    if n > 0 { AllNewlines(n - 1); }
  }

  lemma FewerNewlines(n: nat, m: nat)
    requires m <= n
    ensures Newlines(n)[..m] == Newlines(m)
  {
    AllNewlines(n);
    AllNewlines(m);
  }
}
