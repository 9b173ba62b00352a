// What the scanner reads back from what the emitter wrote, and where it accepts unclosed text.
module ScalarTheorem {
  import opened Common
  import opened Utf8
  import opened Exp
  import opened DoubleQuoted
  import opened ScanScalar

  predicate IsEscaped(cp: int, escapeNonAscii: bool)
  {
    cp == QUOTE || cp == BACKSLASH || cp < 0x20 || 0x80 <= cp <= 0xA0 || cp == 0xFEFF || (escapeNonAscii && cp > 0x7E)
  }

  // The bytes that are read for a code point.
  function Reads(cp: int, escapeNonAscii: bool): seq<Byte>
    requires Legal(cp)
  {
    if IsEscaped(cp, escapeNonAscii) then Encode(cp) else Written(cp)
  }

  function ReadsAll(cps: seq<int>, escapeNonAscii: bool): seq<Byte>
    requires AllLegal(cps)
  {
    if cps == [] then [] else Reads(cps[0], escapeNonAscii) + ReadsAll(cps[1..], escapeNonAscii)
  }

  // Nothing after the last escape is a newline.
  predicate Kept(scalar: seq<Byte>, lastEscaped: Position)
  {
    lastEscaped <= |scalar| && forall i :: 0 <= i < |scalar| && lastEscaped <= i ==> scalar[i] != LF
  }

  lemma KeptNone()
    ensures Kept([], -1)
  {
  }

  lemma ClipKeeps(scalar: seq<Byte>, lastEscaped: Position)
    requires Kept(scalar, lastEscaped)
    ensures Clip(scalar, lastEscaped) == scalar
  {
  }

  predicate Plain(b: Byte)
  {
    b != QUOTE && b != BACKSLASH && b != LF && b != CR && b != EOF
  }

  lemma WrittenIsPlain(cp: int)
    requires Legal(cp) && cp >= 0x20 && cp != QUOTE && cp != BACKSLASH
    ensures forall i :: 0 <= i < |Written(cp)| ==> Plain(Written(cp)[i])
  {
  }

  // An escape token is read as one escape.
  lemma EscapeToken(text: seq<Byte>, p: nat, cp: int, escapeNonAscii: bool)
    requires Legal(cp) && IsEscaped(cp, escapeNonAscii)
    requires var t := Token(cp, escapeNonAscii); p + |t| <= |text| && text[p..p + |t|] == t
    ensures var t := Token(cp, escapeNonAscii);
            && |t| >= 2 && text[p] == BACKSLASH && BreakLength(text, p + 1) == 0
            && EscapeAt(text, p) == Ok(Escaped(Encode(cp), p + |t|)) && text[p + |t| - 1] != LF
  {
    assert cp >= 0;
    TokenForm(cp, escapeNonAscii);
    hide Encode, Legal, Token, EscapeAt;
    var t := Token(cp, escapeNonAscii);
    SliceAt(text, p, t);
    if t == EscapeSequence(cp) {
      EscapeReadsBack(text, p, cp);
      SequenceForm(cp);
      assert text[p + |t| - 1] == text[p..p + |t|][|t| - 1];
    } else {
      ShortEscape(text, p, cp);
      AsciiEncode(cp);
    }
  }

  predicate IsShort(ch: Byte, cp: int)
  {
    (ch == QUOTE && cp == QUOTE) || (ch == BACKSLASH && cp == BACKSLASH) || (ch == 110 && cp == LF)
    || (ch == 116 && cp == TAB) || (ch == 114 && cp == CR) || (ch == 98 && cp == 8)
  }

  // An escaped code point is written as one of six short escapes or by its number.
  lemma TokenForm(cp: int, escapeNonAscii: bool)
    requires cp >= 0 && IsEscaped(cp, escapeNonAscii)
    ensures var t := Token(cp, escapeNonAscii);
            t == EscapeSequence(cp) || (|t| == 2 && t[0] == BACKSLASH && IsShort(t[1], cp))
  {
    hide EscapeSequence;
  }

  lemma ShortEscape(text: seq<Byte>, p: nat, cp: int)
    requires p + 1 < |text| && text[p] == BACKSLASH && IsShort(text[p + 1], cp)
    ensures 0 <= cp <= 0x7F && EscapeAt(text, p) == Ok(Escaped([cp], p + 2))
    ensures BreakLength(text, p + 1) == 0 && text[p + 1] != LF
  {
  }

  lemma SequenceForm(cp: int)
    requires cp >= 0
    ensures var e := EscapeSequence(cp);
            |e| >= 4 && e[0] == BACKSLASH && e[1] != LF && e[1] != CR && e[|e| - 1] != LF
  {
  }

  lemma AsciiEncode(cp: int)
    requires 0 <= cp <= 0x7F
    ensures Encode(cp) == [cp]
  {
  }

  // A plain byte is read as it is.
  lemma CharStep(text: seq<Byte>, p: nat, scalar: seq<Byte>, keep: nat, last: Position)
    requires p < |text| && Plain(text[p]) && keep <= |scalar| && !(AtColumn0(text, p) && IsDocIndicator(text, p))
    ensures ScanLine(text, p, scalar, keep, last)
         == ScanLine(text, p + 1, scalar + [text[p]], if IsBlank(text[p]) then keep else |scalar| + 1, last)
    ensures !AtColumn0(text, p + 1)
  {
  }

  // Plain bytes are read one by one.
  lemma PlainBytes(
      text: seq<Byte>, p: nat, bytes: seq<Byte>, scalar: seq<Byte>, keep: nat, last: Position) returns (k: nat)
    requires 0 < p && p + |bytes| <= |text| && text[p..p + |bytes|] == bytes && text[p - 1] != LF
    requires keep <= |scalar| && forall i :: 0 <= i < |bytes| ==> Plain(bytes[i])
    ensures k <= |scalar + bytes|
    ensures ScanLine(text, p, scalar, keep, last) == ScanLine(text, p + |bytes|, scalar + bytes, k, last)
    ensures text[p + |bytes| - 1] != LF
  {
    hide ScanLine;
    forall i | p <= i < p + |bytes| ensures Plain(text[i]) {
      assert text[i] == text[p..p + |bytes|][i - p];
    }
    k := PlainRun(text, p, p + |bytes|, scalar, keep, last);
  }

  lemma {:induction false} PlainRun(
      text: seq<Byte>, p: nat, end: nat, scalar: seq<Byte>, keep: nat, last: Position) returns (k: nat)
    requires 0 < p <= end <= |text| && text[p - 1] != LF && keep <= |scalar|
    requires forall i :: p <= i < end ==> Plain(text[i])
    ensures k <= |scalar + text[p..end]|
    ensures ScanLine(text, p, scalar, keep, last) == ScanLine(text, end, scalar + text[p..end], k, last)
    decreases end
  {
    hide ScanLine, IsDocIndicator, BreakLength, IsBlank;
    if p == end {
      assert scalar + text[p..end] == scalar;
      k := keep;
    } else {
      k := PlainRun(text, p, end - 1, scalar, keep, last);
      var before := scalar + text[p..end - 1];
      assert text[end - 2] != LF;
      CharStep(text, end - 1, before, k, last);
      k := if IsBlank(text[end - 1]) then k else |before| + 1;
      hide *;
      assert text[p..end] == text[p..end - 1] + [text[end - 1]];
      assert before + [text[end - 1]] == scalar + text[p..end];
    }
  }

  // One token.
  lemma TokenRead(text: seq<Byte>, p: nat, cp: int, escapeNonAscii: bool, scalar: seq<Byte>, keep: nat, last: Position)
    returns (k: nat, l: Position)
    requires Legal(cp) && 0 < p && keep <= |scalar| && Kept(scalar, last)
    requires var t := Token(cp, escapeNonAscii); p + |t| <= |text| && text[p..p + |t|] == t && text[p - 1] != LF
    ensures var t, s := Token(cp, escapeNonAscii), scalar + Reads(cp, escapeNonAscii);
            && k <= |s| && Kept(s, l) && text[p + |t| - 1] != LF
            && ScanLine(text, p, scalar, keep, last) == ScanLine(text, p + |t|, s, k, l)
  {
    hide Encode, Written, Legal, EscapeAt, Token;
    var t, s := Token(cp, escapeNonAscii), scalar + Reads(cp, escapeNonAscii);
    if IsEscaped(cp, escapeNonAscii) {
      EscapeToken(text, p, cp, escapeNonAscii);
      k, l := |s|, |s|;
    } else {
      TokenPlain(cp, escapeNonAscii);
      k := PlainBytes(text, p, t, scalar, keep, last);
      l := last;
    }
  }

  lemma TokenPlain(cp: int, escapeNonAscii: bool)
    requires Legal(cp) && !IsEscaped(cp, escapeNonAscii)
    ensures Token(cp, escapeNonAscii) == Written(cp) == Reads(cp, escapeNonAscii)
    ensures forall i :: 0 <= i < |Written(cp)| ==> Plain(Written(cp)[i])
  {
    WrittenIsPlain(cp);
  }

  lemma SliceOfSum(text: seq<Byte>, p: nat, a: seq<Byte>, b: seq<Byte>)
    requires p + |a + b| <= |text| && text[p..p + |a + b|] == a + b
    ensures text[p..p + |a|] == a && text[p + |a|..p + |a| + |b|] == b
  {
    assert (a + b)[..|a|] == a && (a + b)[|a|..] == b;
  }

  lemma Unfold(cps: seq<int>, escapeNonAscii: bool)
    requires AllLegal(cps) && cps != []
    ensures Legal(cps[0]) && AllLegal(cps[1..])
    ensures Tokens(cps, escapeNonAscii) == Token(cps[0], escapeNonAscii) + Tokens(cps[1..], escapeNonAscii)
    ensures ReadsAll(cps, escapeNonAscii) == Reads(cps[0], escapeNonAscii) + ReadsAll(cps[1..], escapeNonAscii)
  {
  }

  lemma UnfoldNone(escapeNonAscii: bool)
    ensures Tokens([], escapeNonAscii) == [] && ReadsAll([], escapeNonAscii) == []
  {
  }

  lemma AtQuote(text: seq<Byte>, p: nat, scalar: seq<Byte>, keep: nat, last: Position)
    requires p < |text| && text[p] == QUOTE && keep <= |scalar|
    ensures ScanLine(text, p, scalar, keep, last) == Ok(Line(p, scalar, keep, last, false))
  {
  }

  lemma {:induction false} TokensRead(
    text: seq<Byte>, p: nat, cps: seq<int>, escapeNonAscii: bool, scalar: seq<Byte>, keep: nat, last: Position)
    returns (k: nat, l: Position)
    requires AllLegal(cps) && 0 < p && keep <= |scalar| && Kept(scalar, last)
    requires var t := Tokens(cps, escapeNonAscii);
             p + |t| < |text| && text[p..p + |t|] == t && text[p + |t|] == QUOTE && text[p - 1] != LF
    ensures var q, s := p + |Tokens(cps, escapeNonAscii)|, scalar + ReadsAll(cps, escapeNonAscii);
            && k <= |s| && Kept(s, l) && ScanLine(text, p, scalar, keep, last) == Ok(Line(q, s, k, l, false))
    decreases |cps|
  {
    hide *;
    if cps == [] {
      UnfoldNone(escapeNonAscii);
      k, l := keep, last;
      assert scalar + [] == scalar;
      AtQuote(text, p, scalar, keep, last);
    } else {
      Unfold(cps, escapeNonAscii);
      var t, rest := Token(cps[0], escapeNonAscii), Tokens(cps[1..], escapeNonAscii);
      SliceOfSum(text, p, t, rest);
      var k1, l1 := TokenRead(text, p, cps[0], escapeNonAscii, scalar, keep, last);
      var s := scalar + Reads(cps[0], escapeNonAscii);
      k, l := TokensRead(text, p + |t|, cps[1..], escapeNonAscii, s, k1, l1);
      assert s + ReadsAll(cps[1..], escapeNonAscii) == scalar + ReadsAll(cps, escapeNonAscii);
    }
  }

  // What WriteDoubleQuotedString puts out, whatever text follows it.
  function Emitted(str: seq<Byte>, escapeNonAscii: bool): seq<Byte>
  {
    [QUOTE] + Tokens(Decode(str, 0), escapeNonAscii) + [QUOTE]
  }

  // Every string is read back as its code points were escaped or written; the scanner stops behind the
  // closing quote.
  lemma EmittedScans(str: seq<Byte>, escapeNonAscii: bool, after: seq<Byte>)
    ensures AllLegal(Decode(str, 0))
    ensures var text, r := Emitted(str, escapeNonAscii) + after, Scan(Emitted(str, escapeNonAscii) + after, 1);
            r.Ok? && r.value.closed && r.value.pos == |Emitted(str, escapeNonAscii)|
            && r.value.scalar == ReadsAll(Decode(str, 0), escapeNonAscii)
  {
    hide Token, Tokens, Decode, ReadsAll, ScanLine, Clip, Kept, AllLegal;
    DecodeLegal(str, 0);
    var cps := Decode(str, 0);
    var t, text := Tokens(cps, escapeNonAscii), Emitted(str, escapeNonAscii) + after;
    assert text[1..1 + |t|] == t && text[1 + |t|] == QUOTE && text[0] == QUOTE;
    KeptNone();
    var k, l := TokensRead(text, 1, cps, escapeNonAscii, [], 0, -1);
    assert [] + ReadsAll(cps, escapeNonAscii) == ReadsAll(cps, escapeNonAscii);
    ClipKeeps(ReadsAll(cps, escapeNonAscii), l);
  }

  // With escapeNonAscii, exactly the well-formed strings come back.
  lemma RoundTripIff(str: seq<Byte>, after: seq<Byte>)
    ensures var r := Scan(Emitted(str, true) + after, 1);
            r.Ok? && (r.value.scalar == str <==> WellFormed(str))
  {
    EmittedScans(str, true, after);
    EscapedReads(Decode(str, 0));
    WellFormedIff(str);
  }

  lemma {:induction false} EscapedReads(cps: seq<int>)
    requires AllLegal(cps)
    ensures ReadsAll(cps, true) == EncodeAll(cps)
  {
    if cps != [] {
      assert Reads(cps[0], true) == Encode(cps[0]);
      EscapedReads(cps[1..]);
    }
  }

  // Without it, a well-formed string comes back if and only if it has neither U+007F nor U+07FF.
  lemma RawRoundTripIff(str: seq<Byte>, after: seq<Byte>)
    requires WellFormed(str)
    ensures var r := Scan(Emitted(str, false) + after, 1);
            r.Ok? && (r.value.scalar == str <==> 0x7F !in Decode(str, 0) && 0x7FF !in Decode(str, 0))
  {
    EmittedScans(str, false, after);
    WellFormedIff(str);
    RawReads(Decode(str, 0));
  }

  lemma {:induction false} RawReads(cps: seq<int>)
    requires AllLegal(cps)
    ensures |ReadsAll(cps, false)| >= |EncodeAll(cps)|
    ensures ReadsAll(cps, false) == EncodeAll(cps) <==> 0x7F !in cps && 0x7FF !in cps
  {
    if cps != [] {
      RawRead(cps[0]);
      RawReads(cps[1..]);
      hide Reads, Encode, Legal;
      var a, b, c, d := Reads(cps[0], false), ReadsAll(cps[1..], false), Encode(cps[0]), EncodeAll(cps[1..]);
      assert cps == [cps[0]] + cps[1..];
      if a + b == c + d {
        assert |a| == |c| && |b| == |d|;
        assert a == (a + b)[..|a|] == c;
        assert b == (a + b)[|a|..] == d;
      }
    }
  }

  lemma RawRead(cp: int)
    requires Legal(cp)
    ensures |Reads(cp, false)| >= |Encode(cp)|
    ensures |Reads(cp, false)| == |Encode(cp)| ==> Reads(cp, false) == Encode(cp)
    ensures Reads(cp, false) == Encode(cp) <==> cp != 0x7F && cp != 0x7FF
  {
    WrittenIsShortestIff(cp);
  }

  // The text from p on is empty, or ends in a line break and blanks.
  ghost predicate BlankEnd(text: seq<Byte>, p: nat)
  {
    p == |text| || exists q :: BlankFrom(text, p, q)
  }

  ghost predicate BlankFrom(text: seq<Byte>, p: nat, q: nat)
  {
    p < q <= |text| && text[q - 1] == LF && forall i :: q <= i < |text| ==> IsBlank(text[i])
  }

  // The scanner means to refuse a scalar with no closing quote, but notices the end only inside a line:
  // when the text runs out it fails if and only if the text does not end in a break and blanks.
  lemma {:induction false} UnclosedAtBlankEnd(
      text: seq<Byte>, p: nat, scalar: seq<Byte>, last: Position, emptyLine: bool)
    requires p <= |text|
    ensures var r := ScanLines(text, p, scalar, last, emptyLine);
            && (r.Ok? && !r.value.closed ==> BlankEnd(text, p))
            && (r == Failed(EofInScalar) ==> !BlankEnd(text, p))
    decreases |text| - p
  {
    if p < |text| {
      var l := ScanLine(text, p, scalar, |scalar|, last);
      if l.Ok? && l.value.pos < |text| && text[l.value.pos] != QUOTE {
        var b := l.value.pos;
        var q := NextLine(text, b);
        var next := BreakLength(text, q) > 0;
        UnclosedAtBlankEnd(text, q, Folded(l.value, emptyLine, next), l.value.lastEscaped, next);
        BlankEndNext(text, p, b);
      } else if l.Ok? && l.value.pos == |text| {
        assert !BlankEnd(text, p);
      }
    }
  }

  lemma BlankEndNext(text: seq<Byte>, p: nat, b: nat)
    requires p <= b < |text| && BreakLength(text, b) > 0
    ensures BlankEnd(text, p) <==> BlankEnd(text, NextLine(text, b))
  {
    var n, q := b + BreakLength(text, b), NextLine(text, b);
    if q == |text| {
      assert BlankFrom(text, p, n);
    } else if BlankEnd(text, p) {
      var e :| BlankFrom(text, p, e);
      assert BlankFrom(text, q, e);
    } else if BlankEnd(text, q) {
      var e :| BlankFrom(text, q, e);
      assert BlankFrom(text, p, e);
    }
  }

  // U+007F, a single byte, comes back as two.
  lemma DeleteComesBackTooLong(after: seq<Byte>)
    ensures Scan(Emitted([0x7F], false) + after, 1).Ok?
    ensures WellFormed([0x7F]) && Scan(Emitted([0x7F], false) + after, 1).value.scalar != [0x7F]
  {
    assert Decode([0x7F], 1) == [];
    assert Decode([0x7F], 0) == [0x7F];
    assert AllLegal([0x7F]) && EncodeAll([0x7F]) == Encode(0x7F) + EncodeAll([]) == [0x7F];
    RawRoundTripIff([0x7F], after);
  }

  // A lone opening quote is read as an empty scalar, and so is one followed by a line break only.
  lemma UnclosedAccepted()
    ensures Scan([QUOTE], 1) == Ok(Scanned(1, [], -1, false))
    ensures Scan([QUOTE, LF], 1).Ok? && !Scan([QUOTE, LF], 1).value.closed
  {
    var text: seq<Byte> := [QUOTE, LF];
    assert ScanLine(text, 1, [], 0, -1) == Ok(Line(1, [], 0, -1, false));
    assert NextLine(text, 1) == 2 && BreakLength(text, 2) == 0;
    var scalar := Folded(Line(1, [], 0, -1, false), false, false);
    assert ScanLines(text, 2, scalar, -1, false) == Ok(Scanned(2, scalar, -1, false));
    assert ScanLines(text, 1, [], -1, false) == ScanLines(text, 2, scalar, -1, false);
  }

  // A scalar with no closing quote never ends at one.
  lemma {:induction false} NotClosed(text: seq<Byte>, p: nat, scalar: seq<Byte>, last: Position, emptyLine: bool)
    requires p <= |text| && forall i :: p <= i < |text| ==> text[i] != QUOTE
    ensures var r := ScanLines(text, p, scalar, last, emptyLine); r.Ok? ==> !r.value.closed
    decreases |text| - p
  {
    if p < |text| {
      var l := ScanLine(text, p, scalar, |scalar|, last);
      if l.Ok? && l.value.pos < |text| {
        var q := NextLine(text, l.value.pos);
        var next := BreakLength(text, q) > 0;
        NotClosed(text, q, Folded(l.value, emptyLine, next), l.value.lastEscaped, next);
      }
    }
  }

  // A text with no quote in it is accepted if and only if it ends in a break and blanks, unless it fails
  // for another reason than its end.
  lemma WithoutQuoteUnclosed(text: seq<Byte>, p: nat)
    requires p <= |text| && forall i :: p <= i < |text| ==> text[i] != QUOTE
    ensures var r := Scan(text, p);
            && (r.Ok? ==> !r.value.closed && BlankEnd(text, p))
            && (BlankEnd(text, p) ==> r != Failed(EofInScalar))
  {
    UnclosedAtBlankEnd(text, p, [], -1, false);
    NotClosed(text, p, [], -1, false);
  }

  predicate NoDocIndicator(text: seq<Byte>, p: nat)
  {
    forall i :: p <= i <= |text| ==> !(AtColumn0(text, i) && IsDocIndicator(text, i))
  }

  // With no slash and no document indicator there is no other reason.
  lemma PlainWithoutQuoteIff(text: seq<Byte>, p: nat)
    requires p <= |text| && NoDocIndicator(text, p)
    requires forall i :: p <= i < |text| ==> text[i] != QUOTE && text[i] != BACKSLASH
    ensures Scan(text, p).Ok? <==> BlankEnd(text, p)
    ensures !BlankEnd(text, p) ==> Scan(text, p) == Failed(EofInScalar)
  {
    hide ScanLines, Clip, BlankEnd;
    WithoutQuoteUnclosed(text, p);
    OnlyTheEnd(text, p, [], -1, false);
  }

  lemma {:induction false} OnlyTheEnd(text: seq<Byte>, p: nat, scalar: seq<Byte>, last: Position, emptyLine: bool)
    requires p <= |text| && NoDocIndicator(text, p)
    requires forall i :: p <= i < |text| ==> text[i] != QUOTE && text[i] != BACKSLASH
    ensures var r := ScanLines(text, p, scalar, last, emptyLine); r.Ok? || r == Failed(EofInScalar)
    decreases |text| - p
  {
    if p < |text| {
      LineSucceeds(text, p, scalar, |scalar|, last);
      var l := ScanLine(text, p, scalar, |scalar|, last);
      if l.value.pos < |text| {
        var q := NextLine(text, l.value.pos);
        var next := BreakLength(text, q) > 0;
        OnlyTheEnd(text, q, Folded(l.value, emptyLine, next), l.value.lastEscaped, next);
      }
    }
  }

  lemma {:induction false} LineSucceeds(text: seq<Byte>, p: nat, scalar: seq<Byte>, keep: nat, last: Position)
    requires p <= |text| && keep <= |scalar| && NoDocIndicator(text, p)
    requires forall i :: p <= i < |text| ==> text[i] != BACKSLASH
    ensures ScanLine(text, p, scalar, keep, last).Ok?
    decreases |text| - p
  {
    if p < |text| {
      var more := scalar + [text[p]];
      LineSucceeds(text, p + 1, more, if IsBlank(text[p]) then keep else |scalar| + 1, last);
    }
  }

  // The form that the writer gives a code point that it does not escape: shortest but for two.
  function Long(cp: int): seq<Byte>
    requires Legal(cp)
  {
    if cp == 0x7F then [0xC1, 0xBF] else if cp == 0x7FF then [0xE0, 0x9F, 0xBF] else Encode(cp)
  }

  function LongAll(cps: seq<int>): seq<Byte>
    requires AllLegal(cps)
  {
    if cps == [] then [] else Long(cps[0]) + LongAll(cps[1..])
  }

  lemma NextLong(s: seq<Byte>, p: nat, cp: int)
    requires Legal(cp) && p + |Long(cp)| <= |s| && s[p..p + |Long(cp)|] == Long(cp)
    ensures Next(s, p) == Read(cp, p + |Long(cp)|)
  {
    if cp == 0x7F || cp == 0x7FF {
      SliceAt(s, p, Long(cp));
      if cp == 0x7FF { GatherTrailing(s, p + 1, 2, 0x1F); }
      GatherTrailing(s, p + |Long(cp)| - 1, 1, cp);
      GatherEnd(s, p + |Long(cp)|, cp);
    } else {
      NextEncode(s, p, cp);
    }
  }

  lemma DecodeLongStep(before: seq<Byte>, cp: int, rest: seq<Byte>)
    requires Legal(cp)
    ensures var s := before + Long(cp) + rest;
            Decode(s, |before|) == [cp] + Decode(s, |before + Long(cp)|)
  {
    var s, e := before + Long(cp) + rest, Long(cp);
    assert s[|before|..|before| + |e|] == e;
    NextLong(s, |before|, cp);
  }

  lemma {:induction false} DecodeLong(before: seq<Byte>, cps: seq<int>)
    requires AllLegal(cps)
    ensures Decode(before + LongAll(cps), |before|) == cps
    decreases |cps|
  {
    if cps != [] {
      hide Long, Legal, Decode;
      var e, rest := Long(cps[0]), LongAll(cps[1..]);
      assert before + LongAll(cps) == before + e + rest;
      DecodeLongStep(before, cps[0], rest);
      DecodeLong(before + e, cps[1..]);
    }
  }

  lemma {:induction false} RawReadsLong(cps: seq<int>)
    requires AllLegal(cps)
    ensures ReadsAll(cps, false) == LongAll(cps)
  {
    if cps != [] {
      WrittenIsShortestIff(cps[0]);
      assert Reads(cps[0], false) == Long(cps[0]);
      RawReadsLong(cps[1..]);
    }
  }

  // The string consists of code points in the writer's own form.
  ghost predicate WritersForm(str: seq<Byte>)
  {
    exists cps :: AllLegal(cps) && str == LongAll(cps)
  }

  // Without escapeNonAscii a byte string, well formed or not, comes back if and only if it has this form.
  lemma RawComesBackIff(str: seq<Byte>, after: seq<Byte>)
    ensures var r := Scan(Emitted(str, false) + after, 1);
            r.Ok? && (r.value.scalar == str <==> WritersForm(str))
  {
    hide Emitted, Scan, Decode, Reads, Long;
    EmittedScans(str, false, after);
    RawReadsLong(Decode(str, 0));
    if WritersForm(str) {
      var cps :| AllLegal(cps) && str == LongAll(cps);
      DecodeLong([], cps);
      assert [] + LongAll(cps) == str;
    }
  }

  // An overlong U+007F does come back.
  lemma OverlongDeleteComesBack(after: seq<Byte>)
    ensures var str := [0xC1, 0xBF];
            Scan(Emitted(str, false) + after, 1).Ok? && Scan(Emitted(str, false) + after, 1).value.scalar == str
  {
    assert AllLegal([0x7F]) && LongAll([0x7F]) == Long(0x7F) + LongAll([]) == [0xC1, 0xBF];
    RawComesBackIff([0xC1, 0xBF], after);
  }
}
