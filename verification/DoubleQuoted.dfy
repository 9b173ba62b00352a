// How the emitter writes a double-quoted string.
module DoubleQuoted {
  import opened Common
  import opened Utf8
  import opened Exp

  class OutStream {
    var text: seq<Byte>

    constructor ()
      ensures text == []
    {
      text := [];
    }

    method Put(bytes: seq<Byte>)
      modifies this
      ensures text == old(text) + bytes
    {
      text := text + bytes;
    }
  }

  function HexDigit(d: int): Byte
    requires 0 <= d < 16
  {
    if d < 10 then 48 + d else 87 + d
  }

  // The lowest n hexadecimal digits of x.
  function Digits(x: int, n: nat): (s: seq<Byte>)
    requires x >= 0
    ensures |s| == n
  {
    if n == 0 then [] else Digits(x / 16, n - 1) + [HexDigit(x % 16)]
  }

  // x >> 4 * n
  function Shifted(x: int, n: nat): (y: int)
    requires x >= 0
    ensures y >= 0
  {
    if n == 0 then x else Shifted(x, n - 1) / 16
  }

  // Reading the digits gives the number back if they are enough.
  lemma {:induction false} HexValueDigits(x: int, n: nat)
    requires 0 <= x < Pow16(n)
    ensures HexValue(Digits(x, n)) == Ok(x)
  {
    if n > 0 {
      HexValueDigits(x / 16, n - 1);
      var s := Digits(x, n);
      assert s[..|s| - 1] == Digits(x / 16, n - 1);
    }
  }

  function EscapeSequence(cp: int): seq<Byte>
    requires cp >= 0
  {
    [BACKSLASH] +
    if cp < 0xFF then [120] + Digits(cp, 2)
    else if cp < 0xFFFF then [117] + Digits(cp, 4)
    else [85] + Digits(cp, 8)
  }

  // Reading the escape sequence of a legal code point gives its shortest form.
  lemma EscapeReadsBack(text: seq<Byte>, p: nat, cp: int)
    requires Legal(cp) && p + |EscapeSequence(cp)| <= |text|
    requires text[p..p + |EscapeSequence(cp)|] == EscapeSequence(cp)
    ensures EscapeAt(text, p) == Ok(Escaped(Encode(cp), p + |EscapeSequence(cp)|))
  {
    var e := EscapeSequence(cp);
    var n := |e| - 2;
    SliceAt(text, p, e);
    assert CodeLength(text[p + 1]) == n;
    TakeSlice(text, p + 2, n);
    assert text[p + 2..p + 2 + n] == Digits(cp, n);
    assert Pow16(2) == 0x100 && Pow16(4) == 0x10000;
    assert Pow16(8) == 0x1_0000_0000;
    HexValueDigits(cp, n);
  }

  lemma {:induction false} TakeSlice(text: seq<Byte>, p: nat, n: nat)
    requires p + n <= |text|
    ensures Take(text, p, n) == text[p..p + n]
  {
    if n > 0 {
      TakeSlice(text, p, n - 1);
    }
  }

  // What stands for one code point between the quotes.
  function Token(cp: int, escapeNonAscii: bool): (t: seq<Byte>)
  {
    if cp == QUOTE then [BACKSLASH, QUOTE]
    else if cp == BACKSLASH then [BACKSLASH, BACKSLASH]
    else if cp == LF then [BACKSLASH, 110]
    else if cp == TAB then [BACKSLASH, 116]
    else if cp == CR then [BACKSLASH, 114]
    else if cp == 8 then [BACKSLASH, 98]
    else if 0 <= cp < 0x20 || 0x80 <= cp <= 0xA0 || cp == 0xFEFF || (escapeNonAscii && cp > 0x7E) then
      EscapeSequence(cp)
    else Written(cp)
  }

  function Tokens(cps: seq<int>, escapeNonAscii: bool): seq<Byte>
  {
    if cps == [] then [] else Token(cps[0], escapeNonAscii) + Tokens(cps[1..], escapeNonAscii)
  }

  lemma TokensNone(escapeNonAscii: bool)
    ensures Tokens([], escapeNonAscii) == []
  {
  }

  lemma {:induction false} TokensAppend(cps: seq<int>, cp: int, escapeNonAscii: bool)
    ensures Tokens(cps + [cp], escapeNonAscii) == Tokens(cps, escapeNonAscii) + Token(cp, escapeNonAscii)
  {
    hide Token;
    if cps == [] {
      assert [] + [cp] == [cp];
    } else {
      assert (cps + [cp])[1..] == cps[1..] + [cp];
      TokensAppend(cps[1..], cp, escapeNonAscii);
    }
  }

  method WriteCodePoint(out: OutStream, codePoint: int)
    modifies out
    ensures out.text == old(out.text) + Written(codePoint)
  {
    var c := codePoint;
    if c < 0 || c > 0x10FFFF {
      c := REPLACEMENT_CHARACTER;
    }
    if c < 0x7F {
      out.Put([c]);
    } else if c < 0x7FF {
      out.Put([0xC0 + c / 0x40, 0x80 + c % 0x40]);
    } else if c < 0xFFFF {
      out.Put([0xE0 + c / 0x1000, 0x80 + c / 0x40 % 0x40, 0x80 + c % 0x40]);
    } else {
      out.Put([0xF0 + c / 0x40000, 0x80 + c / 0x1000 % 0x40, 0x80 + c / 0x40 % 0x40, 0x80 + c % 0x40]);
    }
  }

  method WriteDoubleQuoteEscapeSequence(out: OutStream, codePoint: int)
    requires codePoint >= 0
    modifies out
    ensures out.text == old(out.text) + EscapeSequence(codePoint)
  {
    out.Put([BACKSLASH]);
    var digits: nat := 8;
    if codePoint < 0xFF {
      out.Put([120]);
      digits := 2;
    } else if codePoint < 0xFFFF {
      out.Put([117]);
      digits := 4;
    } else {
      out.Put([85]);
      digits := 8;
    }
    ghost var n, start := digits, out.text;
    ShiftedPast(codePoint, n);
    while digits > 0
      invariant digits <= n && out.text == start + Digits(Shifted(codePoint, digits), n - digits)
    {
      out.Put([HexDigit(Shifted(codePoint, digits - 1) % 16)]);
      digits := digits - 1;
    }
  }

  lemma ShiftedPast(x: int, n: nat)
    requires x >= 0
    ensures Digits(Shifted(x, n), 0) == []
  {
  }

  // What is left to write when done has been written and the iterator stands at i.
  ghost predicate Progress(str: seq<Byte>, i: nat, done: seq<int>)
  {
    i <= |str| && Decode(str, 0) == done + Decode(str, i)
  }

  lemma ProgressNext(str: seq<Byte>, i: nat, done: seq<int>)
    requires Progress(str, i, done) && i < |str|
    ensures Next(str, i).codePoint >= 0 && Progress(str, Next(str, i).next, done + [Next(str, i).codePoint])
  {
    hide Next;
    DecodeUnfold(str, i);
  }

  lemma ProgressEnds(str: seq<Byte>, done: seq<int>)
    ensures Progress(str, 0, [])
    ensures Progress(str, |str|, done) ==> done == Decode(str, 0)
  {
  }

  method WriteDoubleQuotedString(out: OutStream, str: seq<Byte>, escapeNonAscii: bool)
    modifies out
    ensures out.text == old(out.text) + [QUOTE] + Tokens(Decode(str, 0), escapeNonAscii) + [QUOTE]
  {
    hide *;
    out.Put([QUOTE]);
    ProgressEnds(str, []);
    TokensNone(escapeNonAscii);
    ghost var start, done: seq<int> := out.text, [];
    var i := 0;
    var more, codePoint, next := GetNextCodePointAndAdvance(str, i);
    while more
      invariant i <= |str| && Progress(str, i, done) && out.text == start + Tokens(done, escapeNonAscii)
      invariant (more <==> i < |str|) && (more ==> Read(codePoint, next) == Next(str, i))
      decreases |str| - i
    {
      ProgressNext(str, i, done);
      WriteOne(out, codePoint, escapeNonAscii);
      TokensAppend(done, codePoint, escapeNonAscii);
      i, done := next, done + [codePoint];
      more, codePoint, next := GetNextCodePointAndAdvance(str, i);
    }
    ProgressEnds(str, done);
    out.Put([QUOTE]);
  }

  lemma DecodeUnfold(s: seq<Byte>, p: nat)
    requires p <= |s|
    ensures Decode(s, p) == if p == |s| then [] else [Next(s, p).codePoint] + Decode(s, Next(s, p).next)
    ensures p < |s| ==> Next(s, p).codePoint >= 0
  {
  }

  method WriteOne(out: OutStream, codePoint: int, escapeNonAscii: bool)
    requires codePoint >= 0
    modifies out
    ensures out.text == old(out.text) + Token(codePoint, escapeNonAscii)
  {
    hide Written, EscapeSequence;
    if codePoint == QUOTE {
      out.Put([BACKSLASH, QUOTE]);
    } else if codePoint == BACKSLASH {
      out.Put([BACKSLASH, BACKSLASH]);
    } else if codePoint == LF {
      out.Put([BACKSLASH, 110]);
    } else if codePoint == TAB {
      out.Put([BACKSLASH, 116]);
    } else if codePoint == CR {
      out.Put([BACKSLASH, 114]);
    } else if codePoint == 8 {
      out.Put([BACKSLASH, 98]);
    } else if codePoint < 0x20 || 0x80 <= codePoint <= 0xA0 {
      WriteDoubleQuoteEscapeSequence(out, codePoint);
    } else if codePoint == 0xFEFF {
      WriteDoubleQuoteEscapeSequence(out, codePoint);
    } else if escapeNonAscii && codePoint > 0x7E {
      WriteDoubleQuoteEscapeSequence(out, codePoint);
    } else {
      WriteCodePoint(out, codePoint);
    }
  }

  // ---------- the characters themselves ----------

  lemma HexDigitIs(d: nat)
    requires d < 16
    ensures HexDigit(d) == HEX_LOWER[d] as int
  {
  }

  // Two, four or eight digits; the bounds are one below what would fit.
  lemma SequenceIs(cp: int)
    requires cp >= 0
    ensures var e := EscapeSequence(cp);
            && |e| == (if cp <= 0xFE then 4 else if cp <= 0xFFFE then 6 else 10) && e[0] == '\\' as int
            && e[1] == (if |e| == 4 then 'x' else if |e| == 6 then 'u' else 'U') as int && e[2..] == Digits(cp, |e| - 2)
  {
  }

  // The six short escapes.
  lemma ShortTokens(escapeNonAscii: bool)
    ensures Token('"' as int, escapeNonAscii) == ['\\' as int, '"' as int]
    ensures Token('\\' as int, escapeNonAscii) == ['\\' as int, '\\' as int]
    ensures Token('\n' as int, escapeNonAscii) == ['\\' as int, 'n' as int]
    ensures Token('\t' as int, escapeNonAscii) == ['\\' as int, 't' as int]
    ensures Token('\r' as int, escapeNonAscii) == ['\\' as int, 'r' as int]
    ensures Token(8, escapeNonAscii) == ['\\' as int, 'b' as int]
  {
  }

  // What YAML 1.2 calls printable (section 5.1).
  predicate CPrintable(cp: int)
  {
    || cp == 0x9 || cp == 0xA || cp == 0xD || 0x20 <= cp <= 0x7E || cp == 0x85 || 0xA0 <= cp <= 0xD7FF
    || 0xE000 <= cp <= 0xFFFD || 0x10000 <= cp <= 0x10FFFF
  }

  // Written as they are: the printable code points but eight, and U+007F, which is not printable.
  lemma WrittenRawIff(cp: int)
    requires Legal(cp)
    ensures Token(cp, false) == Written(cp) <==>
              cp == 0x7F
              || (CPrintable(cp) && cp !in {0x9, 0xA, 0xD, '"' as int, '\\' as int, 0x85, 0xA0, 0xFEFF})
  {
    TokenSlash(cp, false);
  }

  // With escapeNonAscii only printable ASCII is.
  lemma WrittenAsciiIff(cp: int)
    requires Legal(cp)
    ensures Token(cp, true) == Written(cp) <==> 0x20 <= cp <= 0x7E && cp != '"' as int && cp != '\\' as int
  {
    TokenSlash(cp, true);
  }

  lemma TokenSlash(cp: int, escapeNonAscii: bool)
    requires Legal(cp)
    ensures Token(cp, escapeNonAscii) == Written(cp) || (Token(cp, escapeNonAscii)[0] == BACKSLASH != Written(cp)[0])
            || (cp == BACKSLASH && |Token(cp, escapeNonAscii)| == 2 && |Written(cp)| == 1)
  {
  }

  // Then the whole text is printable ASCII, whatever it encodes.
  lemma {:induction false} AsciiOnly(cps: seq<int>)
    requires AllLegal(cps)
    ensures forall i :: 0 <= i < |Tokens(cps, true)| ==> 0x20 <= Tokens(cps, true)[i] <= 0x7E
  {
    hide Token, Legal;
    if cps != [] {
      AsciiToken(cps[0]);
      AsciiOnly(cps[1..]);
    }
  }

  lemma AsciiToken(cp: int)
    requires Legal(cp)
    ensures forall i :: 0 <= i < |Token(cp, true)| ==> 0x20 <= Token(cp, true)[i] <= 0x7E
  {
    hide Digits;
    if cp >= 0 {
      AsciiDigits(cp, 2);
      AsciiDigits(cp, 4);
      AsciiDigits(cp, 8);
    }
  }

  lemma {:induction false} AsciiDigits(x: int, n: nat)
    requires x >= 0
    ensures forall i :: 0 <= i < n ==> '0' as int <= Digits(x, n)[i] <= '9' as int
                                       || 'a' as int <= Digits(x, n)[i] <= 'f' as int
  {
    if n > 0 {
      AsciiDigits(x / 16, n - 1);
    }
  }

  // Digits in the other case are read as well.
  function Upper(b: Byte): Byte
  {
    if 97 <= b <= 122 then b - 32 else b
  }

  lemma HexValueUpper(x: int, n: nat, digits: seq<Byte>)
    requires 0 <= x < Pow16(n) && |digits| == n
    requires forall i :: 0 <= i < n ==> digits[i] == Upper(Digits(x, n)[i])
    ensures HexValue(digits) == Ok(x)
  {
    AsciiDigits(x, n);
    forall i | 0 <= i < n ensures SameDigit(digits[i], Digits(x, n)[i]) {
      assert digits[i] == Upper(Digits(x, n)[i]);
    }
    HexValueAnyCase(digits, Digits(x, n));
    HexValueDigits(x, n);
  }
}
