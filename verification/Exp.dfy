// The reader of escape sequences, over a stream of bytes.
module Exp {
  import opened Common
  import opened Utf8

  const LF: Byte := 10
  const CR: Byte := 13
  const TAB: Byte := 9
  const SPACE: Byte := 32
  const QUOTE: Byte := 34
  const SINGLE_QUOTE: Byte := 39
  const BACKSLASH: Byte := 92
  const EOF: Byte := 4 // what the stream shows past its end

  datatype Failure = InvalidHex | InvalidUnicode | InvalidEscape | DocInScalar | EofInScalar
  datatype Outcome<T> = Ok(value: T) | Failed(failure: Failure)

  class Stream {
    const text: seq<Byte>
    var pos: nat
    var column: nat

    ghost predicate Valid()
      reads this
    {
      pos <= |text|
    }

    constructor (text: seq<Byte>)
      ensures Valid() && this.text == text && pos == 0 && column == 0
    {
      this.text := text;
      pos, column := 0, 0;
    }

    predicate More()
      reads this
    {
      pos < |text|
    }

    function Peek(): Byte
      reads this
    {
      At(text, pos)
    }

    // Past the end it reads the end mark again and again.
    method Get() returns (ch: Byte)
      requires Valid()
      modifies this
      ensures Valid() && ch == old(Peek())
      ensures pos == if old(pos) < |text| then old(pos) + 1 else old(pos)
      ensures column == if ch == LF then 0 else old(column) + 1
    {
      ch := Peek();
      if More() {
        pos := pos + 1;
      }
      column := column + 1;
      if ch == LF {
        column := 0;
      }
    }

    method Eat(n: nat)
      requires Valid() && pos + n <= |text|
      modifies this
      ensures Valid() && pos == old(pos) + n
      ensures n > 0 ==> (column == 0 <==> text[pos - 1] == LF)
      ensures n == 0 ==> column == old(column)
    {
      var i := 0;
      while i < n
        invariant i <= n && pos == old(pos) + i
        invariant if i > 0 then column == 0 <==> text[pos - 1] == LF else column == old(column)
      {
        var ch := Get();
        i := i + 1;
      }
    }
  }

  function At(text: seq<Byte>, p: nat): (b: Byte)
    ensures p >= |text| ==> b == 4
  {
    if p < |text| then text[p] else EOF
  }

  function HexDigitValue(ch: Byte): int
  {
    if 97 <= ch <= 102 then ch - 97 + 10
    else if 65 <= ch <= 70 then ch - 65 + 10
    else if 48 <= ch <= 57 then ch - 48
    else -1
  }

  // The number that a hexadecimal string stands for.
  function HexValue(str: seq<Byte>): Outcome<int>
  {
    if str == [] then Ok(0)
    else
      var v := HexValue(str[..|str| - 1]);
      if v.Failed? || HexDigitValue(str[|str| - 1]) < 0 then Failed(InvalidHex)
      else Ok(v.value * 16 + HexDigitValue(str[|str| - 1]))
  }

  function Pow16(n: nat): nat
  {
    if n == 0 then 1 else 16 * Pow16(n - 1)
  }

  lemma {:induction false} HexValueBound(str: seq<Byte>)
    ensures HexValue(str).Ok? ==> 0 <= HexValue(str).value < Pow16(|str|)
  {
    if str != [] {
      HexValueBound(str[..|str| - 1]);
    }
  }

  lemma {:induction false} HexValuePrefix(str: seq<Byte>, n: nat)
    requires n <= |str|
    ensures HexValue(str).Ok? ==> HexValue(str[..n]).Ok?
  {
    if n < |str| {
      HexValuePrefix(str[..|str| - 1], n);
      assert str[..|str| - 1][..n] == str[..n];
    } else {
      assert str[..n] == str;
    }
  }

  // The accumulator has 32 bits; eight digits always fit.
  method ParseHex(str: seq<Byte>) returns (r: Outcome<int>)
    requires |str| <= 8
    ensures r == HexValue(str)
  {
    var value := 0;
    var i := 0;
    while i < |str|
      invariant i <= |str| && HexValue(str[..i]) == Ok(value) && 0 <= value < 0x1_0000_0000
    {
      var digit := HexDigitValue(str[i]);
      assert str[..i + 1][..i] == str[..i];
      if digit < 0 {
        HexValuePrefix(str, i + 1);
        HexNone(str);
        return Failed(InvalidHex);
      }
      HexValueBound(str[..i + 1]);
      Pow16Bound(i + 1);
      value := (value * 16 + digit) % 0x1_0000_0000;
      i := i + 1;
    }
    assert str[..i] == str;
    r := Ok(value);
  }

  lemma HexNone(str: seq<Byte>)
    ensures HexValue(str).Failed? ==> HexValue(str) == Failed(InvalidHex)
  {
  }

  lemma Pow16Bound(n: nat)
    requires n <= 8
    ensures Pow16(n) <= 0x1_0000_0000
  {
    assert Pow16(1) == 0x10;
    assert Pow16(2) == 0x100;
    assert Pow16(3) == 0x1000;
    assert Pow16(4) == 0x10000;
    assert Pow16(5) == 0x10_0000;
    assert Pow16(6) == 0x100_0000;
    assert Pow16(7) == 0x1000_0000;
  }

  // The UTF-8 of the value of hexadecimal digits, which may be none.
  function Unicode(digits: seq<Byte>): (r: Outcome<seq<Byte>>)
  {
    HexValueBound(digits);
    match HexValue(digits)
    case Failed(f) => Failed(f)
    case Ok(value) =>
      if 0xD800 <= value <= 0xDFFF || value > 0x10FFFF then Failed(InvalidUnicode) else Ok(Encode(value))
  }

  // Refused are exactly surrogates and what is beyond Unicode, and what are no digits.
  lemma UnicodeIff(digits: seq<Byte>)
    ensures Unicode(digits).Ok? <==>
              HexValue(digits).Ok? && var v := HexValue(digits).value; 0 <= v <= 0xD7FF || 0xE000 <= v <= 0x10FFFF
    ensures Unicode(digits).Ok? ==> Unicode(digits).value == Encode(HexValue(digits).value)
  {
    HexValueBound(digits);
  }

  // The next n bytes, with end marks past the end.
  function Take(text: seq<Byte>, p: nat, n: nat): (s: seq<Byte>)
    ensures |s| == n
  {
    if n == 0 then [] else Take(text, p, n - 1) + [At(text, p + n - 1)]
  }

  method EscapeHex(INPUT: Stream, codeLength: nat) returns (r: Outcome<seq<Byte>>)
    requires INPUT.Valid() && codeLength <= 8
    modifies INPUT
    ensures INPUT.Valid() && r == Unicode(Take(INPUT.text, old(INPUT.pos), codeLength))
    ensures r.Ok? ==> INPUT.pos == old(INPUT.pos) + codeLength && (codeLength > 0 ==> INPUT.column > 0)
  {
    var str: seq<Byte> := [];
    var i := 0;
    while i < codeLength
      invariant i <= codeLength && INPUT.Valid() && str == Take(INPUT.text, old(INPUT.pos), i)
      invariant INPUT.pos == old(INPUT.pos) + i || (INPUT.pos == |INPUT.text| < old(INPUT.pos) + i && EOF in str)
      invariant INPUT.pos == old(INPUT.pos) + i > old(INPUT.pos) ==> (INPUT.column == 0 <==> str[i - 1] == LF)
    {
      var ch := INPUT.Get();
      str := str + [ch];
      i := i + 1;
    }
    hide Encode, HexValue;
    HexDigitsOnly(str);
    var parsed := ParseHex(str);
    if parsed.Failed? {
      return Failed(parsed.failure);
    }
    HexValueBound(str);
    r := BreakUp(parsed.value);
  }

  // Only surrogates and values beyond Unicode are refused.
  method BreakUp(value: int) returns (r: Outcome<seq<Byte>>)
    requires value >= 0
    ensures r == if 0xD800 <= value <= 0xDFFF || value > 0x10FFFF then Failed(InvalidUnicode) else Ok(Encode(value))
  {
    if 0xD800 <= value <= 0xDFFF || value > 0x10FFFF {
      return Failed(InvalidUnicode);
    }
    if value <= 0x7F {
      r := Ok([value]);
    } else if value <= 0x7FF {
      r := Ok([0xC0 + value / 0x40, 0x80 + value % 0x40]);
    } else if value <= 0xFFFF {
      r := Ok([0xE0 + value / 0x1000, 0x80 + value / 0x40 % 0x40, 0x80 + value % 0x40]);
    } else {
      r := Ok([0xF0 + value / 0x40000, 0x80 + value / 0x1000 % 0x40, 0x80 + value / 0x40 % 0x40, 0x80 + value % 0x40]);
    }
  }

  lemma {:induction false} HexDigitsOnly(str: seq<Byte>)
    ensures HexValue(str).Ok? ==> forall ch :: ch in str ==> HexDigitValue(ch) >= 0
  {
    if str != [] {
      HexDigitsOnly(str[..|str| - 1]);
      assert str == str[..|str| - 1] + [str[|str| - 1]];
    }
  }

  datatype Escaped = Escaped(bytes: seq<Byte>, next: nat)

  // The characters of one-character escapes.
  function Simple(ch: Byte): Outcome<seq<Byte>>
  {
    if ch == 48 then Ok([0]) // 0
    else if ch == 97 then Ok([7]) // a
    else if ch == 98 then Ok([8]) // b
    else if ch == 116 || ch == TAB then Ok([9]) // t
    else if ch == 110 then Ok([10]) // n
    else if ch == 118 then Ok([11]) // v
    else if ch == 102 then Ok([12]) // f
    else if ch == 114 then Ok([13]) // r
    else if ch == 101 then Ok([27]) // e
    else if ch == SPACE then Ok([32])
    else if ch == QUOTE then Ok([34])
    else if ch == SINGLE_QUOTE then Ok([39])
    else if ch == BACKSLASH then Ok([92])
    else if ch == 47 then Ok([47]) // slash
    else if ch == 78 then Ok([0x85]) // N
    else if ch == 95 then Ok([0xA0]) // _
    else if ch == 76 then Ok([0xE2, 0x80, 0xA8]) // L
    else if ch == 80 then Ok([0xE2, 0x80, 0xA9]) // P
    else Failed(InvalidEscape)
  }

  function CodeLength(ch: Byte): nat
  {
    if ch == 120 then 2 else if ch == 117 then 4 else if ch == 85 then 8 else 0 // x, u, U
  }

  lemma {:induction false} TakeAt(text: seq<Byte>, p: nat, n: nat, i: nat)
    requires i < n
    ensures Take(text, p, n)[i] == At(text, p + i)
  {
    if i < n - 1 {
      TakeAt(text, p, n - 1, i);
    }
  }

  // Digits are not found past the end.
  lemma DigitsWithin(text: seq<Byte>, p: nat, n: nat)
    ensures HexValue(Take(text, p, n)).Ok? && n > 0 ==>
              p + n <= |text| && forall i :: p <= i < p + n ==> text[i] != LF
  {
    var digits := Take(text, p, n);
    if HexValue(digits).Ok? {
      HexDigitsOnly(digits);
      forall i | p <= i < p + n ensures HexDigitValue(At(text, i)) >= 0 {
        TakeAt(text, p, n, i - p);
        assert digits[i - p] in digits;
      }
      if n > 0 {
        assert HexDigitValue(At(text, p + n - 1)) >= 0;
        assert forall i :: p <= i < p + n ==> At(text, i) == text[i];
      }
    }
  }

  // The escape sequence whose first character, a slash or a single quote, is at p.
  function EscapeAt(text: seq<Byte>, p: nat): (r: Outcome<Escaped>)
    ensures r.Ok? ==> p + 2 <= r.value.next <= |text| && forall i :: p < i < r.value.next ==> text[i] != LF
  {
    var ch := At(text, p + 1);
    DigitsWithin(text, p + 2, CodeLength(ch));
    var n := CodeLength(ch);
    var bytes := if n > 0 then Unicode(Take(text, p + 2, n)) else Simple(ch);
    if bytes.Failed? then Failed(bytes.failure) else Ok(Escaped(bytes.value, p + 2 + n))
  }

  method Escape(INPUT: Stream) returns (r: Outcome<seq<Byte>>)
    requires INPUT.Valid()
    modifies INPUT
    ensures INPUT.Valid() && var e := EscapeAt(INPUT.text, old(INPUT.pos));
            if e.Ok? then r == Ok(e.value.bytes) && INPUT.pos == e.value.next && INPUT.column > 0
            else r == Failed(e.failure)
  {
    var escape := INPUT.Get();
    var ch := INPUT.Get();
    if escape == SINGLE_QUOTE && ch == SINGLE_QUOTE {
      r := Ok([SINGLE_QUOTE]);
    } else if ch == 120 {
      r := EscapeHex(INPUT, 2);
    } else if ch == 117 {
      r := EscapeHex(INPUT, 4);
    } else if ch == 85 {
      r := EscapeHex(INPUT, 8);
    } else {
      r := Simple(ch);
    }
  }

  // What is read for an escape is the UTF-8 of one code point, except that \N and \_ give the lone
  // bytes 85 and A0.
  lemma EscapeYieldsUtf8Iff(text: seq<Byte>, p: nat)
    requires EscapeAt(text, p).Ok?
    ensures (exists cp :: 0 <= cp <= 0x10FFFF && !(0xD800 <= cp <= 0xDFFF)
                          && EscapeAt(text, p).value.bytes == Encode(cp))
        <==> At(text, p + 1) != 78 && At(text, p + 1) != 95
  {
    var ch := At(text, p + 1);
    var bytes := EscapeAt(text, p).value.bytes;
    if CodeLength(ch) > 0 {
      var digits := Take(text, p + 2, CodeLength(ch));
      HexValueBound(digits);
      assert bytes == Encode(HexValue(digits).value);
    } else if ch == 76 {
      assert bytes == Encode(0x2028);
    } else if ch == 80 {
      assert bytes == Encode(0x2029);
    } else if ch != 78 && ch != 95 {
      assert bytes == Encode(bytes[0]);
    }
  }

  // The two escapes that fall out, and what a reader gets for them.
  lemma LoneBytes()
    ensures EscapeAt([92, 78], 0) == Ok(Escaped([0x85], 2)) && EscapeAt([92, 95], 0) == Ok(Escaped([0xA0], 2))
    ensures forall cp :: 0 <= cp <= 0x10FFFF ==> Encode(cp) != [0x85] && Encode(cp) != [0xA0]
  {
    hide Encode, EscapeAt;
    LoneEscapes();
    forall cp | 0 <= cp <= 0x10FFFF ensures Encode(cp) != [0x85] && Encode(cp) != [0xA0] {
      NotLone(cp);
    }
  }

  lemma LoneEscapes()
    ensures EscapeAt([92, 78], 0) == Ok(Escaped([0x85], 2)) && EscapeAt([92, 95], 0) == Ok(Escaped([0xA0], 2))
  {
    hide Encode, Unicode, Take, HexValue;
    LoneSimple();
  }

  lemma LoneSimple()
    ensures CodeLength(78) == CodeLength(95) == 0 && Simple(78) == Ok([0x85]) && Simple(95) == Ok([0xA0])
  {
  }

  lemma NotLone(cp: int)
    requires 0 <= cp <= 0x10FFFF
    ensures |Encode(cp)| == 1 ==> Encode(cp)[0] < 0x80
  {
  }

  // ---------- the characters themselves ----------

  const HEX_LOWER: string := "0123456789abcdef"
  const HEX_UPPER: string := "0123456789ABCDEF"

  // Both cases of the sixteen digits, and nothing else.
  lemma HexDigitIff(ch: Byte, v: nat)
    requires v < 16
    ensures HexDigitValue(ch) == v <==> ch == HEX_LOWER[v] as int || ch == HEX_UPPER[v] as int
    ensures -1 <= HexDigitValue(ch) < 16
  {
  }

  predicate SameDigit(a: Byte, b: Byte)
  {
    a == b || (97 <= a <= 102 && b == a - 32) || (97 <= b <= 102 && a == b - 32)
  }

  // The case of a digit does not matter.
  lemma {:induction false} HexValueAnyCase(s: seq<Byte>, t: seq<Byte>)
    requires |s| == |t| && forall i :: 0 <= i < |s| ==> SameDigit(s[i], t[i])
    ensures HexValue(s) == HexValue(t)
  {
    if s != [] {
      HexValueAnyCase(s[..|s| - 1], t[..|t| - 1]);
    }
  }

  // The escapes of section 5.7 of YAML 1.2, and the single quote.
  const ESCAPES: string := "0abt\tnvfre \"/\\N_LP'"
  const MEANINGS: seq<int> :=
    [0, 7, 8, 9, 9, 10, 11, 12, 13, 27, 0x20, 0x22, 0x2F, 0x5C, 0x85, 0xA0, 0x2028, 0x2029, 0x27]

  // Each stands for its code point, but two give a lone byte.
  lemma SimpleIs(i: nat)
    requires i < |ESCAPES|
    ensures |MEANINGS| == |ESCAPES| && ESCAPES[i] < 128 as char
    ensures Simple(ESCAPES[i] as int)
         == Ok(if MEANINGS[i] == 0x85 || MEANINGS[i] == 0xA0 then [MEANINGS[i]] else Encode(MEANINGS[i]))
  {
  }

  // There are no others.
  lemma SimpleOnly(ch: Byte)
    ensures Simple(ch).Ok? <==> exists i :: 0 <= i < |ESCAPES| && ESCAPES[i] as int == ch
  {
    if Simple(ch).Ok? {
      var c := ch as char;
      assert c in ESCAPES;
    } else if i: nat :| i < |ESCAPES| && ESCAPES[i] as int == ch {
      SimpleIs(i);
    }
  }

  lemma CodeLengthIs(ch: Byte)
    ensures CodeLength(ch) == if ch == 'x' as int then 2 else if ch == 'u' as int then 4 else if ch == 'U' as int then 8
                              else 0
  {
  }
}
