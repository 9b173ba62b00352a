// Base 64 (section 4 of RFC 4648), written through a moving pointer into a buffer of fixed size.
module Base64 {
  import opened Common

  const PAD: Byte := 61

  type Sextet = v: int | 0 <= v < 64

  function Encoding(v: Sextet): Byte
  {
    if v < 26 then 65 + v
    else if v < 52 then 97 + v - 26
    else if v < 62 then 48 + v - 52
    else if v == 62 then 43
    else 47
  }

  // 255 for a character that does not belong to the alphabet; the padding stands for 0.
  function Decoding(c: Byte): Byte
  {
    if c == 43 then 62
    else if c == 47 then 63
    else if 48 <= c <= 57 then c - 48 + 52
    else if c == PAD then 0
    else if 65 <= c <= 90 then c - 65
    else if 97 <= c <= 122 then c - 97 + 26
    else 255
  }

  // The 24 bits of three bytes as four characters.
  function Chunk(a: Byte, b: Byte, c: Byte): seq<Byte>
  {
    [Encoding(a / 4), Encoding(a % 4 * 16 + b / 16), Encoding(b % 16 * 4 + c / 64), Encoding(c % 64)]
  }

  function Encoded(data: seq<Byte>): seq<Byte>
  {
    if data == [] then []
    else if |data| == 1 then Chunk(data[0], 0, 0)[..2] + [PAD, PAD]
    else if |data| == 2 then Chunk(data[0], data[1], 0)[..3] + [PAD]
    else Chunk(data[0], data[1], data[2]) + Encoded(data[3..])
  }

  // The bytes of four characters; a padding character takes one away.
  function Quad(s: seq<Byte>): (r: seq<Byte>)
    requires |s| == 4
    ensures |r| <= 3
  {
    var v := Bits(s);
    [v / 0x10000 % 256] + (if s[2] != PAD then [v / 0x100 % 256] else []) + (if s[3] != PAD then [v % 256] else [])
  }

  // The number that up to four characters stand for.
  function Bits(s: seq<Byte>): (v: nat)
    requires |s| <= 4
  {
    if s == [] then 0 else Bits(s[..|s| - 1]) * 64 + Decoding(s[|s| - 1])
  }

  // An incomplete quadruple at the end counts for nothing.
  function Quads(s: seq<Byte>): seq<Byte>
  {
    if |s| < 4 then [] else Quad(s[..4]) + Quads(s[4..])
  }

  predicate InAlphabet(s: seq<Byte>)
  {
    forall i :: 0 <= i < |s| ==> Decoding(s[i]) != 255
  }

  function Decoded(input: seq<Byte>): seq<Byte>
  {
    if InAlphabet(input) then Quads(input) else []
  }

  lemma {:induction false} EncodedLength(data: seq<Byte>)
    ensures |Encoded(data)| == (|data| + 2) / 3 * 4 <= 4 * |data| / 3 + 3
  {
    if |data| > 2 {
      EncodedLength(data[3..]);
      assert (|data| + 2) / 3 == (|data[3..]| + 2) / 3 + 1;
    }
  }

  method EncodeBase64(data: seq<Byte>) returns (ret: seq<Byte>)
    ensures ret == Encoded(data)
  {
    hide *;
    var size := |data|;
    var buffer := new Byte[4 * size / 3 + 3];
    var out: nat, p: nat, i: nat := 0, 0, 0;
    var chunks := size / 3;
    while i < chunks
      invariant i <= chunks && p == 3 * i && out == 4 * i
      invariant buffer[..out] + Encoded(data[p..]) == Encoded(data)
    {
      EncodedNext(data, p);
      PutChunk(buffer, out, data[p], data[p + 1], data[p + 2]);
      out, p, i := out + 4, p + 3, i + 1;
    }
    out := PutRest(buffer, out, data[p..]);
    ret := buffer[..out];
  }

  lemma EncodedNext(data: seq<Byte>, p: nat)
    requires p + 3 <= |data|
    ensures Encoded(data[p..]) == Chunk(data[p], data[p + 1], data[p + 2]) + Encoded(data[p + 3..])
  {
    assert data[p..][3..] == data[p + 3..];
  }

  method PutChunk(buffer: array<Byte>, out: nat, a: Byte, b: Byte, c: Byte)
    requires out + 4 <= buffer.Length
    modifies buffer
    ensures buffer[..out + 4] == old(buffer[..out]) + Chunk(a, b, c)
  {
    buffer[out] := Encoding(a / 4);
    buffer[out + 1] := Encoding(a % 4 * 16 + b / 16);
    buffer[out + 2] := Encoding(b % 16 * 4 + c / 64);
    buffer[out + 3] := Encoding(c % 64);
  }

  // The last one or two bytes.
  method PutRest(buffer: array<Byte>, out: nat, rest: seq<Byte>) returns (end: nat)
    requires |rest| <= 2 && out + (if rest == [] then 0 else 4) <= buffer.Length
    modifies buffer
    ensures end <= buffer.Length && buffer[..end] == old(buffer[..out]) + Encoded(rest)
  {
    end := out;
    if |rest| == 1 {
      buffer[out] := Encoding(rest[0] / 4);
      buffer[out + 1] := Encoding(rest[0] % 4 * 16);
      buffer[out + 2], buffer[out + 3] := PAD, PAD;
      end := out + 4;
    } else if |rest| == 2 {
      buffer[out] := Encoding(rest[0] / 4);
      buffer[out + 1] := Encoding(rest[0] % 4 * 16 + rest[1] / 16);
      buffer[out + 2] := Encoding(rest[1] % 16 * 4);
      buffer[out + 3] := PAD;
      end := out + 4;
    }
  }

  // 64^n
  function Weight(n: nat): (w: int)
    requires n <= 4
    ensures w >= 1
  {
    if n == 0 then 1 else if n == 1 then 0x40 else if n == 2 then 0x1000 else if n == 3 then 0x40000 else 0x100_0000
  }

  // The accumulator has 32 bits and is never cleared; only its lowest 24 bits matter.
  lemma Accumulate(value: int, d: int, n: nat)
    requires 0 <= value < 0x1_0000_0000 && 0 <= d < 64 && n < 4
    ensures (value * 64 + d) % 0x1_0000_0000 % Weight(n + 1) == value % Weight(n) * 64 + d
  {
    if n == 0 {
      Accumulate0(value, d);
    } else if n == 1 {
      Accumulate1(value, d);
    } else if n == 2 {
      Accumulate2(value, d);
    } else {
      Accumulate3(value, d);
    }
  }

  lemma Remainder(x: int, m: int, q: int, r: int)
    requires 0 <= r < m && x == m * q + r
    ensures x % m == r && x / m == q
  {
    var a, b := x / m, x % m;
    assert m * (a - q) == r - b by {
      assert m * (a - q) == m * a - m * q;
    }
    Multiple(m, a - q);
  }

  // The only multiple of m strictly between -m and m is 0.
  lemma Multiple(m: int, k: int)
    requires m > 0
    ensures k >= 1 ==> m * k >= m
    ensures k <= -1 ==> m * k <= -m
  {
  }

  lemma Accumulate0(value: int, d: int)
    requires 0 <= value < 0x1_0000_0000 && 0 <= d < 64
    ensures (value * 64 + d) % 0x1_0000_0000 % 0x40 == d
  {
    var x, h, low := value * 64 + d, value / 0x1, value % 0x1;
    var q := x / 0x1_0000_0000;
    Remainder(x % 0x1_0000_0000, 0x40, h - 0x4000000 * q, low * 64 + d);
  }

  lemma Accumulate1(value: int, d: int)
    requires 0 <= value < 0x1_0000_0000 && 0 <= d < 64
    ensures (value * 64 + d) % 0x1_0000_0000 % 0x1000 == value % 0x40 * 64 + d
  {
    var x, h, low := value * 64 + d, value / 0x40, value % 0x40;
    var q := x / 0x1_0000_0000;
    Remainder(x % 0x1_0000_0000, 0x1000, h - 0x100000 * q, low * 64 + d);
  }

  lemma Accumulate2(value: int, d: int)
    requires 0 <= value < 0x1_0000_0000 && 0 <= d < 64
    ensures (value * 64 + d) % 0x1_0000_0000 % 0x40000 == value % 0x1000 * 64 + d
  {
    var x, h, low := value * 64 + d, value / 0x1000, value % 0x1000;
    var q := x / 0x1_0000_0000;
    Remainder(x % 0x1_0000_0000, 0x40000, h - 0x4000 * q, low * 64 + d);
  }

  lemma Accumulate3(value: int, d: int)
    requires 0 <= value < 0x1_0000_0000 && 0 <= d < 64
    ensures (value * 64 + d) % 0x1_0000_0000 % 0x1000000 == value % 0x40000 * 64 + d
  {
    var x, h, low := value * 64 + d, value / 0x40000, value % 0x40000;
    var q := x / 0x1_0000_0000;
    Remainder(x % 0x1_0000_0000, 0x1000000, h - 0x100 * q, low * 64 + d);
  }

  // Characters are below 128: a plain char indexes the table.
  method DecodeBase64(input: seq<Byte>) returns (ret: seq<Byte>)
    requires forall i :: 0 <= i < |input| ==> input[i] < 128
    ensures ret == Decoded(input)
  {
    hide *;
    BitsNone();
    if input == [] {
      QuadsNone(input, 0);
      return [];
    }
    var buffer := new Byte[3 * |input| / 4 + 1];
    assert 4 * buffer.Length > 3 * |input|;
    var out: nat, value: int, i: nat := 0, 0, 0;
    ghost var base, quads := 0, 0; // where the present quadruple starts, and how many came before it
    BitsReset(input, base, value);
    assert input[..0] == [] && input[0..] == input;
    while i < |input|
      invariant base <= i <= |input| && base == 4 * quads && i < base + 4 && 4 * out <= 3 * base
      invariant 0 <= value < 0x1_0000_0000 && value % Weight(i - base) == Bits(input[base..i])
      invariant InAlphabet(input[..i])
      invariant buffer[..out] + Quads(input[base..]) == Quads(input)
    {
      var d := Decoding(input[i]);
      if d == 255 {
        NotDecoded(input, i);
        return [];
      }
      AlphabetNext(input, i);
      BitsNext(input, base, i);
      Accumulate(value, d, i - base);
      Remainder(i, 4, quads, i - base);
      value := (value * 64 + d) % 0x1_0000_0000;
      if i % 4 == 3 {
        out := PutQuad(buffer, out, value, input, i);
        base, quads := i + 1, quads + 1;
        BitsReset(input, base, value);
      }
      i := i + 1;
    }
    assert input[..i] == input;
    QuadsNone(input, base);
    ret := buffer[..out];
  }

  lemma QuadsNone(input: seq<Byte>, base: nat)
    requires base <= |input| < base + 4
    ensures Quads(input[base..]) == [] && (InAlphabet(input) ==> Decoded(input) == Quads(input))
    ensures input == [] ==> Decoded(input) == []
  {
  }

  lemma QuadsNext(input: seq<Byte>, base: nat)
    requires base + 4 <= |input|
    ensures Quads(input[base..]) == Quad(input[base..base + 4]) + Quads(input[base + 4..])
  {
    assert input[base..][..4] == input[base..base + 4] && input[base..][4..] == input[base + 4..];
  }

  lemma NotDecoded(input: seq<Byte>, i: nat)
    requires i < |input| && Decoding(input[i]) == 255
    ensures Decoded(input) == []
  {
  }

  lemma AlphabetNext(input: seq<Byte>, i: nat)
    requires i < |input| && InAlphabet(input[..i]) && Decoding(input[i]) != 255
    ensures InAlphabet(input[..i + 1]) && Decoding(input[i]) < 64
  {
  }

  lemma BitsNone()
    ensures Bits([]) == 0 && InAlphabet([])
  {
  }

  lemma BitsReset(s: seq<Byte>, base: nat, value: int)
    requires base <= |s|
    ensures value % Weight(0) == Bits(s[base..base])
  {
  }

  lemma BitsNext(s: seq<Byte>, base: nat, i: nat)
    requires base <= i < |s| && i < base + 4
    ensures Bits(s[base..i + 1]) == Bits(s[base..i]) * 64 + Decoding(s[i])
  {
    BitsAppend(s[base..i], s[i]);
    assert s[base..i] + [s[i]] == s[base..i + 1];
  }

  lemma BitsAppend(s: seq<Byte>, c: Byte)
    requires |s| < 4
    ensures Bits(s + [c]) == Bits(s) * 64 + Decoding(c)
  {
    assert (s + [c])[..|s|] == s;
  }

  lemma LowBytes(value: int)
    requires value >= 0
    ensures var v := value % 0x100_0000;
            v / 0x10000 % 256 == value / 0x10000 % 256 && v / 0x100 % 256 == value / 0x100 % 256
            && v % 256 == value % 256
  {
    var h, v := value / 0x100_0000, value % 0x100_0000;
    Remainder(value, 0x10000, 0x100 * h + v / 0x10000, v % 0x10000);
    Remainder(value, 0x100, 0x10000 * h + v / 0x100, v % 0x100);
    HighGone(h, v / 0x10000, 1);
    HighGone(h, v / 0x100, 0x100);
    HighGone(h, v, 0x10000);
  }

  lemma HighGone(h: int, low: int, k: int)
    requires h >= 0 && low >= 0 && (k == 1 || k == 0x100 || k == 0x10000)
    ensures (0x100 * k * h + low) % 256 == low % 256
  {
    if k == 1 {
      Remainder(0x100 * h + low, 256, h + low / 256, low % 256);
    } else if k == 0x100 {
      Remainder(0x10000 * h + low, 256, 0x100 * h + low / 256, low % 256);
    } else {
      Remainder(0x100_0000 * h + low, 256, 0x10000 * h + low / 256, low % 256);
    }
  }

  // The bytes of the quadruple that is complete at i, from the accumulator.
  method PutQuad(buffer: array<Byte>, out: nat, value: int, input: seq<Byte>, i: nat) returns (end: nat)
    requires out + 3 <= buffer.Length && 3 <= i < |input|
    requires value >= 0 && value % Weight(4) == Bits(input[i - 3..i + 1])
    modifies buffer
    ensures end <= out + 3 && buffer[..end] + Quads(input[i + 1..]) == old(buffer[..out]) + Quads(input[i - 3..])
  {
    hide Quads, Bits, Quad;
    ghost var q := input[i - 3..i + 1];
    LowBytes(value);
    QuadOf(q);
    QuadsNext(input, i - 3);
    buffer[out] := value / 0x10000 % 256;
    end := out + 1;
    if i > 0 && input[i - 1] != PAD {
      buffer[end] := value / 0x100 % 256;
      end := end + 1;
    }
    if input[i] != PAD {
      buffer[end] := value % 256;
      end := end + 1;
    }
    assert buffer[..end] == old(buffer[..out]) + Quad(q);
  }

  lemma QuadOf(q: seq<Byte>)
    requires |q| == 4
    ensures var v := Bits(q);
            var one, two := if q[2] != PAD then [v / 0x100 % 256] else [], if q[3] != PAD then [v % 256] else [];
            Quad(q) == [v / 0x10000 % 256] + one + two
  {
  }

  lemma DecodingEncoding(v: Sextet)
    ensures Decoding(Encoding(v)) == v && Encoding(v) != PAD && Encoding(v) < 128
  {
  }

  lemma BitsOfFour(a: Byte, b: Byte, c: Byte, d: Byte)
    ensures Bits([a, b, c, d]) == ((Decoding(a) * 64 + Decoding(b)) * 64 + Decoding(c)) * 64 + Decoding(d)
  {
    hide Decoding;
    BitsNone();
    BitsAppend([], a);
    BitsAppend([a], b);
    BitsAppend([a, b], c);
    BitsAppend([a, b, c], d);
    assert [] + [a] == [a] && [a] + [b] == [a, b] && [a, b] + [c] == [a, b, c] && [a, b, c] + [d] == [a, b, c, d];
  }

  // Reading back the characters of a chunk, with two, one or no padding characters.
  lemma QuadChunk(a: Byte, b: Byte, c: Byte)
    ensures Quad(Chunk(a, b, c)) == [a, b, c]
    ensures Quad(Chunk(a, b, 0)[..3] + [PAD]) == [a, b]
    ensures Quad(Chunk(a, 0, 0)[..2] + [PAD, PAD]) == [a]
  {
    hide Encoding, Decoding, Bits;
    QuadWhole(a, b, c);
    QuadOnePad(a, b);
    QuadTwoPads(a);
  }

  lemma QuadOnePad(a: Byte, b: Byte)
    ensures Quad(Chunk(a, b, 0)[..3] + [PAD]) == [a, b]
  {
    hide Encoding, Decoding, Bits;
    QuadWhole(a, b, 0);
    Padded(Chunk(a, b, 0), a, b);
    Bytes(a, b, 0);
  }

  lemma QuadTwoPads(a: Byte)
    ensures Quad(Chunk(a, 0, 0)[..2] + [PAD, PAD]) == [a]
  {
    hide Encoding, Decoding, Bits;
    QuadWhole(a, 0, 0);
    Padded(Chunk(a, 0, 0), a, 0);
    Bytes(a, 0, 0);
  }

  // Padding stands for the same bits as the characters it replaces.
  lemma Padded(s: seq<Byte>, a: Byte, b: Byte)
    requires s == Chunk(a, b, 0)
    ensures Bits(s[..3] + [PAD]) == Bits(s) && (b == 0 ==> Bits(s[..2] + [PAD, PAD]) == Bits(s))
  {
    hide Encoding, Decoding, Bits;
    PadIsZero();
    DecodingEncoding(0);
    BitsOfFour(s[0], s[1], s[2], s[3]);
    BitsOfFour(s[0], s[1], s[2], PAD);
    BitsOfFour(s[0], s[1], PAD, PAD);
    assert s == [s[0], s[1], s[2], s[3]];
    assert s[..3] + [PAD] == [s[0], s[1], s[2], PAD] && s[..2] + [PAD, PAD] == [s[0], s[1], PAD, PAD];
  }

  lemma PadIsZero()
    ensures Decoding(PAD) == 0
  {
  }

  // Four sextets hold three bytes.
  lemma Regroup(a: Byte, b: Byte, c: Byte)
    ensures ((a / 4 * 64 + (a % 4 * 16 + b / 16)) * 64 + (b % 16 * 4 + c / 64)) * 64 + c % 64
         == a * 0x10000 + b * 0x100 + c
  {
  }

  lemma Bytes(a: Byte, b: Byte, c: Byte)
    ensures var v := a * 0x10000 + b * 0x100 + c; v / 0x10000 % 256 == a && v / 0x100 % 256 == b && v % 256 == c
  {
    var v := a * 0x10000 + b * 0x100 + c;
    Remainder(v, 0x10000, a, b * 0x100 + c);
    Remainder(v, 0x100, a * 0x100 + b, c);
    Remainder(a * 0x100 + b, 256, a, b);
    Remainder(a, 256, 0, a);
  }

  lemma QuadWhole(a: Byte, b: Byte, c: Byte)
    ensures Bits(Chunk(a, b, c)) == a * 0x10000 + b * 0x100 + c
    ensures Quad(Chunk(a, b, c)) == [a, b, c]
    ensures forall i :: 0 <= i < 4 ==> Chunk(a, b, c)[i] != PAD && Chunk(a, b, c)[i] < 128
    ensures InAlphabet(Chunk(a, b, c))
  {
    hide Encoding, Decoding, Bits;
    Sextets(a, b, c);
    Regroup(a, b, c);
    Bytes(a, b, c);
  }

  lemma Sextets(a: Byte, b: Byte, c: Byte)
    ensures var s := Chunk(a, b, c);
            && Bits(s) == ((a / 4 * 64 + (a % 4 * 16 + b / 16)) * 64 + (b % 16 * 4 + c / 64)) * 64 + c % 64
            && InAlphabet(s) && forall i :: 0 <= i < 4 ==> s[i] != PAD && s[i] < 128
  {
    hide Encoding, Decoding, Bits;
    var w, x, y, z: Sextet := a / 4, a % 4 * 16 + b / 16, b % 16 * 4 + c / 64, c % 64;
    DecodingEncoding(w);
    DecodingEncoding(x);
    DecodingEncoding(y);
    DecodingEncoding(z);
    BitsOfFour(Encoding(w), Encoding(x), Encoding(y), Encoding(z));
  }

  // Every byte sequence comes back, and the decoder may be given what the encoder made.
  lemma {:induction false} RoundTrip(data: seq<Byte>)
    ensures InAlphabet(Encoded(data)) && Decoded(Encoded(data)) == data
    ensures forall i :: 0 <= i < |Encoded(data)| ==> Encoded(data)[i] < 128
  {
    hide Encoding, Quad, Decoding;
    if data != [] {
      PadIsZero();
      var s := Encoded(data);
      if |data| <= 2 {
        var b := if |data| == 2 then data[1] else 0;
        QuadWhole(data[0], b, 0);
        QuadChunk(data[0], b, 0);
        assert s[..4] == s && s[4..] == [] && Quads(s) == Quad(s) + [];
        assert data == if |data| == 1 then [data[0]] else [data[0], b];
      } else {
        QuadWhole(data[0], data[1], data[2]);
        RoundTrip(data[3..]);
        assert s[..4] == Chunk(data[0], data[1], data[2]) && s[4..] == Encoded(data[3..]);
      }
    }
  }

  predicate IsLetter(c: Byte)
  {
    Decoding(c) != 255 && c != PAD
  }

  predicate IsQuad(q: seq<Byte>)
  {
    |q| == 4 && IsLetter(q[0]) && IsLetter(q[1]) && IsLetter(q[2]) && IsLetter(q[3])
  }

  // The last quadruple may end in padding, and then the bits that its letters have too many are 0.
  predicate IsLastQuad(q: seq<Byte>)
    requires |q| == 4
  {
    || IsQuad(q)
    || (IsLetter(q[0]) && IsLetter(q[1]) && IsLetter(q[2]) && q[3] == PAD && Decoding(q[2]) % 4 == 0)
    || (IsLetter(q[0]) && IsLetter(q[1]) && q[2] == PAD && q[3] == PAD && Decoding(q[1]) % 16 == 0)
  }

  // Whole quadruples of letters, with padding at the end only.
  predicate IsCanonical(s: seq<Byte>)
  {
    if |s| < 4 then s == []
    else if |s| == 4 then IsLastQuad(s)
    else IsQuad(s[..4]) && IsCanonical(s[4..])
  }

  // The decoder takes much more than the encoder makes; what comes back is exactly the canonical texts.
  lemma EncodesBackIff(s: seq<Byte>)
    ensures Encoded(Decoded(s)) == s <==> IsCanonical(s)
  {
    hide *;
    if Encoded(Decoded(s)) == s { EncodedCanonical(Decoded(s)); }
    if IsCanonical(s) { CanonicalEncodes(s); }
  }

  lemma {:induction false} EncodedCanonical(data: seq<Byte>)
    ensures IsCanonical(Encoded(data)) && (data != [] ==> |Encoded(data)| >= 4)
  {
    hide Encoding, Decoding;
    if 1 <= |data| <= 2 {
      LastSextets(data[0], if |data| == 2 then data[1] else 0);
    } else if |data| > 2 {
      var q, rest := Chunk(data[0], data[1], data[2]), Encoded(data[3..]);
      ChunkLetters(data[0], data[1], data[2]);
      EncodedCanonical(data[3..]);
      assert (q + rest)[..4] == q && (q + rest)[4..] == rest;
      assert |data| == 3 ==> q + rest == q;
    }
  }

  lemma ChunkLetters(a: Byte, b: Byte, c: Byte)
    ensures IsQuad(Chunk(a, b, c))
  {
    hide Encoding, Decoding;
    var w, x, y, z: Sextet := a / 4, a % 4 * 16 + b / 16, b % 16 * 4 + c / 64, c % 64;
    DecodingEncoding(w);
    DecodingEncoding(x);
    DecodingEncoding(y);
    DecodingEncoding(z);
  }

  lemma LastSextets(a: Byte, b: Byte)
    ensures IsLastQuad(Chunk(a, b, 0)[..3] + [PAD]) && IsLastQuad(Chunk(a, 0, 0)[..2] + [PAD, PAD])
  {
    hide Encoding, Decoding;
    ChunkLetters(a, b, 0);
    ChunkLetters(a, 0, 0);
    DecodingEncoding(b % 16 * 4);
    DecodingEncoding(a % 4 * 16);
  }

  lemma {:induction false} CanonicalEncodes(s: seq<Byte>)
    requires IsCanonical(s)
    ensures InAlphabet(s) && Decoded(s) == Quads(s) && Encoded(Quads(s)) == s && (s != [] ==> Quads(s) != [])
    decreases |s|
  {
    hide Encoding, Decoding, Quad;
    if |s| == 4 {
      assert s[..4] == s && s[4..] == [] && Quads(s) == Quad(s) + [];
      LastQuadEncodes(s);
    } else if |s| > 4 {
      QuadEncodes(s[..4]);
      CanonicalEncodes(s[4..]);
      assert s == s[..4] + s[4..];
      assert Quads(s)[3..] == Quads(s[4..]);
    }
  }

  // The three bytes of a quadruple of letters have that quadruple as their chunk.
  lemma QuadEncodes(q: seq<Byte>)
    requires IsQuad(q)
    ensures InAlphabet(q) && |Quad(q)| == 3 && Chunk(Quad(q)[0], Quad(q)[1], Quad(q)[2]) == q
  {
    hide Encoding, Decoding, Bits;
    LetterSextets(q);
    var w, x, y, z := Decoding(q[0]), Decoding(q[1]), Decoding(q[2]), Decoding(q[3]);
    var a, b, c := w * 4 + x / 16, x % 16 * 16 + y / 4, y % 4 * 64 + z;
    SextetBytes(w, x, y, z);
    BitsOfFour(q[0], q[1], q[2], q[3]);
    assert q == [q[0], q[1], q[2], q[3]];
    Bytes(a, b, c);
  }

  lemma LetterSextets(q: seq<Byte>)
    requires |q| == 4
    ensures forall i :: 0 <= i < 4 && IsLetter(q[i]) ==>
              0 <= Decoding(q[i]) < 64 && Encoding(Decoding(q[i])) == q[i] && q[i] != PAD
    ensures InAlphabet(q) <==> forall i :: 0 <= i < 4 ==> IsLetter(q[i]) || q[i] == PAD
  {
  }

  // Four sextets as three bytes, and back.
  lemma SextetBytes(w: Sextet, x: Sextet, y: Sextet, z: Sextet)
    ensures var a, b, c := w * 4 + x / 16, x % 16 * 16 + y / 4, y % 4 * 64 + z;
            && 0 <= a < 256 && 0 <= b < 256 && 0 <= c < 256
            && a * 0x10000 + b * 0x100 + c == ((w * 64 + x) * 64 + y) * 64 + z
            && a / 4 == w && a % 4 * 16 + b / 16 == x && b % 16 * 4 + c / 64 == y && c % 64 == z
  {
  }

  lemma LastQuadEncodes(q: seq<Byte>)
    requires |q| == 4 && IsLastQuad(q)
    ensures InAlphabet(q) && Quad(q) != [] && Encoded(Quad(q)) == q
  {
    hide Encoding, Decoding, Bits, Chunk;
    LetterSextets(q);
    if IsQuad(q) {
      QuadEncodes(q);
      assert Quad(q)[3..] == [];
    } else {
      PaddedEncodes(q);
    }
  }

  lemma PaddedEncodes(q: seq<Byte>)
    requires |q| == 4 && IsLastQuad(q) && !IsQuad(q)
    ensures Quad(q) != [] && Encoded(Quad(q)) == q
  {
    hide Encoding, Decoding, Bits;
    LetterSextets(q);
    PadIsZero();
    var w, x, y := Decoding(q[0]), Decoding(q[1]), Decoding(q[2]);
    var a, b := w * 4 + x / 16, x % 16 * 16 + y / 4;
    SextetBytes(w, x, y, 0);
    BitsOfFour(q[0], q[1], q[2], q[3]);
    assert q == [q[0], q[1], q[2], q[3]];
    Bytes(a, b, 0);
  }

  // Padding alone decodes to a byte.
  lemma PaddingDecodes()
    ensures Decoded([PAD, PAD, PAD, PAD]) == [0] && Encoded([0]) == [65, 65, PAD, PAD]
  {
    var s := [PAD, PAD, PAD, PAD];
    BitsOfFour(PAD, PAD, PAD, PAD);
    assert s[..4] == s && s[4..] == [] && Quads(s) == Quad(s) + [];
  }

  // ---------- the alphabet ----------

  // Table 1 of RFC 4648.
  const CAPITALS: string := "ABCDEFGHIJKLMNOPQRSTUVWXYZ"
  const SMALL: string := "abcdefghijklmnopqrstuvwxyz"
  const ALPHABET: string := CAPITALS + SMALL + "0123456789+/"

  lemma EncodingIs(v: Sextet)
    ensures |ALPHABET| == 64 && Encoding(v) == ALPHABET[v] as int
  {
    hide CAPITALS, SMALL;
    if v < 26 {
      Capital(v);
    } else if v < 52 {
      Small(v - 26);
    }
    Letters();
    assert v >= 52 ==> ALPHABET[v] == "0123456789+/"[v - 52];
  }

  lemma Letters()
    ensures |CAPITALS| == |SMALL| == 26
  {
  }

  lemma Capital(i: nat)
    requires i < 26
    ensures |CAPITALS| == 26 && CAPITALS[i] as int == 65 + i
  {
  }

  lemma Small(i: nat)
    requires i < 26
    ensures |SMALL| == 26 && SMALL[i] as int == 97 + i
  {
  }

  // Decoded are the characters of the alphabet, to their places in it, and the padding.
  lemma DecodingIs(c: Byte, v: Sextet)
    ensures PAD == '=' as int
    ensures c != PAD ==> (Decoding(c) == v <==> c == ALPHABET[v] as int)
    ensures Decoding(c) == 255 || Decoding(c) < 64
  {
    EncodingIs(v);
  }

  lemma DecodingFails(c: Byte)
    ensures Decoding(c) == 255 <==> c != '=' as int && forall v: Sextet :: ALPHABET[v] as int != c
  {
    if Decoding(c) == 255 {
      forall v: Sextet ensures ALPHABET[v] as int != c {
        DecodingIs(c, v);
      }
    } else if c != PAD {
      DecodingIs(c, Decoding(c));
    }
  }

  // The byte at k, 0 behind the end.
  function ByteAt(data: seq<Byte>, k: nat): Byte
  {
    if k < |data| then data[k] else 0
  }

  // The k-th group of six bits, the highest first: one of the four digits of base 64 of three bytes.
  function SixBits(data: seq<Byte>, k: nat): Sextet
  {
    var i := k / 4 * 3;
    var v := ByteAt(data, i) * 0x10000 + ByteAt(data, i + 1) * 0x100 + ByteAt(data, i + 2);
    if k % 4 == 0 then v / 0x40000 % 64
    else if k % 4 == 1 then v / 0x1000 % 64
    else if k % 4 == 2 then v / 0x40 % 64
    else v % 64
  }

  // Every character is the alphabet's at the six bits of its place; padding stands where no bits are left.
  lemma {:induction false} EncodedAt(data: seq<Byte>, k: nat)
    requires k < |Encoded(data)|
    ensures Encoded(data)[k] == if 6 * k < 8 * |data| then ALPHABET[SixBits(data, k)] as int else '=' as int
    decreases |data|
  {
    hide Encoding, SixBits, ALPHABET;
    Letters64();
    if k < 4 {
      FirstSixBits(data, k);
      EncodingIs(SixBits(data, k));
    } else {
      EncodedAt(data[3..], k - 4);
      Later(data, k);
    }
  }

  lemma Letters64()
    ensures |ALPHABET| == 64
  {
    EncodingIs(0);
  }

  lemma FirstSixBits(data: seq<Byte>, k: nat)
    requires k < 4
    ensures SixBits(data, k) == var a, b, c := ByteAt(data, 0), ByteAt(data, 1), ByteAt(data, 2);
                                if k == 0 then a / 4 else if k == 1 then a % 4 * 16 + b / 16
                                else if k == 2 then b % 16 * 4 + c / 64 else c % 64
  {
    ChunkBits(ByteAt(data, 0), ByteAt(data, 1), ByteAt(data, 2));
  }

  lemma Later(data: seq<Byte>, k: nat)
    requires k >= 4 && |data| >= 3
    ensures SixBits(data, k) == SixBits(data[3..], k - 4)
  {
    var i := k / 4 * 3;
    assert (k - 4) / 4 * 3 == i - 3 && (k - 4) % 4 == k % 4;
    assert ByteAt(data, i) == ByteAt(data[3..], i - 3);
    assert ByteAt(data, i + 1) == ByteAt(data[3..], i - 2);
    assert ByteAt(data, i + 2) == ByteAt(data[3..], i - 1);
  }

  lemma ChunkBits(a: Byte, b: Byte, c: Byte)
    ensures var v := a * 0x10000 + b * 0x100 + c;
            && v / 0x40000 % 64 == a / 4 && v / 0x1000 % 64 == a % 4 * 16 + b / 16
            && v / 0x40 % 64 == b % 16 * 4 + c / 64 && v % 64 == c % 64
  {
    var w, x, y, z: Sextet := a / 4, a % 4 * 16 + b / 16, b % 16 * 4 + c / 64, c % 64;
    Regroup(a, b, c);
    SextetParts(w, x, y, z);
  }

  lemma SextetParts(w: Sextet, x: Sextet, y: Sextet, z: Sextet)
    ensures var v := ((w * 64 + x) * 64 + y) * 64 + z;
            v / 0x40000 % 64 == w && v / 0x1000 % 64 == x && v / 0x40 % 64 == y && v % 64 == z
  {
    var v := ((w * 64 + x) * 64 + y) * 64 + z;
    Remainder(v, 0x40000, w, (x * 64 + y) * 64 + z);
    Remainder(w, 64, 0, w);
    Remainder(v, 0x1000, w * 64 + x, y * 64 + z);
    Remainder(w * 64 + x, 64, w, x);
    Remainder(v, 0x40, (w * 64 + x) * 64 + y, z);
    Remainder((w * 64 + x) * 64 + y, 64, w * 64 + x, y);
  }
}
