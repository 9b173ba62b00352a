// UTF-8 as the emitter reads and writes it, against the encoding of RFC 3629, section 3.
module Utf8 {
  import opened Common

  const REPLACEMENT_CHARACTER: int := 0xFFFD

  // Neither a surrogate nor a noncharacter.
  predicate Legal(cp: int)
  {
    0 <= cp <= 0x10FFFF && !(0xD800 <= cp <= 0xDFFF) && cp % 0x10000 < 0xFFFE && !(0xFDD0 <= cp <= 0xFDEF)
  }

  // The shortest form.
  function Encode(cp: int): (e: seq<Byte>)
    requires 0 <= cp <= 0x10FFFF
    ensures 1 <= |e| <= 4
  {
    if cp <= 0x7F then [cp]
    else if cp <= 0x7FF then [0xC0 + cp / 0x40, 0x80 + cp % 0x40]
    else if cp <= 0xFFFF then [0xE0 + cp / 0x1000, 0x80 + cp / 0x40 % 0x40, 0x80 + cp % 0x40]
    else [0xF0 + cp / 0x40000, 0x80 + cp / 0x1000 % 0x40, 0x80 + cp / 0x40 % 0x40, 0x80 + cp % 0x40]
  }

  ghost predicate AllLegal(cps: seq<int>)
  {
    forall i :: 0 <= i < |cps| ==> Legal(cps[i])
  }

  function EncodeAll(cps: seq<int>): seq<Byte>
    requires AllLegal(cps)
  {
    if cps == [] then [] else Encode(cps[0]) + EncodeAll(cps[1..])
  }

  // The number of bytes that a lead byte announces.
  function Utf8BytesIndicated(b: Byte): int
  {
    if b < 0x80 then 1 else if b < 0xC0 then -1 else if b < 0xE0 then 2 else if b < 0xF0 then 3 else 4
  }

  predicate IsTrailingByte(b: Byte)
  {
    0x80 <= b < 0xC0
  }

  function LeadBits(b: Byte, n: int): int
  {
    if n == 2 then b % 0x20 else if n == 3 then b % 0x10 else b % 8
  }

  datatype Read = Read(codePoint: int, next: nat)

  // The bits of n trailing bytes from p on; they end early at the first byte that is none.
  function Gather(s: seq<Byte>, p: nat, n: nat, bits: int): (r: Read)
    requires p <= |s|
    ensures p <= r.next <= |s|
    decreases n
  {
    if n == 0 then Read(bits, p)
    else if p == |s| || !IsTrailingByte(s[p]) then Read(REPLACEMENT_CHARACTER, p)
    else Gather(s, p + 1, n - 1, bits * 0x40 + s[p] % 0x40)
  }

  function Checked(cp: int): int
  {
    if Legal(cp) then cp else REPLACEMENT_CHARACTER
  }

  function Next(s: seq<Byte>, p: nat): (r: Read)
    requires p < |s|
    ensures p < r.next <= |s|
  {
    var n := Utf8BytesIndicated(s[p]);
    if n < 1 then Read(REPLACEMENT_CHARACTER, p + 1)
    else if n == 1 then Read(s[p], p + 1)
    else
      var g := Gather(s, p + 1, n - 1, LeadBits(s[p], n));
      g.(codePoint := Checked(g.codePoint))
  }

  // All code points of the string, with replacement characters for what is not well formed.
  function Decode(s: seq<Byte>, p: nat): (cps: seq<int>)
    requires p <= |s|
    decreases |s| - p
  {
    if p == |s| then [] else var r := Next(s, p); [r.codePoint] + Decode(s, r.next)
  }

  method GetNextCodePointAndAdvance(s: seq<Byte>, first: nat) returns (more: bool, codePoint: int, next: nat)
    requires first <= |s|
    ensures more <==> first < |s|
    ensures more ==> Read(codePoint, next) == Next(s, first)
    ensures !more ==> next == first
  {
    if first == |s| {
      return false, 0, first;
    }
    var nBytes := Utf8BytesIndicated(s[first]);
    if nBytes < 1 {
      return true, REPLACEMENT_CHARACTER, first + 1;
    }
    if nBytes == 1 {
      return true, s[first], first + 1;
    }
    codePoint, next := LeadBits(s[first], nBytes), first + 1;
    nBytes := nBytes - 1;
    while nBytes > 0
      invariant nBytes >= 0 && codePoint >= 0 && first < next <= |s|
      invariant var n := Utf8BytesIndicated(s[first]);
                Gather(s, next, nBytes, codePoint) == Gather(s, first + 1, n - 1, LeadBits(s[first], n))
      decreases nBytes
    {
      if next == |s| || !IsTrailingByte(s[next]) {
        codePoint, nBytes := REPLACEMENT_CHARACTER, 0;
      } else {
        codePoint, next, nBytes := codePoint * 0x40 + s[next] % 0x40, next + 1, nBytes - 1;
      }
    }
    if codePoint > 0x10FFFF {
      codePoint := REPLACEMENT_CHARACTER;
    } else if 0xD800 <= codePoint <= 0xDFFF {
      codePoint := REPLACEMENT_CHARACTER;
    } else if codePoint % 0x10000 >= 0xFFFE {
      codePoint := REPLACEMENT_CHARACTER;
    } else if 0xFDD0 <= codePoint <= 0xFDEF {
      codePoint := REPLACEMENT_CHARACTER;
    }
    more := true;
  }

  // Whatever the bytes, only legal code points come out.
  lemma {:induction false} DecodeLegal(s: seq<Byte>, p: nat)
    requires p <= |s|
    ensures AllLegal(Decode(s, p))
    decreases |s| - p
  {
    if p < |s| {
      DecodeLegal(s, Next(s, p).next);
    }
  }

  // One trailing byte adds its six bits.
  lemma GatherTrailing(s: seq<Byte>, p: nat, n: nat, x: int)
    requires p < |s| && n > 0 && x >= 0 && s[p] == 0x80 + x % 0x40
    ensures Gather(s, p, n, x / 0x40) == Gather(s, p + 1, n - 1, x)
  {
  }

  lemma Shifts(cp: int)
    requires 0 <= cp <= 0x10FFFF
    ensures cp / 0x40 / 0x40 == cp / 0x1000 && cp / 0x1000 / 0x40 == cp / 0x40000
    ensures cp <= 0x7FF ==> cp / 0x40 < 0x20
    ensures cp <= 0xFFFF ==> cp / 0x1000 < 0x10
    ensures cp / 0x40000 < 8
  {
  }

  lemma LeadOf(cp: int)
    requires 0x7F < cp <= 0x10FFFF
    ensures var e := Encode(cp);
            2 <= |e| <= 4 && Utf8BytesIndicated(e[0]) == |e|
            && LeadBits(e[0], |e|) == (if |e| == 2 then cp / 0x40 else if |e| == 3 then cp / 0x1000 else cp / 0x40000)
  {
    Shifts(cp);
  }

  // The shortest form of a legal code point is read back, wherever it stands.
  lemma NextEncode(s: seq<Byte>, p: nat, cp: int)
    requires Legal(cp) && p + |Encode(cp)| <= |s| && s[p..p + |Encode(cp)|] == Encode(cp)
    ensures Next(s, p) == Read(cp, p + |Encode(cp)|)
  {
    hide Gather;
    var e := Encode(cp);
    SliceAt(s, p, e);
    if |e| > 1 {
      Shifts(cp);
      LeadOf(cp);
      GatherEnd(s, p + |e|, cp);
      if |e| == 4 { GatherTrailing(s, p + 1, 3, cp / 0x1000); }
      if |e| >= 3 { GatherTrailing(s, p + |e| - 2, 2, cp / 0x40); }
      GatherTrailing(s, p + |e| - 1, 1, cp);
    }
  }

  lemma SliceAt(s: seq<Byte>, p: nat, e: seq<Byte>)
    requires p + |e| <= |s| && s[p..p + |e|] == e
    ensures |e| > 0 ==> s[p] == e[0]
    ensures |e| > 1 ==> s[p + 1] == e[1]
    ensures |e| > 2 ==> s[p + 2] == e[2]
    ensures |e| > 3 ==> s[p + 3] == e[3]
  {
    var t := s[p..p + |e|];
    assert |e| > 0 ==> t[0] == s[p];
    assert |e| > 1 ==> t[1] == s[p + 1];
    assert |e| > 2 ==> t[2] == s[p + 2];
    assert |e| > 3 ==> t[3] == s[p + 3];
  }

  lemma GatherEnd(s: seq<Byte>, p: nat, bits: int)
    requires p <= |s|
    ensures Gather(s, p, 0, bits) == Read(bits, p)
  {
  }

  lemma DecodeStep(before: seq<Byte>, cp: int, rest: seq<Byte>)
    requires Legal(cp)
    ensures var s := before + Encode(cp) + rest;
            Decode(s, |before|) == [cp] + Decode(s, |before + Encode(cp)|)
  {
    var s, e := before + Encode(cp) + rest, Encode(cp);
    assert s[|before|..|before| + |e|] == e;
    NextEncode(s, |before|, cp);
  }

  lemma {:induction false} DecodeEncoded(before: seq<Byte>, cps: seq<int>)
    requires AllLegal(cps)
    ensures Decode(before + EncodeAll(cps), |before|) == cps
    decreases |cps|
  {
    if cps != [] {
      hide Encode, Legal, Decode;
      var e, rest := Encode(cps[0]), EncodeAll(cps[1..]);
      assert before + EncodeAll(cps) == before + e + rest;
      DecodeStep(before, cps[0], rest);
      DecodeEncoded(before + e, cps[1..]);
    }
  }

  // A string is well formed, without noncharacters, when it encodes some legal code points.
  ghost predicate WellFormed(s: seq<Byte>)
  {
    exists cps :: AllLegal(cps) && s == EncodeAll(cps)
  }

  // The well-formed strings are those that decoding loses nothing of.
  lemma WellFormedIff(s: seq<Byte>)
    ensures AllLegal(Decode(s, 0))
    ensures WellFormed(s) <==> EncodeAll(Decode(s, 0)) == s
  {
    DecodeLegal(s, 0);
    if WellFormed(s) {
      var cps :| AllLegal(cps) && s == EncodeAll(cps);
      DecodeEncoded([], cps);
      assert [] + EncodeAll(cps) == s;
    }
  }

  // The emitter's writer; its bounds are one below those of the shortest form.
  function Written(cp: int): seq<Byte>
  {
    var c := if cp < 0 || cp > 0x10FFFF then REPLACEMENT_CHARACTER else cp;
    if c < 0x7F then [c]
    else if c < 0x7FF then [0xC0 + c / 0x40, 0x80 + c % 0x40]
    else if c < 0xFFFF then [0xE0 + c / 0x1000, 0x80 + c / 0x40 % 0x40, 0x80 + c % 0x40]
    else [0xF0 + c / 0x40000, 0x80 + c / 0x1000 % 0x40, 0x80 + c / 0x40 % 0x40, 0x80 + c % 0x40]
  }

  // So U+007F and U+07FF, the only legal code points at the bounds, come out one byte too long.
  lemma WrittenIsShortestIff(cp: int)
    requires Legal(cp)
    ensures Written(cp) == Encode(cp) <==> cp != 0x7F && cp != 0x7FF
  {
    if cp == 0x7F {
      assert |Written(cp)| == 2 && |Encode(cp)| == 1;
    }
    if cp == 0x7FF {
      assert |Written(cp)| == 3 && |Encode(cp)| == 2;
    }
  }

  // Of the code points that are not legal U+FFFF is written one byte too long as well, and what is none at all
  // as U+FFFD.
  lemma WrittenElse(cp: int)
    ensures 0 <= cp <= 0x10FFFF ==> (Written(cp) == Encode(cp) <==> cp != 0x7F && cp != 0x7FF && cp != 0xFFFF)
    ensures cp < 0 || cp > 0x10FFFF ==> Written(cp) == Encode(0xFFFD)
  {
    if cp == 0x7F || cp == 0x7FF || cp == 0xFFFF {
      assert |Written(cp)| == |Encode(cp)| + 1;
    }
  }

  // ---------- the forms themselves ----------

  function Bits(b: Byte, mark: int): int
  {
    b - mark
  }

  // Table 3 of section 3 of RFC 3629: how many bytes a code point takes, and which bits stand where.
  lemma EncodeForm(cp: int)
    requires 0 <= cp <= 0x10FFFF
    ensures var e := Encode(cp);
            && |e| == (if cp < 0x80 then 1 else if cp < 0x800 then 2 else if cp < 0x10000 then 3 else 4)
            && (|e| == 1 ==> cp == e[0])
            && (|e| == 2 ==> 0xC2 <= e[0] <= 0xDF && cp == 0x40 * Bits(e[0], 0xC0) + Bits(e[1], 0x80))
            && (|e| == 3 ==>
                  0xE0 <= e[0] <= 0xEF
                  && cp == 0x1000 * Bits(e[0], 0xE0) + 0x40 * Bits(e[1], 0x80) + Bits(e[2], 0x80))
            && (|e| == 4 ==>
                  0xF0 <= e[0] <= 0xF4
                  && cp == 0x40000 * Bits(e[0], 0xF0) + 0x1000 * Bits(e[1], 0x80) + 0x40 * Bits(e[2], 0x80)
                           + Bits(e[3], 0x80))
            && forall i :: 0 < i < |e| ==> 0x80 <= e[i] <= 0xBF
  {
    Shifts(cp);
  }

  // The 32 noncharacters of one block, and the last two code points of each of the 17 planes.
  ghost predicate IsNoncharacter(cp: int)
  {
    cp in {0xFDD0, 0xFDD1, 0xFDD2, 0xFDD3, 0xFDD4, 0xFDD5, 0xFDD6, 0xFDD7, 0xFDD8, 0xFDD9, 0xFDDA,
           0xFDDB, 0xFDDC, 0xFDDD, 0xFDDE, 0xFDDF, 0xFDE0, 0xFDE1, 0xFDE2, 0xFDE3, 0xFDE4, 0xFDE5,
           0xFDE6, 0xFDE7, 0xFDE8, 0xFDE9, 0xFDEA, 0xFDEB, 0xFDEC, 0xFDED, 0xFDEE, 0xFDEF}
    || exists plane :: 0 <= plane <= 16 && EndsPlane(cp, plane)
  }

  ghost predicate EndsPlane(cp: int, plane: int)
  {
    cp == 0x10000 * plane + 0xFFFE || cp == 0x10000 * plane + 0xFFFF
  }

  lemma LegalIff(cp: int)
    ensures Legal(cp) <==> 0 <= cp <= 0x10FFFF && !(0xD800 <= cp <= 0xDFFF) && !IsNoncharacter(cp)
  {
    if 0 <= cp <= 0x10FFFF && cp % 0x10000 >= 0xFFFE {
      assert EndsPlane(cp, cp / 0x10000);
    }
  }

  // A trailing byte that nothing announced reads as U+FFFD.
  lemma NextStray(s: seq<Byte>, p: nat)
    requires p < |s| && 0x80 <= s[p] < 0xC0
    ensures Next(s, p) == Read(0xFFFD, p + 1)
  {
  }

  // So does a sequence of n bytes of which only the first k are there; reading goes on behind these.
  lemma NextTruncated(s: seq<Byte>, p: nat, n: nat, k: nat)
    requires p < |s| && s[p] >= 0xC0 && n == if s[p] < 0xE0 then 2 else if s[p] < 0xF0 then 3 else 4
    requires 0 < k < n && p + k <= |s| && forall i :: p < i < p + k ==> 0x80 <= s[i] < 0xC0
    requires p + k < |s| ==> !(0x80 <= s[p + k] < 0xC0)
    ensures Next(s, p) == Read(0xFFFD, p + k)
  {
    GatherTruncated(s, p + 1, n - 1, k - 1, LeadBits(s[p], n));
  }

  lemma {:induction false} GatherTruncated(s: seq<Byte>, p: nat, n: nat, k: nat, bits: int)
    requires k < n && p + k <= |s| && forall i :: p <= i < p + k ==> 0x80 <= s[i] < 0xC0
    requires p + k < |s| ==> !(0x80 <= s[p + k] < 0xC0)
    ensures Gather(s, p, n, bits) == Read(0xFFFD, p + k)
    decreases k
  {
    if k > 0 {
      GatherTruncated(s, p + 1, n - 1, k - 1, bits * 0x40 + s[p] % 0x40);
    }
  }

  // A whole sequence, overlong or not, reads as the number that its bits give, and as U+FFFD if that is no
  // legal code point, as in a surrogate.
  lemma NextWhole(s: seq<Byte>, p: nat, n: nat)
    requires p < |s| && s[p] >= 0xC0 && n == if s[p] < 0xE0 then 2 else if s[p] < 0xF0 then 3 else 4
    requires p + n <= |s| && forall i :: p < i < p + n ==> 0x80 <= s[i] < 0xC0
    ensures var lead := if n == 2 then s[p] % 0x20 else if n == 3 then s[p] % 0x10 else s[p] % 0x8;
            var v := Trailing(s, p + 1, n - 1, lead);
            Next(s, p) == Read(if Legal(v) then v else 0xFFFD, p + n)
  {
    GatherWhole(s, p + 1, n - 1, LeadBits(s[p], n));
  }

  // Six bits from each trailing byte.
  function Trailing(s: seq<Byte>, p: nat, n: nat, bits: int): int
    requires p + n <= |s|
  {
    if n == 0 then bits else Trailing(s, p, n - 1, bits) * 0x40 + Bits(s[p + n - 1], 0x80)
  }

  lemma {:induction false} GatherWhole(s: seq<Byte>, p: nat, n: nat, bits: int)
    requires p + n <= |s| && forall i :: p <= i < p + n ==> 0x80 <= s[i] < 0xC0
    ensures Gather(s, p, n, bits) == Read(Trailing(s, p, n, bits), p + n)
    decreases n
  {
    if n == 0 {
      GatherEnd(s, p, bits);
    } else {
      var next := bits * 0x40 + s[p] % 0x40;
      GatherWhole(s, p + 1, n - 1, next);
      TrailingFirst(s, p, n, bits);
    }
  }

  lemma {:induction false} TrailingFirst(s: seq<Byte>, p: nat, n: nat, bits: int)
    requires n > 0 && p + n <= |s|
    ensures Trailing(s, p, n, bits) == Trailing(s, p + 1, n - 1, bits * 0x40 + Bits(s[p], 0x80))
    decreases n
  {
    if n > 1 {
      TrailingFirst(s, p, n - 1, bits);
    }
  }
}
