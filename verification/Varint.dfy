/** Base-128 varints and ZigZag numbers, for every integer type the source accepts. */
module Varint {
  import opened Arith
  import opened PbErrors

  type byte = x: int | 0 <= x < 0x100

  datatype Width = W8 | W16 | W32 | W64

  function Bits(w: Width): nat {
    match w case W8 => 8 case W16 => 16 case W32 => 32 case W64 => 64
  }

  // The number of values an unsigned integer of this width has.
  function Mod(w: Width): nat {
    match w case W8 => 0x100 case W16 => 0x1_0000 case W32 => 0x1_0000_0000 case W64 => 0x1_0000_0000_0000_0000
  }

  // A C++ integer type that can be encoded, with or without ZigZag.
  datatype IntType = Bool | Int(width: Width, signed: bool, zigzag: bool)

  predicate IsVarintType(t: IntType) {
    t.Int? && t.zigzag ==> t.signed
  }

  predicate InRange(t: IntType, v: int) {
    match t
    case Bool => 0 <= v <= 1
    case Int(w, signed, _) => if signed then -Half(w) <= v < Half(w) else 0 <= v < Mod(w)
  }

  // Arithmetic shorter than 32 bits is done in 32 bits.
  function Fast(w: Width): Width {
    if w == W64 then W64 else W32
  }

  // The unsigned type that goes on the wire: a signed type without ZigZag is sign-extended to 64 bits.
  function WireWidth(t: IntType): Width {
    match t
    case Bool => W8
    case Int(w, signed, zigzag) => if signed && !zigzag then W64 else w
  }

  function MaxWireSize(t: IntType): nat {
    if t.Bool? then 1 else Bits(WireWidth(t)) / 7 + 1
  }

  // The largest value of a last, most significant byte.
  function MaxLastByte(t: IntType): byte {
    if t.Bool? then 0x7f
    else match WireWidth(t) case W8 => 1 case W16 => 3 case W32 => 15 case W64 => 1
  }

  /* ----- two's complement arithmetic ----- */

  function ToUnsigned(w: Width, v: int): nat {
    match w
    case W8 => v % 0x100
    case W16 => v % 0x1_0000
    case W32 => v % 0x1_0000_0000
    case W64 => v % 0x1_0000_0000_0000_0000
  }

  function Half(w: Width): int {
    match w case W8 => 0x80 case W16 => 0x8000 case W32 => 0x8000_0000 case W64 => 0x8000_0000_0000_0000
  }

  // v >> (width - 1), an arithmetic shift.
  function SignBits(w: Width, v: int): int {
    match w
    case W8 => v / 0x80
    case W16 => v / 0x8000
    case W32 => v / 0x8000_0000
    case W64 => v / 0x8000_0000_0000_0000
  }

  function ToSigned(w: Width, u: nat): int {
    var r := ToUnsigned(w, u);
    if r < Half(w) then r else r - Mod(w)
  }

  // Exclusive or with a mask that is all zeros or all ones.
  function XorMask(w: Width, u: nat, mask: nat): (x: nat)
    requires u < Mod(w) && (mask == 0 || mask == Mod(w) - 1)
    ensures x < Mod(w)
  {
    if mask == 0 then u else mask - u
  }

  // An arithmetic shift right by width - 1 leaves the sign: 0 or -1.
  lemma SignShift(w: Width, v: int)
    requires -Half(w) <= v < Half(w)
    ensures SignBits(w, v) == if v >= 0 then 0 else -1
    ensures ToUnsigned(Fast(w), SignBits(w, v)) == if v >= 0 then 0 else Mod(Fast(w)) - 1
    ensures ToUnsigned(Fast(w), v) == if v >= 0 then v else Mod(Fast(w)) + v
  {
    var h, f := Half(w), Mod(Fast(w));
    if v >= 0 {
      DivModUnique(v, h, 0, v);
      DivModUnique(0, f, 0, 0);
      DivModUnique(v, f, 0, v);
    } else {
      DivModUnique(v, h, -1, v + h);
      DivModUnique(-1, f, -1, f - 1);
      DivModUnique(v, f, -1, f + v);
    }
  }

  // (v << 1) ^ (v >> (width - 1)), computed in the fast width; the right shift is arithmetic.
  function ZigzagEncode(w: Width, v: int): (u: nat)
    requires -Half(w) <= v < Half(w)
    ensures u < Mod(Fast(w))
  {
    var f := Fast(w);
    SignShift(w, v);
    XorMask(f, ToUnsigned(f, ToUnsigned(f, v) * 2), ToUnsigned(f, SignBits(w, v)))
  }

  // (u >> 1) ^ (~(u & 1) + 1), computed in the fast width.
  function ZigzagDecode(f: Width, u: nat): (d: nat)
    requires u < Mod(f)
    ensures d < Mod(f)
  {
    LowBitMask(f, u);
    XorMask(f, u / 2, ToUnsigned(f, Mod(f) - 1 - u % 2 + 1))
  }

  lemma LowBitMask(f: Width, u: nat)
    ensures ToUnsigned(f, Mod(f) - 1 - u % 2 + 1) == if u % 2 == 0 then 0 else Mod(f) - 1
  {
    if u % 2 == 0 {
      DivModUnique(Mod(f), Mod(f), 1, 0);
    } else {
      DivModUnique(Mod(f) - 1, Mod(f), 0, Mod(f) - 1);
    }
  }

  lemma ZigzagMeaning(w: Width, v: int)
    requires -Half(w) <= v < Half(w)
    ensures ZigzagEncode(w, v) == if v >= 0 then 2 * v else 2 * -v - 1
    ensures ZigzagEncode(w, v) < Mod(w)
  {
    var f := Mod(Fast(w));
    SignShift(w, v);
    if v >= 0 {
      DivModUnique(2 * v, f, 0, 2 * v);
    } else {
      DivModUnique((f + v) * 2, f, 1, f + 2 * v);
    }
  }

  lemma UnzigzagMeaning(f: Width, u: nat)
    requires u < Mod(f)
    ensures ZigzagDecode(f, u) == if u % 2 == 0 then u / 2 else Mod(f) - 1 - u / 2
  {
    LowBitMask(f, u);
  }

  lemma ToSignedMeaning(w: Width, v: int)
    requires -Half(w) <= v < Half(w)
    ensures ToSigned(w, ToUnsigned(Fast(w), v)) == v
    ensures ToSigned(w, ToUnsigned(W64, v)) == v
  {
    var m, f := Mod(w), Mod(Fast(w));
    if v >= 0 {
      DivModUnique(v, f, 0, v);
      DivModUnique(v, Mod(W64), 0, v);
      DivModUnique(v, m, 0, v);
    } else {
      DivModUnique(v, f, -1, f + v);
      DivModUnique(v, Mod(W64), -1, Mod(W64) + v);
      DivModUnique(f + v, m, f / m - 1, m + v);
      DivModUnique(Mod(W64) + v, m, Mod(W64) / m - 1, m + v);
    }
  }

  // ZigZag decoding inverts encoding at every width ...
  lemma ZigzagInverse(w: Width, v: int)
    requires -Half(w) <= v < Half(w)
    ensures ToSigned(w, ZigzagDecode(Fast(w), ZigzagEncode(w, v))) == v
  {
    ZigzagMeaning(w, v);
    UnzigzagMeaning(Fast(w), ZigzagEncode(w, v));
    SignShift(w, v);
    ToSignedMeaning(w, v);
  }

  // ... and encoding inverts decoding, so ZigZag is a bijection between the signed and the unsigned type.
  lemma ZigzagOnto(w: Width, u: nat)
    requires u < Mod(w)
    ensures var v := ToSigned(w, ZigzagDecode(Fast(w), u));
            -Half(w) <= v < Half(w) && ZigzagEncode(w, v) == u
  {
    var v := if u % 2 == 0 then u / 2 else -(u / 2) - 1;
    UnzigzagMeaning(Fast(w), u);
    SignShift(w, v);
    ToSignedMeaning(w, v);
    ZigzagMeaning(w, v);
  }

  /* ----- values and the unsigned numbers that go on the wire ----- */

  function ToWire(t: IntType, v: int): nat
    requires IsVarintType(t) && InRange(t, v)
  {
    match t
    case Bool => v
    case Int(w, _, zigzag) =>
      if zigzag then ZigzagEncode(w, v) else ToUnsigned(Fast(WireWidth(t)), v)
  }

  function FromWire(t: IntType, u: nat): int
    requires u < Mod(WireWidth(t))
  {
    match t
    case Bool => if u == 0 then 0 else 1
    case Int(w, signed, zigzag) =>
      var d := if zigzag then ZigzagDecode(Fast(w), u) else u;
      if signed then ToSigned(w, d) else ToUnsigned(w, d)
  }

  lemma WireInverse(t: IntType, v: int)
    requires IsVarintType(t) && InRange(t, v)
    ensures ToWire(t, v) < Mod(WireWidth(t))
    ensures FromWire(t, ToWire(t, v)) == v
  {
    if t.Int? {
      if t.zigzag {
        ZigzagMeaning(t.width, v);
        ZigzagInverse(t.width, v);
      } else if t.signed {
        ToSignedMeaning(t.width, v);
      } else {
        DivModUnique(v, Mod(Fast(t.width)), 0, v);
        DivModUnique(v, Mod(t.width), 0, v);
      }
    }
  }

  lemma FromWireInRange(t: IntType, u: nat)
    requires IsVarintType(t) && u < Mod(WireWidth(t))
    ensures InRange(t, FromWire(t, u))
  {
  }

  /* ----- the byte code ----- */

  function Encode(u: nat): (s: seq<byte>)
    ensures |s| >= 1
  {
    if u < 0x80 then [u] else [u % 0x80 + 0x80] + Encode(u / 0x80)
  }

  // Reads at most left bytes; the left-th one may not exceed last.
  function Parse(s: seq<byte>, left: nat, last: byte): (r: Read<nat>)
    requires left >= 1
    ensures r.Ok? ==> 1 <= r.used <= left && r.used <= |s|
    decreases left
  {
    if s == [] then Err(VarintIncomplete)
    else if left == 1 then
      if s[0] <= last then Ok(s[0], 1) else Err(VarintTooLarge)
    else if s[0] < 0x80 then Ok(s[0], 1)
    else
      match Parse(s[1..], left - 1, last)
      case Err(e) => Err(e)
      case Ok(u, n) => Ok(s[0] % 0x80 + 0x80 * u, n + 1)
  }

  // The numbers that fit left bytes of which the last is at most last.
  function Limit(left: nat, last: byte): (m: nat)
    requires left >= 1
    ensures m >= 1
  {
    if left == 1 then last + 1 else 0x80 * Limit(left - 1, last)
  }

  // Exactly the numbers of the wire type fit the maximal size.
  lemma WireLimit(t: IntType)
    requires t.Int?
    ensures MaxWireSize(t) >= 2 && Limit(MaxWireSize(t), MaxLastByte(t)) == Mod(WireWidth(t))
  {
    assert Limit(3, 3) == 0x1_0000;
    assert Limit(3, 15) == 0x4_0000 && Limit(5, 15) == 0x1_0000_0000;
    assert Limit(3, 1) == 0x8000 && Limit(5, 1) == 0x2000_0000 && Limit(7, 1) == 0x800_0000_0000;
    assert Limit(9, 1) == 0x200_0000_0000_0000;
  }

  lemma {:induction false} ParseBound(s: seq<byte>, left: nat, last: byte)
    requires left >= 1 && last < 0x80 && Parse(s, left, last).Ok?
    ensures Parse(s, left, last).value < Limit(left, last)
    decreases left
  {
    if left > 1 && s[0] >= 0x80 {
      ParseBound(s[1..], left - 1, last);
    }
  }

  lemma {:induction false} ParseEncode(u: nat, rest: seq<byte>, left: nat, last: byte)
    requires left >= 1 && last < 0x80 && u < Limit(left, last)
    ensures Parse(Encode(u) + rest, left, last) == Ok(u, |Encode(u)|)
    decreases left
  {
    FirstByte(u, rest);
    if u >= 0x80 {
      ParseEncode(u / 0x80, rest, left - 1, last);
    }
  }

  lemma FirstByte(a: nat, x: seq<byte>)
    ensures (Encode(a) + x)[0] == if a < 0x80 then a else a % 0x80 + 0x80
    ensures (Encode(a) + x)[1..] == if a < 0x80 then x else Encode(a / 0x80) + x
  {
  }

  // The number a group of bytes carries, seven bits each, the least significant first.
  function Carried(s: seq<byte>): nat {
    if s == [] then 0 else s[0] % 0x80 + 0x80 * Carried(s[1..])
  }

  // The first n bytes end a varint: only the last lacks the continuation bit, and the left-th is at most last.
  ghost predicate EndsAt(s: seq<byte>, n: nat, left: nat, last: byte) {
    && 1 <= n <= |s| && n <= left
    && (forall i | 0 <= i < n - 1 :: s[i] >= 0x80)
    && if n == left then s[n - 1] <= last else s[n - 1] < 0x80
  }

  // What is parsed from any input: the number carried up to the end of the varint; or the input ends before, or
  // the last byte allowed is too large.
  lemma {:induction false} ParseExactly(s: seq<byte>, left: nat, last: byte, n: nat)
    requires left >= 1 && last < 0x80
    ensures EndsAt(s, n, left, last) ==> Parse(s, left, last) == Ok(Carried(s[..n]), n)
    ensures |s| < left && (forall i | 0 <= i < |s| :: s[i] >= 0x80) ==> Parse(s, left, last) == Err(VarintIncomplete)
    ensures |s| >= left && (forall i | 0 <= i < left - 1 :: s[i] >= 0x80) && s[left - 1] > last ==>
              Parse(s, left, last) == Err(VarintTooLarge)
    decreases left
  {
    if s != [] {
      CarriedFirst(s, n);
      if left > 1 && s[0] >= 0x80 {
        assert forall i | 0 <= i < |s| - 1 :: s[1..][i] == s[i + 1];
        ParseExactly(s[1..], left - 1, last, if n > 1 then n - 1 else 0);
      }
    }
  }

  // Conversely a successful parse has met the end of the varint.
  lemma {:induction false} ParsedEnds(s: seq<byte>, left: nat, last: byte)
    requires left >= 1 && last < 0x80 && Parse(s, left, last).Ok?
    ensures EndsAt(s, Parse(s, left, last).used, left, last)
    decreases left
  {
    if left > 1 && s[0] >= 0x80 {
      ParsedEnds(s[1..], left - 1, last);
      var n := Parse(s, left, last).used;
      assert forall i | 0 < i < n :: s[i] == s[1..][i - 1];
    }
  }

  lemma CarriedFirst(s: seq<byte>, n: nat)
    requires s != []
    ensures 1 <= n <= |s| ==> Carried(s[..n]) == s[0] % 0x80 + 0x80 * Carried(s[1..][..n - 1])
  {
    if 1 <= n <= |s| {
      assert s[..n][0] == s[0] && s[..n][1..] == s[1..][..n - 1];
    }
  }

  // A successful parse looks at nothing beyond the bytes it consumes.
  lemma {:induction false} ParseStable(s: seq<byte>, s': seq<byte>, left: nat, last: byte)
    requires left >= 1 && Parse(s, left, last).Ok?
    requires Parse(s, left, last).used <= |s'|
    requires s'[..Parse(s, left, last).used] == s[..Parse(s, left, last).used]
    ensures Parse(s', left, last) == Parse(s, left, last)
    decreases left
  {
    var n := Parse(s, left, last).used;
    assert s[..n][0] == s'[..n][0];
    if left > 1 && s[0] >= 0x80 {
      assert s[1..][..n - 1] == s[..n][1..];
      assert s'[1..][..n - 1] == s'[..n][1..];
      ParseStable(s[1..], s'[1..], left - 1, last);
    }
  }

  // Reading a value of type t at the front of s.
  function ReadAs(t: IntType, s: seq<byte>): (r: Read<int>)
    requires IsVarintType(t)
    ensures r.Ok? ==> 1 <= r.used <= |s| && r.used <= MaxWireSize(t)
  {
    if t.Bool? then
      if s == [] then Err(VarintIncomplete) else Ok(FromWire(Bool, s[0]), 1)
    else
      match Parse(s, MaxWireSize(t), MaxLastByte(t))
      case Err(e) => Err(e)
      case Ok(u, n) => ParseBound(s, MaxWireSize(t), MaxLastByte(t)); WireLimit(t); Ok(FromWire(t, u), n)
  }

  function EncodeAs(t: IntType, v: int): (s: seq<byte>)
    requires IsVarintType(t) && InRange(t, v)
    ensures |s| >= 1
  {
    Encode(ToWire(t, v))
  }

  lemma ReadAsInRange(t: IntType, s: seq<byte>)
    requires IsVarintType(t) && ReadAs(t, s).Ok?
    ensures InRange(t, ReadAs(t, s).value)
  {
    if t.Int? {
      ParseBound(s, MaxWireSize(t), MaxLastByte(t));
      WireLimit(t);
      FromWireInRange(t, Parse(s, MaxWireSize(t), MaxLastByte(t)).value);
    }
  }

  // Any number read is brought into the type's range: an integer is congruent to what was parsed, ZigZag undone, and
  // a bool tells whether the byte is zero.
  lemma ReadTruncates(t: IntType, s: seq<byte>)
    requires IsVarintType(t) && ReadAs(t, s).Ok?
    ensures InRange(t, ReadAs(t, s).value)
    ensures t.Bool? ==> (ReadAs(t, s).value == 0 <==> s[0] == 0)
    ensures t.Int? ==>
              var u := Parse(s, MaxWireSize(t), MaxLastByte(t)).value;
              if t.zigzag then ZigzagEncode(t.width, ReadAs(t, s).value) == u
              else exists q: int :: ReadAs(t, s).value + q * Mod(t.width) == u
  {
    ReadAsInRange(t, s);
    if t.Int? {
      var u := Parse(s, MaxWireSize(t), MaxLastByte(t)).value;
      ParseBound(s, MaxWireSize(t), MaxLastByte(t));
      WireLimit(t);
      if t.zigzag {
        ZigzagOnto(t.width, u);
      } else {
        TruncationIsCongruent(t, u);
      }
    }
  }

  lemma TruncationIsCongruent(t: IntType, u: nat)
    requires t.Int? && !t.zigzag && u < Mod(WireWidth(t))
    ensures exists q: int :: FromWire(t, u) + q * Mod(t.width) == u
  {
    var m, v := Mod(t.width), FromWire(t, u);
    var r := ToUnsigned(t.width, u);
    var q := u / m + if v < 0 then 1 else 0;
    DivModUnique(u, m, u / m, u % m);
    assert r == u % m;
    assert u == u / m * m + r;
    assert v + q * m == u;
  }

  // Round trip, for every type, value and continuation of the input.
  lemma RoundTrip(t: IntType, v: int, rest: seq<byte>)
    requires IsVarintType(t) && InRange(t, v)
    ensures ReadAs(t, EncodeAs(t, v) + rest) == Ok(v, |EncodeAs(t, v)|)
  {
    WireInverse(t, v);
    if t.Int? {
      WireLimit(t);
      ParseEncode(ToWire(t, v), rest, MaxWireSize(t), MaxLastByte(t));
    }
  }

  lemma ReadAsStable(t: IntType, s: seq<byte>, s': seq<byte>)
    requires IsVarintType(t) && ReadAs(t, s).Ok?
    requires ReadAs(t, s).used <= |s'|
    requires s'[..ReadAs(t, s).used] == s[..ReadAs(t, s).used]
    ensures ReadAs(t, s') == ReadAs(t, s)
  {
    var n := ReadAs(t, s).used;
    assert s[..n][0] == s'[..n][0];
    if t.Int? {
      ParseStable(s, s', MaxWireSize(t), MaxLastByte(t));
    }
  }

  // No code word is a proper prefix of another one.
  lemma {:induction false} PrefixFree(a: nat, x: seq<byte>, b: nat, y: seq<byte>)
    requires Encode(a) + x == Encode(b) + y
    ensures a == b && x == y
    decreases a
  {
    var s := Encode(a) + x;
    assert s == Encode(b) + y;
    FirstByte(a, x);
    FirstByte(b, y);
    if a >= 0x80 {
      PrefixFree(a / 0x80, x, b / 0x80, y);
    }
  }

  /* ----- sizes ----- */

  // The position of the highest one bit, counted from one: the width minus the leading zeros.
  function BitLength(u: nat): nat {
    if u == 0 then 0 else 1 + BitLength(u / 2)
  }

  function CountLeadingZeros(w: Width, u: nat): int {
    Bits(w) - BitLength(u)
  }

  // The source's formula over the number it encodes: (bits - countl_zero(u | 1) + 6) / 7.
  function SizeFormula(w: Width, u: nat): int {
    (Bits(w) - CountLeadingZeros(w, if u % 2 == 0 then u + 1 else u) + 6) / 7
  }

  function WireSize(t: IntType, v: int): int
    requires IsVarintType(t) && InRange(t, v)
  {
    if t.Bool? then 1 else SizeFormula(Fast(WireWidth(t)), ToWire(t, v))
  }

  lemma BitLengthStep(u: nat)
    requires u >= 0x80
    ensures BitLength(u) == 7 + BitLength(u / 0x80)
  {
    var a := u / 2;
    var b := a / 2;
    var c := b / 2;
    var d := c / 2;
    var e := d / 2;
    var f := e / 2;
    assert a >= 64 && b >= 32 && c >= 16 && d >= 8 && e >= 4 && f >= 2;
    assert f / 2 == u / 0x80;
    assert BitLength(a) == 1 + BitLength(b) && BitLength(c) == 1 + BitLength(d) && BitLength(e) == 1 + BitLength(f);
  }

  lemma {:induction false} BitLengthBound(u: nat, bits: nat, limit: nat)
    requires u < limit && limit == Pow2(bits)
    ensures BitLength(u) <= bits
    decreases bits
  {
    if u > 0 {
      BitLengthBound(u / 2, bits - 1, limit / 2);
    }
  }

  function Pow2(n: nat): nat {
    if n == 0 then 1 else 2 * Pow2(n - 1)
  }

  lemma BitLengthSmall(u: nat)
    requires 1 <= u < 0x80
    ensures 1 <= BitLength(u) <= 7
  {
    assert Pow2(3) == 8;
    assert Pow2(5) == 32;
    BitLengthBound(u, 7, 0x80);
  }

  lemma {:induction false} SizeFormulaStep(u: nat)
    requires u % 2 == 1
    ensures (BitLength(u) + 6) / 7 == |Encode(u)|
    decreases u
  {
    if u < 0x80 {
      BitLengthSmall(u);
    } else {
      var h := u / 0x80;
      var odd := if h % 2 == 0 then h + 1 else h;
      BitLengthStep(u);
      SizeFormulaStep(odd);
      SameLength(h);
    }
  }

  // Setting the lowest bit changes neither length.
  lemma {:induction false} SameLength(h: nat)
    requires h >= 1
    ensures BitLength(if h % 2 == 0 then h + 1 else h) == BitLength(h)
    ensures |Encode(if h % 2 == 0 then h + 1 else h)| == |Encode(h)|
  {
    if h % 2 == 0 {
      assert (h + 1) / 2 == h / 2;
      if h >= 0x80 { assert (h + 1) / 0x80 == h / 0x80; }
    }
  }

  // The count-leading-zeros formula is the number of bytes the encoder emits, and never more than the limit.
  lemma WireSizeIsExact(t: IntType, v: int)
    requires IsVarintType(t) && InRange(t, v)
    ensures WireSize(t, v) == |EncodeAs(t, v)| <= MaxWireSize(t)
  {
    RoundTrip(t, v, []);
    if t.Int? {
      var u := ToWire(t, v);
      SizeFormulaStep(if u % 2 == 0 then u + 1 else u);
      if u >= 1 { SameLength(u); }
    }
  }

  /* ----- the source's loops ----- */

  // Appends at position at of a buffer that has room there; returns the end position.
  method AppendVarint(b: array<byte>, at: nat, t: IntType, v: int) returns (end: nat)
    requires IsVarintType(t) && InRange(t, v)
    requires at + |EncodeAs(t, v)| <= b.Length
    modifies b
    ensures end == at + |EncodeAs(t, v)|
    ensures b[at..end] == EncodeAs(t, v)
    ensures b[..at] == old(b[..at]) && b[end..] == old(b[end..])
  {
    if t.Bool? {
      b[at] := v;
      end := at + 1;
    } else {
      end := AppendBytes(b, at, ToWire(t, v));
    }
  }

  method AppendBytes(b: array<byte>, at: nat, n: nat) returns (end: nat)
    requires at + |Encode(n)| <= b.Length
    modifies b
    ensures end == at + |Encode(n)|
    ensures b[at..end] == Encode(n)
    ensures b[..at] == old(b[..at]) && b[end..] == old(b[end..])
  {
    var u := n;
    end := at;
    while u >= 0x80
      invariant at <= end && end + |Encode(u)| == at + |Encode(n)|
      invariant b[at..end] + Encode(u) == Encode(n)
      invariant b[..at] == old(b[..at]) && b[at + |Encode(n)|..] == old(b[at + |Encode(n)|..])
    {
      end := PutByte(b, at, end, u % 0x80 + 0x80);
      u := u / 0x80;
    }
    end := PutByte(b, at, end, u);
  }

  // *b++ = x
  method PutByte(b: array<byte>, at: nat, end: nat, x: byte) returns (next: nat)
    requires at <= end < b.Length
    modifies b
    ensures next == end + 1
    ensures b[at..next] == old(b[at..end]) + [x]
    ensures b[..at] == old(b[..at]) && forall k | next <= k <= b.Length :: b[k..] == old(b[k..])
  {
    b[end] := x;
    next := end + 1;
  }

  // Reads from buf[beg..end].  Far from the end an unrolled path checks only the last byte for overflow; near the
  // end a loop checks only for the end of input.  Both compute the same parse.
  method ReadVarint(buf: seq<byte>, beg: nat, end: nat, t: IntType) returns (r: Read<int>)
    requires IsVarintType(t) && beg <= end <= |buf|
    ensures r == ReadAs(t, buf[beg..end])
  {
    if t.Bool? {
      if beg < end {
        return Ok(if buf[beg] == 0 then 0 else 1, 1);
      }
      return Err(VarintIncomplete);
    }
    WireLimit(t);
    var p: Read<nat>;
    if beg + MaxWireSize(t) <= end {
      p := ReadFast(buf, beg, end, MaxWireSize(t), MaxLastByte(t));
    } else {
      p := ReadNearEnd(buf, beg, end, MaxWireSize(t), MaxLastByte(t));
    }
    if p.Err? {
      return Err(p.error);
    }
    ParseBound(buf[beg..end], MaxWireSize(t), MaxLastByte(t));
    r := Ok(FromWire(t, p.value), p.used);
  }

  // x << (7 * n)
  function Shift(x: nat, n: nat): nat {
    if n == 0 then x else 0x80 * Shift(x, n - 1)
  }

  lemma {:induction false} ShiftSplits(low: nat, x: nat, n: nat)
    ensures Shift(low + 0x80 * x, n) == Shift(low, n) + Shift(x, n + 1)
  {
    if n > 0 {
      ShiftSplits(low, x, n - 1);
    }
  }

  // The bits or-ed in lie above those already there, so or is addition.
  method ReadFast(buf: seq<byte>, beg: nat, end: nat, maxSize: nat, lastByte: byte) returns (r: Read<nat>)
    requires maxSize >= 2 && lastByte < 0x80
    requires beg + maxSize <= end <= |buf|
    ensures r == Parse(buf[beg..end], maxSize, lastByte)
  {
    ghost var s := buf[beg..end];
    var u: nat, n: nat := 0, 0;
    while n + 1 < maxSize
      invariant n < maxSize
      invariant Pending(s, maxSize, lastByte, n, u)
    {
      var b: nat := buf[beg + n];
      assert s[n] == b;
      PendingStep(s, maxSize, lastByte, n, u);
      u, n := u + Shift(b % 0x80, n), n + 1;
      if b < 0x80 {
        return Ok(u, n);
      }
    }
    var b: nat := buf[beg + n];
    assert s[n] == b;
    PendingStep(s, maxSize, lastByte, n, u);
    if b > lastByte {
      return Err(VarintTooLarge);
    }
    r := Ok(u + Shift(b, n), n + 1);
  }

  method ReadNearEnd(buf: seq<byte>, beg: nat, end: nat, maxSize: nat, lastByte: byte) returns (r: Read<nat>)
    requires maxSize >= 2 && lastByte < 0x80
    requires beg <= end <= |buf| && end < beg + maxSize
    ensures r == Parse(buf[beg..end], maxSize, lastByte)
  {
    ghost var s := buf[beg..end];
    var u: nat, n: nat := 0, 0;
    while beg + n != end && buf[beg + n] >= 0x80
      invariant beg + n <= end
      invariant Pending(s, maxSize, lastByte, n, u)
      decreases end - beg - n
    {
      assert s[n] == buf[beg + n];
      PendingStep(s, maxSize, lastByte, n, u);
      u, n := u + Shift(buf[beg + n] % 0x80, n), n + 1;
    }
    PendingStep(s, maxSize, lastByte, n, u);
    if beg + n == end {
      return Err(VarintIncomplete);
    }
    assert s[n] == buf[beg + n];
    r := Ok(u + Shift(buf[beg + n], n), n + 1);
  }

  // After n continuation bytes, u holds their payload and the rest decides the outcome.
  ghost predicate Pending(s: seq<byte>, left: nat, last: byte, n: nat, u: nat) {
    && n < left && n <= |s|
    && Parse(s, left, last) ==
         match Parse(s[n..], left - n, last)
         case Err(e) => Err(e)
         case Ok(x, k) => Ok(u + Shift(x, n), n + k)
  }

  lemma PendingStep(s: seq<byte>, left: nat, last: byte, n: nat, u: nat)
    requires Pending(s, left, last, n, u)
    ensures n == |s| ==> Parse(s, left, last) == Err(VarintIncomplete)
    ensures n < |s| && n + 1 == left ==> Parse(s, left, last) == if s[n] <= last then
          Ok(u + Shift(s[n], n), n + 1) else Err(VarintTooLarge)
    ensures n < |s| && n + 1 < left && s[n] < 0x80 ==> Parse(s, left, last) == Ok(u + Shift(s[n], n), n + 1)
    ensures n < |s| && n + 1 < left && s[n] >= 0x80 ==> Pending(s, left, last, n + 1, u + Shift(s[n] % 0x80, n))
  {
    if n < |s| {
      Unfold(s, n);
      if n + 1 < left && s[n] >= 0x80 {
        PendingNext(s, left, last, n, u);
      }
    }
  }

  lemma PendingNext(s: seq<byte>, left: nat, last: byte, n: nat, u: nat)
    requires Pending(s, left, last, n, u) && n < |s| && n + 1 < left && s[n] >= 0x80
    ensures Pending(s, left, last, n + 1, u + Shift(s[n] % 0x80, n))
  {
    Unfold(s, n);
    var now, tail := Parse(s[n..], left - n, last), Parse(s[n + 1..], left - n - 1, last);
    assert left - n - 1 == left - (n + 1);
    if tail.Ok? {
      assert now == Ok(s[n] % 0x80 + 0x80 * tail.value, tail.used + 1);
      ShiftSplits(s[n] % 0x80, tail.value, n);
    } else {
      assert now == tail;
    }
  }

  lemma Unfold(s: seq<byte>, n: nat)
    requires n < |s|
    ensures s[n..] != [] && s[n..][0] == s[n] && s[n..][1..] == s[n + 1..]
  {
  }

  // Skipping looks for the terminating byte only.
  function Skipped(s: seq<byte>): (r: Read<()>)
    ensures r.Ok? ==> 1 <= r.used <= |s|
  {
    SkippedWithin(s, 10)
  }

  function SkippedWithin(s: seq<byte>, left: nat): (r: Read<()>)
    requires left >= 1
    ensures r.Ok? ==> 1 <= r.used <= |s|
    decreases left
  {
    if s == [] then Err(VarintIncomplete)
    else if left == 1 then
      if s[0] <= 1 then Ok((), 1) else Err(VarintTooLarge)
    else if s[0] < 0x80 then Ok((), 1)
    else
      match SkippedWithin(s[1..], left - 1)
      case Err(e) => Err(e)
      case Ok(_, n) => Ok((), n + 1)
  }

  lemma {:induction false} SkippedAsParsed(s: seq<byte>, left: nat)
    requires left >= 1
    ensures SkippedWithin(s, left) == match Parse(s, left, 1) case Err(e) => Err(e) case Ok(_, n) => Ok((), n)
    decreases left
  {
    if left > 1 && s != [] && s[0] >= 0x80 {
      SkippedAsParsed(s[1..], left - 1);
    }
  }

  // Skipping succeeds, fails and stops exactly where reading a 64-bit unsigned integer does.
  lemma SkipAgreesWithRead(s: seq<byte>)
    ensures Skipped(s).Ok? <==> ReadAs(Int(W64, false, false), s).Ok?
    ensures Skipped(s).Ok? ==> Skipped(s).used == ReadAs(Int(W64, false, false), s).used
    ensures Skipped(s).Err? ==> ReadAs(Int(W64, false, false), s) == Err(Skipped(s).error)
  {
    SkippedAsParsed(s, 10);
  }

  method SkipVarint(buf: seq<byte>, beg: nat, end: nat) returns (r: Read<()>)
    requires beg <= end <= |buf|
    ensures r == Skipped(buf[beg..end])
  {
    ghost var s := buf[beg..end];
    var n := 0;
    if beg + 10 <= end {
      while n < 9
        invariant n <= 9
        invariant SkipPending(s, n)
      {
        assert s[n] == buf[beg + n];
        SkipStep(s, n);
        if buf[beg + n] < 0x80 {
          return Ok((), n + 1);
        }
        n := n + 1;
      }
      assert s[n] == buf[beg + n];
      SkipStep(s, n);
      if buf[beg + n] <= 1 {
        return Ok((), 10);
      }
      return Err(VarintTooLarge);
    }
    while beg + n != end && buf[beg + n] >= 0x80
      invariant beg + n <= end
      invariant SkipPending(s, n)
      decreases end - beg - n
    {
      assert s[n] == buf[beg + n];
      SkipStep(s, n);
      n := n + 1;
    }
    SkipStep(s, n);
    if beg + n == end {
      return Err(VarintIncomplete);
    }
    assert s[n] == buf[beg + n];
    r := Ok((), n + 1);
  }

  ghost predicate SkipPending(s: seq<byte>, n: nat) {
    && n < 10 && n <= |s|
    && Skipped(s) ==
         match SkippedWithin(s[n..], 10 - n)
         case Err(e) => Err(e)
         case Ok(_, k) => Ok((), n + k)
  }

  lemma SkipStep(s: seq<byte>, n: nat)
    requires SkipPending(s, n)
    ensures n == |s| ==> Skipped(s) == Err(VarintIncomplete)
    ensures n < |s| && n == 9 ==> Skipped(s) == if s[n] <= 1 then Ok((), 10) else Err(VarintTooLarge)
    ensures n < |s| && n < 9 && s[n] < 0x80 ==> Skipped(s) == Ok((), n + 1)
    ensures n < |s| && n < 9 && s[n] >= 0x80 ==> SkipPending(s, n + 1)
  {
    if n < |s| {
      assert s[n..][0] == s[n];
      assert s[n..][1..] == s[n + 1..];
    }
  }
}
