/** Concrete encodings: what the wire format is, byte for byte. */
module PbExamples {
  import opened Varint
  import opened PbTags
  import opened PbSchema
  import opened PbEncoding

  const INT32 := Int(W32, true, false)
  const SINT32 := Int(W32, true, true)
  const INT64 := Int(W64, true, false)

  // Varints the source's tests encode and decode.
  lemma KnownVarints()
    ensures Encode(0) == [0x00] && Encode(127) == [0x7f] && Encode(14882) == [0xa2, 0x74]
    ensures Encode(2961488830) == [0xbe, 0xf7, 0x92, 0x84, 0x0b]
    ensures Encode(7256456126) == [0xbe, 0xf7, 0x92, 0x84, 0x1b]
  {
    assert Encode(2961488830 / 0x80 / 0x80) == [0x92, 0x84, 0x0b];
    assert Encode(7256456126 / 0x80 / 0x80) == [0x92, 0x84, 0x1b];
  }

  lemma KnownLongVarint()
    ensures Encode(11964378330978735131) == [0x9b, 0xa8, 0xf9, 0xc2, 0xbb, 0xd6, 0x80, 0x85, 0xa6, 0x01]
  {
    KnownTail();
    assert Encode(5705060163010) == [0xc2, 0xbb, 0xd6, 0x80, 0x85, 0xa6, 0x01];
    assert Encode(730247700865401) == [0xf9, 0xc2, 0xbb, 0xd6, 0x80, 0x85, 0xa6, 0x01];
    assert Encode(93471705710771368) == [0xa8, 0xf9, 0xc2, 0xbb, 0xd6, 0x80, 0x85, 0xa6, 0x01];
  }

  lemma KnownTail()
    ensures Encode(44570782523) == [0xbb, 0xd6, 0x80, 0x85, 0xa6, 0x01]
  {
    assert Encode(21253) == [0x85, 0xa6, 0x01];
    assert Encode(2720384) == [0x80, 0x85, 0xa6, 0x01];
    assert Encode(348209238) == [0xd6, 0x80, 0x85, 0xa6, 0x01];
  }

  function Power128(n: nat): nat {
    if n == 0 then 1 else 0x80 * Power128(n - 1)
  }

  lemma {:induction false} CodeHolds(u: nat)
    ensures u < Power128(|Encode(u)|)
  {
    if u >= 0x80 {
      CodeHolds(u / 0x80);
    }
  }

  lemma {:induction false} PowersGrow(m: nat, n: nat)
    requires m <= n
    ensures Power128(m) <= Power128(n)
  {
    if m < n {
      PowersGrow(m, n - 1);
    }
  }

  // A negative number without ZigZag always takes ten bytes.
  lemma NegativeTakesTen(t: IntType, v: int)
    requires t.Int? && t.signed && !t.zigzag && -Half(t.width) <= v < 0
    ensures |EncodeAs(t, v)| == 10
  {
    RoundTrip(t, v, []);
    var u := ToWire(t, v);
    assert u == v + 0x1_0000_0000_0000_0000;
    CodeHolds(u);
    assert Power128(5) == 0x8_0000_0000;
    assert Power128(9) == 0x8000_0000_0000_0000;
    if |Encode(u)| <= 9 {
      PowersGrow(|Encode(u)|, 9);
    }
  }

  lemma KnownScalar()
    ensures FieldBytes(Scalar(1, INT32, Required), Num(150)) == [0x08, 0x96, 0x01]
  {
    assert Encode(8) == [0x08] && Encode(150) == [0x96, 0x01];
  }

  lemma KnownZigzag()
    ensures FieldBytes(Scalar(2, SINT32, Required), Num(-2)) == [0x10, 0x03]
  {
    ZigzagMeaning(W32, -2);
    assert Encode(16) == [0x10] && Encode(3) == [0x03];
  }

  lemma KnownBool()
    ensures FieldBytes(Scalar(16, Bool, Required), Num(1)) == [0x80, 0x01, 0x01]
  {
    assert Encode(128) == [0x80, 0x01] && Encode(1) == [0x01];
  }

  lemma KnownFixed32()
    ensures FieldBytes(Fixed(3, INT32, Required), Num(-2)) == [0x1d, 0xfe, 0xff, 0xff, 0xff]
  {
    assert -2 % 0x1_0000_0000 == 0xffff_fffe;
    assert LittleEndian(0xffff_fffe, 4) == [0xfe, 0xff, 0xff, 0xff];
    assert Encode(29) == [0x1d];
  }

  lemma KnownFixed64()
    ensures FieldBytes(Fixed(3, INT64, Required), Num(0x102)) == [0x19, 0x02, 0x01, 0, 0, 0, 0, 0, 0]
  {
    StoredAs64();
    assert Encode(25) == [0x19];
  }

  lemma StoredAs64()
    ensures StoreFixed(INT64, 0x102) == [0x02, 0x01, 0, 0, 0, 0, 0, 0]
  {
    assert LittleEndian(0, 6) == [0, 0, 0, 0, 0, 0];
    assert LittleEndian(1, 7) == [1] + LittleEndian(0, 6);
    assert LittleEndian(0x102, 8) == [2] + LittleEndian(1, 7);
  }

  const TESTING: seq<byte> := [0x74, 0x65, 0x73, 0x74, 0x69, 0x6e, 0x67]
  const INNER := Scalar(1, INT32, Required)

  lemma KnownBytes()
    ensures FieldBytes(Bytes(2, Resizable(1), Required), Data(TESTING))
         == [0x12, 0x07, 0x74, 0x65, 0x73, 0x74, 0x69, 0x6e, 0x67]
  {
  }

  lemma InnerFits()
    ensures WellFormed(Message(3, [INNER], Required)) && Fits(Message(3, [INNER], Required), Record([Num(150)]))
  {
  }

  lemma KnownMessage()
    ensures WellFormed(Message(3, [INNER], Required)) && Fits(Message(3, [INNER], Required), Record([Num(150)]))
    ensures FieldBytes(Message(3, [INNER], Required), Record([Num(150)])) == [0x1a, 0x03, 0x08, 0x96, 0x01]
  {
    InnerFits();
    KnownScalar();
    assert FieldsBytes([INNER], [Num(150)], 0) == FieldBytes(INNER, Num(150)) + [];
  }

  const ELEM := Scalar(4, INT32, Required)

  lemma KnownPacked()
    ensures FieldBytes(Repeated(ELEM, Growing), Many([Num(3), Num(270), Num(86942)]))
         == [0x22, 0x06, 0x03, 0x8e, 0x02, 0x9e, 0xa7, 0x05]
  {
    var es := [Num(3), Num(270), Num(86942)];
    assert Encode(3) == [0x03] && Encode(270) == [0x8e, 0x02] && Encode(86942) == [0x9e, 0xa7, 0x05];
    assert PackedBytes(ELEM, es, 2) == [0x9e, 0xa7, 0x05];
    assert PackedBytes(ELEM, es, 1) == [0x8e, 0x02, 0x9e, 0xa7, 0x05];
    assert PackedBytes(ELEM, es, 0) == [0x03, 0x8e, 0x02, 0x9e, 0xa7, 0x05];
  }

  const WORD := Bytes(5, Resizable(1), Required)

  // Every element of an unpacked field has its tag.
  lemma KnownRun()
    ensures FieldBytes(Repeated(WORD, Growing), Many([Data([0x61]), Data([]), Data([0x62, 0x63])]))
         == [0x2a, 0x01, 0x61, 0x2a, 0x00, 0x2a, 0x02, 0x62, 0x63]
  {
    var es := [Data([0x61]), Data([]), Data([0x62, 0x63])];
    assert RunBytes(WORD, es, 2) == [0x2a, 0x02, 0x62, 0x63];
    assert RunBytes(WORD, es, 1) == [0x2a, 0x00, 0x2a, 0x02, 0x62, 0x63];
  }

  const CHOICE := Oneof([Scalar(7, INT32, Required), Scalar(6, INT32, Required)])

  lemma KnownChoice()
    ensures WellFormed(CHOICE) && Conforms(CHOICE, Member(1, Num(2)))
    ensures FieldBytes(CHOICE, Member(1, Num(2))) == [0x30, 0x02]
  {
    assert Encode(48) == [0x30] && Encode(2) == [0x02];
  }

  // Fields are written in the order of declaration, and only the member a oneof holds.
  lemma KnownOrder()
    ensures AllConform([CHOICE, INNER], [Member(1, Num(2)), Num(150)])
    ensures FieldsBytes([CHOICE, INNER], [Member(1, Num(2)), Num(150)], 0) == [0x30, 0x02, 0x08, 0x96, 0x01]
  {
    var fs, vs := [CHOICE, INNER], [Member(1, Num(2)), Num(150)];
    KnownChoice();
    KnownScalar();
    assert AllConform(fs, vs);
    assert FieldsBytes(fs, vs, 1) == [0x08, 0x96, 0x01] + [];
  }
}
