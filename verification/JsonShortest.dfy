/** No JSON text is shorter than the one written with escaped keys; so raw keys are sound only if they are plain. */
module JsonShortest {
  import opened JsonText
  import opened JsonReader
  import opened JsonRoundTrip

  lemma EscapeIsShortest(s: Text)
    requires ReadEscape(s).Parsed?
    ensures var r := ReadEscape(s); |EscapedAll(r.value)| + |r.rest| <= |s| + 1
  {
    var value := ReadEscape(s).value;
    if s[0] == 'u' {
      UnicodeIsShortest(s[1..]);
    } else {
      assert |EscapedAll(value)| == |Escaped(value[0])|;
    }
  }

  lemma UnicodeIsShortest(s: Text)
    requires ReadUnicode(s).Parsed?
    ensures var r := ReadUnicode(s); |EscapedAll(r.value)| + |r.rest| <= |s| + 2
  {
    var value := ReadUnicode(s).value;
    QuotedSize(value);
    if IsPlain(value) {
      PlainIsUnchanged(value);
    } else {
      assert |value| == 1;
    }
  }

  lemma {:induction false} CharsAreShortest(s: Text)
    requires ReadChars(s).Parsed?
    ensures var r := ReadChars(s); |Quoted(r.value)| + |r.rest| <= |s| + 1
    decreases |s|
  {
    if s[0] != '"' {
      var c := if s[0] == '\\' then ReadEscape(s[1..]) else ReadSequence(s);
      CharsAreShortest(c.rest);
      EscapedAllAppend(c.value, ReadChars(c.rest).value);
      if s[0] == '\\' {
        EscapeIsShortest(s[1..]);
      } else {
        SequenceReadsBack(s, SequenceLength(s), []);
      }
    }
  }

  // Whatever is read has a text, and none shorter than what is written for it.
  lemma {:induction false} WrittenIsShortest(s: Text)
    requires ReadValue(s).Parsed?
    ensures var r := ReadValue(s); Writable(r.value, false) && |ValueText(r.value, false)| + |r.rest| <= |s|
    decreases |s|, 0
  {
    if s[0] == '"' {
      CharsAreShortest(s[1..]);
      ReadCharsIsUtf8(s[1..]);
    } else if s[0] == '[' {
      var t := SkipBlanks(s[1..]);
      if ReadElements(t).Parsed? {
        ElementsAreShortest(t);
      }
    } else if s[0] == '{' {
      var t := SkipBlanks(s[1..]);
      if ReadMembers(t).Parsed? {
        MembersAreShortest(t);
      }
    }
  }

  lemma {:induction false} ElementsAreShortest(s: Text)
    requires ReadElements(s).Parsed?
    ensures var r := ReadElements(s);
            r.value != [] && (forall i | 0 <= i < |r.value| :: Writable(r.value[i], false))
            && |Joined(ElementTexts(r.value, false))| + 1 + |r.rest| <= |s|
    decreases |s|, 1
  {
    var first := ReadValue(SkipBlanks(s));
    WrittenIsShortest(SkipBlanks(s));
    var t := SkipBlanks(first.rest);
    if t[0] == ',' {
      ElementsAreShortest(t[1..]);
      var more := ReadElements(t[1..]).value;
      assert ([first.value] + more)[1..] == more;
    } else {
      assert Joined(ElementTexts([first.value], false)) == ValueText(first.value, false);
    }
  }

  lemma {:induction false} MembersAreShortest(s: Text)
    requires ReadMembers(s).Parsed?
    ensures var r := ReadMembers(s);
            r.value != [] && (forall i | 0 <= i < |r.value| :: MemberWritable(r.value[i], false))
            && |Joined(MemberTexts(r.value, false))| + 1 + |r.rest| <= |s|
    decreases |s|, 1
  {
    var first := ReadMember(SkipBlanks(s));
    MemberIsShortest(SkipBlanks(s));
    var t := SkipBlanks(first.rest);
    if t[0] == ',' {
      MembersAreShortest(t[1..]);
      var more := ReadMembers(t[1..]).value;
      assert ([first.value] + more)[1..] == more;
    } else {
      assert Joined(MemberTexts([first.value], false)) == MemberText(first.value, false);
    }
  }

  lemma {:induction false} MemberIsShortest(s: Text)
    requires ReadMember(s).Parsed?
    ensures var r := ReadMember(s); MemberWritable(r.value, false) && |MemberText(r.value, false)| + |r.rest| <= |s|
    decreases |s|, 0
  {
    CharsAreShortest(s[1..]);
    ReadCharsIsUtf8(s[1..]);
    var t := SkipBlanks(ReadChars(s[1..]).rest);
    WrittenIsShortest(SkipBlanks(t[1..]));
  }

  // Raw keys never lengthen a text, and shorten it when one of them needs an escape.
  lemma {:induction false} RawIsShorter(v: Json)
    ensures |ValueText(v, true)| <= |ValueText(v, false)|
    ensures Writable(v, false) && !Writable(v, true) ==> |ValueText(v, true)| < |ValueText(v, false)|
    decreases v
  {
    match v
    case Arr(elems) => RawElementsAreShorter(elems);
    case Obj(members) => RawMembersAreShorter(members);
    case _ =>
  }

  lemma {:induction false} RawElementsAreShorter(elems: seq<Json>)
    ensures |Joined(ElementTexts(elems, true))| <= |Joined(ElementTexts(elems, false))|
    ensures (forall i | 0 <= i < |elems| :: Writable(elems[i], false)) && (exists i | 0 <= i < |elems| ::
          !Writable(elems[i], true)) ==>
              |Joined(ElementTexts(elems, true))| < |Joined(ElementTexts(elems, false))|
    decreases elems
  {
    if elems != [] {
      RawIsShorter(elems[0]);
      RawElementsAreShorter(elems[1..]);
      assert forall i | 0 < i < |elems| :: elems[i] == elems[1..][i - 1];
    }
  }

  lemma {:induction false} RawMembersAreShorter(members: seq<Member>)
    ensures |Joined(MemberTexts(members, true))| <= |Joined(MemberTexts(members, false))|
    ensures (forall i | 0 <= i < |members| :: MemberWritable(members[i], false))
            && (exists i | 0 <= i < |members| :: !MemberWritable(members[i], true)) ==>
              |Joined(MemberTexts(members, true))| < |Joined(MemberTexts(members, false))|
    decreases members
  {
    if members != [] {
      RawIsShorter(members[0].value);
      QuotedSize(members[0].key);
      RawMembersAreShorter(members[1..]);
      assert forall i | 0 < i < |members| :: members[i] == members[1..][i - 1];
    }
  }

  // A tree is read back exactly when its numbers are numbers, its strings and keys UTF-8, and its raw keys free of
  // escapes.
  lemma ReadsBackExactly(v: Json, raw: bool, rest: Text)
    requires v.Number? ==> EndsNumber(rest)
    ensures ReadValue(ValueText(v, raw) + rest) == Parsed(v, rest) <==> Writable(v, raw)
  {
    var s := ValueText(v, raw) + rest;
    if Writable(v, raw) {
      ValueReadsBack(v, raw, rest);
    }
    if ReadValue(s) == Parsed(v, rest) {
      WrittenIsShortest(s);
      RawIsShorter(v);
    }
  }
}
