/** Reading what was written gives back the same value. */
module JsonRoundTrip {
  import opened JsonText
  import opened JsonReader

  /* ----- strings ----- */

  lemma EscapeReadsBack(c: Octet, rest: Text)
    requires NeedsEscape(c)
    ensures Escaped(c)[0] == '\\' && ReadEscape((Escaped(c) + rest)[1..]) == Parsed([c], rest)
  {
    var e := Escaped(c);
    var s := (e + rest)[1..];
    assert s[0] == e[1];
    if EscapeLetter(c) == 'u' {
      var t := s[1..];
      assert t == e[2..] + rest;
      HexReadsBack(c, t);
      assert t[4..] == rest;
    } else {
      assert s[1..] == rest;
    }
  }

  lemma HexReadsBack(c: Octet, s: Text)
    requires c < ' ' && |s| >= 4 && s[..4] == ['0', '0', HexDigit(c as int / 16), HexDigit(c as int % 16)]
    ensures IsHex4(s) && Hex4(s) == c as int
  {
    assert s[0] == s[..4][0] && s[1] == s[..4][1] && s[2] == s[..4][2] && s[3] == s[..4][3];
  }

  lemma {:induction false} CharsReadBack(s: Text, rest: Text)
    requires IsUtf8(s)
    ensures ReadChars(EscapedAll(s) + ['"'] + rest) == Parsed(s, rest)
    decreases |s|
  {
    if s == [] {
      assert EscapedAll(s) + ['"'] + rest == ['"'] + rest;
    } else {
      var n := SequenceLength(s);
      var tail := EscapedAll(s[n..]) + ['"'] + rest;
      CharsReadBack(s[n..], rest);
      assert s == s[..n] + s[n..];
      EscapedAllAppend(s[..n], s[n..]);
      Group(EscapedAll(s[..n]), EscapedAll(s[n..]), ['"'], rest);
      FirstReadsBack(s, n, tail);
    }
  }

  lemma Group(a: Text, b: Text, c: Text, d: Text)
    ensures a + b + c + d == a + (b + c + d)
  {
  }

  // The first code point, escaped or not, and what follows it.
  lemma FirstReadsBack(s: Text, n: nat, tail: Text)
    requires n == SequenceLength(s) > 0 && ReadChars(tail).Parsed?
    ensures ReadChars(EscapedAll(s[..n]) + tail) == Parsed(s[..n] + ReadChars(tail).value, ReadChars(tail).rest)
  {
    if NeedsEscape(s[0]) {
      EscapedAlone(s[0]);
      assert s[..n] == [s[0]];
      EscapeReadsBack(s[0], tail);
    } else {
      SequenceReadsBack(s, n, tail);
    }
  }

  lemma EscapedAlone(c: Octet)
    ensures EscapedAll([c]) == Escaped(c)
  {
  }

  // A sequence that needs no escape.
  lemma SequenceReadsBack(s: Text, n: nat, tail: Text)
    requires n == SequenceLength(s) > 0 && !NeedsEscape(s[0])
    ensures IsPlain(s[..n]) && EscapedAll(s[..n]) == s[..n] && ReadSequence(s[..n] + tail) == Parsed(s[..n], tail)
  {
    PlainIsUnchanged(s[..n]);
    SequenceAlone(s, n);
    SequenceOfFront(s[..n], tail);
    Split(s[..n], tail, n);
  }

  lemma SequenceAlone(s: Text, n: nat)
    requires n == SequenceLength(s) > 0
    ensures SequenceLength(s[..n]) == n
  {
    assert forall i | 0 <= i < n :: s[..n][i] == s[i];
  }

  // What is read is UTF-8.
  lemma {:induction false} ReadCharsIsUtf8(s: Text)
    requires ReadChars(s).Parsed?
    ensures IsUtf8(ReadChars(s).value)
    decreases |s|
  {
    if s[0] != '"' {
      var c := if s[0] == '\\' then ReadEscape(s[1..]) else ReadSequence(s);
      ReadCharsIsUtf8(c.rest);
      if s[0] == '\\' {
        ReadEscapeIsUtf8(s[1..]);
      } else {
        SequenceIsUtf8(s);
      }
      Utf8Append(c.value, ReadChars(c.rest).value);
    }
  }

  lemma SequenceIsUtf8(s: Text)
    requires SequenceLength(s) > 0
    ensures IsUtf8(s[..SequenceLength(s)])
  {
    var n := SequenceLength(s);
    SequenceAlone(s, n);
    assert s[..n][n..] == [];
  }

  lemma ReadEscapeIsUtf8(s: Text)
    requires ReadEscape(s).Parsed?
    ensures IsUtf8(ReadEscape(s).value)
  {
    var v := ReadEscape(s).value;
    if s[0] == 'u' {
      ReadUnicodeIsUtf8(s[1..]);
    } else {
      assert v[1..] == [];
    }
  }

  lemma ReadUnicodeIsUtf8(s: Text)
    requires ReadUnicode(s).Parsed?
    ensures IsUtf8(ReadUnicode(s).value)
  {
    var hi := Hex4(s);
    CodePointIsUtf8(if !(0xD800 <= hi < 0xE000) then hi
          else 0x1_0000 + 0x400 * (hi - 0xD800) + (Hex4(s[6..]) - 0xDC00));
  }

  lemma CodePointIsUtf8(cp: nat)
    requires cp < 0x11_0000 && !(0xD800 <= cp < 0xE000)
    ensures IsUtf8(Utf8(cp))
  {
    var u := Utf8(cp);
    assert SequenceLength(u) == |u|;
    assert u[|u|..] == [];
  }

  // A string is read back byte for byte exactly if it is UTF-8.
  lemma StringReadsBack(s: Text, rest: Text)
    ensures ReadValue(Quoted(s) + rest) == Parsed(Str(s), rest) <==> IsUtf8(s)
  {
    Opened('"', EscapedAll(s), '"', rest);
    var t := EscapedAll(s) + ['"'] + rest;
    if IsUtf8(s) {
      CharsReadBack(s, rest);
    }
    if ReadChars(t).Parsed? {
      ReadCharsIsUtf8(t);
    }
  }

  // Past an opening character.
  lemma Opened(open: Octet, body: Text, close: Octet, rest: Text)
    ensures var s := [open] + body + [close] + rest; s[0] == open && s[1..] == body + [close] + rest
  {
  }

  // A string takes at least as many characters as it has bytes, and just as many only when it is plain.
  lemma {:induction false} ReadCharsSize(s: Text)
    requires ReadChars(s).Parsed?
    ensures TakesRoom(s, ReadChars(s))
    decreases |s|
  {
    if s[0] == '\\' {
      ReadCharsSize(ReadEscape(s[1..]).rest);
      EscapeTakesRoom(s, ReadChars(ReadEscape(s[1..]).rest));
    } else if s[0] != '"' {
      var n := SequenceLength(s);
      ReadCharsSize(s[n..]);
      SequenceReadsBack(s, n, []);
      PlainTakesRoom(s, n, ReadChars(s[n..]));
    }
  }

  predicate TakesRoom(s: Text, r: Parsed<Text>) {
    r.Parsed? && |r.rest| + |r.value| < |s|
    && var n := |s| - |r.rest| - 1;
       s[n] == '"' && r.rest == s[n + 1..] && (|r.value| == n ==> r.value == s[..n] && IsPlain(r.value))
  }

  lemma EscapeTakesRoom(s: Text, t: Parsed<Text>)
    requires s != [] && ReadEscape(s[1..]).Parsed? && TakesRoom(ReadEscape(s[1..]).rest, t)
    ensures TakesRoom(s, Parsed(ReadEscape(s[1..]).value + t.value, t.rest))
  {
    var rest := ReadEscape(s[1..]).rest;
    EscapeIsSuffix(s[1..]);
    var k, n := |s| - |rest|, |s| - |t.rest| - 1;
    assert rest == s[k..];
    assert rest[n - k] == s[n] && rest[n - k + 1..] == s[n + 1..];
  }

  lemma PlainTakesRoom(s: Text, k: nat, t: Parsed<Text>)
    requires k <= |s| && IsPlain(s[..k]) && TakesRoom(s[k..], t)
    ensures TakesRoom(s, Parsed(s[..k] + t.value, t.rest))
  {
    var n := |s| - |t.rest| - 1;
    assert s[k..][n - k] == s[n] && s[k..][n - k + 1..] == s[n + 1..];
    assert s[..n] == s[..k] + s[k..][..n - k];
  }

  lemma EscapeIsSuffix(s: Text)
    requires ReadEscape(s).Parsed?
    ensures var r := ReadEscape(s).rest; |r| <= |s| && r == s[|s| - |r|..]
  {
  }

  // A key written as it is, without escapes, is read back just when it is UTF-8 and needs none.
  lemma RawKeyReadsBack(key: Text, rest: Text)
    ensures ReadChars(key + ['"'] + rest) == Parsed(key, rest) <==> IsPlain(key) && IsUtf8(key)
  {
    var s := key + ['"'] + rest;
    if IsPlain(key) && IsUtf8(key) {
      PlainIsUnchanged(key);
      CharsReadBack(key, rest);
    }
    if ReadChars(s) == Parsed(key, rest) {
      ReadCharsIsUtf8(s);
      ReadCharsSize(s);
    }
  }

  /* ----- numbers and words ----- */

  lemma {:induction false} DigitRunIsDigits(s: Text)
    ensures forall i | 0 <= i < DigitRun(s) :: IsDigit(s[i])
  {
    if s != [] && IsDigit(s[0]) {
      DigitRunIsDigits(s[1..]);
      assert forall i | 0 < i < DigitRun(s) :: s[i] == s[1..][i - 1];
    }
  }

  predicate OnlyNumberChars(s: Text) {
    forall i | 0 <= i < |s| :: IsNumberChar(s[i])
  }

  lemma ExponentChars(s: Text)
    requires IsExponent(s)
    ensures OnlyNumberChars(s)
  {
    if s != [] {
      var k := if |s| > 1 && (s[1] == '+' || s[1] == '-') then 2 else 1;
      assert forall i | k <= i < |s| :: s[i] == s[k..][i - k];
    }
  }

  lemma FractionChars(s: Text)
    requires IsFractionOrExponent(s)
    ensures OnlyNumberChars(s)
  {
    if s != [] && s[0] == '.' {
      var t := s[1..];
      var n := DigitRun(t);
      DigitRunIsDigits(t);
      ExponentChars(t[n..]);
      assert s == ['.'] + t[..n] + t[n..];
    } else {
      ExponentChars(s);
    }
  }

  lemma NumberChars(s: Text)
    requires IsNumber(s)
    ensures OnlyNumberChars(s) && s != [] && (s[0] == '-' || IsDigit(s[0]))
  {
    var t := if s[0] == '-' then s[1..] else s;
    var n := DigitRun(t);
    DigitRunIsDigits(t);
    FractionChars(t[n..]);
    assert t == t[..n] + t[n..];
    assert s == s[..|s| - |t|] + t;
  }

  // Where a number could not go on.
  predicate EndsNumber(rest: Text) {
    rest == [] || !IsNumberChar(rest[0])
  }

  lemma {:induction false} NumberRunStops(s: Text, rest: Text)
    requires OnlyNumberChars(s) && EndsNumber(rest)
    ensures NumberRun(s + rest) == |s|
  {
    if s == [] {
      assert s + rest == rest;
    } else {
      NumberRunStops(s[1..], rest);
      assert (s + rest)[1..] == s[1..] + rest;
    }
  }

  lemma NumberReadsBack(token: Text, rest: Text)
    requires IsNumber(token) && EndsNumber(rest)
    ensures ReadValue(token + rest) == Parsed(Number(token), rest)
  {
    var s := token + rest;
    NumberChars(token);
    NumberRunStops(token, rest);
    assert s[..|token|] == token && s[|token|..] == rest;
    WordsStartWithLetters(s);
  }

  lemma WordsStartWithLetters(s: Text)
    requires s != []
    ensures StartsWith(s, "null") ==> s[0] == 'n'
    ensures StartsWith(s, "true") ==> s[0] == 't'
    ensures StartsWith(s, "false") ==> s[0] == 'f'
  {
    if StartsWith(s, "null") { assert s[..4][0] == 'n'; }
    if StartsWith(s, "true") { assert s[..4][0] == 't'; }
    if StartsWith(s, "false") { assert s[..5][0] == 'f'; }
  }

  lemma WordReadsBack(v: Json, rest: Text)
    requires v.Null? || v.Bool?
    ensures ReadValue(PrimText(v) + rest) == Parsed(v, rest)
  {
    var s := PrimText(v) + rest;
    var n := |PrimText(v)|;
    assert s[..n] == PrimText(v) && s[n..] == rest;
    assert s[0] == PrimText(v)[0];
    WordsStartWithLetters(s);
  }

  /* ----- trees ----- */

  // What a tree must satisfy to be written as JSON: numbers are numbers, strings and keys are UTF-8, and raw keys
  // need no escape.
  predicate Writable(v: Json, raw: bool) {
    match v
    case Number(token) => IsNumber(token)
    case Str(bytes) => IsUtf8(bytes)
    case Arr(elems) => forall i | 0 <= i < |elems| :: Writable(elems[i], raw)
    case Obj(members) => forall i | 0 <= i < |members| :: MemberWritable(members[i], raw)
    case _ => true
  }

  lemma StartsAtOnce(v: Json, raw: bool)
    requires Writable(v, raw)
    ensures var s := ValueText(v, raw); s != [] && !IsBlank(s[0]) && s[0] != ']'
  {
    if v.Number? {
      NumberChars(v.token);
    }
  }

  lemma {:induction false} ValueReadsBack(v: Json, raw: bool, rest: Text)
    requires Writable(v, raw) && (v.Number? ==> EndsNumber(rest))
    ensures ReadValue(ValueText(v, raw) + rest) == Parsed(v, rest)
    decreases v, 1
  {
    match v
    case Null => WordReadsBack(v, rest);
    case Bool(_) => WordReadsBack(v, rest);
    case Number(token) => NumberReadsBack(token, rest);
    case Str(s) => StringReadsBack(s, rest);
    case Arr(elems) => ArrayReadsBack(v, raw, rest);
    case Obj(members) => ObjectReadsBack(v, raw, rest);
  }

  lemma {:induction false} ArrayReadsBack(v: Json, raw: bool, rest: Text)
    requires v.Arr? && Writable(v, raw)
    ensures ReadValue(ValueText(v, raw) + rest) == Parsed(v, rest)
    decreases v, 0
  {
    var body := Joined(ElementTexts(v.elems, raw));
    Opened('[', body, ']', rest);
    if v.elems != [] {
      ElementsReadBack(v.elems, raw, rest);
    }
    ReadArray(['['] + body + [']'] + rest, body + [']'] + rest);
  }

  lemma ReadArray(s: Text, t: Text)
    requires s != [] && s[0] == '[' && s[1..] == t && t != [] && !IsBlank(t[0])
    ensures t[0] == ']' ==> ReadValue(s) == Parsed(Arr([]), t[1..])
    ensures t[0] != ']' && ReadElements(t).Parsed? ==>
              ReadValue(s) == Parsed(Arr(ReadElements(t).value), ReadElements(t).rest)
  {
  }

  // Items and what closes their scope: the first item, then a comma and the others.
  lemma FirstItem(items: seq<Text>, close: Octet, rest: Text)
    requires items != []
    ensures var s := Joined(items) + [close] + rest; var after := AfterFirst(items, close, rest);
            s == items[0] + after
            && after[1..] == (if |items| == 1 then rest else Joined(items[1..]) + [close] + rest)
  {
    if |items| > 1 {
      Regroup(items[0], [','], Joined(items[1..]), [close], rest);
    }
  }

  lemma Regroup(a: Text, b: Text, c: Text, d: Text, e: Text)
    ensures a + b + c + d + e == a + (b + (c + d + e))
  {
  }

  function AfterFirst(items: seq<Text>, close: Octet, rest: Text): Text
    requires items != []
  {
    if |items| == 1 then [close] + rest else [','] + (Joined(items[1..]) + [close] + rest)
  }

  lemma {:induction false} ElementsReadBack(elems: seq<Json>, raw: bool, rest: Text)
    requires elems != [] && forall i | 0 <= i < |elems| :: Writable(elems[i], raw)
    ensures var s := Joined(ElementTexts(elems, raw)) + [']'] + rest;
            ReadElements(s) == Parsed(elems, rest) && !IsBlank(s[0]) && s[0] != ']'
    decreases elems
  {
    var items := ElementTexts(elems, raw);
    var s, after := Joined(items) + [']'] + rest, AfterFirst(items, ']', rest);
    FirstItem(items, ']', rest);
    StartsAtOnce(elems[0], raw);
    ValueReadsBack(elems[0], raw, after);
    FirstElement(s, elems[0], after);
    if |elems| == 1 {
      assert elems == [elems[0]];
    } else {
      assert elems == [elems[0]] + elems[1..];
      ElementsReadBack(elems[1..], raw, rest);
    }
  }

  lemma FirstElement(s: Text, v: Json, after: Text)
    requires s != [] && !IsBlank(s[0]) && ReadValue(s) == Parsed(v, after)
    ensures after != [] && after[0] == ']' ==> ReadElements(s) == Parsed([v], after[1..])
    ensures after != [] && after[0] == ',' && ReadElements(after[1..]).Parsed? ==>
              ReadElements(s) == Parsed([v] + ReadElements(after[1..]).value, ReadElements(after[1..]).rest)
  {
  }

  lemma {:induction false} ObjectReadsBack(v: Json, raw: bool, rest: Text)
    requires v.Obj? && Writable(v, raw)
    ensures ReadValue(ValueText(v, raw) + rest) == Parsed(v, rest)
    decreases v, 0
  {
    var body := Joined(MemberTexts(v.members, raw));
    Opened('{', body, '}', rest);
    if v.members != [] {
      MembersReadBack(v.members, raw, rest);
    }
    ReadObject(['{'] + body + ['}'] + rest, body + ['}'] + rest);
  }

  lemma ReadObject(s: Text, t: Text)
    requires s != [] && s[0] == '{' && s[1..] == t && t != [] && !IsBlank(t[0])
    ensures t[0] == '}' ==> ReadValue(s) == Parsed(Obj([]), t[1..])
    ensures t[0] != '}' && ReadMembers(t).Parsed? ==>
              ReadValue(s) == Parsed(Obj(ReadMembers(t).value), ReadMembers(t).rest)
  {
  }

  predicate MemberWritable(m: Member, raw: bool) {
    IsUtf8(m.key) && (raw ==> IsPlain(m.key)) && Writable(m.value, raw)
  }

  lemma {:induction false} MembersReadBack(members: seq<Member>, raw: bool, rest: Text)
    requires members != [] && forall i | 0 <= i < |members| :: MemberWritable(members[i], raw)
    ensures var s := Joined(MemberTexts(members, raw)) + ['}'] + rest;
            ReadMembers(s) == Parsed(members, rest) && s[0] == '"'
    decreases members
  {
    var items := MemberTexts(members, raw);
    var after := AfterFirst(items, '}', rest);
    FirstItem(items, '}', rest);
    FirstMember(members[0], raw, after);
    if |members| == 1 {
      assert members == [members[0]];
    } else {
      MembersReadBack(members[1..], raw, rest);
      assert members == [members[0]] + members[1..];
    }
  }

  lemma {:induction false} FirstMember(m: Member, raw: bool, after: Text)
    requires MemberWritable(m, raw) && EndsNumber(after) && after != []
    ensures var s := MemberText(m, raw) + after;
            && s[0] == '"' && (after[0] == '}' ==> ReadMembers(s) == Parsed([m], after[1..]))
            && (after[0] == ',' && ReadMembers(after[1..]).Parsed? ==>
                  ReadMembers(s) == Parsed([m] + ReadMembers(after[1..]).value, ReadMembers(after[1..]).rest))
    decreases m, 1
  {
    MemberReadsBack(m, raw, after);
  }

  lemma {:induction false} MemberReadsBack(m: Member, raw: bool, after: Text)
    requires MemberWritable(m, raw) && EndsNumber(after)
    ensures var s := MemberText(m, raw) + after; s[0] == '"' && ReadMember(s) == Parsed(m, after)
    decreases m, 0
  {
    var v := ValueText(m.value, raw) + after;
    var s := KeyText(m.key, raw) + ([':'] + v);
    assert MemberText(m, raw) + after == s;
    KeyReadsBack(m.key, raw, [':'] + v);
    StartsAtOnce(m.value, raw);
    ValueReadsBack(m.value, raw, after);
    KeyThenValue(s, m.key, v);
  }

  lemma KeyThenValue(s: Text, key: Text, v: Text)
    requires s != [] && s[0] == '"' && ReadChars(s[1..])
          == Parsed(key, [':'] + v) && v != [] && !IsBlank(v[0]) && ReadValue(v).Parsed?
    ensures ReadMember(s) == Parsed(Member(key, ReadValue(v).value), ReadValue(v).rest)
  {
    assert ([':'] + v)[1..] == v;
  }

  lemma KeyReadsBack(key: Text, raw: bool, rest: Text)
    requires IsUtf8(key) && (raw ==> IsPlain(key))
    ensures var s := KeyText(key, raw) + rest; s[0] == '"' && ReadChars(s[1..]) == Parsed(key, rest)
  {
    Opened('"', if raw then key else EscapedAll(key), '"', rest);
    if raw {
      RawKeyReadsBack(key, rest);
    } else {
      CharsReadBack(key, rest);
    }
  }
}
