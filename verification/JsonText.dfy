/** JSON values and the text a writer gives them. */
module JsonText {

  type Octet = c: char | c as int < 0x100 witness ' '
  type Text = seq<Octet>

  datatype Json =
    | Null | Bool(b: bool)
    | Number(token: Text)   // the characters of the number
    | Str(bytes: Text)
    | Arr(elems: seq<Json>)
    | Obj(members: seq<Member>)

  datatype Member = Member(key: Text, value: Json)

  predicate IsScope(v: Json) {
    v.Arr? || v.Obj?
  }

  /* ----- strings ----- */

  function HexDigit(n: nat): Octet
    requires n < 16
  {
    ['0', '1', '2', '3', '4', '5', '6', '7', '8', '9', 'A', 'B', 'C', 'D', 'E', 'F'][n]
  }

  predicate NeedsEscape(c: Octet) {
    c < ' ' || c == '"' || c == '\\'
  }

  // The letter after the backslash of an escape.
  function EscapeLetter(c: Octet): Octet
    requires NeedsEscape(c)
  {
    if c as int == 8 then 'b'
    else if c == '\t' then 't'
    else if c == '\n' then 'n'
    else if c as int == 12 then 'f'
    else if c == '\r' then 'r'
    else if c < ' ' then 'u'
    else c
  }

  function Escaped(c: Octet): Text {
    if !NeedsEscape(c) then [c]
    else
      var letter := EscapeLetter(c);
      if letter == 'u' then ['\\', 'u', '0', '0', HexDigit(c as int / 16), HexDigit(c as int % 16)] else ['\\', letter]
  }

  // Control characters are escaped in upper-case hexadecimal unless they have a letter; nothing else needs one.
  lemma KnownEscapes()
    ensures Escaped(0 as char) == "\\u0000" && Escaped(0x1F as char) == "\\u001F" && Escaped(0x1A as char) == "\\u001A"
    ensures Escaped(8 as char) == "\\b" && Escaped(9 as char) == "\\t" && Escaped(10 as char) == "\\n"
    ensures Escaped(12 as char) == "\\f" && Escaped(13 as char) == "\\r" && Escaped('"') == "\\\""
    ensures Escaped('\\') == "\\\\" && Escaped('/') == "/" && Escaped(' ') == " "
    ensures Escaped(0x7F as char) == [0x7F as char]
  {
  }

  function EscapedAll(s: Text): Text {
    if s == [] then [] else Escaped(s[0]) + EscapedAll(s[1..])
  }

  function Quoted(s: Text): Text {
    ['"'] + EscapedAll(s) + ['"']
  }

  // A string of n bytes takes n + 2 to 6n + 2, and the least exactly if no byte needs an escape.
  lemma {:induction false} QuotedSize(s: Text)
    ensures |s| + 2 <= |Quoted(s)| <= 6 * |s| + 2
    ensures |Quoted(s)| == |s| + 2 <==> forall i | 0 <= i < |s| :: !NeedsEscape(s[i])
  {
    if s != [] {
      QuotedSize(s[1..]);
      assert forall i | 0 <= i < |s[1..]| :: s[1..][i] == s[i + 1];
      assert |Quoted(s)| == |Escaped(s[0])| + |Quoted(s[1..])|;
      if forall i | 0 <= i < |s[1..]| :: !NeedsEscape(s[1..][i]) {
        assert forall i | 0 < i < |s| :: s[i] == s[1..][i - 1];
      }
    }
  }

  predicate IsPlain(s: Text) {
    forall i | 0 <= i < |s| :: !NeedsEscape(s[i])
  }

  lemma {:induction false} PlainIsUnchanged(s: Text)
    requires IsPlain(s)
    ensures EscapedAll(s) == s
  {
    if s != [] {
      PlainIsUnchanged(s[1..]);
      assert s == [s[0]] + s[1..];
    }
  }

  /* ----- values ----- */

  // Keys are written as they are (raw) or escaped.
  function KeyText(key: Text, raw: bool): Text {
    if raw then ['"'] + key + ['"'] else Quoted(key)
  }

  function PrimText(v: Json): Text
    requires !IsScope(v)
  {
    match v
    case Null => "null"
    case Bool(b) => if b then "true" else "false"
    case Number(token) => token
    case Str(s) => Quoted(s)
  }

  function ValueText(v: Json, raw: bool): Text
    decreases v, 1
  {
    match v
    case Arr(elems) => ['['] + Joined(ElementTexts(elems, raw)) + [']']
    case Obj(members) => ['{'] + Joined(MemberTexts(members, raw)) + ['}']
    case _ => PrimText(v)
  }

  function ElementTexts(elems: seq<Json>, raw: bool): (r: seq<Text>)
    ensures |r| == |elems|
    decreases elems, 0
  {
    if elems == [] then [] else [ValueText(elems[0], raw)] + ElementTexts(elems[1..], raw)
  }

  function MemberTexts(members: seq<Member>, raw: bool): (r: seq<Text>)
    ensures |r| == |members|
    decreases members, 0
  {
    if members == [] then []
    else [MemberText(members[0], raw)] + MemberTexts(members[1..], raw)
  }

  function MemberText(m: Member, raw: bool): Text
    decreases m
  {
    KeyText(m.key, raw) + [':'] + ValueText(m.value, raw)
  }

  // Items separated by commas ...
  function Joined(items: seq<Text>): Text {
    if items == [] then [] else if |items| == 1 then items[0] else items[0] + [','] + Joined(items[1..])
  }

  // ... and, as they are written, each followed by one.
  function Trailed(items: seq<Text>): Text {
    if items == [] then [] else items[0] + [','] + Trailed(items[1..])
  }

  lemma {:induction false} TrailedIsJoined(items: seq<Text>)
    ensures Trailed(items) == if items == [] then [] else Joined(items) + [',']
  {
    if |items| > 1 {
      TrailedIsJoined(items[1..]);
    }
  }

  /* ----- UTF-8 ----- */

  predicate Between(c: Octet, low: nat, high: nat) {
    low <= c as int <= high
  }

  // The length of the well-formed sequence a text begins with (RFC 3629, section 4), or 0.
  function SequenceLength(s: Text): (n: nat)
    ensures n <= |s| && (n == 1 ==> s[0] as int < 0x80) && (n > 1 ==> forall i | 0 <= i < n :: s[i] as int >= 0x80)
  {
    if s == [] then 0
    else if s[0] as int < 0x80 then 1
    else if Between(s[0], 0xC2, 0xDF) && Continues(s, 1, 0x80, 0xBF) then 2
    else if s[0] as int == 0xE0 && Continues(s, 1, 0xA0, 0xBF) && Continues(s, 2, 0x80, 0xBF) then 3
    else if s[0] as int == 0xED && Continues(s, 1, 0x80, 0x9F) && Continues(s, 2, 0x80, 0xBF) then 3
    else if Between(s[0], 0xE1, 0xEF) && s[0] as int != 0xED && Continues(s, 1, 0x80, 0xBF)
          && Continues(s, 2, 0x80, 0xBF) then 3
    else if s[0] as int == 0xF0 && Continues(s, 1, 0x90, 0xBF) && Continues(s, 2, 0x80, 0xBF)
          && Continues(s, 3, 0x80, 0xBF) then 4
    else if Between(s[0], 0xF1, 0xF3) && Continues(s, 1, 0x80, 0xBF) && Continues(s, 2, 0x80, 0xBF)
          && Continues(s, 3, 0x80, 0xBF) then 4
    else if s[0] as int == 0xF4 && Continues(s, 1, 0x80, 0x8F) && Continues(s, 2, 0x80, 0xBF)
          && Continues(s, 3, 0x80, 0xBF) then 4
    else 0
  }

  predicate Continues(s: Text, i: nat, low: nat, high: nat) {
    i < |s| && Between(s[i], low, high)
  }

  predicate IsUtf8(s: Text)
    decreases |s|
  {
    s == [] || (SequenceLength(s) > 0 && IsUtf8(s[SequenceLength(s)..]))
  }

  lemma SequenceOfFront(s: Text, rest: Text)
    requires SequenceLength(s) > 0
    ensures SequenceLength(s + rest) == SequenceLength(s)
  {
    assert forall i | 0 <= i < |s| :: (s + rest)[i] == s[i];
  }

  lemma Split(a: Text, b: Text, n: nat)
    requires n <= |a|
    ensures (a + b)[..n] == a[..n] && (a + b)[n..] == a[n..] + b
  {
  }

  lemma {:induction false} Utf8Append(a: Text, b: Text)
    requires IsUtf8(a) && IsUtf8(b)
    ensures IsUtf8(a + b)
    decreases |a|
  {
    if a == [] {
      assert a + b == b;
    } else {
      var n := SequenceLength(a);
      SequenceOfFront(a, b);
      Split(a, b, n);
      Utf8Append(a[n..], b);
    }
  }

  lemma Assoc(a: Text, b: Text, c: Text)
    ensures a + (b + c) == a + b + c
  {
  }

  lemma {:induction false} EscapedAllAppend(a: Text, b: Text)
    ensures EscapedAll(a + b) == EscapedAll(a) + EscapedAll(b)
  {
    if a == [] {
      assert a + b == b;
    } else {
      EscapedAllAppend(a[1..], b);
      Split(a, b, 1);
      Assoc(Escaped(a[0]), EscapedAll(a[1..]), EscapedAll(b));
    }
  }
}
