/** A JSON reader after sections 2 to 7 of RFC 8259, on UTF-8 text. */
module JsonReader {
  import opened JsonText

  datatype Parsed<+T> = Parsed(value: T, rest: Text) | Malformed

  predicate IsBlank(c: Octet) {
    c == ' ' || c == '\t' || c == '\n' || c == '\r'
  }

  function SkipBlanks(s: Text): (r: Text)
    ensures |r| <= |s|
    ensures r != [] ==> !IsBlank(r[0])
    ensures s == [] || !IsBlank(s[0]) ==> r == s
  {
    if s != [] && IsBlank(s[0]) then SkipBlanks(s[1..]) else s
  }

  /* ----- strings ----- */

  predicate IsHex(c: Octet) {
    '0' <= c <= '9' || 'A' <= c <= 'F' || 'a' <= c <= 'f'
  }

  function HexValue(c: Octet): (n: nat)
    requires IsHex(c)
    ensures n < 16
  {
    if c <= '9' then c as int - '0' as int
    else if c <= 'F' then c as int - 'A' as int + 10
    else c as int - 'a' as int + 10
  }

  predicate IsHex4(s: Text) {
    |s| >= 4 && IsHex(s[0]) && IsHex(s[1]) && IsHex(s[2]) && IsHex(s[3])
  }

  function Hex4(s: Text): (n: nat)
    requires IsHex4(s)
    ensures n < 0x1_0000
  {
    0x1000 * HexValue(s[0]) + 0x100 * HexValue(s[1]) + 0x10 * HexValue(s[2]) + HexValue(s[3])
  }

  function Utf8(cp: nat): (r: Text)
    requires cp < 0x11_0000
    ensures 1 <= |r| <= 4 && (cp < 0x1_0000 ==> |r| <= 3)
  {
    if cp < 0x80 then [cp as char]
    else if cp < 0x800 then [(0xC0 + cp / 0x40) as char, (0x80 + cp % 0x40) as char]
    else if cp < 0x1_0000 then [(0xE0 + cp / 0x1000) as char, (0x80 + cp / 0x40 % 0x40) as char,
          (0x80 + cp % 0x40) as char]
    else [(0xF0 + cp / 0x4_0000) as char, (0x80 + cp / 0x1000 % 0x40) as char, (0x80 + cp / 0x40 % 0x40) as char,
          (0x80 + cp % 0x40) as char]
  }

  // After \u: a code point, or a pair of surrogates.
  function ReadUnicode(s: Text): (r: Parsed<Text>)
    ensures r.Parsed? ==> |r.rest| + |r.value| < |s|
  {
    if !IsHex4(s) then Malformed
    else
      var hi := Hex4(s);
      if !(0xD800 <= hi < 0xE000) then Parsed(Utf8(hi), s[4..])
      else if hi < 0xDC00 && |s| >= 10 && s[4] == '\\' && s[5] == 'u'
              && IsHex4(s[6..]) && 0xDC00 <= Hex4(s[6..]) < 0xE000 then
        Parsed(Utf8(0x1_0000 + 0x400 * (hi - 0xD800) + (Hex4(s[6..]) - 0xDC00)), s[10..])
      else Malformed
  }

  // After a backslash.
  function ReadEscape(s: Text): (r: Parsed<Text>)
    ensures r.Parsed? ==> |r.rest| + |r.value| <= |s|
  {
    if s == [] then Malformed
    else if s[0] == '"' || s[0] == '\\' || s[0] == '/' then Parsed([s[0]], s[1..])
    else if s[0] == 'b' then Parsed([8 as char], s[1..])
    else if s[0] == 'f' then Parsed([12 as char], s[1..])
    else if s[0] == 'n' then Parsed(['\n'], s[1..])
    else if s[0] == 'r' then Parsed(['\r'], s[1..])
    else if s[0] == 't' then Parsed(['\t'], s[1..])
    else if s[0] == 'u' then ReadUnicode(s[1..])
    else Malformed
  }

  // After the opening quotation mark, through the closing one.
  function ReadChars(s: Text): (r: Parsed<Text>)
    ensures r.Parsed? ==> |r.rest| + |r.value| < |s|
    decreases |s|
  {
    if s == [] then Malformed
    else if s[0] == '"' then Parsed([], s[1..])
    else if s[0] < ' ' then Malformed
    else
      var c := if s[0] == '\\' then ReadEscape(s[1..]) else ReadSequence(s);
      if c.Malformed? then Malformed
      else
        var t := ReadChars(c.rest);
        if t.Malformed? then Malformed else Parsed(c.value + t.value, t.rest)
  }

  // One code point that stands for itself.
  function ReadSequence(s: Text): (r: Parsed<Text>)
    ensures r.Parsed? ==> |r.rest| + |r.value| == |s| && r.value != []
  {
    var n := SequenceLength(s);
    if n == 0 then Malformed else Parsed(s[..n], s[n..])
  }

  /* ----- numbers ----- */

  predicate IsDigit(c: Octet) {
    '0' <= c <= '9'
  }

  predicate AreDigits(s: Text) {
    s != [] && forall i | 0 <= i < |s| :: IsDigit(s[i])
  }

  function DigitRun(s: Text): (n: nat)
    ensures n <= |s|
  {
    if s != [] && IsDigit(s[0]) then 1 + DigitRun(s[1..]) else 0
  }

  // minus? integer fraction? exponent?
  predicate IsNumber(s: Text) {
    var t := if s != [] && s[0] == '-' then s[1..] else s;
    var n := DigitRun(t);
    n > 0 && (t[0] == '0' ==> n == 1) && IsFractionOrExponent(t[n..])
  }

  predicate IsFractionOrExponent(s: Text) {
    if s != [] && s[0] == '.' then
      var n := DigitRun(s[1..]);
      n > 0 && IsExponent(s[1..][n..])
    else IsExponent(s)
  }

  predicate IsExponent(s: Text) {
    s == [] || ((s[0] == 'e' || s[0] == 'E') && AreDigits(if |s| > 1 && (s[1] == '+' || s[1] == '-') then
          s[2..] else s[1..]))
  }

  predicate IsNumberChar(c: Octet) {
    IsDigit(c) || c == '-' || c == '+' || c == '.' || c == 'e' || c == 'E'
  }

  // The length of the longest run of characters that occur in numbers.
  function NumberRun(s: Text): (n: nat)
    ensures n <= |s|
  {
    if s != [] && IsNumberChar(s[0]) then 1 + NumberRun(s[1..]) else 0
  }

  /* ----- values ----- */

  predicate StartsWith(s: Text, word: Text) {
    |word| <= |s| && s[..|word|] == word
  }

  function ReadValue(s: Text): (r: Parsed<Json>)
    ensures r.Parsed? ==> |r.rest| < |s|
    decreases |s|, 0
  {
    if s == [] then Malformed
    else if s[0] == '"' then
      var t := ReadChars(s[1..]);
      if t.Parsed? then Parsed(Str(t.value), t.rest) else Malformed
    else if s[0] == '[' then
      var t := SkipBlanks(s[1..]);
      if t != [] && t[0] == ']' then Parsed(Arr([]), t[1..])
      else
        var es := ReadElements(t);
        if es.Parsed? then Parsed(Arr(es.value), es.rest) else Malformed
    else if s[0] == '{' then
      var t := SkipBlanks(s[1..]);
      if t != [] && t[0] == '}' then Parsed(Obj([]), t[1..])
      else
        var ms := ReadMembers(t);
        if ms.Parsed? then Parsed(Obj(ms.value), ms.rest) else Malformed
    else if StartsWith(s, "null") then Parsed(Null, s[4..])
    else if StartsWith(s, "true") then Parsed(Bool(true), s[4..])
    else if StartsWith(s, "false") then Parsed(Bool(false), s[5..])
    else
      var n := NumberRun(s);
      if n > 0 && IsNumber(s[..n]) then Parsed(Number(s[..n]), s[n..]) else Malformed
  }

  // One or more values through the closing bracket.
  function ReadElements(s: Text): (r: Parsed<seq<Json>>)
    ensures r.Parsed? ==> |r.rest| < |s|
    decreases |s|, 1
  {
    var v := ReadValue(SkipBlanks(s));
    if v.Malformed? then Malformed
    else
      var t := SkipBlanks(v.rest);
      if t != [] && t[0] == ']' then Parsed([v.value], t[1..])
      else if t != [] && t[0] == ',' then
        var more := ReadElements(t[1..]);
        if more.Parsed? then Parsed([v.value] + more.value, more.rest) else Malformed
      else Malformed
  }

  // One or more members through the closing brace.
  function ReadMembers(s: Text): (r: Parsed<seq<Member>>)
    ensures r.Parsed? ==> |r.rest| < |s|
    decreases |s|, 1
  {
    var m := ReadMember(SkipBlanks(s));
    if m.Malformed? then Malformed
    else
      var t := SkipBlanks(m.rest);
      if t != [] && t[0] == '}' then Parsed([m.value], t[1..])
      else if t != [] && t[0] == ',' then
        var more := ReadMembers(t[1..]);
        if more.Parsed? then Parsed([m.value] + more.value, more.rest) else Malformed
      else Malformed
  }

  function ReadMember(s: Text): (r: Parsed<Member>)
    ensures r.Parsed? ==> |r.rest| < |s|
    decreases |s|, 0
  {
    if s == [] || s[0] != '"' then Malformed
    else
      var key := ReadChars(s[1..]);
      if key.Malformed? then Malformed
      else
        var t := SkipBlanks(key.rest);
        if t == [] || t[0] != ':' then Malformed
        else
          var v := ReadValue(SkipBlanks(t[1..]));
          if v.Parsed? then Parsed(Member(key.value, v.value), v.rest) else Malformed
  }
}
