/** The Content-Type field: what its parser finds, as functions on the text that is left. */
module ContentType {
  import opened Wrappers

  const LWS: set<char> := {' ', '\t'}
  const ENDS_TYPE: set<char> := {' ', '\t', ';', '('}
  const ENDS_NAME: set<char> := {';', '='}
  const SEMICOLON: set<char> := {';'}
  const QUOTE: set<char> := {'"'}
  const SLASH: set<char> := {'/'}

  // Position of the first character from i on that is in stop, or the length.
  function FindOf(s: string, stop: set<char>, i: nat): (r: nat)
    requires i <= |s|
    ensures i <= r <= |s| && (r < |s| ==> s[r] in stop)
    decreases |s| - i
  {
    if i < |s| && s[i] !in stop then FindOf(s, stop, i + 1) else i
  }

  function FindNotOf(s: string, skip: set<char>, i: nat): (r: nat)
    requires i <= |s|
    ensures i <= r <= |s| && (r < |s| ==> s[r] !in skip)
    decreases |s| - i
  {
    if i < |s| && s[i] in skip then FindNotOf(s, skip, i + 1) else i
  }

  // It is the first one.
  lemma {:induction false} NoneBefore(s: string, stop: set<char>, i: nat)
    requires i <= |s|
    ensures forall k | i <= k < FindOf(s, stop, i) :: s[k] !in stop
    decreases |s| - i
  {
    if i < |s| && s[i] !in stop {
      NoneBefore(s, stop, i + 1);
    }
  }

  function SkipLws(s: string): string {
    s[FindNotOf(s, LWS, 0)..]
  }

  // The text before the first character in stop, and the text from there on.
  function Before(s: string, stop: set<char>): string {
    s[..FindOf(s, stop, 0)]
  }

  function From(s: string, stop: set<char>): string {
    s[FindOf(s, stop, 0)..]
  }

  function TrimEnd(s: string): (r: string)
    ensures |r| <= |s| && r == s[..|r|] && (r != [] ==> r[|r| - 1] !in LWS)
  {
    if s != [] && s[|s| - 1] in LWS then TrimEnd(s[..|s| - 1]) else s
  }

  // Without the backslashes that escape a character; one at the end stands for itself.
  function Unescaped(s: string): string {
    if s == [] then []
    else if s[0] == '\\' && |s| > 1 then [s[1]] + Unescaped(s[2..])
    else [s[0]] + Unescaped(s[1..])
  }

  function LowerChar(c: char): char {
    if 'A' <= c <= 'Z' then (c as int + 32) as char else c
  }

  function Lower(s: string): (r: string)
    ensures |r| == |s| && forall i | 0 <= i < |s| :: r[i] == LowerChar(s[i])
  {
    seq(|s|, i requires 0 <= i < |s| => LowerChar(s[i]))
  }

  datatype Param = Param(name: string, value: string)

  // The parameters in a text that is empty or starts at a semicolon.
  function Params(s: string): seq<Param>
    decreases |s|
  {
    if s == [] then []
    else
      var (p, rest) := FirstParam(s);
      if p.Some? then [p.value] + Params(rest) else Params(rest)
  }

  // Up to the next semicolon outside quotation marks; a name or an equals sign without a value counts for nothing.
  function FirstParam(s: string): (r: (Option<Param>, string))
    requires s != []
    ensures |r.1| < |s|
  {
    ParamAt(SkipLws(s[1..]))
  }

  // From the name on.
  function ParamAt(t: string): (r: (Option<Param>, string))
    ensures |r.1| <= |t|
  {
    var u := From(t, ENDS_NAME);
    if u == [] || u[0] == ';' then (None, u) else ParamFrom(Before(t, ENDS_NAME), u[1..])
  }

  // After the equals sign.
  function ParamFrom(name: string, s: string): (r: (Option<Param>, string))
    ensures |r.1| <= |s|
  {
    var v := SkipLws(s);
    if v == [] || v[0] == ';' then (None, v) else (Some(Param(name, ValueAt(v))), AfterValue(v))
  }

  // The value that starts a text, bare or quoted ...
  function ValueAt(v: string): string
    requires v != []
  {
    if v[0] != '"' then TrimEnd(Before(v, SEMICOLON)) else Unescaped(TrimEnd(SkipLws(Before(v[1..], QUOTE))))
  }

  // ... and the text from the next semicolon on.
  function AfterValue(v: string): (r: string)
    requires v != []
    ensures |r| <= |v|
  {
    if v[0] != '"' then From(v, SEMICOLON) else From(From(v[1..], QUOTE), SEMICOLON)
  }

  /* ----- what a field says ----- */

  predicate IsMime(m: string) {
    var q := FindOf(m, SLASH, 0);
    q < |m| && q != 0 && q + 1 != |m| && m != "*/*"
  }

  datatype Parsed = Parsed(mime: string, charset: string, boundary: string)

  // The first charset and the first boundary that are not empty stay.
  function Assign(c: Parsed, p: Param): Parsed {
    if c.charset == "" && Lower(p.name) == "charset" then c.(charset := Lower(p.value))
    else if c.boundary == "" && Lower(p.name) == "boundary" then c.(boundary := p.value)
    else c
  }

  function AssignAll(c: Parsed, ps: seq<Param>): Parsed
    decreases |ps|
  {
    if ps == [] then c else AssignAll(Assign(c, ps[0]), ps[1..])
  }

  // A field whose media type makes no sense is ignored.
  function Interpret(c: Parsed, str: string): Parsed {
    InterpretType(c, SkipLws(str))
  }

  function InterpretType(c: Parsed, t: string): Parsed {
    var m := Before(t, ENDS_TYPE);
    if IsMime(m) then AssignAll(c.(mime := Lower(m)), Params(From(From(t, ENDS_TYPE), SEMICOLON))) else c
  }

  function InterpretAll(c: Parsed, fields: seq<string>): Parsed
    decreases |fields|
  {
    if fields == [] then c else InterpretAll(Interpret(c, fields[0]), fields[1..])
  }

  /* ----- the parser, on positions ----- */

  lemma {:induction false} FindInSuffix(s: string, stop: set<char>, i: nat, j: nat)
    requires i + j <= |s|
    ensures FindOf(s, stop, i + j) == i + FindOf(s[i..], stop, j)
    ensures FindNotOf(s, stop, i + j) == i + FindNotOf(s[i..], stop, j)
    decreases |s| - j
  {
    if i + j < |s| {
      assert s[i..][j] == s[i + j];
      FindInSuffix(s, stop, i, j + 1);
    }
  }

  lemma FromAt(s: string, stop: set<char>, i: nat)
    requires i <= |s|
    ensures From(s[i..], stop) == s[FindOf(s, stop, i)..] && Before(s[i..], stop) == s[i..FindOf(s, stop, i)]
  {
    FindInSuffix(s, stop, i, 0);
  }

  lemma SkipAt(s: string, i: nat)
    requires i <= |s|
    ensures SkipLws(s[i..]) == s[FindNotOf(s, LWS, i)..]
  {
    FindInSuffix(s, LWS, i, 0);
  }

  lemma TypeAt(c: Parsed, str: string, i: nat)
    requires i <= |str|
    ensures var e := FindOf(str, ENDS_TYPE, i);
            var m, d := str[i..e], FindOf(str, SEMICOLON, e);
            InterpretType(c, str[i..]) == if IsMime(m) then AssignAll(c.(mime := Lower(m)), Params(str[d..])) else c
  {
    FromAt(str, ENDS_TYPE, i);
    FromAt(str, SEMICOLON, FindOf(str, ENDS_TYPE, i));
  }

  class HttpFieldContentType {
    var mime: string
    var charset: string
    var boundary: string

    ghost function View(): Parsed
      reads this
    {
      Parsed(mime, charset, boundary)
    }

    constructor ()
      ensures View() == Parsed("", "", "")
    {
      mime, charset, boundary := "", "", "";
    }

    method Parse(str: string)
      modifies this
      ensures View() == Interpret(old(View()), str)
    {
      var mimeBeg := FindNotOf(str, LWS, 0);
      if mimeBeg == |str| {
        return;
      }
      var mimeEnd := FindOf(str, ENDS_TYPE, mimeBeg);
      var mv := str[mimeBeg..mimeEnd];
      TypeAt(View(), str, mimeBeg);
      var q := FindOf(mv, SLASH, 0);
      if q == |mv| || q == 0 || q + 1 == |mv| || mv == "*/*" {
        return;
      }
      mime := Lower(mv);
      ParseParams(str, FindOf(str, SEMICOLON, mimeEnd));
    }

    // From a semicolon on; every round ends at one further on, or at the end.
    method ParseParams(str: string, start: nat)
      requires start <= |str| && (start < |str| ==> str[start] == ';')
      modifies this
      ensures View() == AssignAll(old(View()), Params(str[start..]))
    {
      var offset := start;
      while offset < |str|
        invariant offset <= |str| && (offset < |str| ==> str[offset] == ';')
        invariant AssignAll(View(), Params(str[offset..])) == AssignAll(old(View()), Params(str[start..]))
        decreases |str| - offset
      {
        var p, next := ReadParam(str, offset);
        if p.Some? {
          SetParam(p.value.name, p.value.value);
        }
        offset := next;
      }
    }

    method SetParam(name: string, value: string)
      modifies this
      ensures View() == Assign(old(View()), Param(name, value))
    {
      if charset == "" && Lower(name) == "charset" {
        charset := Lower(value);
      } else if boundary == "" && Lower(name) == "boundary" {
        boundary := value;
      }
    }

    method ParseAll(fields: seq<string>)
      modifies this
      ensures View() == InterpretAll(old(View()), fields)
    {
      for i := 0 to |fields|
        invariant InterpretAll(View(), fields[i..]) == InterpretAll(old(View()), fields)
      {
        assert fields[i..][0] == fields[i] && fields[i..][1..] == fields[i + 1..];
        Parse(fields[i]);
      }
    }
  }

  ghost predicate Found(str: string, p: Option<Param>, next: nat, r: (Option<Param>, string)) {
    var ok := next <= |str| && r.0 == p && r.1 == str[next..];
    ok
  }

  // The parameter after the semicolon at offset, and the position of the next semicolon.
  method ReadParam(str: string, offset: nat) returns (p: Option<Param>, next: nat)
    requires offset < |str|
    ensures offset < next <= |str| && (next < |str| ==> str[next] == ';')
    ensures Found(str, p, next, FirstParam(str[offset..]))
  {
    var nameBeg := FindNotOf(str, LWS, offset + 1);
    NameAt(str, offset);
    p, next := ReadFromName(str, nameBeg);
  }

  method ReadFromName(str: string, nameBeg: nat) returns (p: Option<Param>, next: nat)
    requires nameBeg <= |str|
    ensures nameBeg <= next <= |str| && (next < |str| ==> str[next] == ';')
    ensures Found(str, p, next, ParamAt(str[nameBeg..]))
  {
    var nameEnd := FindOf(str, ENDS_NAME, nameBeg);
    if nameEnd == |str| || str[nameEnd] == ';' {
      NoValue(str, nameBeg);
      return None, nameEnd;
    }
    p, next := ReadNamed(str, str[nameBeg..nameEnd], nameEnd + 1);
    FoundAfterName(str, nameBeg, nameEnd, p, next);
  }

  lemma FoundAfterName(str: string, n: nat, e: nat, p: Option<Param>, next: nat)
    requires n <= |str| && e == FindOf(str, ENDS_NAME, n) && e < |str| && str[e] != ';'
    requires Found(str, p, next, ParamFrom(str[n..e], str[e + 1..]))
    ensures Found(str, p, next, ParamAt(str[n..]))
  {
    NameSplits(str, n, e);
  }

  // The value after the equals sign, for the parameter's name.
  method ReadNamed(str: string, name: string, i: nat) returns (p: Option<Param>, next: nat)
    requires i <= |str|
    ensures i <= next <= |str| && (next < |str| ==> str[next] == ';')
    ensures Found(str, p, next, ParamFrom(name, str[i..]))
  {
    var vbeg := FindNotOf(str, LWS, i);
    SkipAt(str, i);
    if vbeg == |str| || str[vbeg] == ';' {
      return None, vbeg;
    }
    var value;
    value, next := ReadValue(str, vbeg);
    p := Some(Param(name, value));
  }

  lemma NameAt(str: string, offset: nat)
    requires offset < |str|
    ensures FirstParam(str[offset..]) == ParamAt(str[FindNotOf(str, LWS, offset + 1)..])
  {
    assert str[offset..][1..] == str[offset + 1..];
    SkipAt(str, offset + 1);
  }

  lemma NoValue(str: string, n: nat)
    requires n <= |str| && var e := FindOf(str, ENDS_NAME, n); e == |str| || str[e] == ';'
    ensures Found(str, None, FindOf(str, ENDS_NAME, n), ParamAt(str[n..]))
  {
    FromAt(str, ENDS_NAME, n);
  }

  lemma NameSplits(str: string, n: nat, e: nat)
    requires n <= |str| && e == FindOf(str, ENDS_NAME, n) && e < |str| && str[e] != ';'
    ensures ParamAt(str[n..]) == ParamFrom(str[n..e], str[e + 1..])
  {
    FromAt(str, ENDS_NAME, n);
    Past(str, e);
    NameEndsAt(str[n..], str[n..e], str[e..]);
  }

  lemma Past(s: string, i: nat)
    requires i < |s|
    ensures s[i..][0] == s[i] && s[i..][1..] == s[i + 1..]
  {
  }

  lemma NameEndsAt(t: string, name: string, u: string)
    requires Before(t, ENDS_NAME) == name && From(t, ENDS_NAME) == u && u != "" && u[0] != ';'
    ensures ParamAt(t) == ParamFrom(name, u[1..])
  {
  }

  method ReadValue(str: string, vbeg: nat) returns (value: string, next: nat)
    requires vbeg < |str|
    ensures vbeg <= next <= |str| && (next < |str| ==> str[next] == ';')
    ensures value == ValueAt(str[vbeg..]) && str[next..] == AfterValue(str[vbeg..])
  {
    if str[vbeg] != '"' {
      next := FindOf(str, SEMICOLON, vbeg);
      FromAt(str, SEMICOLON, vbeg);
      var vend := TrimBack(str, vbeg, next);
      value := str[vbeg..vend];
    } else {
      value, next := ReadQuoted(str, vbeg);
    }
  }

  // A quoted value ends at the next quotation mark, and what follows it is passed over.
  method ReadQuoted(str: string, vbeg: nat) returns (value: string, next: nat)
    requires vbeg < |str| && str[vbeg] == '"'
    ensures vbeg <= next <= |str| && (next < |str| ==> str[next] == ';')
    ensures value == ValueAt(str[vbeg..]) && str[next..] == AfterValue(str[vbeg..])
  {
    var quote := FindOf(str, QUOTE, vbeg + 1);
    FromAt(str, QUOTE, vbeg + 1);
    Past(str, vbeg);
    NoneBefore(str, QUOTE, vbeg + 1);
    value := Unquote(str, vbeg + 1, quote);
    next := FindOf(str, SEMICOLON, quote);
    FromAt(str, SEMICOLON, quote);
  }

  // Blanks at the end are dropped.
  method TrimBack(str: string, vbeg: nat, end: nat) returns (vend: nat)
    requires vbeg <= end <= |str|
    ensures vbeg <= vend <= end && str[vbeg..vend] == TrimEnd(str[vbeg..end])
  {
    vend := end;
    while vbeg < vend && str[vend - 1] in LWS
      invariant vbeg <= vend <= end
      invariant TrimEnd(str[vbeg..vend]) == TrimEnd(str[vbeg..end])
    {
      assert str[vbeg..vend][..vend - vbeg - 1] == str[vbeg..vend - 1];
      vend := vend - 1;
    }
  }

  // What lies between quotation marks, without blanks at the ends and escaping backslashes.
  method Unquote(str: string, start: nat, end: nat) returns (value: string)
    requires start <= end <= |str| && forall k | start <= k < end :: str[k] != '"'
    ensures value == Unescaped(TrimEnd(SkipLws(str[start..end])))
  {
    var vbeg := TrimFront(str, start, end);
    var vend := TrimBack(str, vbeg, end);
    value := CopyUnescaped(str, vbeg, vend);
  }

  method CopyUnescaped(str: string, start: nat, vend: nat) returns (value: string)
    requires start <= vend <= |str| && forall k | start <= k < vend :: str[k] != '"'
    ensures value == Unescaped(str[start..vend])
  {
    var vbeg := start;
    value := "";
    while vbeg < vend && str[vbeg] != '"'
      invariant start <= vbeg <= vend
      invariant value + Unescaped(str[vbeg..vend]) == Unescaped(str[start..vend])
      decreases vend - vbeg
    {
      value, vbeg := CopyOne(str, vbeg, vend, value);
    }
  }

  // One character more, without a backslash that escapes it.
  method CopyOne(str: string, i: nat, end: nat, before: string) returns (value: string, next: nat)
    requires i < end <= |str|
    ensures i < next <= end && value + Unescaped(str[next..end]) == before + Unescaped(str[i..end])
  {
    var vbeg := i;
    if str[vbeg] == '\\' && vbeg + 1 < end {
      vbeg := vbeg + 1;
    }
    value, next := before + [str[vbeg]], vbeg + 1;
    UnescapeOne(str, i, end);
    Regroup(before, str[vbeg], Unescaped(str[next..end]));
  }

  lemma Regroup(a: string, c: char, b: string)
    ensures a + ([c] + b) == a + [c] + b
  {
  }

  // Where the character after the one at i begins, counting an escape as one character.
  function AfterOne(str: string, i: nat, end: nat): (j: nat)
    requires i < end <= |str|
    ensures i < j <= end
  {
    if str[i] == '\\' && i + 1 < end then i + 2 else i + 1
  }

  lemma UnescapeOne(str: string, i: nat, end: nat)
    requires i < end <= |str|
    ensures var j := AfterOne(str, i, end); Unescaped(str[i..end]) == [str[j - 1]] + Unescaped(str[j..end])
  {
    var s := str[i..end];
    assert s[1..] == str[i + 1..end];
    if s[0] == '\\' && |s| > 1 {
      assert s[2..] == str[i + 2..end];
    }
  }

  // Blanks at the front are dropped.
  method TrimFront(str: string, start: nat, end: nat) returns (vbeg: nat)
    requires start <= end <= |str|
    ensures start <= vbeg <= end && str[vbeg..end] == SkipLws(str[start..end])
  {
    vbeg := start;
    while vbeg < end && str[vbeg] in LWS
      invariant start <= vbeg <= end
      invariant SkipLws(str[vbeg..end]) == SkipLws(str[start..end])
    {
      SkipOne(str[vbeg..end]);
      assert str[vbeg..end][1..] == str[vbeg + 1..end];
      vbeg := vbeg + 1;
    }
  }

  lemma SkipOne(s: string)
    requires s != [] && s[0] in LWS
    ensures SkipLws(s) == SkipLws(s[1..])
  {
    FindInSuffix(s, LWS, 1, 0);
  }
}
