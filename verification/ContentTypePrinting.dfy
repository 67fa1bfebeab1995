/** Printing a media type with parameters, and what parsing makes of it. */
module ContentTypePrinting {
  import opened Wrappers
  import opened ContentType

  // A parameter, bare or quoted, with the blanks around it: after the semicolon, after the equals sign, at the end.
  datatype Item = Item(pre: string, name: string, mid: string, value: string, quoted: bool, post: string)

  function EscapedChar(c: char): string {
    if c == '"' || c == '\\' then ['\\', c] else [c]
  }

  function Escaped(s: string): string {
    if s == "" then "" else EscapedChar(s[0]) + Escaped(s[1..])
  }

  function ValueText(value: string, quoted: bool): string {
    if quoted then ['"'] + Escaped(value) + ['"'] else value
  }

  function ItemText(it: Item): string {
    [';'] + (it.pre + (it.name + (['='] + (it.mid + (ValueText(it.value, it.quoted) + it.post)))))
  }

  function ItemsText(items: seq<Item>): string {
    if items == [] then "" else ItemText(items[0]) + ItemsText(items[1..])
  }

  function ParamsOf(items: seq<Item>): seq<Param> {
    if items == [] then [] else [Param(items[0].name, items[0].value)] + ParamsOf(items[1..])
  }

  predicate IsBlank(c: char) {
    c == ' ' || c == '\t'
  }

  predicate AreBlank(s: string) {
    forall k | 0 <= k < |s| :: IsBlank(s[k])
  }

  predicate Lacks(s: string, stop: set<char>) {
    forall k | 0 <= k < |s| :: s[k] !in stop
  }

  // What may stand before the next semicolon: blanks after a bare value, anything after a quotation mark.
  predicate IsPost(post: string, quoted: bool) {
    if quoted then Lacks(post, SEMICOLON) else AreBlank(post)
  }

  predicate IsName(s: string) {
    (forall k | 0 <= k < |s| :: s[k] != '=' && s[k] != ';') && (s != "" ==> !IsBlank(s[0]))
  }

  // Blanks are where blanks may be, and the name has no '=', ';' or blank in front.
  predicate IsNamed(it: Item) {
    AreBlank(it.pre) && AreBlank(it.mid) && IsPost(it.post, it.quoted) && IsName(it.name)
  }

  predicate NoBlankEnds(s: string) {
    s != "" ==> !IsBlank(s[0]) && !IsBlank(s[|s| - 1])
  }

  // What a value must be like in its form.
  predicate FitsForm(value: string, quoted: bool) {
    && NoBlankEnds(value)
    && if quoted then Lacks(value, QUOTE) else value != "" && value[0] != '"' && Lacks(value, SEMICOLON)
  }

  // The text that follows a parameter.
  predicate IsTail(rest: string) {
    rest != "" ==> rest[0] == ';'
  }

  /* ----- finding ----- */

  lemma {:induction false} FindAfter(a: string, rest: string, stop: set<char>)
    requires Lacks(a, stop) && (rest != "" ==> rest[0] in stop)
    ensures Before(a + rest, stop) == a && From(a + rest, stop) == rest
  {
    FindPast(a, rest, stop, 0);
  }

  lemma {:induction false} FindPast(a: string, rest: string, stop: set<char>, i: nat)
    requires i <= |a| && Lacks(a, stop) && (rest != "" ==> rest[0] in stop)
    ensures FindOf(a + rest, stop, i) == |a|
    decreases |a| - i
  {
    if i < |a| {
      assert (a + rest)[i] == a[i];
      FindPast(a, rest, stop, i + 1);
    }
  }

  lemma {:induction false} SkipPast(b: string, rest: string)
    requires AreBlank(b)
    ensures SkipLws(b + rest) == SkipLws(rest)
  {
    if b == "" {
      assert b + rest == rest;
    } else {
      SkipPast(b[1..], rest);
      assert (b + rest)[1..] == b[1..] + rest;
      SkipOne(b + rest);
    }
  }

  lemma {:induction false} TrimBlanks(s: string, b: string)
    requires AreBlank(b)
    ensures TrimEnd(s + b) == TrimEnd(s)
  {
    if b == "" {
      assert s + b == s;
    } else {
      TrimBlanks(s, b[..|b| - 1]);
      assert (s + b)[..|s + b| - 1] == s + b[..|b| - 1];
    }
  }

  /* ----- quoted values ----- */

  lemma {:induction false} UnescapeEscaped(s: string)
    ensures Unescaped(Escaped(s)) == s
  {
    if s != "" {
      UnescapeEscaped(s[1..]);
      var e := Escaped(s);
      if s[0] == '"' || s[0] == '\\' {
        assert e[2..] == Escaped(s[1..]);
      } else {
        assert e[1..] == Escaped(s[1..]);
      }
      assert s == [s[0]] + s[1..];
    }
  }

  // Any other character may be escaped too, and a backslash at the end stands for itself.
  lemma {:induction false} BackslashPasses(a: string, c: char, b: string)
    requires Lacks(a, {'\\'})
    ensures Unescaped(a + ['\\', c] + b) == a + [c] + Unescaped(b)
    ensures Unescaped(a + ['\\']) == a + ['\\']
  {
    if a == "" {
      assert (a + ['\\', c] + b)[2..] == b;
      assert a + ['\\'] == ['\\'];
    } else {
      BackslashPasses(a[1..], c, b);
      assert (a + ['\\', c] + b)[1..] == a[1..] + ['\\', c] + b;
      assert (a + ['\\'])[1..] == a[1..] + ['\\'];
    }
  }

  lemma {:induction false} SkipCommutes(s: string)
    ensures SkipLws(Escaped(s)) == Escaped(SkipLws(s))
  {
    if s != "" && s[0] in LWS {
      SkipCommutes(s[1..]);
      assert Escaped(s)[1..] == Escaped(s[1..]);
      SkipOne(s);
      SkipOne(Escaped(s));
    }
  }

  lemma Assoc(a: string, b: string, c: string)
    ensures a + (b + c) == a + b + c
  {
  }

  lemma {:induction false} EscapedAppend(a: string, b: string)
    ensures Escaped(a + b) == Escaped(a) + Escaped(b)
  {
    if a == "" {
      assert a + b == b;
    } else {
      EscapedAppend(a[1..], b);
      assert (a + b)[0] == a[0] && (a + b)[1..] == a[1..] + b;
      Assoc(EscapedChar(a[0]), Escaped(a[1..]), Escaped(b));
    }
  }

  lemma {:induction false} TrimCommutes(s: string)
    ensures TrimEnd(Escaped(s)) == Escaped(TrimEnd(s))
  {
    if s != "" {
      var front, c := s[..|s| - 1], s[|s| - 1];
      EscapedAppend(front, [c]);
      assert s == front + [c];
      assert Escaped([c]) == EscapedChar(c);
      if c in LWS {
        TrimCommutes(front);
        assert Escaped(s)[..|Escaped(s)| - 1] == Escaped(front);
      }
    }
  }

  lemma {:induction false} EscapedLacksQuote(s: string)
    requires Lacks(s, QUOTE)
    ensures Lacks(Escaped(s), QUOTE)
  {
    if s != "" {
      EscapedLacksQuote(s[1..]);
    }
  }

  // A quoted value without quotation marks in it is read without the blanks at its ends.
  lemma QuotedValue(value: string, after: string)
    requires Lacks(value, QUOTE)
    ensures var v := ['"'] + Escaped(value) + ['"'] + after;
            ValueAt(v) == TrimEnd(SkipLws(value)) && AfterValue(v) == From(['"'] + after, SEMICOLON)
  {
    var v := ['"'] + Escaped(value) + ['"'] + after;
    assert v[1..] == Escaped(value) + (['"'] + after);
    EscapedLacksQuote(value);
    FindAfter(Escaped(value), ['"'] + after, QUOTE);
    SkipCommutes(value);
    TrimCommutes(SkipLws(value));
    UnescapeEscaped(TrimEnd(SkipLws(value)));
  }

  // Without the closing quotation mark the value goes on to the end.
  lemma UnclosedValue(value: string)
    requires Lacks(value, QUOTE)
    ensures var v := ['"'] + Escaped(value); ValueAt(v) == TrimEnd(SkipLws(value)) && AfterValue(v) == ""
  {
    var v := ['"'] + Escaped(value);
    assert v[1..] == Escaped(value) + "";
    EscapedLacksQuote(value);
    FindAfter(Escaped(value), "", QUOTE);
    SkipCommutes(value);
    TrimCommutes(SkipLws(value));
    UnescapeEscaped(TrimEnd(SkipLws(value)));
  }

  lemma StripsNothing(s: string)
    ensures TrimEnd(SkipLws(s)) == s <==> NoBlankEnds(s)
  {
    if s != "" && s[0] in LWS {
      SkipOne(s);
    }
  }

  lemma {:induction false} UnescapedKeepsOut(s: string, stop: set<char>)
    requires Lacks(s, stop)
    ensures Lacks(Unescaped(s), stop)
  {
    if s != "" {
      if s[0] == '\\' && |s| > 1 {
        UnescapedKeepsOut(s[2..], stop);
      } else {
        UnescapedKeepsOut(s[1..], stop);
      }
    }
  }

  // No value read from quotation marks contains one.
  lemma ValueLacksQuote(v: string)
    requires v != "" && v[0] == '"'
    ensures Lacks(ValueAt(v), QUOTE)
  {
    NoneBefore(v[1..], QUOTE, 0);
    UnescapedKeepsOut(TrimEnd(SkipLws(Before(v[1..], QUOTE))), QUOTE);
  }

  /* ----- values ----- */

  lemma BlanksLackSemicolons(b: string)
    requires AreBlank(b)
    ensures Lacks(b, SEMICOLON)
  {
  }

  // A value that fits its form is read as it was, up to the next parameter.
  lemma ValueReadsBack(value: string, quoted: bool, post: string, rest: string)
    requires FitsForm(value, quoted) && IsPost(post, quoted) && IsTail(rest)
    ensures Reads(ValueText(value, quoted) + (post + rest), value, rest)
  {
    if quoted {
      QuotedReadsBack(value, post, rest);
    } else {
      BlanksLackSemicolons(post);
      BareReadsBack(value, post, rest);
    }
  }

  // A value stands at the start of a text, and this follows it.
  predicate Reads(v: string, value: string, rest: string) {
    v != "" && v[0] !in LWS && v[0] != ';' && ValueAt(v) == value && AfterValue(v) == rest
  }

  lemma QuotedReadsBack(value: string, post: string, rest: string)
    requires FitsForm(value, true) && Lacks(post, SEMICOLON) && IsTail(rest)
    ensures Reads(['"'] + Escaped(value) + ['"'] + (post + rest), value, rest)
  {
    QuotedValue(value, post + rest);
    StripsNothing(value);
    AfterQuote(post, rest);
    BeginsQuoted(Escaped(value), post + rest);
  }

  lemma BeginsQuoted(value: string, after: string)
    ensures var v := ['"'] + value + ['"'] + after; v != "" && v[0] == '"' && v[0] !in LWS && v[0] != ';'
  {
  }

  lemma AfterQuote(post: string, rest: string)
    requires Lacks(post, SEMICOLON) && IsTail(rest)
    ensures From(['"'] + (post + rest), SEMICOLON) == rest
  {
    assert ['"'] + (post + rest) == (['"'] + post) + rest;
    FindAfter(['"'] + post, rest, SEMICOLON);
  }

  lemma BareReadsBack(value: string, post: string, rest: string)
    requires FitsForm(value, false) && AreBlank(post) && Lacks(post, SEMICOLON) && IsTail(rest)
    ensures Reads(value + (post + rest), value, rest)
  {
    assert value + (post + rest) == (value + post) + rest;
    FindAfter(value + post, rest, SEMICOLON);
    TrimBlanks(value, post);
  }

  // Any other value is not: a bare one loses or changes something, or counts for nothing ...
  lemma BareValueChanges(value: string, post: string, rest: string)
    requires !FitsForm(value, false) && AreBlank(post) && IsTail(rest)
    ensures var v := SkipLws(value + (post + rest)); v == "" || v[0] == ';' || ValueAt(v) != value
  {
    var v := SkipLws(value + (post + rest));
    if v != "" && v[0] != ';' {
      if v[0] == '"' {
        ValueLacksQuote(v);
        BlanksThenTail(value, post, rest);
      } else {
        BareValueFits(v);
      }
    }
  }

  lemma BareValueFits(v: string)
    requires v != "" && v[0] !in LWS && v[0] != ';' && v[0] != '"'
    ensures FitsForm(ValueAt(v), false)
  {
    NoneBefore(v, SEMICOLON, 0);
    TrimKeepsFirst(Before(v, SEMICOLON));
  }

  lemma {:induction false} TrimKeepsFirst(s: string)
    requires s != "" && s[0] !in LWS
    ensures TrimEnd(s) != ""
  {
    if s[|s| - 1] in LWS {
      TrimKeepsFirst(s[..|s| - 1]);
    }
  }

  // Skipping drops a blank prefix.
  lemma {:induction false} SkipStart(s: string)
    ensures var v := SkipLws(s); |v| <= |s| && v == s[|s| - |v|..] && AreBlank(s[..|s| - |v|])
  {
    if s != "" && s[0] in LWS {
      SkipStart(s[1..]);
      SkipOne(s);
      var v := SkipLws(s);
      assert s[..|s| - |v|] == [s[0]] + s[1..][..|s| - 1 - |v|];
    }
  }

  // What is found after skipping lies in the value, or is the next parameter.
  lemma BlanksThenTail(value: string, post: string, rest: string)
    requires AreBlank(post) && IsTail(rest)
    ensures var v := SkipLws(value + (post + rest)); v != "" && v[0] != ';' ==> v[0] in value
  {
    var v := SkipLws(value + (post + rest));
    SkipStart(value);
    if SkipLws(value) == "" {
      assert AreBlank(value);
      SkipPast(value, post + rest);
      SkipPast(post, rest);
    } else {
      var k := |value| - |SkipLws(value)|;
      assert value + (post + rest) == value[..k] + (value[k..] + (post + rest));
      SkipPast(value[..k], value[k..] + (post + rest));
      assert value[k] !in LWS;
    }
  }

  // ... and a quoted one loses blanks or ends at a quotation mark.
  lemma QuotedValueChanges(value: string, after: string)
    requires !FitsForm(value, true)
    ensures ValueAt(['"'] + Escaped(value) + ['"'] + after) != value
  {
    if Lacks(value, QUOTE) {
      QuotedValue(value, after);
      StripsNothing(value);
    } else {
      ValueLacksQuote(['"'] + Escaped(value) + ['"'] + after);
    }
  }

  /* ----- parameters ----- */

  lemma AfterSemicolon(pre: string, t: string)
    requires AreBlank(pre) && (t != "" ==> t[0] !in LWS)
    ensures FirstParam([';'] + (pre + t)) == ParamAt(t)
  {
    var s := [';'] + (pre + t);
    assert s[1..] == pre + t;
    SkipPast(pre, t);
  }

  // Up to the value, a printed parameter is read as it was.
  lemma NameReadsBack(it: Item, rest: string)
    requires IsNamed(it)
    ensures var v := ValueText(it.value, it.quoted) + (it.post + rest);
            ItemText(it) + rest != "" && FirstParam(ItemText(it) + rest) == ParamFrom(it.name, it.mid + v)
  {
    var w := it.mid + (ValueText(it.value, it.quoted) + (it.post + rest));
    ItemGroups(it.pre, it.name, it.mid, ValueText(it.value, it.quoted), it.post, rest);
    NameStarts(it.name, w);
    AfterSemicolon(it.pre, it.name + (['='] + w));
    NamedReadsBack(it.name, w);
  }

  lemma NameStarts(name: string, w: string)
    requires name != "" ==> name[0] !in LWS
    ensures var t := name + (['='] + w); t != "" && t[0] !in LWS
  {
  }

  lemma NamedReadsBack(name: string, w: string)
    requires IsName(name)
    ensures ParamAt(name + (['='] + w)) == ParamFrom(name, w)
  {
    var u := ['='] + w;
    FindAfter(name, u, ENDS_NAME);
    assert u[1..] == w;
  }

  lemma ItemGroups(pre: string, name: string, mid: string, value: string, post: string, rest: string)
    ensures [';'] + (pre + (name + (['='] + (mid + (value + post))))) + rest
         == [';'] + (pre + (name + (['='] + (mid + (value + (post + rest))))))
  {
    Assoc(value, post, rest);
    Assoc(mid, value + post, rest);
    Assoc(['='], mid + (value + post), rest);
    Assoc(name, ['='] + (mid + (value + post)), rest);
    Assoc(pre, name + (['='] + (mid + (value + post))), rest);
    Assoc([';'], pre + (name + (['='] + (mid + (value + post)))), rest);
  }

  // A parameter is read back exactly when its value fits the form it is printed in.
  lemma ItemReadsBackExactly(it: Item, rest: string)
    requires IsNamed(it) && IsTail(rest)
    ensures FirstParam(ItemText(it) + rest) == (Some(Param(it.name, it.value)), rest) <==> FitsForm(it.value, it.quoted)
  {
    var v := ValueText(it.value, it.quoted) + (it.post + rest);
    NameReadsBack(it, rest);
    SkipPast(it.mid, v);
    if FitsForm(it.value, it.quoted) {
      ValueReadsBack(it.value, it.quoted, it.post, rest);
    } else {
      ValueChanges(it.value, it.quoted, it.post, rest);
    }
  }

  lemma ValueChanges(value: string, quoted: bool, post: string, rest: string)
    requires !FitsForm(value, quoted) && IsPost(post, quoted) && IsTail(rest)
    ensures var v := SkipLws(ValueText(value, quoted) + (post + rest)); v == "" || v[0] == ';' || ValueAt(v) != value
  {
    if quoted {
      QuotedValueChanges(value, post + rest);
    } else {
      BareValueChanges(value, post, rest);
    }
  }

  // A name without an equals sign counts for nothing, nor does one with nothing but blanks after it.
  lemma NoEqualsNoParam(pre: string, name: string, rest: string)
    requires AreBlank(pre) && IsName(name) && name != "" && IsTail(rest)
    ensures Params([';'] + (pre + (name + rest))) == Params(rest)
  {
    AfterSemicolon(pre, name + rest);
    FindAfter(name, rest, ENDS_NAME);
  }

  lemma NoValueNoParam(pre: string, name: string, mid: string, rest: string)
    requires AreBlank(pre) && AreBlank(mid) && IsName(name) && IsTail(rest)
    ensures Params([';'] + (pre + (name + (['='] + (mid + rest))))) == Params(rest)
  {
    NameStarts(name, mid + rest);
    AfterSemicolon(pre, name + (['='] + (mid + rest)));
    NamedReadsBack(name, mid + rest);
    NothingAfterEquals(name, mid, rest);
  }

  lemma NothingAfterEquals(name: string, mid: string, rest: string)
    requires AreBlank(mid) && IsTail(rest)
    ensures ParamFrom(name, mid + rest) == (None, rest)
  {
    SkipPast(mid, rest);
  }

  predicate AllFit(items: seq<Item>) {
    forall k | 0 <= k < |items| :: IsNamed(items[k]) && FitsForm(items[k].value, items[k].quoted)
  }

  lemma {:induction false} ItemsReadBack(items: seq<Item>)
    requires AllFit(items)
    ensures Params(ItemsText(items)) == ParamsOf(items) && IsTail(ItemsText(items))
  {
    if items != [] {
      ItemsReadBack(items[1..]);
      ItemReadsBackExactly(items[0], ItemsText(items[1..]));
    }
  }

  /* ----- the field ----- */

  // The first value that is not empty among the parameters of a name, whatever its case.
  function FirstOf(ps: seq<Param>, name: string): string {
    if ps == [] then ""
    else if Lower(ps[0].name) == name && ps[0].value != "" then ps[0].value
    else FirstOf(ps[1..], name)
  }

  lemma {:induction false} FirstStays(c: Parsed, ps: seq<Param>)
    ensures var r := AssignAll(c, ps);
            && r.mime == c.mime
            && r.charset == (if c.charset != "" then c.charset else Lower(FirstOf(ps, "charset")))
            && r.boundary == (if c.boundary != "" then c.boundary else FirstOf(ps, "boundary"))
    decreases |ps|
  {
    if ps != [] {
      FirstStays(Assign(c, ps[0]), ps[1..]);
      NamesDiffer(ps[0].name);
    } else {
      assert Lower("") == "";
    }
  }

  lemma NamesDiffer(name: string)
    ensures !(Lower(name) == "charset" && Lower(name) == "boundary")
  {
    assert |"charset"| == 7 && |"boundary"| == 8;
  }

  // Between the media type and its parameters: blanks, or a comment.
  predicate IsGap(gap: string) {
    Lacks(gap, SEMICOLON) && (gap != "" ==> IsBlank(gap[0]) || gap[0] == '(')
  }

  predicate EndsWord(c: char) {
    IsBlank(c) || c == ';' || c == '('
  }

  predicate IsWord(s: string) {
    forall k | 0 <= k < |s| :: !EndsWord(s[k])
  }

  predicate IsPair(m: string, kind: string, sub: string) {
    kind != "" && sub != "" && Lacks(kind, SLASH) && m == kind + ("/" + sub)
  }

  // A type and a subtype with a slash between them, not both "*".
  ghost predicate IsMediaType(m: string) {
    m != "*/*" && exists kind, sub :: IsPair(m, kind, sub)
  }

  lemma MimeExactly(m: string)
    ensures IsMime(m) <==> IsMediaType(m)
  {
    var q := FindOf(m, SLASH, 0);
    if q < |m| && q != 0 && q + 1 != |m| {
      NoneBefore(m, SLASH, 0);
      assert IsPair(m, m[..q], m[q + 1..]);
    }
    forall kind, sub | IsPair(m, kind, sub) ensures q == |kind| {
      FindAfter(kind, "/" + sub, SLASH);
    }
  }

  // A field says something if and only if its first word is a media type; any other leaves all values as they are.
  lemma FieldExactly(c: Parsed, pre: string, m: string, after: string)
    requires AreBlank(pre) && IsWord(m) && (after != "" ==> EndsWord(after[0]))
    requires m == "" && after != "" ==> !IsBlank(after[0])
    ensures Interpret(c, pre + (m + after))
         == if IsMediaType(m) then AssignAll(c.(mime := Lower(m)), Params(From(after, SEMICOLON))) else c
  {
    FirstWord(pre, m, after);
    MimeExactly(m);
  }

  lemma FirstWord(pre: string, m: string, after: string)
    requires AreBlank(pre) && IsWord(m) && (after != "" ==> EndsWord(after[0]))
    requires m == "" && after != "" ==> !IsBlank(after[0])
    ensures var t := SkipLws(pre + (m + after)); Before(t, ENDS_TYPE) == m && From(t, ENDS_TYPE) == after
  {
    var t := m + after;
    SkipPast(pre, t);
    SkipsNothing(t);
    LacksEnds(m);
    FindAfter(m, after, ENDS_TYPE);
  }

  lemma SkipsNothing(t: string)
    requires t != "" ==> !IsBlank(t[0])
    ensures SkipLws(t) == t
  {
  }

  lemma LacksEnds(m: string)
    requires IsWord(m)
    ensures Lacks(m, ENDS_TYPE)
  {
  }

  lemma PairMeans(kind: string, sub: string)
    requires kind != "" && sub != "" && Lacks(kind, SLASH)
    ensures IsPair(kind + ("/" + sub), kind, sub)
    ensures kind + ("/" + sub) == "*/*" <==> kind == "*" && sub == "*"
    ensures Lower(kind + ("/" + sub)) == Lower(kind) + ("/" + Lower(sub))
  {
    var m := kind + ("/" + sub);
    if m == "*/*" {
      assert |kind| == 1 && |sub| == 1;
      assert kind[0] == m[0] && sub[0] == m[2];
    }
  }

  lemma TypeReadsBack(c: Parsed, pre: string, kind: string, sub: string, gap: string, params: string)
    requires AreBlank(pre) && kind != "" && sub != "" && !(kind == "*" && sub == "*") && Lacks(kind, SLASH)
    requires IsWord(kind) && IsWord(sub) && IsGap(gap) && IsTail(params)
    ensures Interpret(c, pre + (kind + ("/" + sub) + (gap + params)))
         == AssignAll(c.(mime := Lower(kind) + ("/" + Lower(sub))), Params(params))
  {
    PairMeans(kind, sub);
    FieldExactly(c, pre, kind + ("/" + sub), gap + params);
    FindAfter(gap, params, SEMICOLON);
  }

  // Parsing a printed field gives the type in lower case, the first charset in lower case, and the first boundary.
  lemma FieldReadsBack(c: Parsed, pre: string, kind: string, sub: string, gap: string, items: seq<Item>)
    requires AreBlank(pre) && kind != "" && sub != "" && !(kind == "*" && sub == "*") && Lacks(kind, SLASH)
    requires IsWord(kind) && IsWord(sub) && IsGap(gap) && AllFit(items)
    ensures var r := Interpret(c, pre + (kind + ("/" + sub) + (gap + ItemsText(items))));
            && r.mime == Lower(kind) + ("/" + Lower(sub))
            && r.charset == (if c.charset != "" then c.charset else Lower(FirstOf(ParamsOf(items), "charset")))
            && r.boundary == (if c.boundary != "" then c.boundary else FirstOf(ParamsOf(items), "boundary"))
  {
    ItemsReadBack(items);
    TypeReadsBack(c, pre, kind, sub, gap, ItemsText(items));
    FirstStays(c.(mime := Lower(kind) + ("/" + Lower(sub))), ParamsOf(items));
  }

  // Fields count in the order in which they stand.
  lemma {:induction false} FieldsInTurn(c: Parsed, before: seq<string>, last: string)
    ensures InterpretAll(c, before + [last]) == Interpret(InterpretAll(c, before), last)
    decreases |before|
  {
    if before != [] {
      FieldsInTurn(Interpret(c, before[0]), before[1..], last);
      assert (before + [last])[1..] == before[1..] + [last];
    } else {
      assert InterpretAll(Interpret(c, last), []) == Interpret(c, last);
      assert (before + [last])[1..] == [];
    }
  }

  // Whatever the fields are, a charset or boundary once found stays.
  lemma {:induction false} FoundStays(c: Parsed, fields: seq<string>)
    ensures var r := InterpretAll(c, fields);
            (c.charset != "" ==> r.charset == c.charset) && (c.boundary != "" ==> r.boundary == c.boundary)
    decreases |fields|
  {
    if fields != [] {
      var t := SkipLws(fields[0]);
      FirstStays(c.(mime := Lower(Before(t, ENDS_TYPE))), Params(From(From(t, ENDS_TYPE), SEMICOLON)));
      FoundStays(Interpret(c, fields[0]), fields[1..]);
    }
  }

  const UPPER_CASE := "ABCDEFGHIJKLMNOPQRSTUVWXYZ"
  const LOWER_CASE := "abcdefghijklmnopqrstuvwxyz"

  // Lower case differs in the letters from A to Z only.
  lemma LowerExactly(c: char)
    ensures if c in UPPER_CASE then exists i :: 0 <= i < 26 && UPPER_CASE[i] == c && LOWER_CASE[i] == LowerChar(c)
            else LowerChar(c) == c
  {
    if 'A' <= c <= 'Z' {
      var i := c as int - 'A' as int;
      assert UPPER_CASE[i] == c && LOWER_CASE[i] == LowerChar(c);
    }
  }
}
