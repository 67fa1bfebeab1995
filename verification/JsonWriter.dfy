/** The writer: nested scopes over one shared buffer, which only grows but for its last byte. */
module JsonWriter {
  import opened JsonText
  import opened JsonReader
  import opened JsonRoundTrip

  // Writes one byte of a string into out at position e0.
  method PutEscaped(c: Octet, out: array<Octet>, e0: nat) returns (e: nat)
    requires e0 + 6 <= out.Length
    modifies out
    ensures e0 < e <= e0 + 6 && out[..e] == old(out[..e0]) + Escaped(c)
  {
    e := e0;
    if NeedsEscape(c) {
      var letter := EscapeLetter(c);
      out[e], out[e + 1] := '\\', letter;
      e := e + 2;
      if letter == 'u' {
        out[e], out[e + 1], out[e + 2], out[e + 3] := '0', '0', HexDigit(c as int / 16), HexDigit(c as int % 16);
        e := e + 4;
      }
    } else {
      out[e] := c;
      e := e + 1;
    }
  }

  // Writes s into out from position e0 on ...
  method EscapeBody(s: Text, out: array<Octet>, e0: nat) returns (e: nat)
    requires e0 + 6 * |s| <= out.Length
    modifies out
    ensures e0 <= e <= e0 + 6 * |s|
    ensures out[..e] == old(out[..e0]) + EscapedAll(s)
  {
    e := e0;
    for i := 0 to |s|
      invariant e0 <= e <= e0 + 6 * i
      invariant out[..e] + EscapedAll(s[i..]) == old(out[..e0]) + EscapedAll(s)
    {
      assert s[i..][0] == s[i] && s[i..][1..] == s[i + 1..];
      MoveByte(out[..e], s[i], EscapedAll(s[i + 1..]));
      e := PutEscaped(s[i], out, e);
    }
    assert s[|s|..] == [];
  }

  lemma MoveByte(written: Text, c: Octet, tail: Text)
    ensures written + (Escaped(c) + tail) == written + Escaped(c) + tail
  {
  }

  // ... with its quotation marks.
  method EscapeInto(s: Text, out: array<Octet>, e0: nat) returns (e: nat)
    requires e0 + 2 + 6 * |s| <= out.Length
    modifies out
    ensures e <= e0 + 2 + 6 * |s|
    ensures out[..e] == old(out[..e0]) + Quoted(s)
  {
    out[e0] := '"';
    assert out[..e0 + 1] == old(out[..e0]) + ['"'];
    e := EscapeBody(s, out, e0 + 1);
    ghost var body := out[..e];
    out[e] := '"';
    e := e + 1;
    assert out[..e] == body + ['"'];
    Quoting(old(out[..e0]), s);
  }

  lemma Quoting(before: Text, s: Text)
    ensures before + ['"'] + EscapedAll(s) + ['"'] == before + Quoted(s)
  {
  }

  class Buffer {
    var bytes: Text

    constructor (bytes: Text)
      ensures this.bytes == bytes
    {
      this.bytes := bytes;
    }

    method PushBack(c: Octet)
      modifies this
      ensures bytes == old(bytes) + [c]
    {
      bytes := bytes + [c];
    }

    method Append(t: Text)
      modifies this
      ensures bytes == old(bytes) + t
    {
      bytes := bytes + t;
    }

    // Room for the longest outcome is taken, and what is not needed given back.
    method WriteString(s: Text)
      modifies this
      ensures bytes == old(bytes) + Quoted(s)
    {
      var n := |bytes|;
      var out := new Octet[n + 2 + 6 * |s|];
      for i := 0 to n
        invariant bytes == old(bytes)
        invariant out[..i] == bytes[..i]
      {
        out[i] := bytes[i];
      }
      assert out[..n] == bytes;
      var e := EscapeInto(s, out, n);
      bytes := out[..e];
    }

    method WriteRaw(s: Text)
      modifies this
      ensures bytes == old(bytes) + KeyText(s, true)
    {
      bytes := bytes + ['"'] + s + ['"'];
    }
  }

  class Writer {
    const b: Buffer
    const initPos: nat
    const closeCh: Octet
    const keyNoEscape: bool
    const hasParent: bool

    constructor (b: Buffer, openCh: Octet, closeCh: Octet, keyNoEscape: bool, hasParent: bool)
      modifies b
      ensures b.bytes == old(b.bytes) + [openCh]
      ensures this.b == b && initPos == |old(b.bytes)| && this.closeCh == closeCh
      ensures this.keyNoEscape == keyNoEscape && this.hasParent == hasParent
    {
      this.b, initPos, this.closeCh, this.keyNoEscape, this.hasParent := b, |b.bytes|, closeCh, keyNoEscape, hasParent;
      new;
      b.PushBack(openCh);
    }

    // The destructor: the comma after the last item gives way to the closing character.
    method Close()
      requires |b.bytes| > initPos
      modifies b
      ensures |old(b.bytes)| > initPos + 1 ==>
                b.bytes == old(b.bytes)[..|old(b.bytes)| - 1] + [closeCh] + if hasParent then [','] else []
      ensures |old(b.bytes)| == initPos + 1 ==> b.bytes == old(b.bytes) + [closeCh] + if hasParent then [','] else []
    {
      if |b.bytes| > initPos + 1 {
        b.bytes := b.bytes[|b.bytes| - 1 := closeCh];
      } else {
        b.PushBack(closeCh);
      }
      if hasParent {
        b.PushBack(',');
      }
    }

    method Val(v: Json)
      requires !IsScope(v)
      modifies b
      ensures b.bytes == old(b.bytes) + PrimText(v)
    {
      match v
      case Null => b.Append("null");
      case Bool(t) => b.Append(if t then "true" else "false");
      case Number(token) => b.Append(token);
      case Str(s) => b.WriteString(s);
    }

    method EndVal()
      modifies b
      ensures b.bytes == old(b.bytes) + [',']
    {
      b.PushBack(',');
    }

    method Elm(v: Json)
      requires !IsScope(v)
      modifies b
      ensures b.bytes == old(b.bytes) + PrimText(v) + [',']
    {
      Val(v);
      EndVal();
    }

    method BeginPa(key: Text)
      modifies b
      ensures b.bytes == old(b.bytes) + KeyText(key, keyNoEscape) + [':']
    {
      if keyNoEscape {
        b.WriteRaw(key);
      } else {
        b.WriteString(key);
      }
      b.PushBack(':');
    }

    method Pa(key: Text, v: Json)
      requires !IsScope(v)
      modifies b
      ensures b.bytes == old(b.bytes) + KeyText(key, keyNoEscape) + [':'] + PrimText(v) + [',']
    {
      BeginPa(key);
      Val(v);
      EndVal();
    }
  }

  /* ----- trees written through nested scopes ----- */

  // Writes an object or array in a scope of its own; a nested one leaves a comma behind it.
  method WriteScope(b: Buffer, v: Json, raw: bool, nested: bool)
    requires IsScope(v)
    modifies b
    ensures b.bytes == old(b.bytes) + ValueText(v, raw) + if nested then [','] else []
    decreases v, 1
  {
    if v.Arr? {
      var w := new Writer(b, '[', ']', raw, nested);
      AddElements(w, v.elems);
      CloseScope(w, old(b.bytes), '[', ElementTexts(v.elems, raw));
    } else {
      var w := new Writer(b, '{', '}', raw, nested);
      AddMembers(w, v.members);
      CloseScope(w, old(b.bytes), '{', MemberTexts(v.members, raw));
    }
  }

  // Closing a scope drops the comma that Joined does without.
  method CloseScope(w: Writer, ghost before: Text, ghost open: Octet, ghost items: seq<Text>)
    requires w.b.bytes == before + [open] + Trailed(items) && w.initPos == |before|
    modifies w.b
    ensures w.b.bytes == before + ([open] + Joined(items) + [w.closeCh]) + if w.hasParent then [','] else []
  {
    TrailedIsJoined(items);
    if items != [] {
      assert w.b.bytes[..|w.b.bytes| - 1] == before + [open] + Joined(items);
    }
    assert before + ([open] + Joined(items) + [w.closeCh]) == before + [open] + Joined(items) + [w.closeCh];
    w.Close();
  }

  method AddElements(w: Writer, elems: seq<Json>)
    modifies w.b
    ensures w.b.bytes == old(w.b.bytes) + Trailed(ElementTexts(elems, w.keyNoEscape))
    decreases elems, 1
  {
    for i := 0 to |elems|
      invariant w.b.bytes + Trailed(ElementTexts(elems[i..], w.keyNoEscape))
                == old(w.b.bytes) + Trailed(ElementTexts(elems, w.keyNoEscape))
    {
      assert elems[i..][0] == elems[i] && elems[i..][1..] == elems[i + 1..];
      MoveItem(w.b.bytes, ElementTexts(elems[i..], w.keyNoEscape));
      AddElement(w, elems[i]);
    }
  }

  // An item moves from those to be written to those written.
  lemma MoveItem(written: Text, items: seq<Text>)
    requires items != []
    ensures written + Trailed(items) == (written + items[0] + [',']) + Trailed(items[1..])
  {
  }

  method AddElement(w: Writer, v: Json)
    modifies w.b
    ensures w.b.bytes == old(w.b.bytes) + ValueText(v, w.keyNoEscape) + [',']
    decreases v, 2
  {
    if IsScope(v) {
      WriteScope(w.b, v, w.keyNoEscape, true);
    } else {
      w.Elm(v);
    }
  }

  method AddMembers(w: Writer, members: seq<Member>)
    modifies w.b
    ensures w.b.bytes == old(w.b.bytes) + Trailed(MemberTexts(members, w.keyNoEscape))
    decreases members, 1
  {
    for i := 0 to |members|
      invariant w.b.bytes + Trailed(MemberTexts(members[i..], w.keyNoEscape))
                == old(w.b.bytes) + Trailed(MemberTexts(members, w.keyNoEscape))
    {
      assert members[i..][0] == members[i] && members[i..][1..] == members[i + 1..];
      MoveItem(w.b.bytes, MemberTexts(members[i..], w.keyNoEscape));
      AddMember(w, members[i]);
    }
  }

  method AddMember(w: Writer, m: Member)
    modifies w.b
    ensures w.b.bytes == old(w.b.bytes) + MemberText(m, w.keyNoEscape) + [',']
    decreases m
  {
    MemberGroups(w.b.bytes, KeyText(m.key, w.keyNoEscape), ValueText(m.value, w.keyNoEscape));
    if IsScope(m.value) {
      w.BeginPa(m.key);
      WriteScope(w.b, m.value, w.keyNoEscape, true);
    } else {
      w.Pa(m.key, m.value);
    }
  }

  lemma MemberGroups(before: Text, key: Text, value: Text)
    ensures before + (key + [':'] + value) == before + key + [':'] + value
  {
  }

  // Appended to any text, a tree is read back just from where it begins.
  method WriteTree(b: Buffer, v: Json, raw: bool)
    requires IsScope(v) && Writable(v, raw)
    modifies b
    ensures |b.bytes| >= |old(b.bytes)| && b.bytes[..|old(b.bytes)|] == old(b.bytes)
    ensures ReadValue(b.bytes[|old(b.bytes)|..]) == Parsed(v, [])
  {
    WriteScope(b, v, raw, false);
    ValueReadsBack(v, raw, []);
    assert ValueText(v, raw) + [] == ValueText(v, raw);
    assert b.bytes[|old(b.bytes)|..] == ValueText(v, raw);
  }
}
