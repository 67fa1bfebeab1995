/** The 64-bit word that packs the stop flag, the lock and two reference counts. */
module StopWord {
  import opened Arith

  const STOP_REQUESTED: nat := 1
  const LOCKED: nat := 2
  const TOKEN_REF: nat := 4
  const SOURCE_REF: nat := 0x2_0000_0000           // 1 << 33
  const COUNT_LIMIT: nat := 0x8000_0000            // each count has 31 bits
  const MODULUS: nat := 0x1_0000_0000_0000_0000

  datatype Fields = Fields(stop: bool, locked: bool, tokens: nat, sources: nat)

  predicate InRange(f: Fields) {
    f.tokens < COUNT_LIMIT && f.sources < COUNT_LIMIT
  }

  function Bit(b: bool): nat {
    if b then 1 else 0
  }

  function Pack(f: Fields): nat {
    Bit(f.stop) * STOP_REQUESTED + Bit(f.locked) * LOCKED + f.tokens * TOKEN_REF + f.sources * SOURCE_REF
  }

  // Reading the bits back.
  function Unpack(w: nat): Fields {
    Fields(w % 2 == 1, w / 2 % 2 == 1, w / 4 % COUNT_LIMIT, w / SOURCE_REF)
  }

  lemma UnpackPack(f: Fields)
    requires InRange(f)
    ensures Pack(f) < MODULUS && Unpack(Pack(f)) == f
  {
    var w, stop, locked := Pack(f), Bit(f.stop), Bit(f.locked);
    var counts := f.tokens + f.sources * COUNT_LIMIT;
    DivModUnique((locked + 2 * counts) * 2 + (stop), 2, locked + 2 * counts, stop);
    DivModUnique((counts) * 2 + (locked), 2, counts, locked);
    DivModUnique((counts) * 4 + (stop + 2 * locked), 4, counts, stop + 2 * locked);
    DivModUnique((f.sources) * COUNT_LIMIT + (f.tokens), COUNT_LIMIT, f.sources, f.tokens);
    DivModUnique((f.sources) * SOURCE_REF + (stop + 2 * locked + 4 * f.tokens), SOURCE_REF, f.sources,
          stop + 2 * locked + 4 * f.tokens);
    assert w == (locked + 2 * counts) * 2 + stop;
    assert w / 2 == counts * 2 + locked;
    assert w == counts * 4 + (stop + 2 * locked);
    assert w == f.sources * SOURCE_REF + (stop + 2 * locked + 4 * f.tokens);
  }

  lemma PackUnpack(w: nat)
    requires w < MODULUS
    ensures InRange(Unpack(w)) && Pack(Unpack(w)) == w
  {
    var c := w / 4;
    assert w % 4 == w % 2 + 2 * (w / 2 % 2);
    assert c == c / COUNT_LIMIT * COUNT_LIMIT + c % COUNT_LIMIT;
    DivModUnique((c / COUNT_LIMIT) * SOURCE_REF + (4 * (c % COUNT_LIMIT) + w % 4), SOURCE_REF, c / COUNT_LIMIT,
          4 * (c % COUNT_LIMIT) + w % 4);
    assert w / SOURCE_REF == c / COUNT_LIMIT;
  }

  // A word that neither overflows nor underflows is not wrapped.
  lemma NoWrap(x: nat)
    requires x < MODULUS
    ensures x % MODULUS == x
  {
  }

  // An atomic addition or subtraction on the word, modulo 2^64.
  function Plus(w: nat, d: int): nat {
    (w + d) % MODULUS
  }

  // Adding a token reference changes the token count alone exactly as long as the count stays below its limit.
  lemma TokenCountLimit(f: Fields)
    requires InRange(f)
    ensures Unpack(Plus(Pack(f), TOKEN_REF)) == f.(tokens := f.tokens + 1) <==> f.tokens + 1 < COUNT_LIMIT
  {
    UnpackPack(f);
    if f.tokens + 1 < COUNT_LIMIT {
      UnpackPack(f.(tokens := f.tokens + 1));
    }
  }

  // The word, with the operations the source does on it.  Deleting the state is reported, not done.
  class Word {
    var state: nat

    ghost predicate Valid()
      reads this
    {
      state < MODULUS
    }

    ghost function View(): (f: Fields)
      reads this
    {
      Unpack(state)
    }

    constructor ()
      ensures Valid() && View() == Fields(false, false, 0, 1)
    {
      state := SOURCE_REF;
    }

    method FetchAdd(d: nat) returns (before: nat)
      requires Valid()
      modifies this
      ensures Valid() && before == old(state) && state == Plus(before, d)
      ensures before + d < MODULUS ==> state == before + d
    {
      before := state;
      state := (state + d) % MODULUS;
    }

    method FetchSub(d: nat) returns (before: nat)
      requires Valid()
      modifies this
      ensures Valid() && before == old(state) && state == (before - d) % MODULUS
      ensures before >= d ==> state == before - d
      ensures before < d <= MODULUS ==> state == before - d + MODULUS
    {
      before := state;
      state := (state - d) % MODULUS;
      assert before < d <= MODULUS ==> before - d == -1 * MODULUS + (before - d + MODULUS);
    }

    method AddTokenReference()
      requires Valid() && View().tokens + 1 < COUNT_LIMIT
      modifies this
      ensures Valid() && View() == old(View()).(tokens := old(View()).tokens + 1)
    {
      ghost var f := View();
      PackUnpack(state);
      UnpackPack(f.(tokens := f.tokens + 1));
      NoWrap(Pack(f.(tokens := f.tokens + 1)));
      var _ := FetchAdd(TOKEN_REF);
    }

    method RemoveTokenReference() returns (delete_: bool)
      requires Valid() && View().tokens > 0
      modifies this
      ensures Valid() && View() == old(View()).(tokens := old(View()).tokens - 1)
      ensures delete_ <==> View().tokens == 0 && View().sources == 0
    {
      ghost var f := View();
      PackUnpack(state);
      UnpackPack(f.(tokens := f.tokens - 1));
      NoWrap(Pack(f.(tokens := f.tokens - 1)));
      var before := FetchSub(TOKEN_REF);
      delete_ := before < TOKEN_REF + TOKEN_REF;
    }

    method AddSourceReference()
      requires Valid() && View().sources + 1 < COUNT_LIMIT
      modifies this
      ensures Valid() && View() == old(View()).(sources := old(View()).sources + 1)
    {
      ghost var f := View();
      PackUnpack(state);
      UnpackPack(f.(sources := f.sources + 1));
      NoWrap(Pack(f.(sources := f.sources + 1)));
      var _ := FetchAdd(SOURCE_REF);
    }

    method RemoveSourceReference() returns (delete_: bool)
      requires Valid() && View().sources > 0
      modifies this
      ensures Valid() && View() == old(View()).(sources := old(View()).sources - 1)
      ensures delete_ <==> View().tokens == 0 && View().sources == 0
    {
      ghost var f := View();
      PackUnpack(state);
      UnpackPack(f.(sources := f.sources - 1));
      NoWrap(Pack(f.(sources := f.sources - 1)));
      var before := FetchSub(SOURCE_REF);
      delete_ := before < TOKEN_REF + SOURCE_REF;
    }

    method Unlock()
      requires Valid() && View().locked
      modifies this
      ensures Valid() && View() == old(View()).(locked := false)
    {
      ghost var f := View();
      PackUnpack(state);
      UnpackPack(f.(locked := false));
      NoWrap(Pack(f.(locked := false)));
      var _ := FetchSub(LOCKED);
    }

    // One subtraction of LOCKED - TOKEN_REF, which is negative and wraps around.
    method UnlockAndIncrementTokenRefCount()
      requires Valid() && View().locked && View().tokens + 1 < COUNT_LIMIT
      modifies this
      ensures Valid() && View() == old(View()).(locked := false, tokens := old(View()).tokens + 1)
    {
      ghost var f := View();
      PackUnpack(state);
      UnpackPack(f.(locked := false, tokens := f.tokens + 1));
      NoWrap(Pack(f.(locked := false, tokens := f.tokens + 1)));
      var _ := FetchSub(MODULUS + LOCKED - TOKEN_REF);
    }

    method UnlockAndDecrementTokenRefCount() returns (delete_: bool)
      requires Valid() && View().locked && View().tokens > 0
      modifies this
      ensures Valid() && View() == old(View()).(locked := false, tokens := old(View()).tokens - 1)
      ensures delete_ <==> View().tokens == 0 && View().sources == 0
    {
      ghost var f := View();
      PackUnpack(state);
      UnpackPack(f.(locked := false, tokens := f.tokens - 1));
      NoWrap(Pack(f.(locked := false, tokens := f.tokens - 1)));
      var before := FetchSub(LOCKED + TOKEN_REF);
      delete_ := before < LOCKED + TOKEN_REF + TOKEN_REF;
    }

    method IsStopRequested() returns (r: bool)
      requires Valid()
      ensures r == View().stop
    {
      r := state % 2 == 1;
    }

    method IsLocked() returns (r: bool)
      requires Valid()
      ensures r == View().locked
    {
      r := state / 2 % 2 == 1;
    }

    method IsStopRequestable() returns (r: bool)
      requires Valid()
      ensures r <==> View().stop || View().sources > 0
    {
      r := state % 2 == 1 || state >= SOURCE_REF;
    }

    // A compare-and-exchange of a word seen without the lock flag for the same word with it.
    method TryLock() returns (taken: bool)
      requires Valid()
      modifies this
      ensures Valid() && taken == !old(View().locked) && View() == old(View()).(locked := true)
    {
      ghost var f := View();
      PackUnpack(state);
      UnpackPack(f.(locked := true));
      taken := state / 2 % 2 == 0;
      if taken {
        state := state + LOCKED;
      }
    }

    // The same, also setting the stop flag, unless stop has been requested already.
    method TryLockAndSignal() returns (taken: bool)
      requires Valid()
      modifies this
      ensures Valid() && taken == (!old(View().stop) && !old(View().locked))
      ensures View() == if taken then old(View()).(stop := true, locked := true) else old(View())
    {
      ghost var f := View();
      PackUnpack(state);
      UnpackPack(f.(stop := true, locked := true));
      taken := state % 2 == 0 && state / 2 % 2 == 0;
      if taken {
        state := state + STOP_REQUESTED + LOCKED;
      }
    }
  }
}
