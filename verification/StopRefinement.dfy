/** The protocol's flags and counts are one 64-bit word on which every step is at most one atomic operation. */
module StopRefinement {
  import opened Arith
  import opened StopWord
  import opened StopProtocol

  // The atomic operations of the class Word.
  datatype WordOp =
    | Keep
    | AddToken | RemoveToken | AddSource | RemoveSource
    | AcquireLock | AcquireLockAndSignal
    | ReleaseLock | ReleaseLockAddToken | ReleaseLockRemoveToken

  function OpOf(s: State, a: Action): WordOp {
    match a
    case OnHandle(NewToken(_, _)) => AddToken
    case OnHandle(DropToken(_)) => RemoveToken
    case OnHandle(NewSource(_, _)) => AddSource
    case OnHandle(DropSource(_)) => RemoveSource
    case OnRequest(Win(_)) => AcquireLockAndSignal
    case OnRequest(Relock) => AcquireLock
    case OnRequest(UnlockToRun) => ReleaseLock
    case OnRequest(Leave) => ReleaseLock
    case OnAdd(_, Lock) => AcquireLock
    case OnAdd(cb, Unlock) =>  // made from an rvalue token, a callback takes over that token's reference
      var l := At(s.life, cb);
      if l.AddLinked? && l.moves then ReleaseLock else ReleaseLockAddToken
    case OnRemove(_, TakeLock) => AcquireLock
    case OnRemove(_, UnlockUnlinked) => ReleaseLockRemoveToken
    case OnRemove(_, UnlockMissed) => ReleaseLock
    case OnRemove(_, Release) => RemoveToken
    case _ => Keep
  }

  // What an operation adds to the word.
  function Addend(op: WordOp): int {
    match op
    case Keep => 0
    case AddToken => TOKEN_REF
    case RemoveToken => 0 - TOKEN_REF
    case AddSource => SOURCE_REF
    case RemoveSource => 0 - SOURCE_REF
    case AcquireLock => LOCKED
    case AcquireLockAndSignal => STOP_REQUESTED + LOCKED
    case ReleaseLock => 0 - LOCKED
    case ReleaseLockAddToken => 0 - LOCKED + TOKEN_REF
    case ReleaseLockRemoveToken => 0 - LOCKED - TOKEN_REF
  }

  // The old word, as a whole, below which an operation deletes the state; 0 for those that never do.
  function DeletesBelow(op: WordOp): nat {
    match op
    case RemoveToken => TOKEN_REF + TOKEN_REF
    case RemoveSource => TOKEN_REF + SOURCE_REF
    case ReleaseLockRemoveToken => LOCKED + TOKEN_REF + TOKEN_REF
    case _ => 0
  }

  // What an operation does to the fields, and when it may be done.
  function Effect(op: WordOp, f: Fields): Fields {
    match op
    case Keep => f
    case AddToken => f.(tokens := f.tokens + 1)
    case RemoveToken => f.(tokens := if f.tokens > 0 then f.tokens - 1 else 0)
    case AddSource => f.(sources := f.sources + 1)
    case RemoveSource => f.(sources := if f.sources > 0 then f.sources - 1 else 0)
    case AcquireLock => f.(locked := true)
    case AcquireLockAndSignal => f.(stop := true, locked := true)
    case ReleaseLock => f.(locked := false)
    case ReleaseLockAddToken => f.(locked := false, tokens := f.tokens + 1)
    case ReleaseLockRemoveToken => f.(locked := false, tokens := if f.tokens > 0 then f.tokens - 1 else 0)
  }

  predicate Allowed(op: WordOp, f: Fields) {
    match op
    case RemoveToken => f.tokens > 0
    case RemoveSource => f.sources > 0
    case AcquireLock => !f.locked
    case AcquireLockAndSignal => !f.stop && !f.locked
    case ReleaseLock => f.locked
    case ReleaseLockAddToken => f.locked
    case ReleaseLockRemoveToken => f.locked && f.tokens > 0
    case _ => true
  }

  lemma EffectIsAddition(op: WordOp, f: Fields)
    requires Allowed(op, f)
    ensures Pack(Effect(op, f)) == Pack(f) + Addend(op)
  {
  }

  lemma OperationOnWord(op: WordOp, f: Fields)
    requires Allowed(op, f) && InRange(f) && InRange(Effect(op, f))
    ensures Unpack(Pack(f)) == f && Pack(Effect(op, f)) == Plus(Pack(f), Addend(op))
  {
    UnpackPack(f);
    UnpackPack(Effect(op, f));
    EffectIsAddition(op, f);
    DivModUnique(Pack(f) + Addend(op), MODULUS, 0, Pack(Effect(op, f)));
  }

  // The comparison of the old word finds out whether the last reference goes.
  lemma ComparisonFindsLast(op: WordOp, f: Fields)
    requires Allowed(op, f) && (f.tokens > 0 || f.sources > 0)
    ensures Effect(op, f).tokens == 0 && Effect(op, f).sources == 0 <==> Pack(f) < DeletesBelow(op)
  {
  }

  lemma StepIsOperation(s: State, a: Action)
    requires LockInv(s) && CountInv(s) && RequestInv(s) && (a.OnAdd? || a.OnRemove? ==> Ok(s, a.cb)) && Enabled(s, a)
    ensures Allowed(OpOf(s, a), s.word) && Apply(s, a).word == Effect(OpOf(s, a), s.word)
  {
    match a
    case OnHandle(_) =>
    case OnRequest(r) => RequestIsOperation(s, r);
    case OnAdd(cb, add) => AddIsOperation(s, cb, add);
    case OnRemove(cb, rm) => RemoveIsOperation(s, cb, rm);
  }

  lemma RequestIsOperation(s: State, r: RequestStep)
    requires LockInv(s) && RequestInv(s) && RequestEnabled(s, r)
    ensures Allowed(OpOf(s, OnRequest(r)), s.word) && ApplyRequest(s, r).word == Effect(OpOf(s, OnRequest(r)), s.word)
  {
  }

  lemma AddIsOperation(s: State, cb: Callback, a: AddStep)
    requires LockInv(s) && Ok(s, cb) && AddEnabled(s, cb, a)
    ensures Allowed(OpOf(s, OnAdd(cb, a)), s.word) && ApplyAdd(s, cb, a).word == Effect(OpOf(s, OnAdd(cb, a)), s.word)
  {
  }

  lemma RemoveIsOperation(s: State, cb: Callback, a: RemoveStep)
    requires LockInv(s) && CountInv(s) && Ok(s, cb) && RemoveEnabled(s, cb, a)
    ensures Allowed(OpOf(s, OnRemove(cb, a)), s.word) && ApplyRemove(s, cb, a).word
          == Effect(OpOf(s, OnRemove(cb, a)), s.word)
  {
    if a.UnlockUnlinked? || a.Release? {
      assert cb in s.refs;
    }
  }

  // In every interleaving the fields can be read off the word; each step adds one constant to it, modulo 2^64; and
  // the state is deleted exactly when the comparison of the old word says so.
  lemma StepsOnWord(states: seq<State>, actions: seq<Action>, i: nat)
    requires Interleaving(states, actions) && i < |actions|
    ensures Unpack(Pack(states[i].word)) == states[i].word
    ensures Pack(states[i + 1].word) == Plus(Pack(states[i].word), Addend(OpOf(states[i], actions[i])))
    ensures states[i + 1].deletions == if Pack(states[i].word) < DeletesBelow(OpOf(states[i], actions[i])) then 1 else 0
  {
    var s, op := states[i], OpOf(states[i], actions[i]);
    InvAlways(states, actions, i);
    InvAlways(states, actions, i + 1);
    assert actions[i].OnAdd? || actions[i].OnRemove? ==> Ok(s, actions[i].cb);
    StepIsOperation(s, actions[i]);
    OperationOnWord(op, s.word);
    DeletedOnceAndLast(states, actions, i);
    DeletedOnceAndLast(states, actions, i + 1);
    assert s.deletions == 0;
    ComparisonFindsLast(op, s.word);
  }
}
