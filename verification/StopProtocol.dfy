/** The shared stop state as a state machine over the atomic steps of any number of threads. */
module StopProtocol {
  import opened Sequences
  import opened StopWord

  type Thread = nat
  type Callback = nat
  type Handle = nat  // a stop_token or stop_source object that refers to the state

  // Where a callback object is in its life, which includes the thread that constructs or destroys it.
  datatype Life =
    | Unborn
    | Adding(t: Thread, h: Handle, moves: bool)      // reads the word, over and over while it is locked
    | AddLocked(t: Thread, h: Handle, moves: bool)   // took the lock
    | AddLinked(t: Thread, h: Handle, moves: bool)   // linked, about to release the lock
    | Inline(t: Thread, h: Handle)                   // stop was requested before: runs inside the constructor
    | Registered
    | Unregistered                                   // constructed without being linked
    | Removing(t: Thread)                            // waits for the lock
    | RemoveLocked(t: Thread)                        // took the lock
    | RemoveUnlinked(t: Thread)                      // was still linked and is no longer; holds the lock
    | RemoveMissed(t: Thread)                        // was not linked any more; holds the lock
    | RemoveAsking(t: Thread)                        // released the lock: is this the signalling thread?
    | RemoveWaiting(t: Thread)                       // waits for the callback to finish on the signalling thread
    | RemoveReleasing(t: Thread)                     // about to drop its token reference
    | Dead

  // Where the one winning request is.  cb has been dequeued, more tells whether others were left, removed is the
  // local flag the callback's own destructor may set.
  datatype Signal =
    | Quiet
    | Looking(t: Thread, h: Handle)
    | Dequeued(t: Thread, h: Handle, cb: Callback, more: bool)
    | Unlocked(t: Thread, h: Handle, cb: Callback, more: bool)
    | Running(t: Thread, h: Handle, cb: Callback, more: bool, removed: bool)
    | Returned(t: Thread, h: Handle, cb: Callback, more: bool, removed: bool)
    | Finishing(t: Thread, h: Handle, cb: Callback, more: bool)
    | Relocking(t: Thread, h: Handle)
    | Leaving(t: Thread, h: Handle)
    | Finished(t: Thread)

  datatype Holder = Nobody | TheSignaller | TheCallback(cb: Callback)

  datatype State = State(
    word: Fields,
    queue: seq<Callback>,               // the linked callbacks, head first
    sig: Signal,
    life: map<Callback, Life>,
    pointed: set<Callback>,             // __isRemoved_ points at the local flag
    finished: set<Callback>,            // __callbackFinishedExecuting_
    trying: map<Thread, Handle>,        // requests without an outcome yet
    tokens: set<Handle>, sources: set<Handle>,
    // history
    holder: Holder,                     // who holds the lock
    refs: set<Callback>,                // callbacks that own a token reference
    dequeued: set<Callback>, unlinked: set<Callback>,
    linkedAtSignal: set<Callback>,
    runs: map<Callback, nat>,
    begun: nat, wins: nat, losses: nat,
    deletions: nat)

  // The life of a callback, and how often it ran.
  function At(life: map<Callback, Life>, cb: Callback): Life {
    if cb in life then life[cb] else Unborn
  }

  function Runs(runs: map<Callback, nat>, cb: Callback): nat {
    if cb in runs then runs[cb] else 0
  }

  // One source, no token, nothing else.
  function Initial(h: Handle): State {
    State(Fields(false, false, 0, 1), [], Quiet, map[], {}, {}, map[], {}, {h}, Nobody, {}, {}, {}, {}, map[], 0,
          0, 0, 0)
  }

  /* ----- what threads are doing ----- */

  predicate InRemove(l: Life) {
    l.Removing? || l.RemoveLocked? || l.RemoveUnlinked? || l.RemoveMissed? || l.RemoveAsking?
          || l.RemoveWaiting? || l.RemoveReleasing?
  }

  predicate InAdd(l: Life) {
    l.Adding? || l.AddLocked? || l.AddLinked? || l.Inline?
  }

  // Thread t is constructing or destroying this callback.
  predicate By(l: Life, t: Thread) {
    (InRemove(l) || InAdd(l)) && l.t == t
  }

  predicate SignalActive(sig: Signal) {
    !sig.Quiet? && !sig.Finished?
  }

  // A thread inside the winning request does other things only from the callback it is running.
  predicate MayStart(s: State, t: Thread) {
    SignalActive(s.sig) && s.sig.t == t ==> s.sig.Running?
  }

  ghost predicate NothingElse(s: State, t: Thread) {
    t !in s.trying && forall cb :: !By(At(s.life, cb), t)
  }

  predicate Pins(l: Life, h: Handle) {
    InAdd(l) && l.h == h
  }

  predicate HoldsLock(l: Life) {
    l.AddLocked? || l.AddLinked? || l.RemoveLocked? || l.RemoveUnlinked? || l.RemoveMissed?
  }

  predicate SignalHoldsLock(sig: Signal) {
    sig.Looking? || sig.Dequeued? || sig.Leaving?
  }

  /* ----- steps ----- */

  // Stop tokens and sources are copied and destroyed.
  datatype HandleStep =
    | NewToken(h: Handle, like: Handle)
    | DropToken(h: Handle)
    | NewSource(h: Handle, like: Handle)
    | DropSource(h: Handle)

  // __request_stop: the call, its losing and winning outcomes, and the winner's loop.
  datatype RequestStep =
    | Begin(t: Thread, h: Handle) | Lose(t: Thread) | Win(t: Thread)
    | Look | UnlockToRun | Run | CallbackReturns | AfterRun | Finish | Relock | Leave

  // __try_add_callback
  datatype AddStep =
    | Start(t: Thread, h: Handle, moves: bool)
    | FindStop
    | FindNoSource
    | Lock
    | Link
    | Unlock
    | InlineReturns

  // __remove_callback
  datatype RemoveStep =
    | Enter(t: Thread)
    | TakeLock
    | LookUp
    | UnlockUnlinked
    | UnlockMissed
    | Ask
    | SeeFinished
    | Release

  datatype Action =
    | OnHandle(hs: HandleStep)
    | OnRequest(rs: RequestStep)
    | OnAdd(cb: Callback, add: AddStep)
    | OnRemove(cb: Callback, rm: RemoveStep)

  ghost predicate HandleEnabled(s: State, a: HandleStep) {
    var enabled :=
      match a
      case NewToken(h, like) =>
        h !in s.tokens && h !in s.sources && (like in s.tokens || like in s.sources) && s.word.tokens + 1 < COUNT_LIMIT
      case DropToken(h) => h in s.tokens && forall cb :: !Pins(At(s.life, cb), h)
      case NewSource(h, like) =>
        h !in s.tokens && h !in s.sources && like in s.sources && s.word.sources + 1 < COUNT_LIMIT
      case DropSource(h) =>
        h in s.sources && (forall t | t in s.trying :: s.trying[t] != h) && !(SignalActive(s.sig) && s.sig.h == h);
    enabled
  }

  ghost predicate RequestEnabled(s: State, a: RequestStep) {
    var enabled :=
      match a
      case Begin(t, h) => h in s.sources && t !in s.trying && MayStart(s, t)
      case Lose(t) => t in s.trying && s.word.stop
      case Win(t) => t in s.trying && !s.word.stop && !s.word.locked && forall cb :: !By(At(s.life, cb), t)
      case Look => s.sig.Looking?
      case UnlockToRun => s.sig.Dequeued?
      case Run => s.sig.Unlocked?
      case CallbackReturns => s.sig.Running? && NothingElse(s, s.sig.t)
      case AfterRun => s.sig.Returned?
      case Finish => s.sig.Finishing?
      case Relock => s.sig.Relocking? && !s.word.locked
      case Leave => s.sig.Leaving?;
    enabled
  }

  ghost predicate AddEnabled(s: State, cb: Callback, a: AddStep) {
    var l := At(s.life, cb);
    var enabled :=
      match a
      case Start(t, h, moves) =>
        && l == Unborn && h in s.tokens && MayStart(s, t)
        && forall c :: Pins(At(s.life, c), h) ==> !moves && (At(s.life, c).Inline? || !At(s.life, c).moves)
      case FindStop => l.Adding? && s.word.stop
      case FindNoSource => l.Adding? && !s.word.stop && s.word.sources == 0
      case Lock => l.Adding? && !s.word.stop && s.word.sources > 0 && !s.word.locked
      case Link => l.AddLocked?
      case Unlock => l.AddLinked? && (!l.moves ==> s.word.tokens + 1 < COUNT_LIMIT)
      case InlineReturns => l.Inline?;
    enabled
  }

  ghost predicate RemoveEnabled(s: State, cb: Callback, a: RemoveStep) {
    var l := At(s.life, cb);
    var enabled :=
      match a
      case Enter(t) => l == Registered && MayStart(s, t)
      case TakeLock => l.Removing? && !s.word.locked
      case LookUp => l.RemoveLocked?
      case UnlockUnlinked => l.RemoveUnlinked?
      case UnlockMissed => l.RemoveMissed?
      case Ask => l.RemoveAsking?
      case SeeFinished => l.RemoveWaiting? && cb in s.finished
      case Release => l.RemoveReleasing?;
    enabled
  }

  ghost predicate Enabled(s: State, a: Action) {
    match a
    case OnHandle(h) => HandleEnabled(s, h)
    case OnRequest(r) => RequestEnabled(s, r)
    case OnAdd(cb, add) => AddEnabled(s, cb, add)
    case OnRemove(cb, rm) => RemoveEnabled(s, cb, rm)
  }

  function SetLife(s: State, cb: Callback, l: Life): (r: State)
    ensures forall c :: At(r.life, c) == if c == cb then l else At(s.life, c)
  {
    s.(life := s.life[cb := l])
  }

  function SetLocked(s: State, holder: Holder): State {
    s.(word := s.word.(locked := holder != Nobody), holder := holder)
  }

  function CountRun(s: State, cb: Callback): (r: State)
    ensures forall c :: Runs(r.runs, c) == Runs(s.runs, c) + if c == cb then 1 else 0
  {
    s.(runs := s.runs[cb := Runs(s.runs, cb) + 1])
  }

  // Drops one token reference; the state is deleted when that was the last reference of either kind.
  function ReleaseToken(s: State): State {
    var w := s.word.(tokens := if s.word.tokens > 0 then s.word.tokens - 1 else 0);
    s.(word := w, deletions := s.deletions + if w.tokens == 0 && w.sources == 0 then 1 else 0)
  }

  function ReleaseSource(s: State): State {
    var w := s.word.(sources := if s.word.sources > 0 then s.word.sources - 1 else 0);
    s.(word := w, deletions := s.deletions + if w.tokens == 0 && w.sources == 0 then 1 else 0)
  }

  // The winning request goes on with the next callback, or returns true.
  function GoOn(s: State, t: Thread, h: Handle, more: bool): State {
    if more then s.(sig := Relocking(t, h)) else s.(sig := Finished(t), wins := s.wins + 1)
  }

  // The queue after unlinking cb.
  function WithoutElement(q: seq<Callback>, cb: Callback): (r: seq<Callback>)
    ensures forall c :: c in r <==> c in q && c != cb
  {
    if q == [] then []
    else if q[0] == cb then WithoutElement(q[1..], cb)
    else [q[0]] + WithoutElement(q[1..], cb)
  }

  lemma {:induction false} WithoutElementKeeps(q: seq<Callback>, cb: Callback)
    requires NoDuplicates(q)
    ensures NoDuplicates(WithoutElement(q, cb))
  {
    if q != [] {
      assert forall i | 0 <= i < |q[1..]| :: q[1..][i] == q[i + 1];
      WithoutElementKeeps(q[1..], cb);
      assert q[0] !in q[1..];
    }
  }

  ghost function ApplyHandle(s: State, a: HandleStep): State
    requires HandleEnabled(s, a)
  {
    match a
    case NewToken(h, _) => s.(tokens := s.tokens + {h}, word := s.word.(tokens := s.word.tokens + 1))
    case DropToken(h) => ReleaseToken(s).(tokens := s.tokens - {h})
    case NewSource(h, _) => s.(sources := s.sources + {h}, word := s.word.(sources := s.word.sources + 1))
    case DropSource(h) => ReleaseSource(s).(sources := s.sources - {h})
  }

  ghost function ApplyRequest(s: State, a: RequestStep): State
    requires RequestEnabled(s, a)
  {
    match a
    case Begin(t, h) => s.(trying := s.trying[t := h], begun := s.begun + 1)
    case Lose(t) => s.(trying := s.trying - {t}, losses := s.losses + 1)
    case Win(t) =>
      s.(word := s.word.(stop := true, locked := true), holder := TheSignaller, sig := Looking(t, s.trying[t]),
         trying := s.trying - {t}, linkedAtSignal := set c | c in s.queue)
    case Look =>
      if s.queue == [] then s.(sig := Leaving(s.sig.t, s.sig.h))
      else s.(queue := s.queue[1..], dequeued := s.dequeued + {s.queue[0]},
              sig := Dequeued(s.sig.t, s.sig.h, s.queue[0], s.queue[1..] != []))
    case UnlockToRun => SetLocked(s, Nobody).(sig := Unlocked(s.sig.t, s.sig.h, s.sig.cb, s.sig.more))
    case Run =>
      CountRun(s, s.sig.cb).(pointed := s.pointed + {s.sig.cb}, sig := Running(s.sig.t, s.sig.h, s.sig.cb,
            s.sig.more, false))
    case CallbackReturns => s.(sig := Returned(s.sig.t, s.sig.h, s.sig.cb, s.sig.more, s.sig.removed))
    case AfterRun =>
      if s.sig.removed then GoOn(s, s.sig.t, s.sig.h, s.sig.more)
      else s.(pointed := s.pointed - {s.sig.cb}, sig := Finishing(s.sig.t, s.sig.h, s.sig.cb, s.sig.more))
    case Finish => GoOn(s.(finished := s.finished + {s.sig.cb}), s.sig.t, s.sig.h, s.sig.more)
    case Relock => SetLocked(s, TheSignaller).(sig := Looking(s.sig.t, s.sig.h))
    case Leave => SetLocked(s, Nobody).(sig := Finished(s.sig.t), wins := s.wins + 1)
  }

  ghost function ApplyAdd(s: State, cb: Callback, a: AddStep): State
    requires AddEnabled(s, cb, a)
  {
    var l := At(s.life, cb);
    match a
    case Start(t, h, moves) => SetLife(s, cb, Adding(t, h, moves))
    case FindStop => CountRun(SetLife(s, cb, Inline(l.t, l.h)), cb)
    case FindNoSource => SetLife(s, cb, Unregistered)
    case Lock => SetLocked(SetLife(s, cb, AddLocked(l.t, l.h, l.moves)), TheCallback(cb))
    case Link => SetLife(s, cb, AddLinked(l.t, l.h, l.moves)).(queue := [cb] + s.queue)
    case Unlock =>
      var s' := SetLocked(SetLife(s, cb, Registered), Nobody).(refs := s.refs + {cb});
      if l.moves then s'.(tokens := s.tokens - {l.h}) else s'.(word := s'.word.(tokens := s.word.tokens + 1))
    case InlineReturns => SetLife(s, cb, Unregistered)
  }

  // The callback that runs has set the signaller's flag.
  function Removed(sig: Signal): Signal
    requires sig.Running?
  {
    Running(sig.t, sig.h, sig.cb, sig.more, true)
  }

  ghost function ApplyRemove(s: State, cb: Callback, a: RemoveStep): State
    requires RemoveEnabled(s, cb, a)
  {
    var l := At(s.life, cb);
    match a
    case Enter(t) => SetLife(s, cb, Removing(t))
    case TakeLock => SetLocked(SetLife(s, cb, RemoveLocked(l.t)), TheCallback(cb))
    case LookUp =>
      if cb in s.queue then
        SetLife(s, cb, RemoveUnlinked(l.t)).(queue := WithoutElement(s.queue, cb), unlinked := s.unlinked + {cb})
      else SetLife(s, cb, RemoveMissed(l.t))
    case UnlockUnlinked => ReleaseToken(SetLocked(SetLife(s, cb, Dead), Nobody)).(refs := s.refs - {cb})
    case UnlockMissed => SetLocked(SetLife(s, cb, RemoveAsking(l.t)), Nobody)
    case Ask =>
      if s.sig.Quiet? || s.sig.t != l.t then SetLife(s, cb, RemoveWaiting(l.t))
      else if cb in s.pointed && s.sig.Running? then SetLife(s, cb, RemoveReleasing(l.t)).(sig := Removed(s.sig))
      else SetLife(s, cb, RemoveReleasing(l.t))
    case SeeFinished => SetLife(s, cb, RemoveReleasing(l.t))
    case Release => ReleaseToken(SetLife(s, cb, Dead)).(refs := s.refs - {cb})
  }

  ghost function Apply(s: State, a: Action): State
    requires Enabled(s, a)
  {
    match a
    case OnHandle(h) => ApplyHandle(s, h)
    case OnRequest(r) => ApplyRequest(s, r)
    case OnAdd(cb, add) => ApplyAdd(s, cb, add)
    case OnRemove(cb, rm) => ApplyRemove(s, cb, rm)
  }

  /* ----- what holds in every reachable state ----- */

  predicate OwnsRef(l: Life) {
    l.Registered? || InRemove(l)
  }

  // The signaller holds cb without having started it.
  predicate NotStarted(sig: Signal, cb: Callback) {
    (sig.Dequeued? || sig.Unlocked?) && sig.cb == cb
  }

  // The signaller is going to touch the node of cb.
  predicate WillTouch(sig: Signal, cb: Callback) {
    || NotStarted(sig, cb)
    || ((sig.Running? || sig.Returned?) && sig.cb == cb && !sig.removed)
    || (sig.Finishing? && sig.cb == cb)
  }

  predicate HasCurrent(sig: Signal) {
    sig.Dequeued? || sig.Unlocked? || sig.Running? || sig.Returned? || sig.Finishing?
  }

  predicate IsCurrent(sig: Signal, cb: Callback) {
    HasCurrent(sig) && sig.cb == cb
  }

  // The lock bit is set exactly while one operation is inside its critical section.
  predicate LockInv(s: State) {
    (s.word.locked <==> s.holder != Nobody) && (SignalHoldsLock(s.sig) <==> s.holder == TheSignaller)
  }

  // The counts are the numbers of live objects, and the state is deleted when there are none left.
  ghost predicate CountInv(s: State) {
    && s.word.tokens == |s.tokens| + |s.refs|
    && s.word.sources == |s.sources|
    && s.word.tokens < COUNT_LIMIT && s.word.sources < COUNT_LIMIT
    && s.deletions == if s.tokens == {} && s.sources == {} && s.refs == {} then 1 else 0
  }

  // Requests under way keep the source they were called on alive, and are all accounted for.
  ghost predicate RequestInv(s: State) {
    var ok :=
      && (forall t :: t in s.trying ==> s.trying[t] in s.sources)
      && (SignalActive(s.sig) ==> s.sig.h in s.sources)
      && (SignalActive(s.sig) && !s.sig.Running? ==> s.sig.t !in s.trying)
      && (s.word.stop <==> !s.sig.Quiet?)
      && s.wins == (if s.sig.Finished? then 1 else 0)
      && (s.losses > 0 ==> s.word.stop)
      && s.begun == |s.trying| + s.losses + if s.sig.Quiet? then 0 else 1;
    ok
  }

  predicate QueueInv(s: State) {
    var ok :=
      && NoDuplicates(s.queue)
      && (s.sig.Quiet? ==> s.dequeued == {} && s.linkedAtSignal == {})
      && (s.sig.Leaving? || s.sig.Finished? ==> s.queue == [])
      && (HasCurrent(s.sig) ==> s.sig.cb in s.dequeued && (!s.sig.more ==> s.queue == []));
    ok
  }

  // Where a callback is in its life agrees with the lock, the references and the queue.
  predicate PlaceOk(s: State, cb: Callback) {
    var l := At(s.life, cb);
    var ok :=
      && (HoldsLock(l) <==> s.holder == TheCallback(cb))
      && (cb in s.refs <==> OwnsRef(l))
      && (InAdd(l) ==> l.h in s.tokens)
      && (cb in s.queue ==> l.AddLinked? || l.Registered? || l.Removing? || l.RemoveLocked?)
      && (cb in s.queue ==> cb !in s.dequeued && cb !in s.unlinked)
      && (l.AddLinked? ==> cb in s.queue)
      && (OwnsRef(l) ==> cb in s.queue || cb in s.dequeued || cb in s.unlinked)
      && (cb in s.unlinked ==> cb !in s.dequeued && (l.RemoveUnlinked? || l.Dead?))
      && (l.RemoveUnlinked? ==> cb in s.unlinked)
      && (cb in s.dequeued ==> OwnsRef(l) || l.Dead?)
      // once stop is requested nothing is linked any more
      && (s.word.stop ==> !l.AddLocked? && !l.AddLinked?)
      && (s.sig.Quiet? ==> !l.Inline?)
      && (cb in s.linkedAtSignal ==> cb in s.queue || cb in s.dequeued || cb in s.unlinked)
      // the signalling thread does other things only inside the callback it runs
      && (SignalActive(s.sig) && !s.sig.Running? ==> !By(l, s.sig.t));
    ok
  }

  predicate RunOk(s: State, cb: Callback) {
    var l, n := At(s.life, cb), Runs(s.runs, cb);
    var ok :=
      && n <= 1
      && (n > 0 ==> s.word.stop)
      && (cb in s.queue || cb in s.unlinked ==> n == 0)
      && (cb in s.dequeued ==> n == if NotStarted(s.sig, cb) then 0 else 1)
      && (l.Unborn? || l.Adding? || l.AddLocked? ==> n == 0 && cb !in s.dequeued && cb !in s.unlinked && cb !in s.queue)
      && (l.Unregistered? || l.Inline? ==> cb !in s.dequeued && cb !in s.unlinked && cb !in s.queue);
    ok
  }

  predicate NodeOk(s: State, cb: Callback) {
    var l := At(s.life, cb);
    var running := (s.sig.Running? || s.sig.Returned?) && s.sig.cb == cb;
    var gone := l.RemoveReleasing? || l.Dead?;
    var ok :=
      // __isRemoved_ points at the local flag while the callback runs, and stays if the callback removed itself
      && (cb in s.pointed ==> running || gone)
      && (running ==> cb in s.pointed)
      && (cb in s.finished ==> cb in s.dequeued && !IsCurrent(s.sig, cb))
      && (cb in s.dequeued && !IsCurrent(s.sig, cb) ==> cb in s.finished || gone)
      // a destroyed callback is not touched again
      && (gone ==> !WillTouch(s.sig, cb))
      && (running && s.sig.removed ==> gone)
      && (l.RemoveMissed? || l.RemoveAsking? || l.RemoveWaiting? ==> cb in s.dequeued)
      && (l.RemoveWaiting? ==> !s.sig.Quiet? && l.t != s.sig.t)
      && (l.RemoveReleasing? && IsCurrent(s.sig, cb) ==> l.t == s.sig.t);
    ok
  }

  predicate Ok(s: State, cb: Callback) {
    PlaceOk(s, cb) && RunOk(s, cb) && NodeOk(s, cb)
  }

  // A token that is moved from by one constructor is not in use by another.
  ghost predicate PinInv(s: State) {
    forall c, d :: InAdd(At(s.life, c)) && InAdd(At(s.life, d)) && c != d && At(s.life, c).h == At(s.life, d).h ==>
      At(s.life, c).Inline? || !At(s.life, c).moves
  }

  ghost predicate GlobalInv(s: State) {
    LockInv(s) && CountInv(s) && RequestInv(s) && QueueInv(s)
  }

  ghost predicate Inv(s: State) {
    GlobalInv(s) && PinInv(s) && forall cb :: Ok(s, cb)
  }

  lemma InitialInv(h: Handle)
    ensures Inv(Initial(h))
  {
  }

  // The two states do not differ in what concerns cb.
  predicate Agree(s: State, t: State, cb: Callback) {
    var same :=
      && At(s.life, cb) == At(t.life, cb) && Runs(s.runs, cb) == Runs(t.runs, cb)
      && s.sig == t.sig && s.word.stop == t.word.stop
      && (s.holder == TheCallback(cb) <==> t.holder == TheCallback(cb))
      && (cb in s.refs <==> cb in t.refs) && (cb in s.queue <==> cb in t.queue)
      && (cb in s.dequeued <==> cb in t.dequeued) && (cb in s.unlinked <==> cb in t.unlinked)
      && (cb in s.linkedAtSignal <==> cb in t.linkedAtSignal)
      && (cb in s.pointed <==> cb in t.pointed) && (cb in s.finished <==> cb in t.finished)
      && (InAdd(At(s.life, cb)) && At(s.life, cb).h in s.tokens ==> At(s.life, cb).h in t.tokens);
    same
  }

  lemma AgreeKeepsOk(s: State, t: State, cb: Callback)
    requires Ok(s, cb) && Agree(s, t, cb)
    ensures Ok(t, cb)
  {
  }

  /* ----- every step keeps it: handles ----- */

  lemma HandleKeeps(s: State, a: HandleStep)
    requires Inv(s) && HandleEnabled(s, a)
    ensures Inv(ApplyHandle(s, a))
  {
    HandleKeepsCounts(s, a);
    HandleKeepsRequests(s, a);
    forall c ensures Ok(ApplyHandle(s, a), c) {
      assert Ok(s, c);
      HandleLeavesAlone(s, a, c);
      AgreeKeepsOk(s, ApplyHandle(s, a), c);
    }
  }

  lemma HandleLeavesAlone(s: State, a: HandleStep, c: Callback)
    requires HandleEnabled(s, a)
    ensures Agree(s, ApplyHandle(s, a), c)
  {
  }

  lemma HandleKeepsCounts(s: State, a: HandleStep)
    requires CountInv(s) && HandleEnabled(s, a)
    ensures CountInv(ApplyHandle(s, a))
  {
  }

  lemma HandleKeepsRequests(s: State, a: HandleStep)
    requires LockInv(s) && RequestInv(s) && QueueInv(s) && HandleEnabled(s, a)
    ensures LockInv(ApplyHandle(s, a)) && RequestInv(ApplyHandle(s, a)) && QueueInv(ApplyHandle(s, a))
  {
  }

  /* ----- requests ----- */

  lemma RequestKeeps(s: State, a: RequestStep)
    requires Inv(s) && RequestEnabled(s, a)
    ensures Inv(ApplyRequest(s, a))
  {
    RequestKeepsLock(s, a);
    RequestKeepsCounts(s, a);
    if IsCall(a) {
      CallKeepsRequests(s, a);
    } else {
      LoopKeepsRequests(s, a);
    }
    RequestKeepsQueue(s, a);
    RequestKeepsLife(s, a);
    forall c ensures Ok(ApplyRequest(s, a), c) {
      assert Ok(s, c);
      RequestKeepsPlace(s, a, c);
      if IsCall(a) {
        CallKeepsOk(s, a, c);
      } else if AroundRun(a) {
        ExecutionKeepsRun(s, a, c);
        ExecutionKeepsNode(s, a, c);
      } else {
        LoopKeepsOk(s, a, c);
      }
    }
  }

  lemma RequestKeepsLife(s: State, r: RequestStep)
    requires RequestEnabled(s, r)
    ensures ApplyRequest(s, r).life == s.life
  {
  }

  lemma RequestKeepsLock(s: State, a: RequestStep)
    requires LockInv(s) && RequestEnabled(s, a)
    ensures LockInv(ApplyRequest(s, a))
  {
  }

  lemma RequestKeepsCounts(s: State, a: RequestStep)
    requires CountInv(s) && RequestEnabled(s, a)
    ensures CountInv(ApplyRequest(s, a))
  {
  }

  predicate IsCall(a: RequestStep) {
    a.Begin? || a.Lose? || a.Win?
  }

  // The steps around the execution of a callback.
  predicate AroundRun(a: RequestStep) {
    a.Run? || a.CallbackReturns? || a.AfterRun? || a.Finish?
  }

  lemma CallKeepsRequests(s: State, a: RequestStep)
    requires RequestInv(s) && RequestEnabled(s, a) && IsCall(a)
    ensures RequestInv(ApplyRequest(s, a))
  {
  }

  lemma LoopKeepsRequests(s: State, a: RequestStep)
    requires RequestInv(s) && RequestEnabled(s, a) && !IsCall(a)
    ensures RequestInv(ApplyRequest(s, a))
  {
  }

  lemma RequestKeepsQueue(s: State, a: RequestStep)
    requires QueueInv(s) && RequestInv(s) && RequestEnabled(s, a)
    ensures QueueInv(ApplyRequest(s, a))
  {
    TailDiffers(s.queue);
  }

  lemma TailDiffers(q: seq<Callback>)
    requires NoDuplicates(q)
    ensures q != [] ==> NoDuplicates(q[1..])
  {
    assert q != [] ==> forall i | 0 <= i < |q[1..]| :: q[1..][i] == q[i + 1];
  }

  lemma RequestKeepsPlace(s: State, a: RequestStep, c: Callback)
    requires LockInv(s) && RequestInv(s) && QueueInv(s) && PlaceOk(s, c) && RequestEnabled(s, a)
    ensures PlaceOk(ApplyRequest(s, a), c)
  {
  }

  lemma CallKeepsOk(s: State, a: RequestStep, c: Callback)
    requires RequestInv(s) && QueueInv(s) && Ok(s, c) && RequestEnabled(s, a) && IsCall(a)
    ensures RunOk(ApplyRequest(s, a), c) && NodeOk(ApplyRequest(s, a), c)
  {
  }

  lemma LoopKeepsOk(s: State, a: RequestStep, c: Callback)
    requires QueueInv(s) && Ok(s, c) && RequestEnabled(s, a) && !IsCall(a) && !AroundRun(a)
    ensures RunOk(ApplyRequest(s, a), c) && NodeOk(ApplyRequest(s, a), c)
  {
  }

  lemma ExecutionKeepsRun(s: State, a: RequestStep, c: Callback)
    requires QueueInv(s) && RequestInv(s) && Ok(s, c) && RequestEnabled(s, a) && AroundRun(a)
    ensures RunOk(ApplyRequest(s, a), c)
  {
  }

  lemma ExecutionKeepsNode(s: State, a: RequestStep, c: Callback)
    requires QueueInv(s) && Ok(s, c) && RequestEnabled(s, a) && AroundRun(a)
    ensures NodeOk(ApplyRequest(s, a), c)
  {
  }

  /* ----- constructing a callback ----- */

  lemma AddKeeps(s: State, cb: Callback, a: AddStep)
    requires Inv(s) && AddEnabled(s, cb, a)
    ensures Inv(ApplyAdd(s, cb, a))
  {
    assert Ok(s, cb);
    AddKeepsCounts(s, cb, a);
    AddKeepsQueue(s, cb, a);
    AddKeepsPins(s, cb, a);
    forall c ensures Ok(ApplyAdd(s, cb, a), c) {
      assert Ok(s, c);
      if c == cb {
        AddKeepsPlace(s, cb, a);
        AddKeepsRun(s, cb, a);
      } else {
        AddLeavesAlone(s, cb, a, c);
        AgreeKeepsOk(s, ApplyAdd(s, cb, a), c);
      }
    }
  }

  lemma AddKeepsCounts(s: State, cb: Callback, a: AddStep)
    requires LockInv(s) && CountInv(s) && Ok(s, cb) && AddEnabled(s, cb, a)
    ensures LockInv(ApplyAdd(s, cb, a)) && CountInv(ApplyAdd(s, cb, a))
  {
  }

  lemma AddKeepsQueue(s: State, cb: Callback, a: AddStep)
    requires RequestInv(s) && QueueInv(s) && Ok(s, cb) && AddEnabled(s, cb, a)
    ensures RequestInv(ApplyAdd(s, cb, a)) && QueueInv(ApplyAdd(s, cb, a))
  {
  }

  lemma AddKeepsPins(s: State, cb: Callback, a: AddStep)
    requires PinInv(s) && AddEnabled(s, cb, a)
    ensures PinInv(ApplyAdd(s, cb, a))
  {
  }

  // What a constructor's step does to its own callback and to any other.
  lemma AddKeepsPlace(s: State, cb: Callback, a: AddStep)
    requires LockInv(s) && RequestInv(s) && QueueInv(s) && Ok(s, cb) && AddEnabled(s, cb, a)
    ensures PlaceOk(ApplyAdd(s, cb, a), cb)
  {
  }

  lemma AddKeepsRun(s: State, cb: Callback, a: AddStep)
    requires RequestInv(s) && QueueInv(s) && Ok(s, cb) && AddEnabled(s, cb, a)
    ensures RunOk(ApplyAdd(s, cb, a), cb) && NodeOk(ApplyAdd(s, cb, a), cb)
  {
  }

  lemma AddLeavesAlone(s: State, cb: Callback, a: AddStep, c: Callback)
    requires LockInv(s) && RequestInv(s) && PinInv(s) && Ok(s, cb) && Ok(s, c) && c != cb && AddEnabled(s, cb, a)
    ensures Agree(s, ApplyAdd(s, cb, a), c)
  {
  }

  /* ----- destroying a callback ----- */

  lemma RemoveKeeps(s: State, cb: Callback, a: RemoveStep)
    requires Inv(s) && RemoveEnabled(s, cb, a)
    ensures Inv(ApplyRemove(s, cb, a))
  {
    assert Ok(s, cb);
    RemoveKeepsCounts(s, cb, a);
    RemoveKeepsQueue(s, cb, a);
    RemoveKeepsRequests(s, cb, a);
    RemoveKeepsPins(s, cb, a);
    forall c ensures Ok(ApplyRemove(s, cb, a), c) {
      assert Ok(s, c);
      if c == cb {
        RemoveKeepsPlace(s, cb, a);
        RemoveKeepsNode(s, cb, a);
        RemoveKeepsRun(s, cb, a);
      } else if a.Ask? {
        AskKeepsOther(s, cb, c);
      } else {
        RemoveLeavesAlone(s, cb, a, c);
        AgreeKeepsOk(s, ApplyRemove(s, cb, a), c);
      }
    }
  }

  lemma RemoveKeepsCounts(s: State, cb: Callback, a: RemoveStep)
    requires LockInv(s) && CountInv(s) && Ok(s, cb) && RemoveEnabled(s, cb, a)
    ensures LockInv(ApplyRemove(s, cb, a)) && CountInv(ApplyRemove(s, cb, a))
  {
  }

  lemma RemoveKeepsQueue(s: State, cb: Callback, a: RemoveStep)
    requires QueueInv(s) && Ok(s, cb) && RemoveEnabled(s, cb, a)
    ensures QueueInv(ApplyRemove(s, cb, a))
  {
    WithoutElementKeeps(s.queue, cb);
  }

  lemma RemoveKeepsRequests(s: State, cb: Callback, a: RemoveStep)
    requires RequestInv(s) && RemoveEnabled(s, cb, a)
    ensures RequestInv(ApplyRemove(s, cb, a))
  {
  }

  lemma RemoveKeepsPins(s: State, cb: Callback, a: RemoveStep)
    requires PinInv(s) && RemoveEnabled(s, cb, a)
    ensures PinInv(ApplyRemove(s, cb, a))
  {
  }

  // What a destructor's step does to its own callback and to any other.
  lemma RemoveKeepsPlace(s: State, cb: Callback, a: RemoveStep)
    requires LockInv(s) && QueueInv(s) && Ok(s, cb) && RemoveEnabled(s, cb, a)
    ensures PlaceOk(ApplyRemove(s, cb, a), cb)
  {
  }

  lemma RemoveKeepsNode(s: State, cb: Callback, a: RemoveStep)
    requires QueueInv(s) && Ok(s, cb) && RemoveEnabled(s, cb, a)
    ensures NodeOk(ApplyRemove(s, cb, a), cb)
  {
  }

  lemma RemoveKeepsRun(s: State, cb: Callback, a: RemoveStep)
    requires Ok(s, cb) && RemoveEnabled(s, cb, a)
    ensures RunOk(ApplyRemove(s, cb, a), cb)
  {
  }

  lemma RemoveLeavesAlone(s: State, cb: Callback, a: RemoveStep, c: Callback)
    requires LockInv(s) && Ok(s, cb) && Ok(s, c) && c != cb && !a.Ask? && RemoveEnabled(s, cb, a)
    ensures Agree(s, ApplyRemove(s, cb, a), c)
  {
  }

  // Asking may set the signaller's flag, which is about the callback that asks.
  lemma AskKeepsOther(s: State, cb: Callback, c: Callback)
    requires Ok(s, cb) && Ok(s, c) && c != cb && RemoveEnabled(s, cb, Ask)
    ensures Ok(ApplyRemove(s, cb, Ask), c)
  {
  }

  lemma StepKeepsInv(s: State, a: Action)
    requires Inv(s) && Enabled(s, a)
    ensures Inv(Apply(s, a))
  {
    match a
    case OnHandle(h) => HandleKeeps(s, h);
    case OnRequest(r) => RequestKeeps(s, r);
    case OnAdd(cb, add) => AddKeeps(s, cb, add);
    case OnRemove(cb, rm) => RemoveKeeps(s, cb, rm);
  }

  /* ----- every interleaving ----- */

  // The states an interleaving of atomic steps goes through.
  ghost predicate Interleaving(states: seq<State>, actions: seq<Action>) {
    && |states| == |actions| + 1
    && (exists h :: states[0] == Initial(h))
    && forall i {:trigger actions[i]} | 0 <= i < |actions| ::
          Enabled(states[i], actions[i]) && states[i + 1] == Apply(states[i], actions[i])
  }

  lemma {:induction false} InvAlways(states: seq<State>, actions: seq<Action>, i: nat)
    requires Interleaving(states, actions) && i < |states|
    ensures Inv(states[i])
  {
    if i == 0 {
      var h :| states[0] == Initial(h);
      InitialInv(h);
    } else {
      InvAlways(states, actions, i - 1);
      StepKeepsInv(states[i - 1], actions[i - 1]);
    }
  }

  // At most one request returns true; and whenever requests were made and none is under way, exactly one did.
  lemma ExactlyOneWinner(states: seq<State>, actions: seq<Action>, i: nat)
    requires Interleaving(states, actions) && i < |states|
    ensures states[i].wins <= 1
    ensures states[i].begun > 0 && states[i].trying == map[] && !SignalActive(states[i].sig) ==>
              states[i].wins == 1 && states[i].losses == states[i].begun - 1
    ensures states[i].losses > 0 ==> states[i].word.stop
  {
    InvAlways(states, actions, i);
  }

  // No callback runs twice.  When the winning request has returned, every callback linked at the signal has run
  // once, unless it was unlinked before being dequeued, and then it has not run.
  lemma EveryLinkedCallbackRuns(states: seq<State>, actions: seq<Action>, i: nat, cb: Callback)
    requires Interleaving(states, actions) && i < |states|
    ensures Runs(states[i].runs, cb) <= 1
    ensures states[i].sig.Finished? && cb in states[i].linkedAtSignal ==>
              Runs(states[i].runs, cb) == if cb in states[i].unlinked then 0 else 1
  {
    InvAlways(states, actions, i);
    assert Ok(states[i], cb);
  }

  predicate IsWin(a: Action) {
    a.OnRequest? && a.rs.Win?
  }

  // Stop is requested exactly from the one step on in which a request wins.
  lemma {:induction false} StopMeansWon(states: seq<State>, actions: seq<Action>, j: nat)
    requires Interleaving(states, actions) && j < |states|
    ensures states[j].word.stop <==> exists i :: 0 <= i < j && IsWin(actions[i])
    ensures forall i, k | 0 <= i < j && 0 <= k < j && IsWin(actions[i]) && IsWin(actions[k]) :: i == k
  {
    if j > 0 {
      StopMeansWon(states, actions, j - 1);
      StopChanges(states[j - 1], actions[j - 1]);
    }
  }

  lemma StopChanges(s: State, a: Action)
    requires Enabled(s, a)
    ensures Apply(s, a).word.stop <==> s.word.stop || IsWin(a)
    ensures !(s.word.stop && IsWin(a))
  {
    match a
    case OnHandle(_) =>
    case OnRequest(r) => RequestChangesStop(s, r);
    case OnAdd(c, add) => AddKeepsStop(s, c, add);
    case OnRemove(c, rm) => RemoveKeepsStop(s, c, rm);
  }

  lemma RequestChangesStop(s: State, r: RequestStep)
    requires RequestEnabled(s, r)
    ensures ApplyRequest(s, r).word.stop <==> s.word.stop || r.Win?
  {
  }

  lemma AddKeepsStop(s: State, c: Callback, a: AddStep)
    requires AddEnabled(s, c, a)
    ensures ApplyAdd(s, c, a).word.stop == s.word.stop
  {
  }

  lemma RemoveKeepsStop(s: State, c: Callback, a: RemoveStep)
    requires RemoveEnabled(s, c, a)
    ensures ApplyRemove(s, c, a).word.stop == s.word.stop
  {
  }

  // Nothing runs before stop is requested.
  lemma RunsOnlyOnceStopped(states: seq<State>, actions: seq<Action>, i: nat, cb: Callback)
    requires Interleaving(states, actions) && i < |states| && Runs(states[i].runs, cb) > 0
    ensures states[i].word.stop && exists k :: 0 <= k < i && IsWin(actions[k])
  {
    InvAlways(states, actions, i);
    assert Ok(states[i], cb);
    StopMeansWon(states, actions, i);
  }

  // What a constructor does depends on nothing but a stop already requested and the sources left.
  lemma ConstructorDecides(states: seq<State>, actions: seq<Action>, i: nat, cb: Callback, a: AddStep)
    requires Interleaving(states, actions) && i < |states|
    requires At(states[i].life, cb).Adding? && AddEnabled(states[i], cb, a)
    ensures a == if states[i].word.stop then FindStop else if states[i].sources == {} then FindNoSource else Lock
  {
    InvAlways(states, actions, i);
  }

  // A callback constructed without a stop request and with no source left never runs.
  lemma {:induction false} RefusedNeverRuns(states: seq<State>, actions: seq<Action>, i: nat, j: nat, cb: Callback)
    requires Interleaving(states, actions) && i < j < |states| && actions[i] == OnAdd(cb, FindNoSource)
    ensures At(states[j].life, cb).Unregistered? && Runs(states[j].runs, cb) == 0
    decreases j
  {
    InvAlways(states, actions, j - 1);
    assert Ok(states[j - 1], cb);
    if i + 1 < j {
      RefusedNeverRuns(states, actions, i, j - 1, cb);
      RefusedStep(states[j - 1], actions[j - 1], cb);
    }
  }

  lemma RefusedStep(s: State, a: Action, cb: Callback)
    requires QueueInv(s) && Ok(s, cb) && Enabled(s, a) && At(s.life, cb).Unregistered?
    ensures At(Apply(s, a).life, cb).Unregistered? && Runs(Apply(s, a).runs, cb) == Runs(s.runs, cb)
  {
    match a
    case OnHandle(_) =>
    case OnRequest(r) => RefusedRequest(s, r, cb);
    case OnAdd(c, add) => RefusedAdd(s, c, add, cb);
    case OnRemove(c, rm) => RefusedRemove(s, c, rm, cb);
  }

  lemma RefusedRequest(s: State, r: RequestStep, cb: Callback)
    requires QueueInv(s) && Ok(s, cb) && RequestEnabled(s, r) && At(s.life, cb).Unregistered?
    ensures ApplyRequest(s, r).life == s.life && Runs(ApplyRequest(s, r).runs, cb) == Runs(s.runs, cb)
  {
  }

  lemma RefusedAdd(s: State, c: Callback, a: AddStep, cb: Callback)
    requires AddEnabled(s, c, a) && At(s.life, cb).Unregistered?
    ensures At(ApplyAdd(s, c, a).life, cb).Unregistered?
    ensures Runs(ApplyAdd(s, c, a).runs, cb) == Runs(s.runs, cb)
  {
  }

  lemma RefusedRemove(s: State, c: Callback, a: RemoveStep, cb: Callback)
    requires RemoveEnabled(s, c, a) && At(s.life, cb).Unregistered?
    ensures At(ApplyRemove(s, c, a).life, cb).Unregistered?
    ensures Runs(ApplyRemove(s, c, a).runs, cb) == Runs(s.runs, cb)
  {
  }

  // Between the i-th state and the j-th a destructor found cb linked.
  ghost predicate UnlinkedBetween(states: seq<State>, actions: seq<Action>, i: nat, j: nat, cb: Callback)
    requires j <= |actions| && |actions| < |states|
  {
    exists k :: i <= k < j && actions[k] == OnRemove(cb, LookUp) && cb in states[k].queue
  }

  // A request that returns true has run every callback linked when it won and not unlinked meanwhile.
  lemma LinkedAtWinRuns(states: seq<State>, actions: seq<Action>, i: nat, j: nat, cb: Callback)
    requires Interleaving(states, actions) && i < j < |states|
    requires IsWin(actions[i]) && cb in states[i].queue && states[j].sig.Finished?
    ensures Runs(states[j].runs, cb) == if UnlinkedBetween(states, actions, i, j, cb) then 0 else 1
  {
    forall k | 0 <= k < |actions| ensures Onward(states[k], actions[k], states[k + 1], cb) {
      LinkedOnward(states, actions, k, cb);
    }
    LinkedUntil(states, actions, i, j, cb);
    InvAlways(states, actions, j);
    assert Ok(states[j], cb);
  }

  // What one step does to a linked callback.
  predicate Onward(s: State, a: Action, s': State, cb: Callback) {
    && (cb in s.unlinked ==> cb in s'.unlinked)
    && (cb in s.dequeued ==> cb in s'.dequeued && cb !in s.queue)
    && (cb in s.queue ==>
          if a == OnRemove(cb, LookUp) then cb in s'.unlinked else cb in s'.queue || cb in s'.dequeued)
  }

  lemma {:induction false} LinkedUntil(states: seq<State>, actions: seq<Action>, i: nat, j: nat, cb: Callback)
    requires i <= j <= |actions| < |states| && cb in states[i].queue
    requires forall k {:trigger actions[k]} | 0 <= k < |actions| :: Onward(states[k], actions[k], states[k + 1], cb)
    ensures if UnlinkedBetween(states, actions, i, j, cb) then cb in states[j].unlinked
            else cb in states[j].queue || cb in states[j].dequeued
    decreases j
  {
    if i < j {
      LinkedUntil(states, actions, i, j - 1, cb);
      assert Onward(states[j - 1], actions[j - 1], states[j], cb);
      UnlinkedGrows(states, actions, i, j - 1, cb);
    }
  }

  lemma UnlinkedGrows(states: seq<State>, actions: seq<Action>, i: nat, j: nat, cb: Callback)
    requires i <= j < |actions| < |states|
    ensures UnlinkedBetween(states, actions, i, j + 1, cb)
       <==> UnlinkedBetween(states, actions, i, j, cb)
            || (actions[j] == OnRemove(cb, LookUp) && cb in states[j].queue)
  {
  }

  // One step of the interleaving.
  lemma LinkedOnward(states: seq<State>, actions: seq<Action>, k: nat, cb: Callback)
    requires Interleaving(states, actions) && k < |actions|
    ensures Onward(states[k], actions[k], states[k + 1], cb)
  {
    InvAlways(states, actions, k);
    assert Ok(states[k], cb);
    LinkedStep(states[k], actions[k], cb);
  }

  lemma LinkedStep(s: State, a: Action, cb: Callback)
    requires Enabled(s, a)
    ensures cb in s.unlinked ==> cb in Apply(s, a).unlinked
    ensures cb in s.dequeued ==> cb in Apply(s, a).dequeued
    ensures cb in s.queue ==>
              if a == OnRemove(cb, LookUp) then cb in Apply(s, a).unlinked
              else cb in Apply(s, a).queue || cb in Apply(s, a).dequeued
  {
    match a
    case OnHandle(_) =>
    case OnRequest(r) => LinkedRequest(s, r, cb);
    case OnAdd(c, add) => LinkedAdd(s, c, add, cb);
    case OnRemove(c, rm) => LinkedRemove(s, c, rm, cb);
  }

  lemma LinkedRequest(s: State, r: RequestStep, cb: Callback)
    requires RequestEnabled(s, r)
    ensures ApplyRequest(s, r).unlinked == s.unlinked && s.dequeued <= ApplyRequest(s, r).dequeued
    ensures cb in s.queue ==> cb in ApplyRequest(s, r).queue || cb in ApplyRequest(s, r).dequeued
  {
  }

  lemma LinkedAdd(s: State, c: Callback, a: AddStep, cb: Callback)
    requires AddEnabled(s, c, a)
    ensures ApplyAdd(s, c, a).unlinked == s.unlinked && ApplyAdd(s, c, a).dequeued == s.dequeued
    ensures cb in s.queue ==> cb in ApplyAdd(s, c, a).queue
  {
  }

  lemma LinkedRemove(s: State, c: Callback, a: RemoveStep, cb: Callback)
    requires RemoveEnabled(s, c, a)
    ensures s.unlinked <= ApplyRemove(s, c, a).unlinked && ApplyRemove(s, c, a).dequeued == s.dequeued
    ensures cb in s.queue ==>
              if c == cb && a.LookUp? then cb in ApplyRemove(s, c, a).unlinked else cb in ApplyRemove(s, c, a).queue
  {
  }

  // After the signal nothing is ever linked, and constructing a callback can only run it inline, at once.
  lemma NothingLinkedAfterSignal(states: seq<State>, actions: seq<Action>, i: nat, cb: Callback)
    requires Interleaving(states, actions) && i < |actions| && states[i].word.stop
    ensures states[i + 1].word.stop && (cb in states[i + 1].queue ==> cb in states[i].queue)
    ensures forall a | At(states[i].life, cb).Adding? && AddEnabled(states[i], cb, a) ::
              a == FindStop && Runs(ApplyAdd(states[i], cb, a).runs, cb) == 1
  {
    InvAlways(states, actions, i);
    assert Ok(states[i], cb);
    assert actions[i].OnAdd? ==> Ok(states[i], actions[i].cb);
    StoppedStep(states[i], actions[i], cb);
  }

  lemma StoppedStep(s: State, a: Action, cb: Callback)
    requires (a.OnAdd? ==> Ok(s, a.cb)) && s.word.stop && Enabled(s, a)
    ensures Apply(s, a).word.stop && (cb in Apply(s, a).queue ==> cb in s.queue)
  {
    match a
    case OnHandle(_) =>
    case OnRequest(r) => StoppedRequest(s, r, cb);
    case OnAdd(c, add) => StoppedAdd(s, c, add, cb);
    case OnRemove(c, rm) => StoppedRemove(s, c, rm, cb);
  }

  lemma StoppedAdd(s: State, c: Callback, a: AddStep, cb: Callback)
    requires Ok(s, c) && s.word.stop && AddEnabled(s, c, a)
    ensures ApplyAdd(s, c, a).word.stop && (cb in ApplyAdd(s, c, a).queue ==> cb in s.queue)
  {
  }

  lemma StoppedRemove(s: State, c: Callback, a: RemoveStep, cb: Callback)
    requires s.word.stop && RemoveEnabled(s, c, a)
    ensures ApplyRemove(s, c, a).word.stop && (cb in ApplyRemove(s, c, a).queue ==> cb in s.queue)
  {
  }

  lemma StoppedRequest(s: State, r: RequestStep, cb: Callback)
    requires s.word.stop && RequestEnabled(s, r)
    ensures ApplyRequest(s, r).word.stop && (cb in ApplyRequest(s, r).queue ==> cb in s.queue)
  {
  }

  // The steps that read or write the node of cb.
  predicate Touches(s: State, a: Action, cb: Callback) {
    match a
    case OnRequest(Look) => cb in s.queue
    case OnRequest(Run) => s.sig.Unlocked? && s.sig.cb == cb
    case OnRequest(AfterRun) => s.sig.Returned? && s.sig.cb == cb && !s.sig.removed
    case OnRequest(Finish) => s.sig.Finishing? && s.sig.cb == cb
    case OnAdd(c, Link) => c == cb || cb in s.queue
    case OnRemove(c, LookUp) => c == cb || cb in s.queue
    case OnRemove(c, Ask) => c == cb
    case OnRemove(c, SeeFinished) => c == cb
    case _ => false
  }

  lemma DeadStaysDead(states: seq<State>, actions: seq<Action>, i: nat, j: nat, cb: Callback)
    requires Interleaving(states, actions) && i <= j < |states| && At(states[i].life, cb).Dead?
    ensures At(states[j].life, cb).Dead?
    decreases j - i
  {
    if i < j {
      DeadStaysDead(states, actions, i, j - 1, cb);
      DeadStep(states[j - 1], actions[j - 1], states[j], cb);
    }
  }

  lemma DeadStep(s: State, a: Action, s': State, cb: Callback)
    requires At(s.life, cb).Dead? && Enabled(s, a) && s' == Apply(s, a)
    ensures At(s'.life, cb).Dead?
  {
    match a
    case OnHandle(h) => HandleKeepsLife(s, h);
    case OnRequest(r) => RequestKeepsLife(s, r);
    case OnAdd(c, add) => AddKeepsDead(s, c, add, cb);
    case OnRemove(c, rm) => RemoveKeepsDead(s, c, rm, cb);
  }

  lemma HandleKeepsLife(s: State, h: HandleStep)
    requires HandleEnabled(s, h)
    ensures ApplyHandle(s, h).life == s.life
  {
  }

  lemma AddKeepsDead(s: State, c: Callback, a: AddStep, cb: Callback)
    requires At(s.life, cb).Dead? && AddEnabled(s, c, a)
    ensures At(ApplyAdd(s, c, a).life, cb).Dead?
  {
  }

  lemma RemoveKeepsDead(s: State, c: Callback, a: RemoveStep, cb: Callback)
    requires At(s.life, cb).Dead? && RemoveEnabled(s, c, a)
    ensures At(ApplyRemove(s, c, a).life, cb).Dead?
  {
  }

  // A destructor that returned leaves a callback nobody touches any more, whatever happens later.
  lemma DestroyedIsNeverTouched(states: seq<State>, actions: seq<Action>, i: nat, j: nat, cb: Callback)
    requires Interleaving(states, actions) && i <= j < |actions| && At(states[i].life, cb).Dead?
    ensures !Touches(states[j], actions[j], cb)
    ensures !WillTouch(states[j].sig, cb)
  {
    DeadStaysDead(states, actions, i, j, cb);
    InvAlways(states, actions, j);
    DeadIsNotTouched(states[j], actions[j], cb);
  }

  lemma DeadIsNotTouched(s: State, a: Action, cb: Callback)
    requires Ok(s, cb) && At(s.life, cb).Dead? && Enabled(s, a)
    ensures !Touches(s, a, cb) && !WillTouch(s.sig, cb)
  {
  }

  // A destructor returns only when its callback is not running, or runs on the very thread that destroys it; and
  // when it tells the signaller so, the flag it writes through is that of the callback's own run.
  lemma DestructorWaitsForRun(states: seq<State>, actions: seq<Action>, i: nat, cb: Callback)
    requires Interleaving(states, actions) && i < |states|
    ensures At(states[i].life, cb).RemoveReleasing? && states[i].sig.Running? && states[i].sig.cb == cb ==>
              states[i].sig.removed && At(states[i].life, cb).t == states[i].sig.t
    ensures At(states[i].life, cb).RemoveUnlinked? ==> Runs(states[i].runs, cb) == 0
    ensures var s := states[i];
            At(s.life, cb).RemoveAsking? && !s.sig.Quiet? && s.sig.t == At(s.life, cb).t && cb in s.pointed ==>
              s.sig.Running? && s.sig.cb == cb
  {
    InvAlways(states, actions, i);
    assert Ok(states[i], cb);
  }

  // The token count is the number of live tokens plus callbacks registered; the state is deleted once, exactly
  // when nothing refers to it, and no step happens after that.
  lemma DeletedOnceAndLast(states: seq<State>, actions: seq<Action>, i: nat)
    requires Interleaving(states, actions) && i < |states|
    ensures states[i].word.tokens == |states[i].tokens| + |states[i].refs|
    ensures states[i].word.sources == |states[i].sources|
    ensures states[i].deletions == if states[i].word.tokens == 0 && states[i].word.sources == 0 then 1 else 0
    ensures states[i].deletions > 0 ==> forall a :: !Enabled(states[i], a)
  {
    InvAlways(states, actions, i);
    var s := states[i];
    forall a | s.deletions > 0 ensures !Enabled(s, a) {
      assert a.OnAdd? || a.OnRemove? ==> Ok(s, a.cb);
      NothingAfterDeletion(s, a);
    }
  }

  lemma NothingAfterDeletion(s: State, a: Action)
    requires GlobalInv(s) && s.deletions > 0 && (a.OnAdd? || a.OnRemove? ==> Ok(s, a.cb))
    ensures !Enabled(s, a)
  {
  }

  /* ----- progress ----- */

  // Somebody is inside a request, a constructor or a destructor.
  ghost predicate UnderWay(s: State) {
    s.trying != map[] || SignalActive(s.sig) || exists cb :: InAdd(At(s.life, cb)) || InRemove(At(s.life, cb))
  }

  // A step of an operation that has begun, the return of a callback among them.
  predicate GoesOn(a: Action) {
    match a
    case OnHandle(_) => false
    case OnRequest(r) => !r.Begin?
    case OnAdd(_, add) => !add.Start?
    case OnRemove(_, rm) => !rm.Enter?
  }

  ghost predicate CanGoOn(s: State) {
    exists a :: GoesOn(a) && Enabled(s, a)
  }

  // As long as callbacks return and the counts do not run over, operations under way are never stuck: the holder of
  // the lock, the signaller or somebody who waits can take a step.
  lemma NeverStuck(states: seq<State>, actions: seq<Action>, i: nat)
    requires Interleaving(states, actions) && i < |states|
    requires UnderWay(states[i]) && states[i].word.tokens + 1 < COUNT_LIMIT
    ensures CanGoOn(states[i])
  {
    InvAlways(states, actions, i);
    var s := states[i];
    if s.word.locked {
      HolderGoesOn(s);
    } else if SignalActive(s.sig) {
      SignallerGoesOn(s);
    } else if cb :| InAdd(At(s.life, cb)) || InRemove(At(s.life, cb)) {
      assert Ok(s, cb);
      OperationGoesOn(s, cb);
    } else {
      var t :| t in s.trying;
      CallGoesOn(s, t);
    }
  }

  lemma HolderGoesOn(s: State)
    requires LockInv(s) && s.word.locked && s.word.tokens + 1 < COUNT_LIMIT && forall cb :: Ok(s, cb)
    ensures CanGoOn(s)
  {
    match s.holder
    case TheSignaller =>
      var a := OnRequest(if s.sig.Looking? then Look else if s.sig.Dequeued? then UnlockToRun else RequestStep.Leave);
      assert GoesOn(a) && Enabled(s, a);
    case TheCallback(cb) =>
      assert Ok(s, cb);
      var l := At(s.life, cb);
      var a :=
        if l.AddLocked? then OnAdd(cb, Link) else if l.AddLinked? then OnAdd(cb, Unlock)
        else OnRemove(cb, if l.RemoveLocked? then LookUp
                          else if l.RemoveUnlinked? then UnlockUnlinked else UnlockMissed);
      assert GoesOn(a) && Enabled(s, a);
  }

  // A constructor or destructor that need not wait for the signaller.
  lemma OperationGoesOn(s: State, cb: Callback)
    requires LockInv(s) && !s.word.locked && Ok(s, cb) && (InAdd(At(s.life, cb)) || InRemove(At(s.life, cb)))
    requires At(s.life, cb).RemoveWaiting? ==> !IsCurrent(s.sig, cb)
    ensures CanGoOn(s)
  {
    var l := At(s.life, cb);
    var a :=
      if l.Adding? then
        OnAdd(cb, if s.word.stop then FindStop else if s.word.sources == 0 then FindNoSource else Lock)
      else if l.Inline? then OnAdd(cb, InlineReturns)
      else OnRemove(cb, if l.Removing? then TakeLock else if l.RemoveAsking? then Ask
                        else if l.RemoveWaiting? then SeeFinished else RemoveStep.Release);
    assert GoesOn(a) && Enabled(s, a);
  }

  lemma CallGoesOn(s: State, t: Thread)
    requires LockInv(s) && !s.word.locked && t in s.trying && forall cb :: !By(At(s.life, cb), t)
    ensures CanGoOn(s)
  {
    var a := OnRequest(if s.word.stop then Lose(t) else Win(t));
    assert GoesOn(a) && Enabled(s, a);
  }

  lemma SignallerGoesOn(s: State)
    requires LockInv(s) && RequestInv(s) && !s.word.locked && SignalActive(s.sig) && forall cb :: Ok(s, cb)
    ensures CanGoOn(s)
  {
    if !s.sig.Running? {
      var a := OnRequest(if s.sig.Unlocked? then Run else if s.sig.Returned? then AfterRun
                         else if s.sig.Finishing? then Finish else Relock);
      assert GoesOn(a) && Enabled(s, a);
    } else if s.sig.t in s.trying {
      var a := OnRequest(Lose(s.sig.t));
      assert GoesOn(a) && Enabled(s, a);
    } else if cb :| By(At(s.life, cb), s.sig.t) {
      assert Ok(s, cb);
      OperationGoesOn(s, cb);
    } else {
      assert NothingElse(s, s.sig.t);
      assert GoesOn(OnRequest(CallbackReturns)) && Enabled(s, OnRequest(CallbackReturns));
    }
  }
}
