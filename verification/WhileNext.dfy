/** while_next: one parent starts a task per generated element and returns once all of them have left. */
module WhileNext {
  import opened Wrappers

  type Task = nat   // the address of a task's promise
  type Value(!new, ==)

  // What parent and tasks share under the mutex.
  datatype Shared = Shared(pts: set<Task>, wpSuspended: bool)

  function Emplaced(h: Shared, t: Task): Shared {
    h.(pts := h.pts + {t})
  }

  // A task that has run to its end leaves; true tells it to resume the parent's continuation.
  function Left(h: Shared, t: Task): (Shared, bool) {
    var pts := h.pts - {t};
    (h.(pts := pts), pts == {} && h.wpSuspended)
  }

  // The parent's decision after the last element; true tells it to return itself.
  function Decided(h: Shared): (Shared, bool) {
    if h.pts == {} then (h, true) else (h.(wpSuspended := true), false)
  }

  class WhileHelper {
    var pts: set<Task>
    var wpSuspended: bool
    ghost var started: nat  // tasks that were emplaced
    ghost var left: nat     // tasks that have left

    ghost function View(): Shared
      reads this
    {
      Shared(pts, wpSuspended)
    }

    ghost predicate Valid()
      reads this
    {
      started == left + |pts|
    }

    constructor ()
      ensures Valid() && started == 0 && !wpSuspended
    {
      pts, wpSuspended, started, left := {}, false, 0, 0;
    }

    method Emplace(t: Task)
      requires Valid() && t !in pts
      modifies this
      ensures Valid() && View() == Emplaced(old(View()), t)
      ensures started == old(started) + 1 && left == old(left)
    {
      pts, started := pts + {t}, started + 1;
    }

    // Tells the last of the tasks started, and no other, to resume a parent that waits.
    method OnSuspendThen(t: Task) returns (allDone: bool)
      requires Valid() && t in pts
      modifies this
      ensures Valid() && (View(), allDone) == Left(old(View()), t)
      ensures left == old(left) + 1 && started == old(started)
      ensures allDone <==> wpSuspended && left == started
    {
      pts, left := pts - {t}, left + 1;
      allDone := pts == {} && wpSuspended;
    }

    // The parent returns by itself exactly if every task started has left, and otherwise asks to be resumed.
    method Decide() returns (done: bool)
      requires Valid() && !wpSuspended
      modifies this
      ensures Valid() && (View(), done) == Decided(old(View()))
      ensures left == old(left) && started == old(started)
      ensures done <==> left == started
      ensures wpSuspended <==> left < started
    {
      if pts == {} {
        return true;
      }
      wpSuspended := true;
      return false;
    }
  }

  /* ----- interleavings ----- */

  // Where the parent is. Suspending: the mutex is released, the parent does not yet rest in suspend_always.
  datatype Parent =
    | Generating
    | Starting(t: Task) | InStart
    | Deciding | Suspending | Suspended | Returned

  // taskStarted: the parent's flag; live: tasks started that have not left; resuming: a task that is about to
  // resume the continuation; result: the generator's; delivered: what the continuation was resumed with.
  datatype State = State(
    parent: Parent, taskStarted: bool, h: Shared, live: set<Task>, resuming: bool,
    result: Option<Value>, delivered: seq<Value>, started: nat, left: nat)

  const Initial := State(Generating, false, Shared({}, false), {}, false, None, [], 0, 0)

  datatype Action =
    | Emplace(t: Task) | Start | StartReturns | EndOfElements(v: Value) | Decide | Suspend  // the parent's
    | Leave(t: Task) | MoveResult                                                           // the tasks'

  predicate Enabled(s: State, a: Action) {
    match a
    case Emplace(t) => s.parent == Generating && t !in s.h.pts
    case Start => s.parent.Starting?
    case StartReturns => s.parent == InStart
    case EndOfElements(_) => s.parent == Generating
    case Decide => s.parent == Deciding
    case Suspend => s.parent == Suspending
    case Leave(t) => t in s.live
    case MoveResult => s.resuming && s.result.Some?
  }

  // The parent's co_return: its continuation gets the generator's result.
  function Return(s: State, v: Value): State {
    s.(parent := Returned, delivered := s.delivered + [v])
  }

  function Apply(s: State, a: Action): State
    requires Enabled(s, a)
  {
    match a
    case Emplace(t) => s.(parent := Starting(t), h := Emplaced(s.h, t), started := s.started + 1)
    case Start => s.(parent := InStart, live := s.live + {s.parent.t})
    case StartReturns => s.(parent := Generating, taskStarted := true)
    case EndOfElements(v) =>
      var t := s.(result := Some(v));
      if s.taskStarted then t.(parent := Deciding) else Return(t, v)
    case Decide =>
      var (h, done) := Decided(s.h);
      if done && s.result.Some? then Return(s.(h := h), s.result.value) else s.(h := h, parent := Suspending)
    case Suspend => s.(parent := Suspended)
    case Leave(t) =>
      var (h, allDone) := Left(s.h, t);
      s.(h := h, live := s.live - {t}, left := s.left + 1, resuming := s.resuming || allDone)
    case MoveResult => s.(resuming := false, delivered := s.delivered + [s.result.value])
  }

  predicate Ended(s: State) {
    s.parent == Deciding || s.parent == Suspending || s.parent == Suspended || s.parent == Returned
  }

  predicate Waits(s: State) {
    s.parent == Suspending || s.parent == Suspended
  }

  predicate Inv(s: State) {
    && s.h.pts == s.live + (if s.parent.Starting? then {s.parent.t} else {})
    && (s.parent.Starting? ==> s.parent.t !in s.live)
    && s.started == s.left + |s.h.pts|
    && (s.h.wpSuspended <==> Waits(s))
    && (s.result.Some? <==> Ended(s))
    && (s.parent == Generating && !s.taskStarted ==> s.h.pts == {})
    && (s.resuming ==> Waits(s) && s.h.pts == {})
    && s.delivered == (if s.parent == Returned || (Waits(s) && s.h.pts == {} && !s.resuming) then
          [s.result.value] else [])
    && (s.parent == Returned ==> s.h.pts == {})
  }

  lemma EmplaceKeeps(s: State, t: Task)
    requires Inv(s) && Enabled(s, Emplace(t))
    ensures Inv(Apply(s, Emplace(t)))
  {
  }

  lemma StartKeeps(s: State, a: Action)
    requires (a.Start? || a.StartReturns?) && Inv(s) && Enabled(s, a)
    ensures Inv(Apply(s, a))
  {
  }

  lemma EndKeeps(s: State, a: Action)
    requires (a.EndOfElements? || a.Suspend?) && Inv(s) && Enabled(s, a)
    ensures Inv(Apply(s, a))
  {
  }

  lemma DecideKeeps(s: State)
    requires Inv(s) && Enabled(s, Decide)
    ensures Inv(Apply(s, Decide))
  {
  }

  lemma LeaveKeeps(s: State, a: Action)
    requires a.Leave? && Inv(s) && Enabled(s, a)
    ensures Inv(Apply(s, a))
  {
  }

  lemma StepKeepsInv(s: State, a: Action)
    requires Inv(s) && Enabled(s, a)
    ensures Inv(Apply(s, a))
  {
    match a
    case Emplace(t) => EmplaceKeeps(s, t);
    case Start => StartKeeps(s, a);
    case StartReturns => StartKeeps(s, a);
    case EndOfElements(_) => EndKeeps(s, a);
    case Decide => DecideKeeps(s);
    case Suspend => EndKeeps(s, a);
    case Leave(_) => LeaveKeeps(s, a);
    case MoveResult =>
  }

  ghost predicate Run(states: seq<State>, actions: seq<Action>) {
    && |states| == |actions| + 1 && states[0] == Initial
    && forall i {:trigger actions[i]} | 0 <= i < |actions| ::
          Enabled(states[i], actions[i]) && states[i + 1] == Apply(states[i], actions[i])
  }

  lemma {:induction false} InvAlways(states: seq<State>, actions: seq<Action>, i: nat)
    requires Run(states, actions) && i < |states|
    ensures Inv(states[i])
  {
    if i > 0 {
      InvAlways(states, actions, i - 1);
      var a := actions[i - 1];
      StepKeepsInv(states[i - 1], a);
    }
  }

  // The continuation is resumed at most once, with the generator's result, when every task started has left.
  lemma ResumedOnceAfterAll(states: seq<State>, actions: seq<Action>, i: nat)
    requires Run(states, actions) && i < |states| && states[i].delivered != []
    ensures states[i].result.Some? && states[i].delivered == [states[i].result.value]
    ensures states[i].h.pts == {} && states[i].live == {} && states[i].left == states[i].started
  {
    InvAlways(states, actions, i);
  }

  // Either the parent returns by itself or a task resumes the continuation, not both.
  lemma NeverBoth(states: seq<State>, actions: seq<Action>, i: nat)
    requires Run(states, actions) && i < |states| && states[i].parent == Returned
    ensures !states[i].resuming && !states[i].h.wpSuspended && states[i].live == {}
    ensures forall a :: !Enabled(states[i], a)
  {
    InvAlways(states, actions, i);
  }

  // How many steps are left once the generator has ended.
  function Remaining(s: State): nat {
    2 * |s.live| + (if s.resuming then 1 else 0) + (if s.parent == Deciding then 2
          else if s.parent == Suspending then 1 else 0)
  }

  // From the end of the elements on, every step brings the end nearer, whatever the order ...
  lemma EveryStepCounts(states: seq<State>, actions: seq<Action>, i: nat, a: Action)
    requires Run(states, actions) && i < |states| && Ended(states[i]) && Enabled(states[i], a)
    ensures Ended(Apply(states[i], a)) && Remaining(Apply(states[i], a)) < Remaining(states[i])
  {
    InvAlways(states, actions, i);
  }

  // ... and a run that can go no further has resumed the continuation, once.
  lemma NeverNeither(states: seq<State>, actions: seq<Action>, i: nat)
    requires Run(states, actions) && i < |states| && Ended(states[i])
    requires forall a :: !Enabled(states[i], a)
    ensures states[i].result.Some? && states[i].delivered == [states[i].result.value] && states[i].left
          == states[i].started
  {
    InvAlways(states, actions, i);
    var s := states[i];
    assert !Enabled(s, Decide) && !Enabled(s, Suspend) && !Enabled(s, MoveResult);
    if t :| t in s.live {
      assert !Enabled(s, Leave(t));
    }
  }

  // A parent that started no task returns at once.
  lemma NoTasksReturnAtOnce(states: seq<State>, actions: seq<Action>, i: nat, v: Value)
    requires Run(states, actions) && i < |states| && states[i].parent == Generating
    ensures Apply(states[i], EndOfElements(v)).parent == Returned <==> !states[i].taskStarted
    ensures !states[i].taskStarted ==> states[i].started == 0
  {
    InvAlways(states, actions, i);
    NothingStarted(states, actions, i);
  }

  lemma {:induction false} NothingStarted(states: seq<State>, actions: seq<Action>, i: nat)
    requires Run(states, actions) && i < |states|
    ensures HasStarted(states[i])
  {
    if i > 0 {
      NothingStarted(states, actions, i - 1);
      var a := actions[i - 1];
      StepKeepsStarted(states[i - 1], a);
    }
  }

  predicate HasStarted(s: State) {
    s.started > 0 <==> s.taskStarted || s.parent.Starting? || s.parent == InStart
  }

  lemma StepKeepsStarted(s: State, a: Action)
    requires HasStarted(s) && Enabled(s, a)
    ensures HasStarted(Apply(s, a))
  {
  }

  /* ----- suspending in time ----- */

  // The continuation is resumed while the parent is still on its way into suspend_always.
  predicate ResumedEarly(s: State) {
    s.parent == Suspending && s.delivered != []
  }

  // Right after releasing the mutex the parent suspends, before any other step.
  ghost predicate SuspendsAtOnce(states: seq<State>, actions: seq<Action>) {
    forall i {:trigger actions[i]} | 0 <= i < |actions| && i < |states| && states[i].parent == Suspending ::
          actions[i] == Suspend
  }

  // A parent that suspends at once is never resumed early ...
  lemma SuspendingAtOnceIsSafe(states: seq<State>, actions: seq<Action>, i: nat)
    requires Run(states, actions) && SuspendsAtOnce(states, actions) && i < |states|
    ensures !ResumedEarly(states[i])
    ensures states[i].parent == Suspending ==> !states[i].resuming && states[i].live != {}
  {
    InvAlways(states, actions, i);
    if i > 0 && states[i].parent == Suspending {
      InvAlways(states, actions, i - 1);
      var a := actions[i - 1];
      assert states[i - 1].parent != Suspending;
      JustDecided(states[i - 1], a);
    }
  }

  lemma JustDecided(s: State, a: Action)
    requires Inv(s) && Enabled(s, a) && s.parent != Suspending && Apply(s, a).parent == Suspending
    ensures a == Decide && !Apply(s, a).resuming && Apply(s, a).live != {} && Apply(s, a).delivered == []
  {
  }

  // ... and in any other state between the two, nothing prevents that: the tasks can all leave, and the last one
  // resume the continuation, before the parent takes a step.
  lemma {:induction false} OtherwiseEarlyIsPossible(states: seq<State>, actions: seq<Action>)
    returns (states': seq<State>, actions': seq<Action>)
    requires Run(states, actions) && states[|actions|].parent == Suspending
    ensures Run(states', actions') && |actions'| >= |actions| && actions'[..|actions|] == actions
    ensures ResumedEarly(states'[|actions'|])
    decreases Remaining(states[|actions|])
  {
    InvAlways(states, actions, |actions|);
    var s := states[|actions|];
    if s.delivered != [] {
      states', actions' := states, actions;
    } else {
      var a := if s.resuming then MoveResult else OneLeaves(s);
      StaysSuspending(s, a);
      states', actions' := OtherwiseEarlyIsPossible(states + [Apply(s, a)], actions + [a]);
      assert actions'[..|actions|] == (actions + [a])[..|actions|];
    }
  }

  ghost function OneLeaves(s: State): (a: Action)
    requires s.live != {}
    ensures a.Leave? && Enabled(s, a)
  {
    var t :| t in s.live;
    Leave(t)
  }

  lemma StaysSuspending(s: State, a: Action)
    requires Inv(s) && s.parent == Suspending && (a.Leave? || a.MoveResult?) && Enabled(s, a)
    ensures Apply(s, a).parent == Suspending && Remaining(Apply(s, a)) < Remaining(s)
  {
  }

  // It does happen.
  lemma ResumedBeforeSuspended(v: Value)
    ensures exists states: seq<State>, actions: seq<Action> :: Run(states, actions) && ResumedEarly(states[|actions|])
  {
    var actions := [Emplace(0), Start, StartReturns, EndOfElements(v), Decide];
    var s1 := Initial.(parent := Starting(0), h := Shared({0}, false), started := 1);
    var s2 := s1.(parent := InStart, live := {0});
    var s3 := s2.(parent := Generating, taskStarted := true);
    var s4 := s3.(parent := Deciding, result := Some(v));
    var s5 := s4.(parent := Suspending, h := Shared({0}, true));
    var states := [Initial, s1, s2, s3, s4, s5];
    assert Run(states, actions);
    var states', actions' := OtherwiseEarlyIsPossible(states, actions);
  }
}
