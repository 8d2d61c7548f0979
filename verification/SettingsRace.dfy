/** The settings cascade under interleaving (`Client/Model/SettingsModel.java`,
    `Client/Control/Monitor.java`). The user's thread writes the model without a lock and needs
    the monitor's lock only inside the callback; the updater does everything with the lock held.
    Every access to a shared flag is a step of its own. `java.util.Observable` keeps one
    `changed` mark: a `notifyObservers` that finds it already cleared by the other thread calls
    nobody. */
module SettingsRace {
  import C = Cascades

  datatype Setter = SetSync | SetAuto

  /** The user's thread inside a setter: the flag is written; it is marked changed; the mark was
      found and cleared, and the callback waits for the lock. */
  datatype UserPc = UserIdle | UserWrote(setter: Setter) | UserMarked(setter: Setter) | UserCalls(setter: Setter)

  /** The updater, with the lock: its own copy is set; a flag of the model is written; it is
      marked; then the callback - the test of the sync flag, the second read of it, the test of
      auto and the nested setter; or the test of auto and its second read. */
  datatype UpdaterPc =
    | Unlocked
    | CopySet(on: bool)
    | Wrote
    | Marked
    | TestSync
    | TakeSync
    | TestAutoOn
    | ClearAuto
    | TestAuto
    | TakeAuto

  datatype State = State(sync: bool, auto: bool, changed: bool, currentState: bool, syncAuto: bool,
                         user: UserPc, updater: UpdaterPc)

  datatype Event = UserSync(on: bool) | UserAuto(on: bool) | UserStep | Switch(on: bool) | UpdaterStep

  const INITIAL := State(false, false, false, false, false, UserIdle, Unlocked)

  /** The user's callback: it holds the lock, so nothing comes between. */
  function UserCallback(s: State): State {
    if s.sync != s.currentState then
      s.(currentState := s.sync, auto := false, syncAuto := s.syncAuto && !s.auto,
         changed := if s.auto then false else s.changed, user := UserIdle)
    else s.(syncAuto := s.auto, user := UserIdle)
  }

  function AfterUser(s: State): State {
    match s.user
    case UserIdle => s
    case UserWrote(k) => s.(changed := true, user := UserMarked(k))
    case UserMarked(k) => if s.changed then s.(changed := false, user := UserCalls(k)) else s.(user := UserIdle)
    case UserCalls(_) => if s.updater == Unlocked then UserCallback(s) else s
  }

  function AfterUpdater(s: State): State {
    match s.updater
    case Unlocked => s
    case CopySet(on) => s.(sync := on, updater := Wrote)
    case Wrote => s.(changed := true, updater := Marked)
    case Marked => if s.changed then s.(changed := false, updater := TestSync) else s.(updater := Unlocked)
    case TestSync => s.(updater := if s.sync != s.currentState then TakeSync else TestAuto)
    case TakeSync => s.(currentState := s.sync, updater := TestAutoOn)
    case TestAutoOn => if s.auto then s.(updater := ClearAuto) else s.(updater := Unlocked)
    case ClearAuto => s.(auto := false, updater := Wrote)
    case TestAuto => if s.auto != s.syncAuto then s.(updater := TakeAuto) else s.(updater := Unlocked)
    case TakeAuto => s.(syncAuto := s.auto, updater := Unlocked)
  }

  /** A step that is not possible leaves the state. The updater switches only in automatic
      mode, to synchronous only from asynchronous. */
  function Step(s: State, e: Event): State {
    match e
    case UserSync(on) => if s.user == UserIdle then s.(sync := on, user := UserWrote(SetSync)) else s
    case UserAuto(on) => if s.user == UserIdle then s.(auto := on, user := UserWrote(SetAuto)) else s
    case UserStep => AfterUser(s)
    case Switch(on) =>
      if s.updater == Unlocked && s.syncAuto && !(on && s.currentState)
      then s.(currentState := on, updater := CopySet(on))
      else s
    case UpdaterStep => AfterUpdater(s)
  }

  function Run(evs: seq<Event>): State {
    if evs == [] then INITIAL else Step(Run(evs[..|evs| - 1]), evs[|evs| - 1])
  }

  /** No notification is pending. */
  predicate Quiet(s: State) {
    s.user == UserIdle && s.updater == Unlocked
  }

  predicate Mirrored(s: State) {
    s.currentState == s.sync && s.syncAuto == s.auto
  }

  /** The user's thread will still run a callback. */
  predicate UserWillCall(s: State) {
    s.user.UserWrote? || s.user.UserCalls? || (s.user.UserMarked? && s.changed)
  }

  /** The step ends a callback: it is the user's, or the last access of the updater's. */
  predicate EndsCallback(s: State, e: Event) {
    || (e == UserStep && s.user.UserCalls? && s.updater == Unlocked)
    || (e == UpdaterStep && s.updater == TestAutoOn && !s.auto)
    || (e == UpdaterStep && s.updater == TestAuto && s.auto == s.syncAuto)
    || (e == UpdaterStep && s.updater == TakeAuto)
  }

  /** It ends one that takes over a changed sync flag while the model's auto flag is already off
      and the monitor's still on. */
  predicate LosesAuto(s: State, e: Event) {
    && EndsCallback(s, e) && !s.auto && s.syncAuto
    && (e == UserStep ==> s.sync != s.currentState) && (e == UpdaterStep ==> s.updater == TestAutoOn)
  }

  /** The last callback that has ended was one of those. */
  predicate LastLosesAuto(evs: seq<Event>) {
    && evs != []
    && var s, e := Run(evs[..|evs| - 1]), evs[|evs| - 1];
       if EndsCallback(s, e) then LosesAuto(s, e) else LastLosesAuto(evs[..|evs| - 1])
  }

  predicate Consistent(s: State, lost: bool) {
    && (s.updater == Marked && !s.changed ==> s.user.UserCalls?)
    && (!UserWillCall(s) ==>
          match s.updater
          case Unlocked =>
            && s.sync == s.currentState
            && (s.auto != s.syncAuto <==> lost)
            && (lost ==> s.syncAuto && !s.auto)
          case TestAutoOn => s.sync == s.currentState
          case TestAuto => s.sync == s.currentState
          case TakeAuto => s.sync == s.currentState
          case _ => true)
  }

  lemma ConsistentAfterUser(s: State, lost: bool)
    requires Consistent(s, lost)
    ensures Consistent(AfterUser(s), if EndsCallback(s, UserStep) then LosesAuto(s, UserStep) else lost)
  {
  }

  lemma ConsistentAfterUpdater(s: State, lost: bool)
    requires Consistent(s, lost)
    ensures Consistent(AfterUpdater(s), if EndsCallback(s, UpdaterStep) then LosesAuto(s, UpdaterStep) else lost)
  {
    match s.updater {
      case Unlocked =>
      case CopySet(on) =>
      case Wrote =>
      case Marked =>
      case TestSync =>
      case TakeSync =>
      case TestAutoOn =>
      case ClearAuto =>
      case TestAuto =>
      case TakeAuto =>
    }
  }

  lemma ConsistentStep(s: State, e: Event, lost: bool)
    requires Consistent(s, lost)
    ensures Consistent(Step(s, e), if EndsCallback(s, e) then LosesAuto(s, e) else lost)
  {
    hide AfterUser, AfterUpdater;
    ConsistentAfterUser(s, lost);
    ConsistentAfterUpdater(s, lost);
  }

  lemma {:induction false} ConsistentRun(evs: seq<Event>)
    ensures Consistent(Run(evs), LastLosesAuto(evs))
  {
    if evs == [] {
    } else {
      ConsistentRun(evs[..|evs| - 1]);
      ConsistentStep(Run(evs[..|evs| - 1]), evs[|evs| - 1], LastLosesAuto(evs[..|evs| - 1]));
    }
  }

  /** In every interleaving, when no notification is pending, the monitor's mode is the model's,
      and the whole mirror holds if and only if the last callback was not one that took over a
      changed sync flag while the model's auto flag was off and the monitor's on. The only
      possible disagreement is an automatic mode that the monitor still has and the model not. */
  lemma QuietMirrorIff(evs: seq<Event>)
    requires Quiet(Run(evs))
    ensures var s := Run(evs);
            && s.currentState == s.sync
            && (Mirrored(s) <==> !LastLosesAuto(evs))
            && (!Mirrored(s) ==> s.syncAuto && !s.auto)
  {
    ConsistentRun(evs);
    hide Run, LastLosesAuto;
  }

  // ---------------------------------------------------------------------------
  // Without interference
  // ---------------------------------------------------------------------------

  function Flags(s: State): C.Settings {
    C.Settings(s.sync, s.auto, s.currentState, s.syncAuto)
  }

  /** The updater's next n steps with nothing in between. */
  function Alone(s: State, n: nat): State
    decreases n
  {
    if n == 0 then s else Alone(AfterUpdater(s), n - 1)
  }

  lemma Unfold(s: State, n: nat)
    requires n > 0
    ensures Alone(s, n) == Alone(AfterUpdater(s), n - 1)
  {
  }

  lemma {:induction false} AloneStops(s: State, n: nat)
    requires s.updater == Unlocked
    ensures Alone(s, n) == s
    decreases n
  {
    if n == 0 {
    } else {
      AloneStops(s, n - 1);
    }
  }

  /** Left alone, a callback in which the sync flags agree ends within three steps. */
  lemma CallbackWithoutSync(s: State, n: nat)
    requires s.updater == TestSync && s.sync == s.currentState && n >= 3
    ensures Alone(s, n) == s.(syncAuto := s.auto, updater := Unlocked)
  {
    hide Alone;
    var s1 := AfterUpdater(s);
    var s2 := AfterUpdater(s1);
    Unfold(s, n);
    Unfold(s1, n - 1);
    if s2.updater == Unlocked {
      AloneStops(s2, n - 2);
    } else {
      Unfold(s2, n - 2);
      AloneStops(AfterUpdater(s2), n - 3);
    }
  }

  /** Left alone, the updater's callback with its nested setters ends within nine steps, in the
      state that the cascade is specified to settle in, and with the mark as the user's callback
      leaves it. */
  lemma CallbackAlone(s: State)
    requires s.updater == TestSync
    ensures Alone(s, 9).updater == Unlocked && Flags(Alone(s, 9)) == C.SettledSettings(Flags(s))
    ensures Alone(s, 9) == UserCallback(s).(user := s.user, updater := Unlocked)
  {
    hide Alone;
    if s.sync == s.currentState {
      CallbackWithoutSync(s, 9);
    } else {
      var s1 := AfterUpdater(s);
      var s2 := AfterUpdater(s1);
      var s3 := AfterUpdater(s2);
      Unfold(s, 9);
      Unfold(s1, 8);
      Unfold(s2, 7);
      if s3.updater == Unlocked {
        AloneStops(s3, 6);
      } else {
        var s4 := AfterUpdater(s3);
        var s5 := AfterUpdater(s4);
        Unfold(s3, 6);
        Unfold(s4, 5);
        Unfold(s5, 4);
        CallbackWithoutSync(AfterUpdater(s5), 3);
      }
    }
  }

  /** So an automatic switch that nobody disturbs is the atomic one of the cascade; without
      automatic mode, or to the synchronous mode that is on already, there is none. */
  lemma SwitchAlone(s: State, on: bool)
    requires s.updater == Unlocked
    ensures var t := Alone(Step(s, Switch(on)), 12);
            if s.syncAuto && !(on && s.currentState)
            then t.updater == Unlocked && Flags(t) == C.AfterSettings(Flags(s), C.Automatic(on))
            else Step(s, Switch(on)) == s
  {
    hide Alone;
    var s0 := Step(s, Switch(on));
    if s.syncAuto && !(on && s.currentState) {
      var s1 := AfterUpdater(s0);
      var s2 := AfterUpdater(s1);
      Unfold(s0, 12);
      Unfold(s1, 11);
      Unfold(s2, 10);
      CallbackAlone(AfterUpdater(s2));
    }
  }

  /** The user's callback, which holds the lock throughout, is the atomic one as well. */
  lemma UserCallbackAlone(s: State)
    requires s.user.UserCalls? && s.updater == Unlocked
    ensures Flags(AfterUser(s)) == C.SettledSettings(Flags(s))
    ensures LosesAuto(s, UserStep) <==> !C.Mirrored(Flags(AfterUser(s)))
  {
  }

  // ---------------------------------------------------------------------------
  // Without dropped notifications
  // ---------------------------------------------------------------------------

  /** The step is a `notifyObservers` that finds the mark cleared by the other thread. */
  predicate Drops(s: State, e: Event) {
    || (e == UserStep && s.user.UserMarked? && !s.changed)
    || (e == UpdaterStep && s.updater == Marked && !s.changed)
  }

  predicate DropFree(evs: seq<Event>) {
    forall i :: 0 <= i < |evs| ==> !Drops(Run(evs[..i]), evs[i])
  }

  predicate SyncAgrees(s: State) {
    s.sync == s.currentState
  }

  predicate AutoAgrees(s: State) {
    s.auto == s.syncAuto
  }

  /** Each disagreement has its writer still at work: the user's one outstanding write, or the
      updater's nested one. */
  predicate Accounted(s: State) {
    var idle := s.user == UserIdle;
    var inSync := !idle && s.user.setter == SetSync;
    var inAuto := !idle && s.user.setter == SetAuto;
    match s.updater
    case Unlocked =>
      && (idle ==> Mirrored(s)) && (inAuto ==> SyncAgrees(s)) && (inSync ==> AutoAgrees(s))
    case CopySet(on) => s.currentState == on && (idle || inSync ==> AutoAgrees(s))
    case TakeSync => inSync && AutoAgrees(s)
    case TestAutoOn => inSync && Mirrored(s)
    case ClearAuto => inSync && Mirrored(s)
    case TakeAuto => idle || inAuto ==> SyncAgrees(s)
    case _ =>
      && (idle ==> Mirrored(s)) && (inAuto ==> SyncAgrees(s))
      && (inSync ==> AutoAgrees(s) || (SyncAgrees(s) && !s.auto && s.syncAuto))
  }

  lemma AccountedAfterUser(s: State)
    requires Accounted(s) && !Drops(s, UserStep)
    ensures Accounted(AfterUser(s))
  {
  }

  lemma AccountedAfterUpdater(s: State)
    requires Accounted(s) && !Drops(s, UpdaterStep)
    ensures Accounted(AfterUpdater(s))
  {
  }

  lemma AccountedStep(s: State, e: Event)
    requires Accounted(s) && !Drops(s, e)
    ensures Accounted(Step(s, e))
  {
    hide AfterUser, AfterUpdater;
    if e == UserStep {
      AccountedAfterUser(s);
    } else if e == UpdaterStep {
      AccountedAfterUpdater(s);
    }
  }

  lemma {:induction false} AccountedRun(evs: seq<Event>)
    requires DropFree(evs)
    ensures Accounted(Run(evs))
  {
    if evs == [] {
    } else {
      var n := |evs| - 1;
      assert forall i :: 0 <= i < n ==> evs[..n][..i] == evs[..i];
      hide Accounted, Drops, Step;
      AccountedRun(evs[..n]);
      AccountedStep(Run(evs[..n]), evs[n]);
    }
  }

  /** If no notification is dropped, the mirror holds whenever none is pending, however the
      writes and callbacks of the two threads interleave. */
  lemma QuietMirror(evs: seq<Event>)
    requires Quiet(Run(evs)) && DropFree(evs)
    ensures Mirrored(Run(evs))
  {
    AccountedRun(evs);
    hide Run;
  }

  lemma {:induction false} LastLoss(evs: seq<Event>) returns (j: nat)
    requires LastLosesAuto(evs)
    ensures j < |evs| && LosesAuto(Run(evs[..j]), evs[j])
    ensures forall k :: j < k < |evs| ==> !EndsCallback(Run(evs[..k]), evs[k])
  {
    hide EndsCallback, LosesAuto, Run;
    var n := |evs| - 1;
    if EndsCallback(Run(evs[..n]), evs[n]) {
      j := n;
    } else {
      j := LastLoss(evs[..n]);
      assert forall k :: 0 <= k < n ==> evs[..n][..k] == evs[..k];
    }
  }

  /** What breaks the mirror: a notification is dropped, later a callback loses the automatic
      mode, and after that no callback ends any more. */
  lemma BrokenMirrorHistory(evs: seq<Event>) returns (i: nat, j: nat)
    requires Quiet(Run(evs)) && !Mirrored(Run(evs))
    ensures i < j < |evs|
    ensures Drops(Run(evs[..i]), evs[i]) && LosesAuto(Run(evs[..j]), evs[j])
    ensures forall k :: j < k < |evs| ==> !EndsCallback(Run(evs[..k]), evs[k])
  {
    QuietMirrorIff(evs);
    hide Run, Drops, EndsCallback;
    j := LastLoss(evs);
    if DropFree(evs[..j]) {
      AccountedRun(evs[..j]);
      NothingLost(Run(evs[..j]), evs[j]);
    }
    i :| 0 <= i < j && Drops(Run(evs[..j][..i]), evs[..j][i]);
    assert evs[..j][..i] == evs[..i];
  }

  lemma NothingLost(s: State, e: Event)
    requires Accounted(s)
    ensures !LosesAuto(s, e)
  {
  }

  // ---------------------------------------------------------------------------
  // The broken mirror is reachable
  // ---------------------------------------------------------------------------

  function RunFrom(s: State, evs: seq<Event>): State
    decreases evs
  {
    if evs == [] then s else RunFrom(Step(s, evs[0]), evs[1..])
  }

  lemma {:induction false} RunFromRun(a: seq<Event>, b: seq<Event>)
    ensures RunFrom(Run(a), b) == Run(a + b)
    decreases b
  {
    if b == [] {
      assert a + b == a;
    } else {
      assert (a + [b[0]])[..|a|] == a;
      RunFromRun(a + [b[0]], b[1..]);
      assert a + [b[0]] + b[1..] == a + b;
    }
  }

  /** The user switches automatic mode on. */
  const AUTO_ON: seq<Event> := [UserAuto(true), UserStep, UserStep, UserStep]

  /** The updater goes synchronous; before its notification the user clicks "Asynchronous", and
      the two notifications become one. */
  const FIRST_CLICK: seq<Event> :=
    [Switch(true), UpdaterStep, UserSync(false), UserStep, UpdaterStep, UpdaterStep, UserStep]

  /** The callback takes that over and goes on to switch automatic mode off; before its nested
      notification the user clicks "Synchronous", and again two notifications become one. */
  const SECOND_CLICK: seq<Event> :=
    [UpdaterStep, UpdaterStep, UpdaterStep, UpdaterStep, UserSync(true), UserStep, UpdaterStep, UpdaterStep, UserStep]

  /** The nested callback takes over the mode only. */
  const END: seq<Event> := [UpdaterStep, UpdaterStep, UpdaterStep]

  /** Two fast clicks within one automatic switch leave the monitor switching automatically
      while the model, and with it the user's button, has automatic mode off. */
  lemma MirrorCanBreak()
    ensures var s := Run(AUTO_ON + FIRST_CLICK + SECOND_CLICK + END);
            Quiet(s) && !Mirrored(s) && s == State(true, false, false, true, true, UserIdle, Unlocked)
  {
    var s1 := State(false, true, false, false, true, UserIdle, Unlocked);
    var s2 := State(false, true, false, true, true, UserIdle, TestSync);
    var s3 := State(true, false, false, false, true, UserIdle, TestSync);
    AutoOnLeadsTo(s1);
    FirstClickLeadsTo(s1, s2);
    SecondClickLeadsTo(s2, s3);
    RunFromRun([], AUTO_ON);
    assert [] + AUTO_ON == AUTO_ON;
    RunFromRun(AUTO_ON, FIRST_CLICK);
    RunFromRun(AUTO_ON + FIRST_CLICK, SECOND_CLICK);
    RunFromRun(AUTO_ON + FIRST_CLICK + SECOND_CLICK, END);
    EndLeadsTo(s3);
  }

  lemma One(s: State, a: Event, rest: seq<Event>)
    ensures RunFrom(s, [a] + rest) == RunFrom(Step(s, a), rest)
  {
    hide Step;
    assert ([a] + rest)[1..] == rest;
  }

  lemma Two(s: State, a: Event, b: Event, rest: seq<Event>)
    ensures RunFrom(s, [a, b] + rest) == RunFrom(Step(Step(s, a), b), rest)
  {
    hide Step, RunFrom;
    One(s, a, [b] + rest);
    One(Step(s, a), b, rest);
    assert [a, b] + rest == [a] + ([b] + rest);
  }

  lemma Four(s: State, a: Event, b: Event, c: Event, d: Event, rest: seq<Event>)
    ensures RunFrom(s, [a, b, c, d] + rest) == RunFrom(Step(Step(Step(Step(s, a), b), c), d), rest)
  {
    hide Step, RunFrom;
    Two(s, a, b, [c, d] + rest);
    Two(Step(Step(s, a), b), c, d, rest);
    assert [a, b, c, d] + rest == [a, b] + ([c, d] + rest);
  }

  lemma AutoOnLeadsTo(s1: State)
    requires s1 == State(false, true, false, false, true, UserIdle, Unlocked)
    ensures RunFrom(INITIAL, AUTO_ON) == s1
  {
    Four(INITIAL, UserAuto(true), UserStep, UserStep, UserStep, []);
    assert AUTO_ON == [UserAuto(true), UserStep, UserStep, UserStep] + [];
  }

  lemma FirstClickLeadsTo(s1: State, s2: State)
    requires s1 == State(false, true, false, false, true, UserIdle, Unlocked)
    requires s2 == State(false, true, false, true, true, UserIdle, TestSync)
    ensures RunFrom(s1, FIRST_CLICK) == s2
  {
    var rest := [UpdaterStep, UpdaterStep, UserStep];
    var m := State(false, true, true, true, true, UserMarked(SetSync), Wrote);
    Four(s1, Switch(true), UpdaterStep, UserSync(false), UserStep, rest);
    assert FIRST_CLICK == [Switch(true), UpdaterStep, UserSync(false), UserStep] + rest;
    Three(m, UpdaterStep, UpdaterStep, UserStep);
  }

  lemma Three(s: State, a: Event, b: Event, c: Event)
    ensures RunFrom(s, [a, b, c]) == Step(Step(Step(s, a), b), c)
  {
    One(s, a, [b, c]);
    One(Step(s, a), b, [c]);
    One(Step(Step(s, a), b), c, []);
    hide Step;
    assert [a, b, c] == [a] + [b, c] && [b, c] == [b] + [c] && [c] == [c] + [];
  }

  lemma SecondClickLeadsTo(s2: State, s3: State)
    requires s2 == State(false, true, false, true, true, UserIdle, TestSync)
    requires s3 == State(true, false, false, false, true, UserIdle, TestSync)
    ensures RunFrom(s2, SECOND_CLICK) == s3
  {
    var rest := [UserSync(true), UserStep, UpdaterStep, UpdaterStep, UserStep];
    var m := State(false, false, false, false, true, UserIdle, Wrote);
    CallbackLeadsTo(s2, m);
    Four(s2, UpdaterStep, UpdaterStep, UpdaterStep, UpdaterStep, rest);
    ClickLeadsTo(m, s3);
    hide Step;
    assert SECOND_CLICK == [UpdaterStep, UpdaterStep, UpdaterStep, UpdaterStep] + rest;
  }

  lemma CallbackLeadsTo(s2: State, m: State)
    requires s2 == State(false, true, false, true, true, UserIdle, TestSync)
    requires m == State(false, false, false, false, true, UserIdle, Wrote)
    ensures Step(Step(Step(Step(s2, UpdaterStep), UpdaterStep), UpdaterStep), UpdaterStep) == m
  {
  }

  lemma ClickLeadsTo(m: State, s3: State)
    requires m == State(false, false, false, false, true, UserIdle, Wrote)
    requires s3 == State(true, false, false, false, true, UserIdle, TestSync)
    ensures RunFrom(m, [UserSync(true), UserStep, UpdaterStep, UpdaterStep, UserStep]) == s3
  {
    Four(m, UserSync(true), UserStep, UpdaterStep, UpdaterStep, [UserStep]);
    assert [UserSync(true), UserStep, UpdaterStep, UpdaterStep, UserStep] ==
           [UserSync(true), UserStep, UpdaterStep, UpdaterStep] + [UserStep];
    assert [UserStep][1..] == [];
  }

  lemma EndLeadsTo(s3: State)
    requires s3 == State(true, false, false, false, true, UserIdle, TestSync)
    ensures RunFrom(s3, END) == State(true, false, false, true, true, UserIdle, Unlocked)
  {
    Three(s3, UpdaterStep, UpdaterStep, UpdaterStep);
  }
}
