/**
 * The hand-over of an edited spec: a reconciler writes the shared object and signals on an unbuffered
 * channel, and the scaling loop, which looks for a signal between two rounds, copies the shared object.
 */
module SpecReload {

  /** Metadata, spec and status as versions of their contents; 0 is the zero value. */
  datatype Object = Object(meta: nat, spec: nat, status: nat)

  const ZERO: Object := Object(0, 0, 0)

  datatype Published = Published(spec: nat, status: nat)

  /** The reconciler: idle, part way through `RestartZaohua(p)`, or blocked sending its signal. */
  datatype Publisher = Resting | WritesSpec(p: Published) | WritesStatus(p: Published) | Signals

  /** The loop.  `Waits` is the receive of a round that finds a zero object; it reloads nothing. */
  datatype Loop = Detects | Waits | Scales | Selects | CopiesSpec | CopiesStatus(spec: nat)

  /** `held` is the loop's copy, `last` the reconciler's record of the spec it published last.
      `published` and `returned` are history: all publications, and how many calls have returned. */
  datatype State = State(
    publisher: Publisher, loop: Loop, held: Object, shared: Object, last: nat,
    published: seq<Published>, returned: nat)

  /** The reconciler sees an object with this spec and status. */
  function Observe(s: State, p: Published): State {
    if s.publisher != Resting || p.spec == s.last then s
    else s.(publisher := WritesSpec(p), last := p.spec, published := s.published + [p])
  }

  function PublisherStep(s: State): State {
    match s.publisher
    case Resting => s
    case WritesSpec(p) => s.(shared := s.shared.(spec := p.spec), publisher := WritesStatus(p))
    case WritesStatus(p) => s.(shared := s.shared.(status := p.status), publisher := Signals)
    case Signals => s
  }

  /** The loop takes the signal, and the call that sent it returns. */
  function Received(s: State, next: Loop): State {
    s.(publisher := Resting, returned := s.returned + 1, loop := next)
  }

  function LoopStep(s: State): State {
    match s.loop
    case Detects => s.(loop := if s.held == ZERO then Waits else Scales)
    case Waits => if s.publisher == Signals then Received(s, Selects) else s
    case Scales => s.(loop := Selects)
    case Selects => if s.publisher == Signals then Received(s, CopiesSpec) else s.(loop := Detects)
    case CopiesSpec => s.(loop := CopiesStatus(s.shared.spec))
    case CopiesStatus(spec) => s.(held := Object(s.shared.meta, spec, s.shared.status), loop := Detects)
  }

  datatype Action = Sees(p: Published) | Publishes | Loops

  function Act(s: State, a: Action): State {
    match a
    case Sees(p) => Observe(s, p)
    case Publishes => PublisherStep(s)
    case Loops => LoopStep(s)
  }

  function Start(initial: Object): State {
    State(Resting, Detects, initial, ZERO, 0, [], 0)
  }

  function Run(initial: Object, actions: seq<Action>): State {
    if actions == [] then Start(initial)
    else Act(Run(initial, actions[..|actions| - 1]), actions[|actions| - 1])
  }

  /** No observed spec is the zero spec. */
  ghost predicate SpecsAreSet(actions: seq<Action>) {
    forall a <- actions :: a.Sees? ==> a.p.spec != 0
  }

  predicate Copying(s: State) {
    s.loop.CopiesSpec? || s.loop.CopiesStatus?
  }

  /** `spec` is that of a publication no older than the last one whose call has returned. */
  ghost predicate NewEnough(s: State, spec: nat) {
    s.returned > 0 ==>
      exists i :: s.returned - 1 <= i < |s.published| && s.published[i].spec == spec
  }

  ghost predicate Inv(s: State) {
    var n := |s.published|;
    && s.shared.meta == 0 && s.held != ZERO && s.loop != Waits
    && (forall i :: 0 <= i < n ==> s.published[i].spec != 0)
    && s.returned == (if s.publisher == Resting then n else n - 1)
    && s.last == (if n > 0 then s.published[n - 1].spec else 0)
    // What the shared object holds.
    && (match s.publisher
        case Resting => n > 0 ==> s.shared == Object(0, s.published[n - 1].spec, s.published[n - 1].status)
        case WritesSpec(p) =>
          n > 0 && s.published[n - 1] == p && (n > 1 ==> s.shared.spec == s.published[n - 2].spec)
        case WritesStatus(p) => n > 0 && s.published[n - 1] == p && s.shared.spec == p.spec
        case Signals => n > 0 && s.shared == Object(0, s.published[n - 1].spec, s.published[n - 1].status))
    // What the loop holds.
    && (Copying(s) ==> s.returned > 0)
    && (s.loop.CopiesStatus? ==> NewEnough(s, s.loop.spec))
    && (s.loop.CopiesStatus? && s.publisher == Resting ==> s.loop.spec == s.shared.spec)
    && (!Copying(s) ==> NewEnough(s, s.held.spec) && (s.returned > 0 ==> s.held.meta == 0))
    && (!Copying(s) && s.publisher == Resting && n > 0 ==> s.held == s.shared)
  }

  lemma LoopKeepsInv(s: State)
    requires Inv(s)
    ensures Inv(LoopStep(s))
  {
    var t := LoopStep(s);
    if s.loop.CopiesSpec? {
      var i := if s.publisher.WritesSpec? then |s.published| - 2 else |s.published| - 1;
      assert t.published[i].spec == s.shared.spec;
    }
    if s.loop.CopiesStatus? {
      assert NewEnough(t, s.loop.spec);
    }
  }

  lemma PublisherKeepsInv(s: State, p: Published)
    requires Inv(s) && p.spec != 0
    ensures Inv(PublisherStep(s)) && Inv(Observe(s, p))
  {
    var t := Observe(s, p);
    assert NewEnough(s, s.held.spec) ==> NewEnough(t, s.held.spec) by {
      if s.returned > 0 && NewEnough(s, s.held.spec) {
        var i :| s.returned - 1 <= i < |s.published| && s.published[i].spec == s.held.spec;
        assert t.published[i].spec == s.held.spec;
      }
    }
    if s.loop.CopiesStatus? {
      var i :| s.returned - 1 <= i < |s.published| && s.published[i].spec == s.loop.spec;
      assert t.published[i].spec == s.loop.spec;
    }
  }

  lemma {:induction false} RunsKeepInv(initial: Object, actions: seq<Action>)
    requires initial != ZERO && SpecsAreSet(actions)
    ensures Inv(Run(initial, actions))
  {
    if actions != [] {
      var before, a := actions[..|actions| - 1], actions[|actions| - 1];
      RunsKeepInv(initial, before);
      assert a in actions;
      var s := Run(initial, before);
      match a {
        case Sees(p) => PublisherKeepsInv(s, p);
        case Publishes => PublisherKeepsInv(s, Published(1, 0));
        case Loops => LoopKeepsInv(s);
      }
    }
  }

  /** What is published: never the same spec twice in a row, and never the zero spec first, whatever is observed. */
  lemma {:induction false} PublicationsDiffer(initial: Object, actions: seq<Action>)
    ensures var published := Run(initial, actions).published;
      && Run(initial, actions).last == (if published == [] then 0 else published[|published| - 1].spec)
      && (published != [] ==> published[0].spec != 0)
      && (forall i :: 0 < i < |published| ==> published[i].spec != published[i - 1].spec)
  {
    if actions != [] {
      var before, a := Run(initial, actions[..|actions| - 1]), actions[|actions| - 1];
      PublicationsDiffer(initial, actions[..|actions| - 1]);
      assert Run(initial, actions).published == before.published
        || (a.Sees? && a.p.spec != before.last && Run(initial, actions).published == before.published + [a.p]);
    }
  }

  /** In every interleaving a round works with a spec at least as new as that of every reload call that has returned;
      and once no call is under way and no copy half done, the loop holds exactly what was published last. */
  lemma RoundsUseReturnedSpecs(initial: Object, actions: seq<Action>)
    requires initial != ZERO && SpecsAreSet(actions)
    ensures var s := Run(initial, actions);
      && (s.loop.Scales? ==> NewEnough(s, s.held.spec))
      && (s.publisher == Resting && !Copying(s) && s.published != [] ==>
            var p := s.published[|s.published| - 1];
            s.returned == |s.published| && s.held == Object(0, p.spec, p.status) && s.last == p.spec)
  {
    RunsKeepInv(initial, actions);
  }

  /** The reload drops the metadata: the shared object never receives any.  So outside a copy the loop works with the
      metadata that it started with exactly until the first reload call returns; from then on its object has no name
      and no namespace. */
  lemma {:induction false} ReloadDropsMetadata(initial: Object, actions: seq<Action>)
    requires initial != ZERO
    ensures var s := Run(initial, actions);
      && s.shared.meta == 0
      && (s.returned == 0 ==> s.held == initial && !Copying(s) && s.loop != Waits)
      && (s.returned > 0 && !Copying(s) ==> s.held.meta == 0)
      && (initial.meta != 0 && !Copying(s) ==> (s.held.meta == initial.meta <==> s.returned == 0))
  {
    if actions != [] {
      ReloadDropsMetadata(initial, actions[..|actions| - 1]);
    }
  }

  /** The loop alone, for `n` steps. */
  function LoopFor(s: State, n: nat): State
    decreases n
  {
    if n == 0 then s else LoopFor(LoopStep(s), n - 1)
  }

  /** Steps that the loop needs before it looks for a signal. */
  function UntilSelect(loop: Loop): nat {
    match loop
    case Selects => 0
    case Scales => 1
    case Waits => 1
    case Detects => 2
    case CopiesStatus(_) => 3
    case CopiesSpec => 4
  }

  /** Without a signal and outside a copy, the loop keeps what it holds. */
  lemma {:induction false} HoldsOn(s: State, n: nat)
    requires s.publisher == Resting && !Copying(s)
    ensures var t := LoopFor(s, n);
      && t.publisher == Resting && !Copying(t)
      && t.held == s.held && t.returned == s.returned && t.published == s.published
    decreases n
  {
    if n > 0 {
      HoldsOn(LoopStep(s), n - 1);
    }
  }

  /** A round on a zero object is under way or comes next; its receive takes a signal that waits. */
  predicate Swallows(s: State) {
    match s.loop
    case Detects => s.held == ZERO
    case Waits => true
    case CopiesStatus(spec) => Object(s.shared.meta, spec, s.shared.status) == ZERO
    case _ => false
  }

  /** The loop waits in the middle of a round only for want of an object. */
  lemma {:induction false} RunsWaitOnZero(initial: Object, actions: seq<Action>)
    ensures Run(initial, actions).loop == Waits ==> Run(initial, actions).held == ZERO
  {
    if actions != [] {
      RunsWaitOnZero(initial, actions[..|actions| - 1]);
    }
  }

  lemma SelectLoads(s: State, n: nat)
    requires s.publisher == Signals && s.loop == Selects && 3 <= n
    ensures var t := LoopFor(s, n);
      && t.publisher == Resting && t.returned == s.returned + 1 && t.published == s.published
      && !Copying(t) && t.held == s.shared
  {
    var s1 := LoopStep(s);
    var s2 := LoopStep(s1);
    assert LoopFor(s, n) == LoopFor(s1, n - 1) == LoopFor(s2, n - 2) == LoopFor(LoopStep(s2), n - 3);
    HoldsOn(LoopStep(s2), n - 3);
  }

  /** Exactly which signals are served, from any state that a run can reach and without any condition on specs: a
      waiting signal is taken within a few steps of the loop, and the object that it announces is then held, for as
      long as nothing else is published, exactly when no round on a zero object takes it. */
  lemma {:induction false} SignalLoadsExactly(s: State, n: nat)
    requires s.publisher == Signals && s.shared != ZERO && (s.loop == Waits ==> s.held == ZERO)
    requires UntilSelect(s.loop) + 3 <= n
    ensures var t := LoopFor(s, n);
      && t.publisher == Resting && t.returned == s.returned + 1 && t.published == s.published
      && !Copying(t) && (t.held == s.shared <==> !Swallows(s))
    decreases UntilSelect(s.loop)
  {
    if s.loop == Selects {
      SelectLoads(s, n);
    } else if s.loop == Waits {
      HoldsOn(LoopStep(s), n - 1);
    } else {
      SignalLoadsExactly(LoopStep(s), n - 1);
    }
  }

  /** A waiting signal is taken, and its spec loaded, within seven steps of the loop. */
  lemma SignalIsServed(s: State, n: nat)
    requires Inv(s) && s.publisher == Signals && 7 <= n
    ensures var t, p := LoopFor(s, n), s.published[|s.published| - 1];
      && t.publisher == Resting && !Copying(t) && t.held == Object(0, p.spec, p.status)
      && t.published == s.published && t.returned == s.returned + 1
  {
    SignalLoadsExactly(s, n);
  }

  /** The whole way of an edit, from any point of any run at which no call is under way.  An observed spec that differs
      from the one published last is published at once, two steps later its signal waits, and after seven steps of the
      loop the loop holds it.  One that does not differ changes nothing, and outside a copy the loop holds it
      already. */
  lemma EditIsLoaded(s: State, p: Published, n: nat)
    requires Inv(s) && s.publisher == Resting && p.spec != 0 && 7 <= n
    ensures var t := LoopFor(PublisherStep(PublisherStep(Observe(s, p))), n);
      if s.published != [] && p.spec == s.published[|s.published| - 1].spec
      then t == LoopFor(s, n) && (!Copying(s) ==> s.held.spec == p.spec)
      else
        && t.published == s.published + [p] && t.returned == s.returned + 1 && t.publisher == Resting
        && !Copying(t) && t.held == Object(0, p.spec, p.status)
  {
    hide LoopStep, Inv;
    var waiting := PublisherStep(PublisherStep(Observe(s, p)));
    PublisherKeepsInv(s, p);
    PublisherKeepsInv(Observe(s, p), p);
    PublisherKeepsInv(PublisherStep(Observe(s, p)), p);
    LastIsPublished(s);
    if p.spec != s.last {
      SignalIsServed(waiting, n);
    }
  }

  lemma LastIsPublished(s: State)
    requires Inv(s)
    ensures s.last == if s.published == [] then 0 else s.published[|s.published| - 1].spec
    ensures s.publisher == Resting && !Copying(s) && s.published != [] ==> s.held.spec == s.last
  {
  }

  /** Steps that the loop needs to its next round. */
  function UntilRound(s: State): nat {
    match s.loop
    case Scales => 0
    case Detects => 1
    case CopiesStatus(_) => 2
    case CopiesSpec => 3
    case Waits => 3
    case Selects => if s.publisher == Signals then 4 else 2
  }

  /** The loop always gets to its next round within four steps, with or without a signal on the way. */
  lemma {:induction false} RoundsComeAround(s: State)
    requires Inv(s)
    ensures exists n :: 0 <= n <= 4 && LoopFor(s, n).loop == Scales
  {
    ReachesRound(s);
    assert UntilRound(s) <= 4;
  }

  lemma {:induction false} ReachesRound(s: State)
    requires Inv(s)
    ensures LoopFor(s, UntilRound(s)).loop == Scales
    decreases UntilRound(s)
  {
    if s.loop != Scales {
      LoopKeepsInv(s);
      assert UntilRound(s) == UntilRound(LoopStep(s)) + 1;
      ReachesRound(LoopStep(s));
    }
  }

  // ---------- Where a signal is lost ----------

  lemma RunThen(initial: Object, actions: seq<Action>, a: Action)
    ensures Run(initial, actions + [a]) == Act(Run(initial, actions), a)
  {
    assert (actions + [a])[..|actions|] == actions;
  }

  /** An undisturbed reload from the start of a round. */
  lemma WholeReload(initial: Object, actions: seq<Action>, p: Published) returns (after: seq<Action>)
    requires var s := Run(initial, actions);
      s.publisher == Resting && s.loop == Detects && s.held != ZERO && s.shared.meta == 0 && p.spec != s.last
    ensures var s, t := Run(initial, actions), Run(initial, after);
      && t.publisher == Resting && t.loop == Detects && t.last == p.spec
      && t.held == t.shared == Object(0, p.spec, p.status)
      && t.returned == s.returned + 1 && t.published == s.published + [p]
  {
    after := actions;
    RunThen(initial, after, Sees(p));
    after := after + [Sees(p)];
    RunThen(initial, after, Publishes);
    after := after + [Publishes];
    RunThen(initial, after, Publishes);
    after := after + [Publishes];
    RunThen(initial, after, Loops);
    after := after + [Loops];
    RunThen(initial, after, Loops);
    after := after + [Loops];
    RunThen(initial, after, Loops);
    after := after + [Loops];
    RunThen(initial, after, Loops);
    after := after + [Loops];
    RunThen(initial, after, Loops);
    after := after + [Loops];
  }

  /** The condition on specs is needed.  A reload to a zero object makes the loop wait in the middle of a round, and
      that receive takes the next signal without reloading: the third call returns, nothing is under way, and the loop
      still holds the second publication, whatever the others were. */
  lemma ZeroSpecLosesSignal(initial: Object, first: Published, third: Published) returns (actions: seq<Action>)
    requires initial != ZERO && first.spec != 0 && third.spec != 0
    ensures var s := Run(initial, actions);
      && s.publisher == Resting && s.loop == Detects && s.returned == |s.published| == 3
      && s.published == [first, Published(0, 0), third] && s.held == ZERO
  {
    actions := WholeReload(initial, [], first);
    actions := WholeReload(initial, actions, Published(0, 0));
    RunThen(initial, actions, Loops);
    actions := actions + [Loops];
    RunThen(initial, actions, Sees(third));
    actions := actions + [Sees(third)];
    RunThen(initial, actions, Publishes);
    actions := actions + [Publishes];
    RunThen(initial, actions, Publishes);
    actions := actions + [Publishes];
    RunThen(initial, actions, Loops);
    actions := actions + [Loops];
    RunThen(initial, actions, Loops);
    actions := actions + [Loops];
  }
}
