/**
 * The life of a Houmao object and of the Xianqi deployment made for it: one reconciler whose API calls
 * may each fail, interleaved with users and other controllers.
 */
module HoumaoLifecycle {
  import opened Options

  const FINALIZER: string := "houmao.sunwukong"

  datatype Phase = NoPhase | HasXianqi | Destroying

  /** `liang` stands for the resources asked for the Xianqi; `named` says that the status names it. */
  datatype Houmao = Houmao(
    version: nat, deleting: bool, finalizers: seq<string>, liang: int, phase: Phase, named: bool)

  datatype Xianqi = Xianqi(version: nat, resources: int)

  /** The API server; `clock` is the next resource version. */
  datatype Cluster = Cluster(houmao: Option<Houmao>, xianqi: Option<Xianqi>, clock: nat)

  // ---------- The API server ----------

  /** Stores an object under a new version; a deleting object without finalizers goes; an unchanged one stays. */
  function Stored(cl: Cluster, h: Houmao): Cluster {
    if h.deleting && h.finalizers == [] then cl.(houmao := None, clock := cl.clock + 1)
    else if cl.houmao == Some(h) then cl
    else cl.(houmao := Some(h.(version := cl.clock)), clock := cl.clock + 1)
  }

  /** An update conflicts unless it is based on the stored version. */
  function Updated(cl: Cluster, h: Houmao): Option<Cluster> {
    if cl.houmao.Some? && cl.houmao.value.version == h.version then Some(Stored(cl, h)) else None
  }

  /** A status patch applies to whatever is stored. */
  function PhasePatched(cl: Cluster, phase: Phase): Option<Cluster> {
    if cl.houmao.Some? then Some(Stored(cl, cl.houmao.value.(phase := phase))) else None
  }

  function NamePatched(cl: Cluster): Option<Cluster> {
    if cl.houmao.Some? then Some(Stored(cl, cl.houmao.value.(named := true))) else None
  }

  function XianqiUpdated(cl: Cluster, x: Xianqi): Option<Cluster> {
    if cl.xianqi.None? || cl.xianqi.value.version != x.version then None
    else if cl.xianqi == Some(x) then Some(cl)
    else Some(cl.(xianqi := Some(x.(version := cl.clock)), clock := cl.clock + 1))
  }

  function XianqiCreated(cl: Cluster, resources: int): Option<Cluster> {
    if cl.xianqi.Some? then None
    else Some(cl.(xianqi := Some(Xianqi(cl.clock, resources)), clock := cl.clock + 1))
  }

  // ---------- The reconciler ----------

  function WithoutString(list: seq<string>, param: string): (result: seq<string>)
    ensures param !in result
    ensures forall s :: s != param ==> multiset(result)[s] == multiset(list)[s]
  {
    if list == [] then []
    else
      var last := list[|list| - 1];
      var rest := WithoutString(list[..|list| - 1], param);
      assert list == list[..|list| - 1] + [last];
      if last != param then rest + [last] else rest
  }

  /** Where the reconciler is, and the copy of the Houmao it holds. */
  datatype Pc =
    | Idle
    | AddsFinalizer(h: Houmao)
    | LooksForXianqi(h: Houmao)
    | UpdatesXianqi(h: Houmao, x: Xianqi)
    | CreatesXianqi(h: Houmao)
    | PatchesPhase(h: Houmao)
    | PatchesName(h: Houmao)
    | Destroys(dying: Option<Houmao>)
    | DeletesXianqi(dying: Option<Houmao>)
    | MarksDestroyed(h: Houmao)
    | RemovesFinalizer(h: Houmao)

  datatype System = System(cluster: Cluster, pc: Pc)

  /** The reconciler goes on as `next` if a call gave a new cluster, and gives the pass up otherwise. */
  function Continue(s: System, answer: bool, result: Option<Cluster>, next: Houmao -> Pc): System {
    if answer && result.Some? then
      System(result.value, if result.value.houmao.Some? then next(result.value.houmao.value) else Idle)
    else s.(pc := Idle)
  }

  /** How a pass goes on from the copy of the Houmao that it has read. */
  function Opened(copy: Option<Houmao>): Pc {
    match copy
    case None => Destroys(None)
    case Some(h) => if h.deleting then Destroys(Some(h)) else AddsFinalizer(h)
  }

  // Repaired: the code takes every failure for "not found" (AsWritten.BeginAsWritten).
  function Begin(cl: Cluster, answer: bool): Pc {
    if !answer then Idle else Opened(cl.houmao)
  }

  function AddFinalizer(s: System, h: Houmao, answer: bool): System {
    if h.deleting || h.finalizers != [] then s.(pc := LooksForXianqi(h))
    else Continue(s, answer, Updated(s.cluster, h.(finalizers := [FINALIZER])), g => LooksForXianqi(g))
  }

  /** Every failure to get the Xianqi leads to an attempt to create it. */
  function LookForXianqi(s: System, h: Houmao, answer: bool): System {
    if answer && s.cluster.xianqi.Some? then s.(pc := UpdatesXianqi(h, s.cluster.xianqi.value))
    else s.(pc := CreatesXianqi(h))
  }

  function PutXianqi(s: System, h: Houmao, answer: bool, result: Option<Cluster>): System {
    if answer && result.Some? then System(result.value, PatchesPhase(h)) else s.(pc := Idle)
  }

  function PatchPhase(s: System, h: Houmao, answer: bool): System {
    if h.phase == HasXianqi then s.(pc := PatchesName(h))
    else Continue(s, answer, PhasePatched(s.cluster, HasXianqi), g => PatchesName(g))
  }

  function PatchName(s: System, h: Houmao, answer: bool): System {
    if h.named then s.(pc := Idle) else Continue(s, answer, NamePatched(s.cluster), g => Idle)
  }

  function AfterDestroy(dying: Option<Houmao>): Pc {
    if dying.Some? then MarksDestroyed(dying.value) else Idle
  }

  // Repaired: the code takes every failure for "not found" (AsWritten.DestroyAsWritten).
  /** Any error but "not found" ends the pass. */
  function Destroy(s: System, dying: Option<Houmao>, answer: bool): System {
    if !answer then s.(pc := Idle)
    else s.(pc := if s.cluster.xianqi.Some? then DeletesXianqi(dying) else AfterDestroy(dying))
  }

  function DeleteXianqi(s: System, dying: Option<Houmao>, answer: bool): System {
    if answer && s.cluster.xianqi.Some? then System(s.cluster.(xianqi := None), AfterDestroy(dying))
    else s.(pc := Idle)
  }

  function MarkDestroyed(s: System, h: Houmao, answer: bool): System {
    if h.phase == Destroying then s.(pc := RemovesFinalizer(h))
    else Continue(s, answer, PhasePatched(s.cluster, Destroying), g => RemovesFinalizer(g))
  }

  // Repaired: the code appends the finalizer instead (AsWritten.RemoveFinalizerAsWritten).
  function RemoveFinalizer(s: System, h: Houmao, answer: bool): System {
    var result := Updated(s.cluster, h.(finalizers := WithoutString(h.finalizers, FINALIZER)));
    if h.deleting && answer && result.Some? then System(result.value, Idle) else s.(pc := Idle)
  }

  /** One step of the reconciler; `answer` is false when the API call of the step fails. */
  function Step(s: System, answer: bool): System {
    match s.pc
    case Idle => s.(pc := Begin(s.cluster, answer))
    case AddsFinalizer(h) => AddFinalizer(s, h, answer)
    case LooksForXianqi(h) => LookForXianqi(s, h, answer)
    case UpdatesXianqi(h, x) => PutXianqi(s, h, answer, XianqiUpdated(s.cluster, x.(resources := h.liang)))
    case CreatesXianqi(h) => PutXianqi(s, h, answer, XianqiCreated(s.cluster, h.liang))
    case PatchesPhase(h) => PatchPhase(s, h, answer)
    case PatchesName(h) => PatchName(s, h, answer)
    case Destroys(dying) => Destroy(s, dying, answer)
    case DeletesXianqi(dying) => DeleteXianqi(s, dying, answer)
    case MarksDestroyed(h) => MarkDestroyed(s, h, answer)
    case RemovesFinalizer(h) => RemoveFinalizer(s, h, answer)
  }

  // ---------- Everybody else ----------

  /** Users create, edit and delete the Houmao; other controllers write finalizers, touch the deployment or remove
      it; the reconciler steps, starts a pass from an outdated copy, or crashes and starts over. */
  datatype Action =
    | Reconcile(answer: bool)
    | ReadsCache(copy: Option<Houmao>)
    | Crash
    | Create(liang: int, finalizers: seq<string>)
    | Edit(liang: int)
    | Delete
    | WriteFinalizers(finalizers: seq<string>)
    | TouchXianqi
    | DropXianqi

  function Act(s: System, a: Action): System {
    var cl := s.cluster;
    match a
    case Reconcile(answer) => Step(s, answer)
    case ReadsCache(copy) => if s.pc.Idle? then s.(pc := Opened(copy)) else s
    case Crash => s.(pc := Idle)
    case Create(liang, finalizers) =>
      if cl.houmao.Some? then s
      else s.(cluster := Stored(cl, Houmao(cl.clock, false, finalizers, liang, NoPhase, false)))
    case Edit(liang) =>
      if cl.houmao.None? then s else s.(cluster := Stored(cl, cl.houmao.value.(liang := liang)))
    case Delete =>
      if cl.houmao.None? then s else s.(cluster := Stored(cl, cl.houmao.value.(deleting := true)))
    case WriteFinalizers(finalizers) =>
      if cl.houmao.None? then s else s.(cluster := Stored(cl, cl.houmao.value.(finalizers := finalizers)))
    case TouchXianqi =>
      if cl.xianqi.None? then s
      else s.(cluster := cl.(xianqi := Some(cl.xianqi.value.(version := cl.clock)), clock := cl.clock + 1))
    case DropXianqi => s.(cluster := cl.(xianqi := None))
  }

  const START: System := System(Cluster(None, None, 0), Idle)

  function Run(actions: seq<Action>): System {
    if actions == [] then START else Act(Run(actions[..|actions| - 1]), actions[|actions| - 1])
  }

  /** Others leave this controller's finalizer as it is, and none puts its own on a live Houmao that lacks it; and an
      outdated copy is safe. */
  predicate Polite(s: System, a: Action) {
    match a
    case Create(_, finalizers) => finalizers == [] || FINALIZER in finalizers
    case WriteFinalizers(finalizers) =>
      s.cluster.houmao.Some? ==>
        && (FINALIZER in finalizers <==> FINALIZER in s.cluster.houmao.value.finalizers)
        && (finalizers == [] || FINALIZER in finalizers || s.cluster.houmao.value.deleting)
    case ReadsCache(copy) => copy.Some? ==> Fresh(s.cluster, copy.value) && SafeCopy(s.cluster, copy.value)
    case _ => true
  }

  /** A copy of a deleting Houmao, or of one without finalizers, is always safe; one that shows a live Houmao with
      finalizers is while the Houmao holds this controller's. */
  predicate SafeCopy(cl: Cluster, copy: Houmao) {
    copy.deleting || copy.finalizers == [] || Held(cl)
  }

  ghost predicate PoliteRun(actions: seq<Action>) {
    forall i :: 0 <= i < |actions| ==> Polite(Run(actions[..i]), actions[i])
  }

  // ---------- No orphans ----------

  /** A Houmao that cannot go before this reconciler lets it. */
  predicate Held(cl: Cluster) {
    cl.houmao.Some? && FINALIZER in cl.houmao.value.finalizers
  }

  /** A copy is older than the clock, and equal to the stored object if it has its version. */
  predicate Fresh(cl: Cluster, h: Houmao) {
    h.version < cl.clock && (cl.houmao.Some? && cl.houmao.value.version == h.version ==> cl.houmao == Some(h))
  }

  predicate PcInv(cl: Cluster, pc: Pc) {
    match pc
    case AddsFinalizer(h) => Fresh(cl, h) && !h.deleting && (h.finalizers != [] ==> Held(cl))
    case LooksForXianqi(_) => Held(cl)
    case UpdatesXianqi(_, _) => Held(cl)
    case CreatesXianqi(_) => Held(cl)
    case Destroys(dying) => dying.Some? ==> Fresh(cl, dying.value)
    case DeletesXianqi(dying) => dying.Some? ==> Fresh(cl, dying.value)
    case MarksDestroyed(h) => Fresh(cl, h) && cl.xianqi.None?
    case RemovesFinalizer(h) => Fresh(cl, h) && cl.xianqi.None?
    case _ => true
  }

  /** No orphan: a Xianqi has its Houmao, which still holds the finalizer. */
  predicate NoOrphan(cl: Cluster) {
    cl.xianqi.Some? ==> Held(cl)
  }

  predicate Inv(s: System) {
    var cl := s.cluster;
    && NoOrphan(cl)
    && (cl.houmao.Some? ==>
          var h := cl.houmao.value;
          h.version < cl.clock && (h.deleting || h.finalizers == [] || FINALIZER in h.finalizers))
    && PcInv(cl, s.pc)
  }

  lemma LiveStepKeepsInv(s: System, answer: bool)
    requires Inv(s) && (s.pc.AddsFinalizer? || s.pc.LooksForXianqi? || s.pc.UpdatesXianqi? || s.pc.CreatesXianqi?)
    ensures Inv(Step(s, answer))
  {
  }

  lemma StatusStepKeepsInv(s: System, answer: bool)
    requires Inv(s) && (s.pc.PatchesPhase? || s.pc.PatchesName? || s.pc.MarksDestroyed?)
    ensures Inv(Step(s, answer))
  {
  }

  lemma DyingStepKeepsInv(s: System, answer: bool)
    requires Inv(s) && (s.pc.Idle? || s.pc.Destroys? || s.pc.DeletesXianqi? || s.pc.RemovesFinalizer?)
    ensures Inv(Step(s, answer))
  {
  }

  lemma StepKeepsInv(s: System, answer: bool)
    requires Inv(s)
    ensures Inv(Step(s, answer))
  {
    match s.pc {
      case AddsFinalizer(_) => LiveStepKeepsInv(s, answer);
      case LooksForXianqi(_) => LiveStepKeepsInv(s, answer);
      case UpdatesXianqi(_, _) => LiveStepKeepsInv(s, answer);
      case CreatesXianqi(_) => LiveStepKeepsInv(s, answer);
      case PatchesPhase(_) => StatusStepKeepsInv(s, answer);
      case PatchesName(_) => StatusStepKeepsInv(s, answer);
      case MarksDestroyed(_) => StatusStepKeepsInv(s, answer);
      case _ => DyingStepKeepsInv(s, answer);
    }
  }

  lemma ActKeepsInv(s: System, a: Action)
    requires Inv(s) && Polite(s, a)
    ensures Inv(Act(s, a))
  {
    if a.Reconcile? {
      StepKeepsInv(s, a.answer);
    }
  }

  lemma {:induction false} RunsKeepInv(actions: seq<Action>)
    requires PoliteRun(actions)
    ensures Inv(Run(actions))
  {
    if actions != [] {
      var before := actions[..|actions| - 1];
      assert forall i :: 0 <= i < |before| ==> before[..i] == actions[..i];
      RunsKeepInv(before);
      assert Polite(Run(actions[..|before|]), actions[|before|]);
      ActKeepsInv(Run(before), actions[|before|]);
    }
  }

  /** At every point of every interleaving a Xianqi has its Houmao, held by the finalizer. */
  lemma NoOrphans(actions: seq<Action>)
    requires PoliteRun(actions)
    ensures NoOrphan(Run(actions).cluster)
  {
    RunsKeepInv(actions);
  }

  /** So whatever makes the Houmao disappear does so when its Xianqi is already gone. */
  lemma XianqiGoesFirst(actions: seq<Action>, a: Action)
    requires PoliteRun(actions) && Polite(Run(actions), a)
    requires Run(actions).cluster.houmao.Some? && Act(Run(actions), a).cluster.houmao.None?
    ensures Run(actions).cluster.xianqi.None? && Act(Run(actions), a).cluster.xianqi.None?
  {
    RunsKeepInv(actions);
    ActKeepsInv(Run(actions), a);
  }

  // ---------- Which Houmaos can be orphaned ----------

  /** The actions one after another, from any system. */
  function RunFrom(s: System, actions: seq<Action>): System
    decreases |actions|
  {
    if actions == [] then s else RunFrom(Act(s, actions[0]), actions[1..])
  }

  ghost predicate PoliteFrom(s: System, actions: seq<Action>)
    decreases |actions|
  {
    actions == [] || (Polite(s, actions[0]) && PoliteFrom(Act(s, actions[0]), actions[1..]))
  }

  lemma {:induction false} PoliteRunsKeepInv(s: System, actions: seq<Action>)
    requires Inv(s) && PoliteFrom(s, actions)
    ensures Inv(RunFrom(s, actions))
    decreases |actions|
  {
    if actions != [] {
      ActKeepsInv(s, actions[0]);
      PoliteRunsKeepInv(Act(s, actions[0]), actions[1..]);
    }
  }

  /** The Houmao is gone and its Xianqi is not. */
  predicate Orphaned(cl: Cluster) {
    cl.houmao.None? && cl.xianqi.Some?
  }

  /** The Houmao holds this controller's finalizer, or none at all while there is no Xianqi yet. */
  predicate Safe(cl: Cluster, h: Houmao) {
    FINALIZER in h.finalizers || (h.finalizers == [] && cl.xianqi.None?)
  }

  /** A pass up to the new Xianqi, and then the deletion, with the others letting go. */
  const ORPHANING: seq<Action> :=
    [Reconcile(true), Reconcile(true), Reconcile(true), Reconcile(true), Delete, WriteFinalizers([])]

  lemma RunFromNext(s: System, actions: seq<Action>, i: nat)
    requires i < |actions|
    ensures RunFrom(s, actions[i..]) == RunFrom(Act(s, actions[i]), actions[i + 1..])
    ensures PoliteFrom(s, actions[i..])
      <==> Polite(s, actions[i]) && PoliteFrom(Act(s, actions[i]), actions[i + 1..])
  {
    assert actions[i..][1..] == actions[i + 1..];
  }

  /** Once a pass takes the Houmao for held although it is not, its Xianqi can be left behind. */
  lemma UnheldRunOrphans(cl: Cluster, copy: Houmao)
    requires !copy.deleting && copy.finalizers != [] && !Held(cl)
    requires cl.houmao.Some? ==> cl.houmao.value.deleting || cl.houmao.value == copy || cl.houmao.value.finalizers == []
    ensures var s := System(cl, AddsFinalizer(copy));
      PoliteFrom(s, ORPHANING[1..]) && Orphaned(RunFrom(s, ORPHANING[1..]).cluster)
  {
    hide PoliteFrom, RunFrom;
    var s1 := System(cl, AddsFinalizer(copy));
    var s2 := Step(s1, true);
    var s3 := Step(s2, true);
    var s4 := Step(s3, true);
    assert s4.cluster.houmao == cl.houmao && s4.cluster.xianqi.Some?;
    var s5 := Act(s4, Delete);
    var s6 := Act(s5, WriteFinalizers([]));
    assert s6.cluster.houmao.None? && s6.cluster.xianqi == s4.cluster.xianqi;
    RunFromNext(s1, ORPHANING, 1);
    RunFromNext(s2, ORPHANING, 2);
    RunFromNext(s3, ORPHANING, 3);
    RunFromNext(s4, ORPHANING, 4);
    RunFromNext(s5, ORPHANING, 5);
    RunFromNothing(s6);
    assert ORPHANING[6..] == [];
  }

  lemma RunFromNothing(s: System)
    ensures RunFrom(s, []) == s && PoliteFrom(s, [])
  {
  }

  /** Exactly which live Houmaos are safe: no interleaving of the reconciler with users and others who are polite from
      now on leaves the Xianqi behind, if and only if the Houmao holds this controller's finalizer, or no finalizer at
      all before its Xianqi exists. */
  lemma OrphanedExactly(cl: Cluster, h: Houmao)
    requires cl.houmao == Some(h) && !h.deleting && h.version < cl.clock
    ensures (forall actions :: PoliteFrom(System(cl, Idle), actions)
               ==> !Orphaned(RunFrom(System(cl, Idle), actions).cluster))
      <==> Safe(cl, h)
  {
    var s := System(cl, Idle);
    if Safe(cl, h) {
      assert Inv(s);
      forall actions | PoliteFrom(s, actions)
        ensures !Orphaned(RunFrom(s, actions).cluster)
      {
        PoliteRunsKeepInv(s, actions);
      }
    } else if h.finalizers == [] {
      RunFromNext(s, [Delete], 0);
      RunFromNothing(Act(s, Delete));
      assert [Delete][0..] == [Delete] && [Delete][1..] == [];
      assert PoliteFrom(s, [Delete]) && Orphaned(RunFrom(s, [Delete]).cluster);
    } else {
      UnheldRunOrphans(cl, h);
      RunFromNext(s, ORPHANING, 0);
      assert ORPHANING[0..] == ORPHANING;
      assert PoliteFrom(s, ORPHANING) && Orphaned(RunFrom(s, ORPHANING).cluster);
    }
  }

  /** Exactly which outdated copies are safe to start a pass from. */
  lemma StaleCopyOrphansExactly(cl: Cluster, copy: Houmao)
    requires Inv(System(cl, Idle)) && Fresh(cl, copy)
    ensures var s := System(cl, Opened(Some(copy)));
      (forall actions :: PoliteFrom(s, actions) ==> !Orphaned(RunFrom(s, actions).cluster)) <==> SafeCopy(cl, copy)
  {
    var s := System(cl, Opened(Some(copy)));
    if SafeCopy(cl, copy) {
      forall actions | PoliteFrom(s, actions)
        ensures !Orphaned(RunFrom(s, actions).cluster)
      {
        PoliteRunsKeepInv(s, actions);
      }
    } else {
      UnheldRunOrphans(cl, copy);
    }
  }

  // ---------- Convergence ----------

  function Rank(pc: Pc): nat {
    match pc
    case Idle => 0
    case AddsFinalizer(_) => 5
    case LooksForXianqi(_) => 4
    case UpdatesXianqi(_, _) => 3
    case CreatesXianqi(_) => 3
    case PatchesPhase(_) => 2
    case PatchesName(_) => 1
    case Destroys(_) => 4
    case DeletesXianqi(_) => 3
    case MarksDestroyed(_) => 2
    case RemovesFinalizer(_) => 1
  }

  /** The rest of a pass in which every API call succeeds and nobody interferes. */
  function Finish(s: System): Cluster
    decreases Rank(s.pc)
  {
    if s.pc.Idle? then s.cluster else Finish(Step(s, true))
  }

  function Pass(cl: Cluster): Cluster {
    Finish(Step(System(cl, Idle), true))
  }

  /** What one undisturbed pass makes of a cluster. */
  ghost predicate Settled(cl: Cluster) {
    match cl.houmao
    case None => cl.xianqi.None?
    case Some(h) =>
      if h.deleting then
        cl.xianqi.None? && h.phase == Destroying && FINALIZER !in h.finalizers && h.finalizers != []
      else
        && cl.xianqi.Some? && cl.xianqi.value.resources == h.liang
        && h.finalizers != [] && h.phase == HasXianqi && h.named
  }

  lemma FinishStep(s: System)
    requires !s.pc.Idle?
    ensures Finish(s) == Finish(Step(s, true))
  {
  }

  /** The status part of a live pass. */
  lemma FinishStatus(cl: Cluster, h: Houmao)
    requires cl.houmao == Some(h) && !h.deleting
    ensures var f := Finish(System(cl, PatchesPhase(h)));
      && f.xianqi == cl.xianqi && f.houmao.Some?
      && f.houmao.value == h.(version := f.houmao.value.version, phase := HasXianqi, named := true)
      && (h.phase == HasXianqi && h.named ==> f == cl)
  {
    var s0 := System(cl, PatchesPhase(h));
    var s1 := Step(s0, true);
    FinishStep(s0);
    FinishStep(s1);
    assert Step(s1, true).pc.Idle?;
  }

  /** A live pass from the lookup of the Xianqi on. */
  lemma FinishXianqi(cl: Cluster, h: Houmao)
    requires cl.houmao == Some(h) && !h.deleting
    ensures var f := Finish(System(cl, LooksForXianqi(h)));
      && f.xianqi.Some? && f.xianqi.value.resources == h.liang && f.houmao.Some?
      && f.houmao.value == h.(version := f.houmao.value.version, phase := HasXianqi, named := true)
      && (cl.xianqi.Some? && cl.xianqi.value.resources == h.liang && h.phase == HasXianqi && h.named ==> f == cl)
  {
    var s0 := System(cl, LooksForXianqi(h));
    var s1 := Step(s0, true);
    var s2 := Step(s1, true);
    FinishStep(s0);
    FinishStep(s1);
    FinishStatus(s2.cluster, h);
  }

  lemma LivePass(cl: Cluster)
    requires cl.houmao.Some? && !cl.houmao.value.deleting
    ensures Settled(Pass(cl)) && Pass(cl).houmao.Some? && !Pass(cl).houmao.value.deleting
    ensures Pass(cl).houmao.value.liang == cl.houmao.value.liang
    ensures Settled(cl) ==> Pass(cl) == cl
  {
    var s0 := Step(System(cl, Idle), true);
    var s1 := Step(s0, true);
    FinishStep(s0);
    FinishXianqi(s1.cluster, s1.cluster.houmao.value);
  }

  /** A live Houmao that already carries another controller's finalizer, and not this one's, never gets this one.  So
      after a pass, the deletion, and the others' withdrawal (`left` is what remains then) its Xianqi is left behind;
      with any other finalizers it is not. */
  lemma ForeignFinalizerOrphans(cl: Cluster, h: Houmao, left: seq<string>)
    requires cl.houmao == Some(h) && !h.deleting
    requires var passed := Pass(cl);
      && (forall name <- left :: name == FINALIZER)
      && (FINALIZER in left <==> passed.houmao.Some? && FINALIZER in passed.houmao.value.finalizers)
    ensures var after := Act(Act(System(Pass(cl), Idle), Delete), WriteFinalizers(left)).cluster;
      && (NoOrphan(after) <==> h.finalizers == [] || FINALIZER in h.finalizers)
      && (Orphaned(after) <==> !NoOrphan(after))
  {
    var s0 := Step(System(cl, Idle), true);
    var s1 := Step(s0, true);
    FinishStep(s0);
    FinishXianqi(s1.cluster, s1.cluster.houmao.value);
    assert left != [] ==> left[0] in left;
  }

  /** The end of the pass over a deleting Houmao whose Xianqi is gone. */
  lemma FinishRelease(cl: Cluster, h: Houmao)
    requires cl.houmao == Some(h) && h.deleting && cl.xianqi.None?
    ensures var f := Finish(System(cl, MarksDestroyed(h)));
      && Settled(f) && f.xianqi.None?
      && (f.houmao.None? <==> forall name <- h.finalizers :: name == FINALIZER)
      && (f.houmao.Some? ==> f.houmao.value.deleting)
      && (Settled(cl) ==> f == cl)
  {
    WithoutStringKeepsOthers(h.finalizers, FINALIZER);
    var s0 := System(cl, MarksDestroyed(h));
    var s1 := Step(s0, true);
    FinishStep(s0);
    if s1.pc.RemovesFinalizer? {
      var g, s2 := s1.pc.h, Step(s1, true);
      assert s1.cluster.houmao == Some(g) && g.deleting && g.phase == Destroying && g.finalizers == h.finalizers;
      FinishStep(s1);
      assert s2.pc.Idle?;
      assert s2.cluster == Stored(s1.cluster, g.(finalizers := WithoutString(h.finalizers, FINALIZER)));
    }
  }

  /** A lookup of the Xianqi that wrongly says "not found" goes on as if it had been destroyed.  The rest of the pass
      then leaves it behind exactly when nobody else holds the Houmao. */
  lemma MissedXianqiIsOrphaned(cl: Cluster, h: Houmao)
    requires cl.houmao == Some(h) && h.deleting && cl.xianqi.Some?
    ensures var after := Finish(System(cl, AfterDestroy(Some(h))));
      && after.xianqi == cl.xianqi
      && (Orphaned(after) <==> forall name <- h.finalizers :: name == FINALIZER)
  {
    WithoutStringKeepsOthers(h.finalizers, FINALIZER);
    var s0 := System(cl, MarksDestroyed(h));
    var s1 := Step(s0, true);
    FinishStep(s0);
    if s1.pc.RemovesFinalizer? {
      FinishStep(s1);
      assert Step(s1, true).pc.Idle?;
    }
  }

  lemma DyingPass(cl: Cluster)
    requires cl.houmao.Some? && cl.houmao.value.deleting
    ensures Settled(Pass(cl)) && Pass(cl).xianqi.None?
    ensures Pass(cl).houmao.None? <==> forall f <- cl.houmao.value.finalizers :: f == FINALIZER
    ensures Settled(cl) ==> Pass(cl) == cl
  {
    var h := cl.houmao.value;
    var s0 := Step(System(cl, Idle), true);
    var s1 := Step(s0, true);
    FinishStep(s0);
    if s1.pc.DeletesXianqi? {
      FinishStep(s1);
    }
    FinishRelease(cl.(xianqi := None), h);
  }

  lemma AbsentPass(cl: Cluster)
    requires cl.houmao.None?
    ensures Pass(cl) == cl.(xianqi := None)
  {
    var s0 := Step(System(cl, Idle), true);
    var s1 := Step(s0, true);
    FinishStep(s0);
    if s1.pc.DeletesXianqi? {
      FinishStep(s1);
      assert Step(s1, true).pc.Idle?;
    }
  }

  lemma {:induction false} WithoutStringKeepsOthers(list: seq<string>, param: string)
    ensures WithoutString(list, param) == [] <==> forall s <- list :: s == param
    ensures param !in list ==> WithoutString(list, param) == list
  {
    if list != [] {
      var before, last := list[..|list| - 1], list[|list| - 1];
      WithoutStringKeepsOthers(before, param);
      assert list == before + [last];
      assert last in list;
      assert forall s :: s in list <==> s in before || s == last;
    }
  }

  /** From any cluster at all, orphans included, one undisturbed pass leaves a Xianqi exactly when the Houmao lives,
      with the resources that it asks for; a deleting Houmao is gone unless another controller holds it. */
  lemma PassConverges(cl: Cluster)
    ensures Settled(Pass(cl))
    ensures Pass(cl).xianqi.Some? <==> cl.houmao.Some? && !cl.houmao.value.deleting
    ensures Pass(cl).xianqi.Some? ==> Pass(cl).xianqi.value.resources == cl.houmao.value.liang
    ensures Pass(cl).houmao.None? <==>
      cl.houmao.None?
      || (cl.houmao.value.deleting && forall f <- cl.houmao.value.finalizers :: f == FINALIZER)
  {
    if cl.houmao.None? {
      AbsentPass(cl);
    } else if cl.houmao.value.deleting {
      DyingPass(cl);
    } else {
      LivePass(cl);
    }
  }

  /** A second undisturbed pass changes nothing, not even a resource version. */
  lemma SecondPassChangesNothing(cl: Cluster)
    ensures Pass(Pass(cl)) == Pass(cl)
  {
    PassConverges(cl);
    var after := Pass(cl);
    if after.houmao.None? {
      AbsentPass(after);
    } else if after.houmao.value.deleting {
      DyingPass(after);
    } else {
      LivePass(after);
    }
  }
}
