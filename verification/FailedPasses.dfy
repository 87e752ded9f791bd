/** What one pass of the reconciler leaves behind, in the fields of the cluster, whichever of its API calls fail. */
module FailedPasses {
  import opened Options
  import opened HoumaoLifecycle
  import opened HoumaoReconciler

  lemma FollowTwo(s: System, a: Answers)
    requires !s.pc.Idle?
    ensures var t := Step(s, AnswerFor(a, s.pc));
      Follow(s, a) == if t.pc.Idle? then t.cluster else Follow(Step(t, AnswerFor(a, t.pc)), a)
  {
    FollowStep(s, a);
    var t := Step(s, AnswerFor(a, s.pc));
    if !t.pc.Idle? {
      FollowStep(t, a);
    }
  }

  /** A pass whose first get fails does nothing; one that finds no Houmao does no more than to delete the Xianqi. */
  lemma AbsentPassExactly(cl: Cluster, a: Answers)
    ensures !a.getHoumao ==> PassUnder(cl, a) == cl
    ensures a.getHoumao && cl.houmao.None? ==>
      PassUnder(cl, a) == if a.getXianqi && a.deleteXianqi then cl.(xianqi := None) else cl
  {
    if a.getHoumao && cl.houmao.None? {
      var s := System(cl, Destroys(None));
      FollowDestroy(s, a);
    }
  }

  /** The status part: the phase is patched unless it is right, and only then the name. */
  lemma ReportExactly(cl: Cluster, h: Houmao, a: Answers)
    requires cl.houmao == Some(h) && !h.deleting
    ensures var f := Follow(System(cl, PatchesPhase(h)), a);
      && f.xianqi == cl.xianqi && f.houmao.Some?
      && var patched := h.phase == HasXianqi || a.patchPhase;
         f.houmao.value == h.(
           version := f.houmao.value.version,
           phase := if patched then HasXianqi else h.phase,
           named := h.named || (patched && a.patchName))
  {
    FollowTwo(System(cl, PatchesPhase(h)), a);
  }

  /** From the lookup of the Xianqi on. */
  lemma PutExactly(cl: Cluster, h: Houmao, a: Answers)
    requires cl.houmao == Some(h) && !h.deleting
    ensures var f := Follow(System(cl, LooksForXianqi(h)), a);
      var put := a.putXianqi && (a.getXianqi || cl.xianqi.None?);
      var patched := h.phase == HasXianqi || a.patchPhase;
      && (if put then f.xianqi.Some? && f.xianqi.value.resources == h.liang else f.xianqi == cl.xianqi)
      && f.houmao.Some?
      && f.houmao.value == h.(
           version := f.houmao.value.version,
           phase := if put && patched then HasXianqi else h.phase,
           named := h.named || (put && patched && a.patchName))
  {
    hide PatchPhase, PatchName;
    var s := System(cl, LooksForXianqi(h));
    FollowTwo(s, a);
    var t := Step(Step(s, a.getXianqi), a.putXianqi);
    if !t.pc.Idle? {
      ReportExactly(t.cluster, h, a);
    }
  }

  /** A live Houmao.  Nothing happens unless it has a finalizer or gets one.  Then the Xianqi is put: updated when it is
      found, created when there is none; a lookup that fails on an existing one leads to a creation that fails.  Only
      then the status follows. */
  lemma LivePassExactly(cl: Cluster, h: Houmao, a: Answers)
    requires a.getHoumao && cl.houmao == Some(h) && !h.deleting
    ensures var f := PassUnder(cl, a);
      var held := h.finalizers != [] || a.addFinalizer;
      var put := held && a.putXianqi && (a.getXianqi || cl.xianqi.None?);
      var patched := h.phase == HasXianqi || a.patchPhase;
      && (if put then f.xianqi.Some? && f.xianqi.value.resources == h.liang else f.xianqi == cl.xianqi)
      && f.houmao.Some?
      && f.houmao.value == h.(
           version := f.houmao.value.version,
           finalizers := if h.finalizers == [] && a.addFinalizer then [FINALIZER] else h.finalizers,
           phase := if put && patched then HasXianqi else h.phase,
           named := h.named || (put && patched && a.patchName))
  {
    hide LookForXianqi, PutXianqi, PatchPhase, PatchName;
    var s := System(cl, AddsFinalizer(h));
    FollowStep(s, a);
    var t := Step(s, a.addFinalizer);
    if !t.pc.Idle? {
      PutExactly(t.cluster, t.cluster.houmao.value, a);
    }
  }

  /** The rest of a pass over a deleting Houmao without a Xianqi: its phase first, then its finalizer.  A Houmao without
      finalizers goes with the first update that reaches it. */
  lemma ReleaseExactly(cl: Cluster, h: Houmao, a: Answers)
    requires cl.houmao == Some(h) && h.deleting
    ensures var f := Follow(System(cl, MarksDestroyed(h)), a);
      var marked := h.phase == Destroying || a.patchPhase;
      var released := marked && a.removeFinalizer;
      && f.xianqi == cl.xianqi
      && (f.houmao.None? <==>
            || (released && forall name <- h.finalizers :: name == FINALIZER)
            || (h.phase != Destroying && a.patchPhase && h.finalizers == []))
      && (f.houmao.Some? ==>
            f.houmao.value == h.(
              version := f.houmao.value.version,
              finalizers := if released then WithoutString(h.finalizers, FINALIZER) else h.finalizers,
              phase := if marked then Destroying else h.phase))
  {
    WithoutStringKeepsOthers(h.finalizers, FINALIZER);
    var s := System(cl, MarksDestroyed(h));
    var t := Step(s, a.patchPhase);
    FollowTwo(s, a);
    if t.pc.RemovesFinalizer? {
      assert t.cluster.houmao == Some(t.pc.h) && t.pc.h.finalizers == h.finalizers;
    }
  }

  /** A deleting Houmao.  Its Xianqi goes first, and unless it does, or is known to be gone, nothing else happens. */
  lemma DyingPassExactly(cl: Cluster, h: Houmao, a: Answers)
    requires a.getHoumao && cl.houmao == Some(h) && h.deleting
    ensures var f := PassUnder(cl, a);
      var freed := a.getXianqi && (cl.xianqi.None? || a.deleteXianqi);
      var marked := freed && (h.phase == Destroying || a.patchPhase);
      var released := marked && a.removeFinalizer;
      && f.xianqi == (if freed then None else cl.xianqi)
      && (f.houmao.None? <==>
            || (released && forall name <- h.finalizers :: name == FINALIZER)
            || (freed && h.phase != Destroying && a.patchPhase && h.finalizers == []))
      && (f.houmao.Some? ==>
            f.houmao.value == h.(
              version := f.houmao.value.version,
              finalizers := if released then WithoutString(h.finalizers, FINALIZER) else h.finalizers,
              phase := if marked then Destroying else h.phase))
  {
    hide MarkDestroyed, RemoveFinalizer;
    var s := System(cl, Destroys(Some(h)));
    FollowDestroy(s, a);
    ReleaseExactly(cl.(xianqi := None), h, a);
  }

  /** No step of the reconciler ever takes back what a user has done to the Houmao since the reconciler read it: what is
      asked for, and the deletion, stay as they are, and a Houmao that is gone stays away. */
  lemma StepsKeepEdits(s: System, answer: bool)
    requires Inv(s)
    ensures var before, after := s.cluster.houmao, Step(s, answer).cluster.houmao;
      && (after.Some? ==>
            before.Some? && after.value.liang == before.value.liang && after.value.deleting == before.value.deleting)
      && (before.Some? && after.None? ==> before.value.deleting)
  {
  }

  /** The object of the reconciler's next call is no longer what the reconciler has read. */
  predicate Outdated(s: System) {
    var houmao, xianqi := s.cluster.houmao, s.cluster.xianqi;
    match s.pc
    case AddsFinalizer(h) =>
      !h.deleting && h.finalizers == [] && (houmao.None? || houmao.value.version != h.version)
    case UpdatesXianqi(_, x) => xianqi.None? || xianqi.value.version != x.version
    case CreatesXianqi(_) => xianqi.Some?
    case PatchesPhase(h) => h.phase != HasXianqi && houmao.None?
    case PatchesName(h) => !h.named && houmao.None?
    case DeletesXianqi(_) => xianqi.None?
    case MarksDestroyed(h) => h.phase != Destroying && houmao.None?
    case RemovesFinalizer(h) => houmao.None? || houmao.value.version != h.version
    case _ => false
  }

  /** A pass that meets such a change gives up there, and touches nothing. */
  lemma OutdatedPassGivesUp(s: System, answer: bool)
    requires Outdated(s)
    ensures Step(s, answer) == System(s.cluster, Idle)
  {
  }
}
