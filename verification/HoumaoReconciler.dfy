/** The reconciler as it is written: one method that sequences its API calls, proved against the step machine. */
module HoumaoReconciler {
  import opened Options
  import opened HoumaoLifecycle

  /** How the API answers each call of one pass: true for success (or "not found" for a get). */
  datatype Answers = Answers(
    getHoumao: bool, addFinalizer: bool, getXianqi: bool, putXianqi: bool, deleteXianqi: bool,
    patchPhase: bool, patchName: bool, removeFinalizer: bool)

  function AnswerFor(a: Answers, pc: Pc): bool {
    match pc
    case Idle => a.getHoumao
    case AddsFinalizer(_) => a.addFinalizer
    case LooksForXianqi(_) => a.getXianqi
    case UpdatesXianqi(_, _) => a.putXianqi
    case CreatesXianqi(_) => a.putXianqi
    case PatchesPhase(_) => a.patchPhase
    case PatchesName(_) => a.patchName
    case Destroys(_) => a.getXianqi
    case DeletesXianqi(_) => a.deleteXianqi
    case MarksDestroyed(_) => a.patchPhase
    case RemovesFinalizer(_) => a.removeFinalizer
  }

  /** The rest of a pass with these answers. */
  function Follow(s: System, a: Answers): Cluster
    decreases Rank(s.pc)
  {
    if s.pc.Idle? then s.cluster else Follow(Step(s, AnswerFor(a, s.pc)), a)
  }

  function PassUnder(cl: Cluster, a: Answers): Cluster {
    Follow(Step(System(cl, Idle), a.getHoumao), a)
  }

  lemma FollowStep(s: System, a: Answers)
    requires !s.pc.Idle?
    ensures Follow(s, a) == Follow(Step(s, AnswerFor(a, s.pc)), a)
  {
  }

  lemma FollowDestroy(s: System, a: Answers)
    requires s.pc.Destroys?
    ensures var t := Step(s, a.getXianqi);
      Follow(s, a) == Follow(if t.pc.DeletesXianqi? then Step(t, a.deleteXianqi) else t, a)
  {
    FollowStep(s, a);
    var t := Step(s, a.getXianqi);
    if t.pc.DeletesXianqi? {
      FollowStep(t, a);
    }
  }

  lemma StepAdvances(s: System, answer: bool)
    requires !s.pc.Idle?
    ensures Rank(Step(s, answer).pc) < Rank(s.pc)
  {
  }

  /** A pass, whatever fails in it, keeps the lifecycle invariant, and so orphans nothing. */
  lemma {:induction false} FollowKeepsInv(s: System, a: Answers)
    requires Inv(s)
    ensures Inv(System(Follow(s, a), Idle))
    decreases Rank(s.pc)
  {
    hide Step, Rank;
    if !s.pc.Idle? {
      hide Inv;
      StepKeepsInv(s, AnswerFor(a, s.pc));
      StepAdvances(s, AnswerFor(a, s.pc));
      FollowKeepsInv(Step(s, AnswerFor(a, s.pc)), a);
    }
  }

  /** A pass that fails at any call can be completed: the next undisturbed pass settles the cluster as if nothing had
      failed. */
  lemma FailedPassIsRepaired(cl: Cluster, a: Answers)
    requires Inv(System(cl, Idle))
    ensures NoOrphan(PassUnder(cl, a)) && Settled(Pass(PassUnder(cl, a)))
  {
    StepKeepsInv(System(cl, Idle), a.getHoumao);
    FollowKeepsInv(Step(System(cl, Idle), a.getHoumao), a);
    PassConverges(PassUnder(cl, a));
  }

  method AddString(list: seq<string>, param: string) returns (result: seq<string>)
    ensures result == if param in list then list else list + [param]
  {
    for i := 0 to |list|
      invariant param !in list[..i]
    {
      if list[i] == param {
        return list;
      }
    }
    result := list + [param];
  }

  method RemoveString(list: seq<string>, param: string) returns (result: seq<string>)
    ensures result == WithoutString(list, param)
  {
    result := [];
    for i := 0 to |list|
      invariant result == WithoutString(list[..i], param)
    {
      assert list[..i + 1][..i] == list[..i];
      if list[i] != param {
        result := result + [list[i]];
      }
    }
    assert list[..|list|] == list;
  }

  class Reconciler {
    var cluster: Cluster

    /** Stores the outcome of an API call, if it had one. */
    method Commit(answer: bool, result: Option<Cluster>) returns (ok: bool)
      modifies this
      ensures ok == (answer && result.Some?)
      ensures cluster == if ok then result.value else old(cluster)
    {
      ok := answer && result.Some?;
      if ok {
        cluster := result.value;
      }
    }

    /** On success `g` is the stored object; a deleting one is left as it is, without an error. */
    method AddFinalizers(h: Houmao, answer: bool) returns (ok: bool, g: Houmao)
      modifies this
      ensures System(cluster, if ok then LooksForXianqi(g) else Idle)
           == Step(System(old(cluster), AddsFinalizer(h)), answer)
    {
      ok, g := true, h;
      if !h.deleting && |h.finalizers| == 0 {
        var finalizers := AddString(h.finalizers, FINALIZER);
        assert finalizers == [FINALIZER];
        ok := Commit(answer, Updated(cluster, h.(finalizers := finalizers)));
        if ok {
          g := cluster.houmao.value;
        }
      }
    }

    method CreateOrUpdateXianqi(h: Houmao, get: bool, put: bool) returns (ok: bool)
      modifies this
      ensures System(cluster, if ok then PatchesPhase(h) else Idle)
           == Step(Step(System(old(cluster), LooksForXianqi(h)), get), put)
    {
      if get && cluster.xianqi.Some? {
        ok := Commit(put, XianqiUpdated(cluster, cluster.xianqi.value.(resources := h.liang)));
      } else {
        ok := Commit(put, XianqiCreated(cluster, h.liang));
      }
    }

    method DestroyXianqi(ghost dying: Option<Houmao>, get: bool, delete: bool) returns (ok: bool)
      modifies this
      ensures var s := Step(System(old(cluster), Destroys(dying)), get);
        System(cluster, if ok then AfterDestroy(dying) else Idle)
          == if s.pc.DeletesXianqi? then Step(s, delete) else s
    {
      if !get {
        return false;
      }
      if cluster.xianqi.None? {
        return true;
      }
      ok := Commit(delete, Some(cluster.(xianqi := None)));
    }

    method DelFinalizers(h: Houmao, answer: bool) returns (ok: bool)
      modifies this
      ensures System(cluster, Idle) == Step(System(old(cluster), RemovesFinalizer(h)), answer)
    {
      if !h.deleting {
        return true;
      }
      var finalizers := RemoveString(h.finalizers, FINALIZER);
      ok := Commit(answer, Updated(cluster, h.(finalizers := finalizers)));
    }

    method ReconcileLive(h: Houmao, a: Answers)
      requires !h.deleting
      modifies this
      ensures cluster == Follow(System(old(cluster), AddsFinalizer(h)), a)
    {
      FollowStep(System(cluster, AddsFinalizer(h)), a);
      var ok, g := AddFinalizers(h, a.addFinalizer);
      if !ok {
        return;
      }
      ghost var looking := System(cluster, LooksForXianqi(g));
      FollowStep(looking, a);
      FollowStep(Step(looking, a.getXianqi), a);
      ok := CreateOrUpdateXianqi(g, a.getXianqi, a.putXianqi);
      if !ok {
        return;
      }
      ReportXianqi(g, a);
    }

    /** The status part of a live pass. */
    method ReportXianqi(h: Houmao, a: Answers)
      modifies this
      ensures cluster == Follow(System(old(cluster), PatchesPhase(h)), a)
    {
      var g := h;
      FollowStep(System(cluster, PatchesPhase(g)), a);
      if g.phase != HasXianqi {
        var ok := Commit(a.patchPhase, PhasePatched(cluster, HasXianqi));
        if !ok || cluster.houmao.None? {
          return;
        }
        g := cluster.houmao.value;
      }
      FollowStep(System(cluster, PatchesName(g)), a);
      if !g.named {
        var ok := Commit(a.patchName, NamePatched(cluster));
      }
    }

    method ReconcileDeleting(h: Houmao, a: Answers)
      modifies this
      ensures cluster == Follow(System(old(cluster), Destroys(Some(h))), a)
    {
      ghost var destroying := System(cluster, Destroys(Some(h)));
      FollowDestroy(destroying, a);
      var ok := DestroyXianqi(Some(h), a.getXianqi, a.deleteXianqi);
      if !ok {
        return;
      }
      FollowStep(System(cluster, MarksDestroyed(h)), a);
      var g := h;
      if h.phase != Destroying {
        ok := Commit(a.patchPhase, PhasePatched(cluster, Destroying));
        if !ok || cluster.houmao.None? {
          return;
        }
        g := cluster.houmao.value;
      }
      FollowStep(System(cluster, RemovesFinalizer(g)), a);
      ok := DelFinalizers(g, a.removeFinalizer);
    }

    /** One pass over the Houmao. */
    method Reconcile(a: Answers)
      modifies this
      ensures cluster == PassUnder(old(cluster), a)
    {
      if !a.getHoumao {
        return;
      }
      if cluster.houmao.None? {
        FollowDestroy(System(cluster, Destroys(None)), a);
        var ok := DestroyXianqi(None, a.getXianqi, a.deleteXianqi);
      } else if !cluster.houmao.value.deleting {
        ReconcileLive(cluster.houmao.value, a);
      } else {
        ReconcileDeleting(cluster.houmao.value, a);
      }
    }
  }
}
