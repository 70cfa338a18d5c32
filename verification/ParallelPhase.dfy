/**
  The parallel branch of MS_ROOTS_PUSHED: what a finished parallel mark means for Invariant I.
*/
module ParallelPhase {
  import opened MarkHeap
  import opened MarkInvariant
  import P = ParallelMark

  /** All that entries lead to. */
  function Sources(c: P.Config): set<nat> {
    set e, k | e in c.kids && k in c.kids[e] :: k
  }

  /** c describes the heap h with marks m and stack s: places of the parallel stack lead to what the
      words of the stacked ranges point to, unmarked objects to what all of their words point to. */
  ghost predicate Describes(c: P.Config, h: Heap, m: set<nat>, s: seq<Mse>, stack: seq<nat>) {
    && |stack| == |s| && Sources(c) <= h.objs.Keys
    && (forall i: nat, a: nat :: i < |s| && InRange(s[i], a) && h.Read(a) in h.names ==>
          h.names[h.Read(a)] in c.Kids(stack[i]))
    && (forall o, a: nat :: o !in m && h.WordOf(o, a) && h.Read(a) in h.names ==> h.names[h.Read(a)] in c.Kids(o))
  }

  /** Only what some entry leads to gets marked. */
  lemma StepMarks(c: P.Config, s: P.State, s': P.State, w: nat)
    requires P.Inv(c, s) && P.Next(c, s, s', w)
    ensures s'.marked <= s.marked + Sources(c)
  {
    match s.ws[w].pc
    case Mark(_) => MarkStepMarks(c, s, s', w);
    case _ => OtherStepMarks(s, s', w, c);
  }

  lemma MarkStepMarks(c: P.Config, s: P.State, s': P.State, w: nat)
    requires P.Inv(c, s) && w in s.ws && s.ws[w].pc.Mark? && P.MarkStep(c, s, s', w)
    ensures s'.marked <= s.marked + Sources(c)
  {
    assert P.WorkerOk(c, s, w, s.ws[w]);
  }

  lemma OtherStepMarks(s: P.State, s': P.State, w: nat, c: P.Config)
    requires P.Next(c, s, s', w) && !s.ws[w].pc.Mark?
    ensures s'.marked == s.marked
  {
    match s.ws[w].pc
    case Local => LocalStepMarks(c, s, s', w);
    case Steal(_, _) =>
    case Zero(_, _, _) =>
    case Keep(_, _, _) =>
    case Grab => hide P.IsActive, P.Has;
    case Asleep =>
    case _ =>
  }

  lemma LocalStepMarks(c: P.Config, s: P.State, s': P.State, w: nat)
    requires w in s.ws && s.ws[w].pc.Local? && P.LocalStep(c, s, s', w)
    ensures s'.marked == s.marked
  {
  }

  lemma {:induction false} RunMarks(c: P.Config, run: seq<P.State>, acts: seq<nat>, k: nat)
    requires P.Run(c, run, acts) && k < |run|
    ensures run[0].marked <= run[k].marked <= run[0].marked + Sources(c)
  {
    P.Grows(c, run, acts, k);
    if k > 0 {
      RunMarks(c, run, acts, k - 1);
      P.RunKeeps(c, run, acts, k - 1);
      StepMarks(c, run[k - 1], run[k], acts[k - 1]);
    }
  }

  /** When parallel marking ends without overflow, the marks are closed and hold the root targets, so
      that MS_NONE may follow as it does after sequential marking. */
  lemma ParallelPhaseEnds(h: Heap, r: Roots, m: set<nat>, s: seq<Mse>, grungy: set<nat>, c: P.Config,
                          run: seq<P.State>, acts: seq<nat>, k: nat)
    requires m <= h.objs.Keys && InvariantI(h, m, s, MsRootsPushed, 0, {}, grungy) && RootsDone(h, r, m, s)
    requires P.Run(c, run, acts) && k < |run| && run[0].marked == m && Describes(c, h, m, s, run[0].stack)
    requires 0 in run[k].ws && run[k].ws[0].pc.Finished? && !run[k].invalid
    ensures Closed(h, run[k].marked) && RootsLand(h, r, run[k].marked)
  {
    var m' := run[k].marked;
    P.FinishedMeansDone(c, run, acts, k);
    RunMarks(c, run, acts, k);
    hide P.Run;
    forall a: nat | WordOk(h, m, s, a) ensures Lands(h, h.Read(a), m') {
      if Pending(s, a) {
        var i: nat :| i < |s| && InRange(s[i], a);
        assert run[0].stack[i] in run[0].stack;
      }
    }
    forall o, a: nat | o in m' && h.WordOf(o, a) ensures Lands(h, h.Read(a), m') {}
  }
}
