/**
  The parallel marker: threads steal entries from the global mark stack, mark from private
  stacks, return entries, and find out together that there is no more work. A state machine
  over atomic steps; what happens under the mark lock is one step. Entries are named by
  numbers, 0 being an entry that has been taken.
*/
module ParallelMark {

  /** kids maps an entry to the objects it leads to; the entry of an object has its number.
      Worker 0 is the thread that started parallel marking. */
  datatype Config = Config(kids: map<nat, set<nat>>, workers: set<nat>, globalSize: nat, localSize: nat) {
    function Kids(e: nat): set<nat> {
      if e in kids then kids[e] else {}
    }

    ghost predicate Valid() {
      0 in workers && ENTRIES_TO_GET < localSize && forall e, k :: e in kids && k in kids[e] ==> k != 0
    }
  }

  /** How many entries a thread takes at a time at most. */
  const ENTRIES_TO_GET: nat := 5

  datatype Pc =
    | Out
    | Look
    | Cas(g: nat)
    | LookTop
    | Grab
    | Asleep
    | Steal(p: nat, high: nat)
    | Zero(p: nat, high: nat, e: nat)
    | Keep(p: nat, high: nat, e: nat)
    | Local
    | Mark(k: nat)
    | Finishing
    | Finished

  /** my is the thread's own idea of the first entry still to be taken; rem are the objects that
      the entry cur being scanned still has to lead to. */
  datatype Worker = Worker(pc: Pc, my: nat, local: seq<nat>, cur: nat, rem: set<nat>)

  /** first is GC_first_nonempty; owed, done and stolen record which entries there have been,
      which have been scanned to the end, and which places of the stack have been taken. */
  datatype State = State(stack: seq<nat>, first: nat, active: nat, helpers: nat, wanted: bool, ws: map<nat, Worker>,
                         marked: set<nat>, owed: set<nat>, done: set<nat>, stolen: set<nat>, invalid: bool, ended: bool)
  {
    function Put(w: nat, x: Worker): State {
      this.(ws := ws[w := x])
    }
  }

  // ---------------------------------------------------------------- steps

  /** The decision taken under the mark lock by a thread that has run out of work; a is the
      number of active threads without it. */
  ghost predicate Evaluate(s: State, s': State, w: nat, a: nat)
    requires w in s.ws
  {
    var x := s.ws[w];
    if a > 0 && s.first >= |s.stack| then
      s' == s.Put(w, x.(pc := Asleep)).(active := a)
    else if a == 0 && s.first >= |s.stack| then
      if w == 0 then
        s' == s.Put(w, x.(pc := Finishing)).(active := a, helpers := s'.helpers, wanted := false, ended := true)
                     && s'.helpers + 1 == s.helpers
      else
        && s' == s.Put(w, x.(pc := Out)).(active := a, helpers := s'.helpers, ended := true)
        && s'.helpers + 1 == s.helpers
    else
      s' == s.Put(w, x.(pc := Look)).(active := a + 1)
  }

  ghost predicate LookStep(s: State, s': State, w: nat)
    requires w in s.ws
  {
    var x := s.ws[w];
    match x.pc
    case Look =>
      s' == s.Put(w, if x.my < s.first then x.(pc := LookTop, my := s.first)
                     else if s.first < x.my then x.(pc := Cas(s.first)) else x.(pc := LookTop))
    case Cas(g) =>
      s' == s.Put(w, x.(pc := LookTop)).(first := if s.first == g then x.my else s.first)
    case LookTop =>
      s' == s.Put(w, x.(pc := if |s.stack| <= x.my then Grab else Steal(x.my, |s.stack| - 1)))
    case Grab =>
      if |s.stack| <= x.my then s.active > 0 && Evaluate(s, s', w, s.active - 1)
      else s' == s.Put(w, x.(pc := Steal(x.my, |s.stack| - 1)))
    case Asleep => Evaluate(s, s', w, s.active)
    case _ => false
  }

  /** With n places left on the stack one more entry than this may be taken. */
  function MaxToGet(n: int): nat {
    if n < 2 * ENTRIES_TO_GET then 1 else ENTRIES_TO_GET
  }

  ghost predicate StealStep(s: State, s': State, w: nat)
    requires w in s.ws
  {
    var x := s.ws[w];
    match x.pc
    case Steal(p, high) =>
      // Enough taken, or the end reached.
      || s' == s.Put(w, x.(pc := Local, my := p))
      || (p <= high && p < |s.stack| && |x.local| <= MaxToGet(high + 1 - x.my)
          && s' == s.Put(w, x.(pc := if s.stack[p] == 0 then Steal(p + 1, high) else Zero(p, high, s.stack[p]))))
    case Zero(p, high, e) =>
      p < |s.stack| && s' == s.Put(w, x.(pc := Keep(p, high, e))).(stack := s.stack[p := 0], stolen := s.stolen + {p})
    case Keep(p, high, e) =>
      s' == s.Put(w, x.(pc := Steal(p + 1, high), local := x.local + [e]))
    case _ => false
  }

  /** Copies the n lowest entries of the local stack back, or drops them if there is no room. */
  ghost predicate GiveBack(c: Config, s: State, s': State, w: nat, n: nat)
    requires w in s.ws
  {
    var x := s.ws[w];
    n <= |x.local| &&
    var y := x.(local := x.local[n..]);
    if |s.stack| + n > c.globalSize then s' == s.Put(w, y).(invalid := true)
    else s' == s.Put(w, y).(stack := s.stack + x.local[..n])
  }

  ghost predicate LocalStep(c: Config, s: State, s': State, w: nat)
    requires w in s.ws && s.ws[w].pc.Local?
  {
    var x := s.ws[w];
    if x.cur != 0 then
      if x.rem == {} then s' == s.Put(w, x.(cur := 0)).(done := s.done + {x.cur})
      else exists k :: k in x.rem && s' == s.Put(w, if k in s.marked then x.(rem := x.rem - {k}) else x.(pc := Mark(k)))
    else if x.local == [] then s' == s.Put(w, x.(pc := Look))
    else
      var top := x.local[|x.local| - 1];
      || s' == s.Put(w, x.(local := x.local[..|x.local| - 1], cur := top, rem := c.Kids(top)))
      || exists n: nat :: GiveBack(c, s, s', w, n)
  }

  /** Sets the mark bit and pushes. Another thread may have done the same since the bit was
      tested. A full local stack loses some entries. */
  ghost predicate MarkStep(c: Config, s: State, s': State, w: nat)
    requires w in s.ws && s.ws[w].pc.Mark?
  {
    var x := s.ws[w];
    var y := x.(pc := Local, rem := x.rem - {x.pc.k});
    var t := s.(marked := s.marked + {x.pc.k}, owed := s.owed + {x.pc.k});
    if |x.local| < c.localSize then s' == t.Put(w, y.(local := x.local + [x.pc.k]))
    else exists n: nat :: n < |x.local| && s' == t.Put(w, y.(local := x.local[..n] + [x.pc.k])).(invalid := true)
  }

  ghost predicate Next(c: Config, s: State, s': State, w: nat) {
    w in s.ws &&
    var x := s.ws[w];
    match x.pc
    case Out =>
      w != 0 && s.wanted
      && s' == s.Put(w, x.(pc := Look, my := s.first)).(active := s.active + 1, helpers := s.helpers + 1)
    case Finishing => s.helpers == 0 && s' == s.Put(w, x.(pc := Finished))
    case Finished => false
    case Local => LocalStep(c, s, s', w)
    case Mark(_) => MarkStep(c, s, s', w)
    case Steal(_, _) => StealStep(s, s', w)
    case Zero(_, _, _) => StealStep(s, s', w)
    case Keep(_, _, _) => StealStep(s, s', w)
    case _ => LookStep(s, s', w)
  }

  /** The starting thread is active; every marked object is on the stack or leads to marked
      objects only. */
  ghost predicate Init(c: Config, s: State) {
    && c.Valid() && s.ws.Keys == c.workers
    && s.first == 0 && s.active == 1 && s.helpers == 1 && s.wanted && !s.invalid && !s.ended && s.stolen == {}
    && s.ws[0] == Worker(Look, 0, [], 0, {})
    && (forall w :: w in s.ws && w != 0 ==> s.ws[w].pc == Out && s.ws[w].local == [] && s.ws[w].cur == 0)
    && (forall i :: 0 <= i < |s.stack| ==> s.stack[i] != 0 && s.stack[i] in s.owed)
    && s.marked <= s.owed && 0 !in s.owed
    && (forall e :: e in s.owed ==> e in s.stack || e in s.done)
    && (forall e :: e in s.done ==> c.Kids(e) <= s.marked)
  }

  ghost predicate Run(c: Config, run: seq<State>, acts: seq<nat>) {
    && run != [] && |acts| + 1 == |run| && Init(c, run[0])
    && forall k :: 0 <= k < |acts| ==> Next(c, run[k], run[k + 1], acts[k])
  }

  // ---------------------------------------------------------------- the invariant

  /** Threads counted in active. */
  predicate IsActive(pc: Pc) {
    !pc.Out? && !pc.Asleep? && !pc.Finishing? && !pc.Finished?
  }

  predicate IsHelper(pc: Pc) {
    !pc.Out? && !pc.Finishing? && !pc.Finished?
  }

  function Actives(s: State): set<nat> {
    set w | w in s.ws && IsActive(s.ws[w].pc)
  }

  function Helpers(s: State): set<nat> {
    set w | w in s.ws && IsHelper(s.ws[w].pc)
  }

  /** The entries that a thread has taken and not finished with. */
  predicate Has(x: Worker, e: nat) {
    || e in x.local
    || (x.cur == e && e != 0)
    || (x.pc.Zero? && x.pc.e == e)
    || (x.pc.Keep? && x.pc.e == e)
  }

  ghost predicate Somewhere(s: State, e: nat) {
    e in s.stack || exists w :: w in s.ws && Has(s.ws[w], e)
  }

  /** Everything below place n of the stack has been taken. */
  ghost predicate Taken(stack: seq<nat>, n: nat) {
    n <= |stack| && forall i :: 0 <= i < n ==> stack[i] == 0
  }

  ghost predicate WorkerOk(c: Config, s: State, w: nat, x: Worker) {
    && (!x.pc.Out? ==> Taken(s.stack, x.my))
    && (x.pc.Cas? ==> x.pc.g < x.my)
    && (x.pc.Steal? ==> Taken(s.stack, x.pc.p) && x.pc.high < |s.stack|)
    && (x.pc.Zero? ==>
          && Taken(s.stack, x.pc.p) && x.pc.p <= x.pc.high < |s.stack| && x.pc.e != 0
          && (s.stack[x.pc.p] == x.pc.e || s.stack[x.pc.p] == 0))
    && (x.pc.Keep? ==> Taken(s.stack, x.pc.p + 1) && x.pc.high < |s.stack| && x.pc.e != 0)
    && (!x.pc.Local? && !x.pc.Mark? ==> x.cur == 0)
    && (!x.pc.Local? && !x.pc.Mark? && !x.pc.Steal? && !x.pc.Zero? && !x.pc.Keep? ==> x.local == [])
    && (x.cur != 0 ==> c.Kids(x.cur) <= s.marked + x.rem && x.rem <= c.Kids(x.cur))
    && (x.pc.Mark? ==> x.cur != 0 && x.pc.k in x.rem)
    && (x.pc.Finishing? || x.pc.Finished? ==> w == 0)
    && (x.pc.Out? ==> w != 0)
    && 0 !in x.local
  }

  /** There is no work left anywhere. */
  ghost predicate Quiescent(s: State) {
    && Taken(s.stack, |s.stack|)
    && forall w, e :: w in s.ws && e != 0 ==> !Has(s.ws[w], e)
  }

  ghost predicate Inv(c: Config, s: State) {
    && c.Valid() && s.ws.Keys == c.workers
    && Taken(s.stack, s.first)
    && (forall w :: w in s.ws ==> WorkerOk(c, s, w, s.ws[w]))
    && s.active == |Actives(s)| && s.helpers == |Helpers(s)|
    && s.marked <= s.owed && 0 !in s.owed
    && (forall e :: e in s.done ==> c.Kids(e) <= s.marked)
    && (!s.invalid ==> forall e :: e in s.owed ==> e in s.done || Somewhere(s, e))
    && (forall i :: 0 <= i < |s.stack| && s.stack[i] == 0 ==> i in s.stolen)
    && (s.ended ==> Quiescent(s))
    && (s.ws[0].pc.Finishing? || s.ws[0].pc.Finished? ==> s.ended && !s.wanted)
    && (s.ws[0].pc.Finished? ==> s.helpers == 0)
    && (!s.wanted ==> s.ws[0].pc.Finishing? || s.ws[0].pc.Finished?)
  }

  // ---------------------------------------------------------------- what a step may do

  /** Places of the stack are only emptied, and places are only added at its end. */
  ghost predicate StackMoves(stack: seq<nat>, stack': seq<nat>) {
    |stack| <= |stack'| && forall i :: 0 <= i < |stack| ==> stack'[i] == stack[i] || stack'[i] == 0
  }

  /** What was on the stack or with thread w is there still, or has been scanned. */
  ghost predicate WorkMoves(s: State, s': State, w: nat)
    requires w in s.ws && w in s'.ws
  {
    && (forall e :: e != 0 && (e in s.stack || Has(s.ws[w], e)) ==> e in s'.stack || Has(s'.ws[w], e) || e in s'.done)
    && (forall e :: e in s'.owed && e !in s.owed ==> Has(s'.ws[w], e))
  }

  function One(b: bool): int {
    if b then 1 else 0
  }

  ghost predicate ThreadMoves(c: Config, s: State, s': State, w: nat)
    requires w in s.ws
  {
    && w in s'.ws && s'.ws == s.ws[w := s'.ws[w]]
    && WorkerOk(c, s', w, s'.ws[w])
    && s'.active == s.active - One(IsActive(s.ws[w].pc)) + One(IsActive(s'.ws[w].pc))
    && s'.helpers == s.helpers - One(IsHelper(s.ws[w].pc)) + One(IsHelper(s'.ws[w].pc))
  }

  ghost predicate SharedMoves(c: Config, s: State, s': State) {
    && StackMoves(s.stack, s'.stack) && Taken(s'.stack, s'.first)
    && s.marked <= s'.marked <= s'.owed && s.owed <= s'.owed && s.done <= s'.done && 0 !in s'.owed
    && (forall e :: e in s'.done ==> c.Kids(e) <= s'.marked)
    && (s.invalid ==> s'.invalid)
    && (forall i :: 0 <= i < |s'.stack| && s'.stack[i] == 0 ==> i in s'.stolen)
  }

  ghost predicate EndOk(s: State)
    requires 0 in s.ws
  {
    && (s.ws[0].pc.Finishing? || s.ws[0].pc.Finished? ==> s.ended && !s.wanted)
    && (s.ws[0].pc.Finished? ==> s.helpers == 0)
    && (!s.wanted ==> s.ws[0].pc.Finishing? || s.ws[0].pc.Finished?)
  }

  lemma OthersOk(c: Config, s: State, s': State, v: nat, x: Worker)
    requires WorkerOk(c, s, v, x) && StackMoves(s.stack, s'.stack) && s.marked <= s'.marked
    ensures WorkerOk(c, s', v, x)
  {
  }

  lemma SwapSize(a: set<nat>, w: nat, stays: bool)
    ensures |a - {w} + (if stays then {w} else {})| == |a| - One(w in a) + One(stays)
  {
    assert w in a ==> a == a - {w} + {w};
    assert w !in a ==> a == a - {w};
  }

  lemma CountsMove(s: State, s': State, w: nat)
    requires w in s.ws && w in s'.ws && s'.ws == s.ws[w := s'.ws[w]]
    ensures |Actives(s')| == |Actives(s)| - One(IsActive(s.ws[w].pc)) + One(IsActive(s'.ws[w].pc))
    ensures |Helpers(s')| == |Helpers(s)| - One(IsHelper(s.ws[w].pc)) + One(IsHelper(s'.ws[w].pc))
  {
    ActivesMove(s, s', w);
    HelpersMove(s, s', w);
    SwapSize(Actives(s), w, IsActive(s'.ws[w].pc));
    SwapSize(Helpers(s), w, IsHelper(s'.ws[w].pc));
  }

  lemma ActivesMove(s: State, s': State, w: nat)
    requires w in s.ws && w in s'.ws && s'.ws == s.ws[w := s'.ws[w]]
    ensures Actives(s') == Actives(s) - {w} + (if IsActive(s'.ws[w].pc) then {w} else {})
  {
  }

  lemma HelpersMove(s: State, s': State, w: nat)
    requires w in s.ws && w in s'.ws && s'.ws == s.ws[w := s'.ws[w]]
    ensures Helpers(s') == Helpers(s) - {w} + (if IsHelper(s'.ws[w].pc) then {w} else {})
  {
  }

  lemma OwedMoves(s: State, s': State, w: nat)
    requires w in s.ws && w in s'.ws && s'.ws == s.ws[w := s'.ws[w]] && 0 !in s'.owed
    requires WorkMoves(s, s', w) && s.done <= s'.done
    requires forall e :: e in s.owed ==> e in s.done || Somewhere(s, e)
    ensures forall e :: e in s'.owed ==> e in s'.done || Somewhere(s', e)
  {
    forall e | e in s'.owed && e !in s'.done ensures Somewhere(s', e) {
      if e in s.owed {
        if e !in s.stack && !Has(s.ws[w], e) {
          var v :| v in s.ws && Has(s.ws[v], e);
          assert v in s'.ws && Has(s'.ws[v], e);
        }
      }
    }
  }

  /** Steps that move in these ways keep the invariant. */
  lemma MovesKeep(c: Config, s: State, s': State, w: nat)
    requires Inv(c, s) && w in s.ws && ThreadMoves(c, s, s', w) && SharedMoves(c, s, s')
    requires s'.invalid || WorkMoves(s, s', w)
    requires EndOk(s') && (s'.ended ==> Quiescent(s'))
    ensures Inv(c, s')
  {
    CountsMove(s, s', w);
    forall v | v in s'.ws ensures WorkerOk(c, s', v, s'.ws[v]) {
      if v != w { OthersOk(c, s, s', v, s.ws[v]); }
    }
    if !s'.invalid { OwedMoves(s, s', w); }
  }

  /** A thread that neither takes nor drops work, and does not touch what is shared. */
  lemma SameWork(c: Config, s: State, s': State, w: nat, y: Worker)
    requires Inv(c, s) && w in s.ws && s'.ws == s.ws[w := y]
    requires s'.stack == s.stack && s'.marked == s.marked && s'.owed == s.owed && s'.done == s.done &&
      s'.stolen == s.stolen
    requires s'.invalid == s.invalid && Taken(s.stack, s'.first)
    requires forall e :: Has(s.ws[w], e) <==> Has(y, e)
    ensures SharedMoves(c, s, s') && WorkMoves(s, s', w)
    ensures s.ended ==> Quiescent(s')
  {
  }

  // ---------------------------------------------------------------- the steps one by one

  lemma LookKeeps(c: Config, s: State, s': State, w: nat)
    requires Inv(c, s) && w in s.ws && (s.ws[w].pc.Look? || s.ws[w].pc.Cas? || s.ws[w].pc.LookTop?) &&
      LookStep(s, s', w)
    ensures Inv(c, s')
  {
    assert WorkerOk(c, s, w, s.ws[w]);
    SameWork(c, s, s', w, s'.ws[w]);
    MovesKeep(c, s, s', w);
  }

  /** If no other thread is active, no other thread has any work. */
  lemma AloneIsQuiet(c: Config, s: State, w: nat)
    requires Inv(c, s) && w in s.ws && Actives(s) <= {w} && s.first >= |s.stack|
    requires s.ws[w].local == [] && s.ws[w].cur == 0 && !s.ws[w].pc.Zero? && !s.ws[w].pc.Keep?
    ensures Quiescent(s)
  {
    forall v, e | v in s.ws && e != 0 ensures !Has(s.ws[v], e) {
      assert WorkerOk(c, s, v, s.ws[v]);
      if v != w { assert v !in Actives(s); }
    }
  }

  lemma OnlyOne(a: set<nat>, w: nat)
    requires |a| == One(w in a)
    ensures a <= {w}
  {
    if w in a { assert |a - {w}| == 0; }
  }

  lemma EvaluateKeeps(c: Config, s: State, s': State, w: nat, a: nat)
    requires Inv(c, s) && w in s.ws && Evaluate(s, s', w, a)
    requires (s.ws[w].pc.Grab? && a + 1 == s.active) || (s.ws[w].pc.Asleep? && a == s.active)
    ensures Inv(c, s')
  {
    assert WorkerOk(c, s, w, s.ws[w]);
    SameWork(c, s, s', w, s'.ws[w]);
    if s'.ended && !s.ended {
      OnlyOne(Actives(s), w);
      AloneIsQuiet(c, s, w);
      QuietStays(s, s', w);
    }
    EvaluateMoves(c, s, s', w, a);
    hide Quiescent, SharedMoves, WorkMoves, ThreadMoves, WorkerOk, Somewhere, Actives, Helpers, Evaluate;
    MovesKeep(c, s, s', w);
  }

  lemma QuietStays(s: State, s': State, w: nat)
    requires Quiescent(s) && w in s.ws && w in s'.ws && s'.ws == s.ws[w := s'.ws[w]] && s'.stack == s.stack
    requires forall e :: Has(s'.ws[w], e) ==> Has(s.ws[w], e)
    ensures Quiescent(s')
  {
  }

  lemma EvaluateMoves(c: Config, s: State, s': State, w: nat, a: nat)
    requires Inv(c, s) && w in s.ws && Evaluate(s, s', w, a) && WorkerOk(c, s, w, s.ws[w])
    requires (s.ws[w].pc.Grab? && a + 1 == s.active) || (s.ws[w].pc.Asleep? && a == s.active)
    ensures ThreadMoves(c, s, s', w) && EndOk(s')
  {
    hide Quiescent, Somewhere, Actives, Helpers;
    assert Taken(s'.stack, s'.first);
    assert EndOk(s);
    hide Inv;
    EvaluateThread(c, s, s', w, a);
    hide ThreadMoves, WorkerOk;
  }

  lemma EvaluateThread(c: Config, s: State, s': State, w: nat, a: nat)
    requires w in s.ws && Evaluate(s, s', w, a) && WorkerOk(c, s, w, s.ws[w])
    requires (s.ws[w].pc.Grab? && a + 1 == s.active) || (s.ws[w].pc.Asleep? && a == s.active)
    ensures ThreadMoves(c, s, s', w)
  {
    hide Taken;
  }

  lemma GrabKeeps(c: Config, s: State, s': State, w: nat)
    requires Inv(c, s) && w in s.ws && (s.ws[w].pc.Grab? || s.ws[w].pc.Asleep?) && LookStep(s, s', w)
    ensures Inv(c, s')
  {
    if s.ws[w].pc.Grab? && s.ws[w].my < |s.stack| {
      assert WorkerOk(c, s, w, s.ws[w]);
      SameWork(c, s, s', w, s'.ws[w]);
      MovesKeep(c, s, s', w);
    } else {
      EvaluateKeeps(c, s, s', w, if s.ws[w].pc.Grab? then s.active - 1 else s.active);
    }
  }

  lemma JoinKeeps(c: Config, s: State, s': State, w: nat)
    requires Inv(c, s) && w in s.ws && s.ws[w].pc.Out? && Next(c, s, s', w)
    ensures Inv(c, s')
  {
    assert WorkerOk(c, s, w, s.ws[w]);
    SameWork(c, s, s', w, s'.ws[w]);
    MovesKeep(c, s, s', w);
  }

  lemma FinishKeeps(c: Config, s: State, s': State, w: nat)
    requires Inv(c, s) && w in s.ws && s.ws[w].pc.Finishing? && Next(c, s, s', w)
    ensures Inv(c, s')
  {
    assert WorkerOk(c, s, w, s.ws[w]);
    SameWork(c, s, s', w, s'.ws[w]);
    MovesKeep(c, s, s', w);
  }

  lemma StealKeeps(c: Config, s: State, s': State, w: nat)
    requires Inv(c, s) && w in s.ws && s.ws[w].pc.Steal? && StealStep(s, s', w)
    ensures Inv(c, s')
  {
    assert WorkerOk(c, s, w, s.ws[w]);
    var x, y := s.ws[w], s'.ws[w];
    var p := x.pc.p;
    if y.pc.Zero? {
      // The entry is in the thread's hands as well as on the stack.
      assert s.stack[p] in s.stack;
      assert !s.ended;
      ReadMoves(c, s, s', w);
    } else {
      SameWork(c, s, s', w, y);
    }
    hide Quiescent, SharedMoves, WorkMoves, WorkerOk, Somewhere, Actives, Helpers;
    StealThread(c, s, s', w);
    MovesKeep(c, s, s', w);
  }

  lemma StealThread(c: Config, s: State, s': State, w: nat)
    requires w in s.ws && s.ws[w].pc.Steal? && StealStep(s, s', w) && WorkerOk(c, s, w, s.ws[w])
    ensures ThreadMoves(c, s, s', w)
  {
  }

  lemma ReadMoves(c: Config, s: State, s': State, w: nat)
    requires Inv(c, s) && w in s.ws && s.ws[w].pc.Steal? && StealStep(s, s', w) && s'.ws[w].pc.Zero?
    ensures SharedMoves(c, s, s') && WorkMoves(s, s', w)
  {
  }

  lemma ZeroKeeps(c: Config, s: State, s': State, w: nat)
    requires Inv(c, s) && w in s.ws && s.ws[w].pc.Zero? && StealStep(s, s', w)
    ensures Inv(c, s')
  {
    assert WorkerOk(c, s, w, s.ws[w]);
    assert Has(s.ws[w], s.ws[w].pc.e);
    assert !s.ended;
    ZeroMoves(c, s, s', w);
    hide Quiescent, SharedMoves, WorkMoves, WorkerOk, ThreadMoves, Somewhere, Actives, Helpers;
    MovesKeep(c, s, s', w);
  }

  lemma ZeroMoves(c: Config, s: State, s': State, w: nat)
    requires Inv(c, s) && w in s.ws && s.ws[w].pc.Zero? && StealStep(s, s', w) && WorkerOk(c, s, w, s.ws[w])
    ensures SharedMoves(c, s, s') && WorkMoves(s, s', w) && ThreadMoves(c, s, s', w)
  {
    var p := s.ws[w].pc.p;
    forall e | e != 0 && e in s.stack && e != s.stack[p] ensures e in s'.stack {
      var i :| 0 <= i < |s.stack| && s.stack[i] == e;
      assert s'.stack[i] == e;
    }
  }

  lemma KeepKeeps(c: Config, s: State, s': State, w: nat)
    requires Inv(c, s) && w in s.ws && s.ws[w].pc.Keep? && StealStep(s, s', w)
    ensures Inv(c, s')
  {
    assert WorkerOk(c, s, w, s.ws[w]);
    var x, y := s.ws[w], s'.ws[w];
    forall e ensures e in y.local <==> e in x.local || e == x.pc.e {}
    SameWork(c, s, s', w, y);
    hide Quiescent, SharedMoves, WorkMoves, Somewhere, Actives, Helpers;
    MovesKeep(c, s, s', w);
  }

  lemma GiveBackKeeps(c: Config, s: State, s': State, w: nat, n: nat)
    requires Inv(c, s) && w in s.ws && s.ws[w].pc.Local? && GiveBack(c, s, s', w, n)
    ensures Inv(c, s')
  {
    assert WorkerOk(c, s, w, s.ws[w]);
    GiveBackMoves(c, s, s', w, n);
    if s.ended { assert Quiescent(s); NothingToGive(s, s', w); }
    hide Quiescent, SharedMoves, WorkMoves, WorkerOk, ThreadMoves, Somewhere, Actives, Helpers, GiveBack;
    MovesKeep(c, s, s', w);
  }

  lemma GiveBackMoves(c: Config, s: State, s': State, w: nat, n: nat)
    requires Inv(c, s) && w in s.ws && s.ws[w].pc.Local? && GiveBack(c, s, s', w, n) && WorkerOk(c, s, w, s.ws[w])
    ensures SharedMoves(c, s, s') && ThreadMoves(c, s, s', w) && (s'.invalid || WorkMoves(s, s', w))
    ensures n <= |s.ws[w].local| && s'.ws[w].local == s.ws[w].local[n..] && EndOk(s') && s'.ended == s.ended
    ensures s'.stack == s.stack || s'.stack == s.stack + s.ws[w].local[..n]
    ensures s'.ws[w] == s.ws[w].(local := s.ws[w].local[n..])
  {
    var l := s.ws[w].local;
    forall e | e in l ensures e in l[..n] || e in l[n..] {
      var i :| 0 <= i < |l| && l[i] == e;
      assert i < n ==> l[..n][i] == e;
      assert i >= n ==> l[n..][i - n] == e;
    }
    forall e | e in l[..n] ensures e in l {}
    hide Quiescent, Somewhere, Actives, Helpers;
  }

  lemma NothingToGive(s: State, s': State, w: nat)
    requires Quiescent(s) && w in s.ws && w in s'.ws && s'.ws == s.ws[w := s.ws[w].(local := s'.ws[w].local)]
    requires 0 !in s.ws[w].local
    requires exists n: nat ::
      n <= |s.ws[w].local| && s'.ws[w].local == s.ws[w].local[n..] &&
      (s'.stack == s.stack || s'.stack == s.stack + s.ws[w].local[..n])
    ensures Quiescent(s')
  {
    var l := s.ws[w].local;
    if l != [] {
      assert l[0] in l;
      assert Has(s.ws[w], l[0]);
      assert false;
    }
  }

  lemma LocalKeeps(c: Config, s: State, s': State, w: nat)
    requires Inv(c, s) && w in s.ws && s.ws[w].pc.Local? && LocalStep(c, s, s', w)
    ensures Inv(c, s')
  {
    var x := s.ws[w];
    if x.cur != 0 {
      ScanKeeps(c, s, s', w);
    } else if x.local == [] {
      assert WorkerOk(c, s, w, x);
      SameWork(c, s, s', w, s'.ws[w]);
      MovesKeep(c, s, s', w);
    } else if exists n: nat :: GiveBack(c, s, s', w, n) {
      var n: nat :| GiveBack(c, s, s', w, n);
      GiveBackKeeps(c, s, s', w, n);
    } else {
      PopKeeps(c, s, s', w);
    }
  }

  lemma ScanKeeps(c: Config, s: State, s': State, w: nat)
    requires Inv(c, s) && w in s.ws && s.ws[w].pc.Local? && LocalStep(c, s, s', w) && s.ws[w].cur != 0
    ensures Inv(c, s')
  {
    var x := s.ws[w];
    assert WorkerOk(c, s, w, x);
    assert Has(x, x.cur) && !s.ended;
    ScanMoves(c, s, s', w);
    hide Quiescent, SharedMoves, WorkMoves, WorkerOk, ThreadMoves, Somewhere, Actives, Helpers, LocalStep;
    MovesKeep(c, s, s', w);
  }

  lemma ScanMoves(c: Config, s: State, s': State, w: nat)
    requires Inv(c, s) && w in s.ws && s.ws[w].pc.Local? && LocalStep(c, s, s', w) && s.ws[w].cur != 0
    requires WorkerOk(c, s, w, s.ws[w])
    ensures SharedMoves(c, s, s') && ThreadMoves(c, s, s', w) && WorkMoves(s, s', w) && EndOk(s') && s'.ended == s.ended
  {
    hide Quiescent, Somewhere, Actives, Helpers;
    var x := s.ws[w];
    if x.rem == {} {
      ScanEnds(c, s, s', w);
    } else {
      var k :| k in x.rem && s' == s.Put(w, if k in s.marked then x.(rem := x.rem - {k}) else x.(pc := Mark(k)));
      ScanGoesOn(c, s, s', w, k);
    }
  }

  lemma ScanEnds(c: Config, s: State, s': State, w: nat)
    requires Inv(c, s) && w in s.ws && s.ws[w].pc.Local? && s.ws[w].cur != 0 && s.ws[w].rem == {} &&
      WorkerOk(c, s, w, s.ws[w])
    requires s' == s.Put(w, s.ws[w].(cur := 0)).(done := s.done + {s.ws[w].cur})
    ensures SharedMoves(c, s, s') && ThreadMoves(c, s, s', w) && WorkMoves(s, s', w) && EndOk(s') && s'.ended == s.ended
  {
    hide Quiescent, Somewhere, Actives, Helpers;
  }

  lemma ScanGoesOn(c: Config, s: State, s': State, w: nat, k: nat)
    requires Inv(c, s) && w in s.ws && s.ws[w].pc.Local? && s.ws[w].cur != 0 && k in s.ws[w].rem &&
      WorkerOk(c, s, w, s.ws[w])
    requires var x := s.ws[w]; s' == s.Put(w, if k in s.marked then x.(rem := x.rem - {k}) else x.(pc := Mark(k)))
    ensures SharedMoves(c, s, s') && ThreadMoves(c, s, s', w) && WorkMoves(s, s', w) && EndOk(s') && s'.ended == s.ended
  {
    hide Quiescent, Somewhere, Actives, Helpers;
  }

  lemma PopKeeps(c: Config, s: State, s': State, w: nat)
    requires Inv(c, s) && w in s.ws && s.ws[w].pc.Local? && s.ws[w].cur == 0 && s.ws[w].local != []
    requires var l := s.ws[w].local; var top := l[|l| - 1];
      s' == s.Put(w, s.ws[w].(local := l[..|l| - 1], cur := top, rem := c.Kids(top)))
    ensures Inv(c, s')
  {
    var x, l := s.ws[w], s.ws[w].local;
    assert WorkerOk(c, s, w, x);
    assert l == l[..|l| - 1] + [l[|l| - 1]];
    forall e ensures e in l <==> e in l[..|l| - 1] || e == l[|l| - 1] {}
    SameWork(c, s, s', w, s'.ws[w]);
    hide Quiescent, SharedMoves, WorkMoves, Somewhere, Actives, Helpers;
    MovesKeep(c, s, s', w);
  }

  lemma MarkKeeps(c: Config, s: State, s': State, w: nat)
    requires Inv(c, s) && w in s.ws && s.ws[w].pc.Mark? && MarkStep(c, s, s', w)
    ensures Inv(c, s')
  {
    var x := s.ws[w];
    assert WorkerOk(c, s, w, x);
    assert Has(x, x.cur) && !s.ended;
    MarkMoves(c, s, s', w);
    hide Quiescent, SharedMoves, WorkMoves, WorkerOk, ThreadMoves, Somewhere, Actives, Helpers, MarkStep;
    MovesKeep(c, s, s', w);
  }

  lemma MarkMoves(c: Config, s: State, s': State, w: nat)
    requires Inv(c, s) && w in s.ws && s.ws[w].pc.Mark? && MarkStep(c, s, s', w) && WorkerOk(c, s, w, s.ws[w])
    ensures SharedMoves(c, s, s') && ThreadMoves(c, s, s', w) && (s'.invalid || WorkMoves(s, s', w)) && EndOk(s') &&
      s'.ended == s.ended
  {
    hide Quiescent, Somewhere, Actives, Helpers;
  }

  lemma NextKeeps(c: Config, s: State, s': State, w: nat)
    requires Inv(c, s) && Next(c, s, s', w)
    ensures Inv(c, s')
  {
    hide Inv;
    match s.ws[w].pc
    case Out => JoinKeeps(c, s, s', w);
    case Finishing => FinishKeeps(c, s, s', w);
    case Local => LocalKeeps(c, s, s', w);
    case Mark(_) => MarkKeeps(c, s, s', w);
    case Steal(_, _) => StealKeeps(c, s, s', w);
    case Zero(_, _, _) => ZeroKeeps(c, s, s', w);
    case Keep(_, _, _) => KeepKeeps(c, s, s', w);
    case Look => LookKeeps(c, s, s', w);
    case Cas(_) => LookKeeps(c, s, s', w);
    case LookTop => LookKeeps(c, s, s', w);
    case Grab => GrabKeeps(c, s, s', w);
    case Asleep => GrabKeeps(c, s, s', w);
  }

  // ---------------------------------------------------------------- whole runs

  lemma InitHolds(c: Config, s: State)
    requires Init(c, s)
    ensures Inv(c, s)
  {
    assert Actives(s) == {0} && Helpers(s) == {0};
    forall e | e in s.owed ensures e in s.done || Somewhere(s, e) {}
  }

  lemma {:induction false} RunKeeps(c: Config, run: seq<State>, acts: seq<nat>, k: nat)
    requires Run(c, run, acts) && k < |run|
    ensures Inv(c, run[k])
  {
    hide Inv, Next, Init;
    if k == 0 {
      InitHolds(c, run[0]);
    } else {
      RunKeeps(c, run, acts, k - 1);
      NextKeeps(c, run[k - 1], run[k], acts[k - 1]);
    }
  }

  /** At all times every place of the stack below GC_first_nonempty has been taken. */
  lemma BelowFirstNonempty(c: Config, run: seq<State>, acts: seq<nat>, k: nat)
    requires Run(c, run, acts) && k < |run|
    ensures run[k].first <= |run[k].stack|
    ensures forall i :: 0 <= i < run[k].first ==> run[k].stack[i] == 0 && i in run[k].stolen
  {
    RunKeeps(c, run, acts, k);
  }

  /** GC_first_nonempty never moves down, and places of the stack are never refilled. */
  lemma FirstRises(c: Config, run: seq<State>, acts: seq<nat>, k: nat)
    requires Run(c, run, acts) && k + 1 < |run|
    ensures run[k].first <= run[k + 1].first && |run[k].stack| <= |run[k + 1].stack|
    ensures forall i :: 0 <= i < |run[k].stack| && run[k].stack[i] == 0 ==> run[k + 1].stack[i] == 0
  {
    RunKeeps(c, run, acts, k);
    hide Init;
    var s, s', w := run[k], run[k + 1], acts[k];
    assert Next(c, s, s', w) && WorkerOk(c, s, w, s.ws[w]);
    hide Inv;
    StepRises(c, s, s', w);
  }

  /** Between stack and stack' places were only emptied, or added at the end. */
  ghost predicate StackRises(stack: seq<nat>, stack': seq<nat>) {
    StackMoves(stack, stack') && forall i :: 0 <= i < |stack| && stack[i] == 0 ==> stack'[i] == 0
  }

  lemma StepRises(c: Config, s: State, s': State, w: nat)
    requires w in s.ws && WorkerOk(c, s, w, s.ws[w]) && Next(c, s, s', w)
    ensures s.first <= s'.first && StackRises(s.stack, s'.stack)
  {
    hide LookStep, LocalStep, StealStep;
    match s.ws[w].pc
    case Out =>
    case Finishing =>
    case Local => LocalRises(c, s, s', w);
    case Mark(_) =>
    case Steal(_, _) => StealRises(s, s', w);
    case Zero(_, _, _) => StealRises(s, s', w);
    case Keep(_, _, _) => StealRises(s, s', w);
    case _ => LookRises(c, s, s', w);
  }

  lemma StealRises(s: State, s': State, w: nat)
    requires w in s.ws && StealStep(s, s', w)
    ensures s.first == s'.first && StackRises(s.stack, s'.stack)
  {
  }

  lemma LookRises(c: Config, s: State, s': State, w: nat)
    requires w in s.ws && WorkerOk(c, s, w, s.ws[w]) && LookStep(s, s', w)
    ensures s.first <= s'.first && s'.stack == s.stack
  {
    hide Evaluate;
    var x := s.ws[w];
    if x.pc.Grab? && |s.stack| <= x.my { EvaluateOnly(s, s', w, s.active - 1); }
    if x.pc.Asleep? { EvaluateOnly(s, s', w, s.active); }
  }

  /** A decision about the end touches neither the stacks nor the marks. */
  lemma EvaluateOnly(s: State, s': State, w: nat, a: nat)
    requires w in s.ws && Evaluate(s, s', w, a)
    ensures s'.stack == s.stack && s'.first == s.first && s'.invalid == s.invalid
    ensures w in s'.ws && s'.ws == s.ws[w := s.ws[w].(pc := s'.ws[w].pc)]
    ensures s'.ws[w].pc in {Asleep, Finishing, Out, Look}
  {
  }

  lemma LocalRises(c: Config, s: State, s': State, w: nat)
    requires w in s.ws && s.ws[w].pc.Local? && LocalStep(c, s, s', w)
    ensures s'.first == s.first && StackRises(s.stack, s'.stack)
  {
  }

  /** Marks and entries are only added. */
  lemma {:induction false} Grows(c: Config, run: seq<State>, acts: seq<nat>, k: nat)
    requires Run(c, run, acts) && k < |run|
    ensures run[0].owed <= run[k].owed && run[0].marked <= run[k].marked
  {
    if k > 0 {
      Grows(c, run, acts, k - 1);
      StepGrows(c, run[k - 1], run[k], acts[k - 1]);
    }
  }

  lemma LocalGrows(c: Config, s: State, s': State, w: nat)
    requires w in s.ws && s.ws[w].pc.Local? && LocalStep(c, s, s', w)
    ensures s.owed <= s'.owed && s.marked <= s'.marked
  {
  }

  lemma StepGrows(c: Config, s: State, s': State, w: nat)
    requires Next(c, s, s', w)
    ensures s.owed <= s'.owed && s.marked <= s'.marked
  {
    match s.ws[w].pc
    case Local => LocalGrows(c, s, s', w);
    case Mark(_) =>
    case Steal(_, _) =>
    case Zero(_, _, _) =>
    case Keep(_, _, _) =>
    case Grab => hide IsActive, Has;
    case Asleep =>
    case _ =>
  }

  // ---------------------------------------------------------------- room on the stacks

  /** No stack is larger than its memory. */
  ghost predicate Fits(c: Config, s: State) {
    && |s.stack| <= c.globalSize
    && forall w :: w in s.ws ==> ThreadFits(c, s.ws[w])
  }

  predicate ThreadFits(c: Config, x: Worker) {
    && |x.local| <= c.localSize
    && (x.pc.Steal? ==> |x.local| <= ENTRIES_TO_GET + 1)
    && (x.pc.Zero? || x.pc.Keep? ==> |x.local| <= ENTRIES_TO_GET)
  }

  /** What thread w has does not fit on the shared stack, or its own stack is full. */
  predicate Full(c: Config, s: State, w: nat) {
    w in s.ws && (|s.stack| + |s.ws[w].local| > c.globalSize || |s.ws[w].local| == c.localSize)
  }

  lemma LookFits(c: Config, s: State, s': State, w: nat)
    requires w in s.ws && LookStep(s, s', w) && s.ws[w].local == []
    ensures |s'.stack| == |s.stack| && s'.invalid == s.invalid && w in s'.ws && s'.ws == s.ws[w := s'.ws[w]]
    ensures s'.ws[w].local == [] && ThreadFits(c, s'.ws[w])
  {
    var x := s.ws[w];
    if x.pc.Grab? && |s.stack| <= x.my { EvaluateOnly(s, s', w, s.active - 1); }
    if x.pc.Asleep? { EvaluateOnly(s, s', w, s.active); }
    hide Evaluate;
  }

  lemma StealFits(c: Config, s: State, s': State, w: nat)
    requires Fits(c, s) && w in s.ws && StealStep(s, s', w) && ENTRIES_TO_GET < c.localSize
    ensures |s'.stack| == |s.stack| && s'.invalid == s.invalid && w in s'.ws && s'.ws == s.ws[w := s'.ws[w]]
    ensures ThreadFits(c, s'.ws[w])
  {
  }

  lemma LocalFits(c: Config, s: State, s': State, w: nat)
    requires Fits(c, s) && w in s.ws && s.ws[w].pc.Local? && LocalStep(c, s, s', w)
    ensures |s'.stack| <= c.globalSize && w in s'.ws && s'.ws == s.ws[w := s'.ws[w]]
    ensures ThreadFits(c, s'.ws[w])
    ensures !s.invalid && s'.invalid ==> Full(c, s, w)
  {
    if n: nat :| GiveBack(c, s, s', w, n) { GiveBackFits(c, s, s', w, n); }
    hide GiveBack, Fits;
    assert ThreadFits(c, s.ws[w]) && |s.stack| <= c.globalSize by { FitsThread(c, s, w); }
  }

  lemma FitsThread(c: Config, s: State, w: nat)
    requires Fits(c, s) && w in s.ws
    ensures ThreadFits(c, s.ws[w]) && |s.stack| <= c.globalSize
  {
  }

  lemma GiveBackFits(c: Config, s: State, s': State, w: nat, n: nat)
    requires Fits(c, s) && w in s.ws && s.ws[w].pc.Local? && GiveBack(c, s, s', w, n)
    ensures |s'.stack| <= c.globalSize && w in s'.ws && s'.ws == s.ws[w := s'.ws[w]]
    ensures ThreadFits(c, s'.ws[w])
    ensures !s.invalid && s'.invalid ==> Full(c, s, w)
  {
  }

  lemma MarkFits(c: Config, s: State, s': State, w: nat)
    requires Fits(c, s) && w in s.ws && s.ws[w].pc.Mark? && MarkStep(c, s, s', w)
    ensures |s'.stack| <= c.globalSize && w in s'.ws && s'.ws == s.ws[w := s'.ws[w]]
    ensures ThreadFits(c, s'.ws[w])
    ensures !s.invalid && s'.invalid ==> Full(c, s, w)
  {
  }

  lemma StepFits(c: Config, s: State, s': State, w: nat)
    requires Inv(c, s) && Fits(c, s) && Next(c, s, s', w)
    ensures Fits(c, s')
    ensures !s.invalid && s'.invalid ==> Full(c, s, w)
  {
    assert WorkerOk(c, s, w, s.ws[w]);
    assert c.Valid();
    hide Inv, WorkerOk, LocalStep, MarkStep, StealStep, LookStep;
    match s.ws[w].pc
    case Out =>
    case Finishing =>
    case Local => LocalFits(c, s, s', w);
    case Mark(_) => MarkFits(c, s, s', w);
    case Steal(_, _) => StealFits(c, s, s', w);
    case Zero(_, _, _) => StealFits(c, s, s', w);
    case Keep(_, _, _) => StealFits(c, s, s', w);
    case _ => LookFits(c, s, s', w);
  }

  /** No stack ever outgrows its memory. */
  lemma {:induction false} StacksFit(c: Config, run: seq<State>, acts: seq<nat>, k: nat)
    requires Run(c, run, acts) && k < |run| && |run[0].stack| <= c.globalSize
    ensures |run[k].stack| <= c.globalSize && forall w :: w in run[k].ws ==> |run[k].ws[w].local| <= c.localSize
    ensures Fits(c, run[k])
  {
    hide Inv, Next;
    if k == 0 {
      assert forall w :: w in run[0].ws ==> run[0].ws[w].local == [] && !run[0].ws[w].pc.Mark?;
    } else {
      StacksFit(c, run, acts, k - 1);
      RunKeeps(c, run, acts, k - 1);
      hide Init, Fits;
      StepFits(c, run[k - 1], run[k], acts[k - 1]);
      assert Fits(c, run[k]);
    }
  }

  /** Work is only dropped, and the mark state only becomes invalid, by a thread that finds a stack full. */
  lemma OnlyFullInvalidates(c: Config, run: seq<State>, acts: seq<nat>, k: nat)
    requires Run(c, run, acts) && k + 1 < |run| && |run[0].stack| <= c.globalSize
    requires !run[k].invalid && run[k + 1].invalid
    ensures var s := run[k]; var w := acts[k];
      w in s.ws && (|s.stack| + |s.ws[w].local| > c.globalSize || |s.ws[w].local| == c.localSize)
  {
    hide Inv, Next, Init, Fits;
    StacksFit(c, run, acts, k);
    RunKeeps(c, run, acts, k);
    assert Next(c, run[k], run[k + 1], acts[k]);
    StepFits(c, run[k], run[k + 1], acts[k]);
  }

  lemma {:induction false} NeverInvalid(c: Config, run: seq<State>, acts: seq<nat>, k: nat)
    requires Run(c, run, acts) && k < |run| && |run[0].stack| <= c.globalSize
    requires forall j: nat :: j < k ==> !Full(c, run[j], acts[j])
    ensures !run[k].invalid
  {
    hide Inv, Next, Fits;
    if k > 0 {
      NeverInvalid(c, run, acts, k - 1);
      if run[k].invalid {
        assert !Full(c, run[k - 1], acts[k - 1]);
        OnlyFullInvalidates(c, run, acts, k - 1);
      }
    }
  }

  /** A run in which no acting thread ever finds a stack full ends with closed marks. */
  lemma RoomMeansClosed(c: Config, run: seq<State>, acts: seq<nat>, k: nat)
    requires Run(c, run, acts) && k < |run| && |run[0].stack| <= c.globalSize
    requires forall j: nat :: j < k ==> !Full(c, run[j], acts[j])
    requires 0 in run[k].ws && run[k].ws[0].pc.Finished?
    ensures forall e :: e in run[0].stack || e in run[k].marked ==> c.Kids(e) <= run[k].marked
  {
    hide Inv, Next, Init, Fits;
    NeverInvalid(c, run, acts, k);
    FinishedMeansDone(c, run, acts, k);
  }

  // ---------------------------------------------------------------- progress

  /** A thread that is at work can always go on. */
  lemma ActiveGoesOn(c: Config, s: State, w: nat) returns (s': State)
    requires Inv(c, s) && w in s.ws && IsActive(s.ws[w].pc)
    ensures Next(c, s, s', w) && s' != s
  {
    assert WorkerOk(c, s, w, s.ws[w]) && c.Valid();
    assert w in Actives(s) && w in Helpers(s);
    hide Inv, WorkerOk, LookStep, StealStep, LocalStep, MarkStep;
    match s.ws[w].pc
    case Local => AtWork(c, s, w); s' := LocalGoesOn(c, s, w);
    case Mark(_) => s' := MarkGoesOn(c, s, w);
    case Steal(_, _) => AtWork(c, s, w); s' := StealGoesOn(s, w);
    case Zero(_, _, _) => AtWork(c, s, w); s' := StealGoesOn(s, w);
    case Keep(_, _, _) => s' := StealGoesOn(s, w);
    case _ => s' := LookGoesOn(s, w);
  }

  lemma AtWork(c: Config, s: State, w: nat)
    requires w in s.ws && WorkerOk(c, s, w, s.ws[w])
    ensures 0 !in s.ws[w].local && (s.ws[w].pc.Zero? ==> s.ws[w].pc.p < |s.stack|)
  {
  }

  lemma LookGoesOn(s: State, w: nat) returns (s': State)
    requires w in s.ws && s.active > 0 && s.helpers > 0
    requires s.ws[w].pc.Look? || s.ws[w].pc.Cas? || s.ws[w].pc.LookTop? || s.ws[w].pc.Grab?
    ensures LookStep(s, s', w) && s' != s
  {
    hide Evaluate;
    var x := s.ws[w];
    if x.pc.Grab? && |s.stack| <= x.my {
      s' := Decides(s, w, s.active - 1);
    } else {
      var y := match x.pc
        case Look =>
          if x.my < s.first then x.(pc := LookTop, my := s.first)
          else if s.first < x.my then x.(pc := Cas(s.first)) else x.(pc := LookTop)
        case Cas(_) => x.(pc := LookTop)
        case LookTop => x.(pc := if |s.stack| <= x.my then Grab else Steal(x.my, |s.stack| - 1))
        case Grab => x.(pc := Steal(x.my, |s.stack| - 1));
      s' := s.Put(w, y).(first := if x.pc.Cas? && s.first == x.pc.g then x.my else s.first);
      assert s'.ws[w] == y != s.ws[w];
    }
  }

  lemma StealGoesOn(s: State, w: nat) returns (s': State)
    requires w in s.ws && (s.ws[w].pc.Zero? ==> s.ws[w].pc.p < |s.stack|)
    requires s.ws[w].pc.Steal? || s.ws[w].pc.Zero? || s.ws[w].pc.Keep?
    ensures StealStep(s, s', w) && s' != s
  {
    var x := s.ws[w];
    match x.pc
    case Steal(p, _) => s' := s.Put(w, x.(pc := Local, my := p));
    case Zero(p, high, e) =>
      s' := s.Put(w, x.(pc := Keep(p, high, e))).(stack := s.stack[p := 0], stolen := s.stolen + {p});
    case Keep(p, high, e) => s' := s.Put(w, x.(pc := Steal(p + 1, high), local := x.local + [e]));
    assert s'.ws[w].pc != x.pc;
  }

  lemma MarkGoesOn(c: Config, s: State, w: nat) returns (s': State)
    requires w in s.ws && s.ws[w].pc.Mark? && 0 < c.localSize
    ensures MarkStep(c, s, s', w) && s' != s
  {
    var x, k := s.ws[w], s.ws[w].pc.k;
    var t := s.(marked := s.marked + {k}, owed := s.owed + {k});
    var y := x.(pc := Local, rem := x.rem - {k});
    if |x.local| < c.localSize {
      s' := t.Put(w, y.(local := x.local + [k]));
    } else {
      s' := t.Put(w, y.(local := x.local[..0] + [k])).(invalid := true);
    }
    assert s'.ws[w].pc != x.pc;
  }

  lemma LocalGoesOn(c: Config, s: State, w: nat) returns (s': State)
    requires w in s.ws && s.ws[w].pc.Local? && 0 !in s.ws[w].local
    ensures LocalStep(c, s, s', w) && s' != s
  {
    var x := s.ws[w];
    if x.cur != 0 {
      if x.rem == {} {
        s' := s.Put(w, x.(cur := 0)).(done := s.done + {x.cur});
      } else {
        var k :| k in x.rem;
        s' := s.Put(w, if k in s.marked then x.(rem := x.rem - {k}) else x.(pc := Mark(k)));
      }
    } else if x.local == [] {
      s' := s.Put(w, x.(pc := Look));
    } else {
      var top := x.local[|x.local| - 1];
      s' := s.Put(w, x.(local := x.local[..|x.local| - 1], cur := top, rem := c.Kids(top)));
    }
    assert s'.ws[w] != s.ws[w];
  }

  lemma Decides(s: State, w: nat, a: nat) returns (s': State)
    requires w in s.ws && s.helpers > 0 && (s.ws[w].pc.Asleep? ==> a == 0)
    requires s.ws[w].pc.Grab? || s.ws[w].pc.Asleep?
    ensures Evaluate(s, s', w, a) && s' != s
  {
    var x := s.ws[w];
    if a > 0 && s.first >= |s.stack| {
      s' := s.Put(w, x.(pc := Asleep)).(active := a);
    } else if s.first >= |s.stack| {
      s' := s.Put(w, x.(pc := if w == 0 then Finishing else Out))
        .(active := a, helpers := s.helpers - 1, wanted := s.wanted && w != 0, ended := true);
    } else {
      s' := s.Put(w, x.(pc := Look)).(active := a + 1);
    }
    assert s'.ws[w] != s.ws[w];
  }

  /** Marking never gets stuck: until it is over, some thread can take a step that changes something. */
  lemma NeverStuck(c: Config, run: seq<State>, acts: seq<nat>, k: nat)
    requires Run(c, run, acts) && k < |run| && 0 in run[k].ws && !run[k].ws[0].pc.Finished?
    ensures exists w, s' :: Next(c, run[k], s', w) && s' != run[k]
  {
    RunKeeps(c, run, acts, k);
    hide Run;
    var w, s' := SomeoneGoesOn(c, run[k]);
    assert Next(c, run[k], s', w);
  }

  lemma SomeoneGoesOn(c: Config, s: State) returns (w: nat, s': State)
    requires Inv(c, s) && !s.ws[0].pc.Finished?
    ensures Next(c, s, s', w) && s' != s
  {
    assert WorkerOk(c, s, 0, s.ws[0]);
    if s.active > 0 {
      assert Actives(s) != {};
      w :| w in Actives(s);
      s' := ActiveGoesOn(c, s, w);
    } else {
      assert Actives(s) == {};
      if s.ws[0].pc.Finishing? && s.helpers == 0 {
        w, s' := 0, s.Put(0, s.ws[0].(pc := Finished));
        assert s'.ws[0] != s.ws[0];
      } else {
        if !s.ws[0].pc.Finishing? { assert 0 in Helpers(s); }
        assert Helpers(s) != {};
        w :| w in Helpers(s);
        assert w !in Actives(s);
        s' := Decides(s, w, 0);
      }
    }
  }

  // ---------------------------------------------------------------- the end of marking

  /** When parallel marking is over, every entry of the stack has been stolen, no thread holds
      any, and unless the mark state has become invalid everything that the initial entries and
      the marked objects lead to is marked. The counters are ready for the next time. */
  lemma FinishedMeansDone(c: Config, run: seq<State>, acts: seq<nat>, k: nat)
    requires Run(c, run, acts) && k < |run| && 0 in run[k].ws && run[k].ws[0].pc.Finished?
    ensures var s := run[k];
      && (forall i :: 0 <= i < |s.stack| ==> s.stack[i] == 0 && i in s.stolen)
      && (forall w :: w in s.ws ==> s.ws[w].local == [] && s.ws[w].cur == 0 && (w == 0 || s.ws[w].pc.Out?))
      && s.active == 0 && s.helpers == 0 && !s.wanted
      && (!s.invalid ==> (forall e :: e in run[0].stack || e in s.marked ==> c.Kids(e) <= s.marked))
  {
    RunKeeps(c, run, acts, k);
    Grows(c, run, acts, k);
    var s := run[k];
    NobodyLeft(c, s);
    forall e | (e in run[0].stack || e in s.marked) && !s.invalid ensures c.Kids(e) <= s.marked {
      assert e in s.owed;
      assert !Somewhere(s, e);
    }
  }

  lemma NobodyLeft(c: Config, s: State)
    requires Inv(c, s) && s.ws[0].pc.Finished?
    ensures s.active == 0
    ensures forall w :: w in s.ws ==> s.ws[w].local == [] && s.ws[w].cur == 0 && (w == 0 || s.ws[w].pc.Out?)
  {
    assert Helpers(s) == {};
    forall w | w in s.ws ensures s.ws[w].local == [] && s.ws[w].cur == 0 && (w == 0 || s.ws[w].pc.Out?) {
      assert WorkerOk(c, s, w, s.ws[w]);
      assert w !in Helpers(s);
    }
    assert Actives(s) == {};
  }
}
