/**
  Stopping the world: suspend signals that may be lost and resent, acknowledgements through
  a semaphore, and the suspend handler, as a state machine over the atomic steps of the
  stopping thread and of the handlers.
*/
module StopWorld {

  const RESEND_SIGNALS_LIMIT: nat := 150
  const THREAD_RESTARTED: nat := 1

  /** The registered threads other than the stopping one, in table order; those that are
      finished or blocked; and whether signals are retried. */
  datatype Config = Config(table: seq<nat>, skip: set<nat>, retry: bool) {
    /** The threads to be stopped among the first i of the table. */
    function Targets(i: nat): set<nat>
      requires i <= |table|
    {
      set k | 0 <= k < i && table[k] !in skip :: table[k]
    }

    function All(): set<nat> {
      Targets(|table|)
    }

    ghost predicate Valid() {
      forall j, k :: 0 <= j < k < |table| ==> table[j] != table[k]
    }
  }

  /** Where a thread is: outside the handler; in it with the stop count loaded; with the stack
      pointer stored; with the semaphore posted; waiting; or on its way out. */
  datatype Pc = Away | Entered | Saved | Acked | Stopped | Leaving

  /** savedAt is the stop count for which the stack pointer was stored last. */
  datatype Thread = Thread(pc: Pc, my: nat, last: nat, savedAt: nat, pending: bool, alive: bool)

  datatype Stopper =
    | Idle | Bumped
    | Scan(i: nat, sent: nat, resend: bool)
    | Timed(i: nat)
    | Check
    | Compare(newly: nat)
    | Wait(i: nat)
    | Done | Aborted | Cleared

  datatype State = State(stop: nat, world: bool, sem: nat, live: nat, prev: nat, retries: nat,
                         threads: map<nat, Thread>, at: Stopper, vanished: bool, lost: bool)

  // ---------------------------------------------------------------- steps of a thread

  /** The stop count a restarted thread leaves behind does not tell it apart from a stopped one. */
  function Plain(count: nat): nat {
    count / 2 * 2
  }

  ghost predicate ThreadStep(s: State, s': State, t: nat) {
    t in s.threads && s.threads[t].alive &&
    var th := s.threads[t];
    match th.pc
    case Away =>
      th.pending && s' == s.(threads := s.threads[t := th.(pc := Entered, my := s.stop, pending := false)])
    case Entered =>
      if Plain(th.last) == th.my then s' == s.(threads := s.threads[t := th.(pc := Away)])
      else s' == s.(threads := s.threads[t := th.(pc := Saved, savedAt := th.my)])
    case Saved =>
      s' == s.(sem := s.sem + 1, threads := s.threads[t := th.(pc := Acked)])
    case Acked =>
      s' == s.(threads := s.threads[t := th.(pc := Stopped, last := th.my)])
    case Stopped =>
      // Woken up, for whatever reason.
      if s.world && s.stop == th.my then s' == s
      else s' == s.(sem := s.sem + 1, threads := s.threads[t := th.(pc := Leaving)])
    case Leaving =>
      s' == s.(threads := s.threads[t := th.(pc := Away, last := th.my + THREAD_RESTARTED)])
  }

  // ---------------------------------------------------------------- steps of the world

  ghost predicate LoseSignal(s: State, s': State, t: nat) {
    t in s.threads && s.threads[t].pending && s' == s.(threads := s.threads[t := s.threads[t].(pending := false)])
  }

  /** A thread that is still registered ceases to exist. */
  ghost predicate Vanish(s: State, s': State, t: nat) {
    t in s.threads && s.threads[t].alive
    && s' == s.(vanished := true, threads := s.threads[t := s.threads[t].(alive := false)])
  }

  // ---------------------------------------------------------------- steps of the stopping thread

  /** One thread of the table: skipped, found stopped already, gone, or signalled. */
  ghost predicate ScanStep(c: Config, s: State, s': State) {
    s.at.Scan? && s.at.i < |c.table| && c.table[s.at.i] in s.threads &&
    var t := c.table[s.at.i];
    var th := s.threads[t];
    if t in c.skip || th.last == s.stop || !th.alive then s' == s.(at := s.at.(i := s.at.i + 1))
    else s' == s.(threads := s.threads[t := th.(pending := true)], at := s.at.(i := s.at.i + 1, sent := s.at.sent + 1))
  }

  ghost predicate ScanEnd(c: Config, s: State, s': State) {
    s.at.Scan? && s.at.i == |c.table| &&
    if s.at.resend then s' == s.(at := Compare(s.at.sent))
    else s' == s.(live := s.at.sent, at := if c.retry then Timed(0) else Wait(0))
  }

  ghost predicate TimedStep(s: State, s': State) {
    s.at.Timed? &&
    (|| (s.at.i < s.live && s.sem > 0 && s' == s.(sem := s.sem - 1, at := Timed(s.at.i + 1)))
     // Out of time, or no more to wait for.
     || (s.at.i <= s.live && s' == s.(live := s.live - s.at.i, at := Check)))
  }

  ghost predicate CheckStep(s: State, s': State) {
    s.at.Check? &&
    if s.live == 0 || s.sem == s.live then s' == s.(at := Wait(0))
    else s' == s || s' == s.(at := Scan(0, 0, true))
  }

  ghost predicate CompareStep(s: State, s': State) {
    s.at.Compare? &&
    if s.at.newly == s.prev && s.retries + 1 >= RESEND_SIGNALS_LIMIT then s' == s.(at := Aborted)
    else
      var s1 := s.(at := Check, prev := s.at.newly, retries := if s.at.newly != s.prev then 0 else s.retries + 1);
      s' == if s.at.newly < s.live - s.sem then s1.(live := s.sem + s.at.newly, lost := true) else s1
  }

  ghost predicate WaitStep(s: State, s': State) {
    s.at.Wait? &&
    if s.at.i >= s.live then s' == s.(at := Done)
    else s' == s || (s.sem > 0 && s' == s.(sem := s.sem - 1, at := Wait(s.at.i + 1)))
  }

  ghost predicate StopperStep(c: Config, s: State, s': State) {
    match s.at
    case Idle => s' == s.(stop := s.stop + 2, at := Bumped)
    case Bumped => s' == s.(world := true, at := Scan(0, 0, false))
    case Scan(_, _, _) => ScanStep(c, s, s') || ScanEnd(c, s, s')
    case Timed(_) => TimedStep(s, s')
    case Check => CheckStep(s, s')
    case Compare(_) => CompareStep(s, s')
    case Wait(_) => WaitStep(s, s')
    case Done => s' == s.(world := false, at := Cleared)
    case Aborted => false
    case Cleared => false
  }

  datatype Action = Stop | OfThread(t: nat) | Lose(t: nat) | Gone(t: nat)

  ghost predicate Next(c: Config, s: State, s': State, a: Action) {
    match a
    case Stop => StopperStep(c, s, s')
    case OfThread(t) => ThreadStep(s, s', t)
    case Lose(t) => LoseSignal(s, s', t)
    case Gone(t) => Vanish(s, s', t)
  }

  /** No acknowledgement or signal is left over from before. */
  ghost predicate Init(c: Config, s: State) {
    && c.Valid() && (forall k :: 0 <= k < |c.table| ==> c.table[k] in s.threads)
    && s.at == Idle && s.sem == 0 && s.stop % 2 == 0 && s.prev == 0 && s.retries == 0 && !s.vanished && !s.lost
    && forall t :: t in s.threads ==>
        s.threads[t].pc == Away && !s.threads[t].pending && s.threads[t].last <= s.stop + 1
  }

  ghost predicate Run(c: Config, run: seq<State>, acts: seq<Action>) {
    && run != [] && |acts| + 1 == |run| && Init(c, run[0])
    && forall k :: 0 <= k < |acts| ==> Next(c, run[k], run[k + 1], acts[k])
  }

  // ---------------------------------------------------------------- the invariant

  predicate Posted(pc: Pc) {
    pc == Acked || pc == Stopped
  }

  /** The threads of ts that exist and have not acknowledged yet. */
  function Unposted(s: State, ts: set<nat>): set<nat> {
    set t | t in ts && t in s.threads && s.threads[t].alive && !Posted(s.threads[t].pc)
  }

  /** Until the world is allowed to restart: what the fields of a thread say at each point. */
  ghost predicate ThreadOk(c: Config, s: State, t: nat, th: Thread) {
    && (th.pc != Away || th.pending ==> !s.at.Idle? && !s.at.Bumped? && t in c.All())
    && (th.pc != Away ==> th.my == s.stop)
    && th.pc != Leaving
    && (if s.at.Idle? then th.last <= s.stop + 1
        else if th.pc == Stopped then th.last == s.stop else Plain(th.last) != s.stop)
    && (th.pc == Saved || Posted(th.pc) ==> th.savedAt == s.stop)
  }

  /** The acknowledgements still expected cover those to come and those not yet taken; while no
      thread vanishes they are exactly those. */
  ghost predicate Covers(s: State, expected: int, unposted: set<nat>) {
    && expected >= s.sem + |unposted|
    && (!s.vanished ==> expected == s.sem + |unposted|)
  }

  /** Not signalled yet. */
  ghost predicate Untouched(s: State, t: nat) {
    t in s.threads && s.threads[t].pc == Away && !s.threads[t].pending
  }

  ghost predicate CountOk(c: Config, s: State) {
    match s.at
    case Idle => s.sem == 0
    case Bumped => s.sem == 0
    case Scan(i, sent, resend) =>
      i <= |c.table| &&
      (if resend then Covers(s, s.live, Unposted(s, c.All())) && sent >= |Unposted(s, c.Targets(i))|
       else Covers(s, sent, Unposted(s, c.Targets(i)))
            && forall k :: i <= k < |c.table| ==> Untouched(s, c.table[k]))
    case Timed(i) => Covers(s, s.live - i, Unposted(s, c.All()))
    case Check => Covers(s, s.live, Unposted(s, c.All()))
    case Compare(newly) => Covers(s, s.live, Unposted(s, c.All())) && newly >= |Unposted(s, c.All())|
    case Wait(i) => Covers(s, s.live - i, Unposted(s, c.All()))
    case Done => s.sem == 0 && Unposted(s, c.All()) == {}
    case Aborted => true
    case Cleared => true
  }

  ghost predicate Inv(c: Config, s: State) {
    && c.Valid() && (forall k :: 0 <= k < |c.table| ==> c.table[k] in s.threads)
    && s.stop % 2 == 0 && (s.at.Cleared? ==> !s.world)
    && (!s.at.Cleared? ==>
        && (forall t :: t in s.threads ==> ThreadOk(c, s, t, s.threads[t]))
        && CountOk(c, s))
    && (!s.at.Idle? && !s.at.Bumped? && !s.at.Cleared? ==> s.world)
    && (s.lost ==> s.vanished)
  }

  // ---------------------------------------------------------------- every step keeps it

  lemma UnpostedUpdate(s: State, s': State, t: nat, ts: set<nat>)
    requires t in s.threads && t in s'.threads && s'.threads == s.threads[t := s'.threads[t]]
    ensures s'.threads[t].alive == s.threads[t].alive && Posted(s'.threads[t].pc) == Posted(s.threads[t].pc) ==>
      Unposted(s', ts) == Unposted(s, ts)
    ensures (s.threads[t].alive && !Posted(s.threads[t].pc)) && !(s'.threads[t].alive && !Posted(s'.threads[t].pc)) ==>
      Unposted(s', ts) == Unposted(s, ts) - {t}
  {
  }

  lemma TargetsStep(c: Config, i: nat)
    requires i < |c.table|
    ensures c.Targets(i + 1) == c.Targets(i) + (if c.table[i] in c.skip then {} else {c.table[i]})
    ensures c.Valid() ==> c.table[i] !in c.Targets(i)
  {
  }

  lemma TargetsGrow(c: Config, i: nat)
    requires i <= |c.table|
    ensures c.Targets(i) <= c.All()
  {
  }

  lemma FewerCovers(s: State, s': State, expected: int, u: set<nat>, u': set<nat>, t: nat)
    requires Covers(s, expected, u) && u' == u - {t}
    requires (t in u && s'.sem == s.sem + 1 && s'.vanished == s.vanished) || (s'.vanished && s'.sem == s.sem)
    ensures Covers(s', expected, u')
  {
  }

  lemma FewerElements(u: set<nat>, u': set<nat>, t: nat)
    requires u' == u - {t}
    ensures |u'| <= |u|
  {
  }

  /** Where acknowledgements are counted: over all targets, or those scanned so far. */
  function Counted(c: Config, at: Stopper): set<nat> {
    if at.Scan? && !at.resend && at.i <= |c.table| then c.Targets(at.i) else c.All()
  }

  /** A step that changes one thread without changing who has acknowledged. */
  lemma QuietStep(c: Config, s: State, s': State, t: nat, th: Thread)
    requires Inv(c, s) && !s.at.Cleared? && t in s.threads && s' == s.(threads := s.threads[t := th])
    requires th.alive == s.threads[t].alive && Posted(th.pc) == Posted(s.threads[t].pc)
    requires ThreadOk(c, s, t, th)
    requires s.threads[t].pc != Away || s.threads[t].pending || Untouched(s', t)
    ensures Inv(c, s')
  {
    UnpostedUpdate(s, s', t, c.All());
    if s.at.Scan? {
      UnpostedUpdate(s, s', t, c.Targets(s.at.i));
    }
  }

  /** A thread that is no longer Away is among the threads counted so far. */
  lemma InCounted(c: Config, s: State, t: nat)
    requires Inv(c, s) && !s.at.Cleared? && t in s.threads && s.threads[t].pc != Away
    ensures t in Counted(c, s.at)
  {
    if s.at.Scan? && !s.at.resend {
      var k :| 0 <= k < |c.table| && c.table[k] !in c.skip && c.table[k] == t;
      assert k < s.at.i;
    }
  }

  lemma PostStep(c: Config, s: State, s': State, t: nat)
    requires Inv(c, s) && !s.at.Cleared? && t in s.threads && s.threads[t].pc == Saved && ThreadStep(s, s', t)
    ensures Inv(c, s')
  {
    InCounted(c, s, t);
    PostCount(c, s, s', t);
    hide CountOk;
  }

  lemma PostCount(c: Config, s: State, s': State, t: nat)
    requires Inv(c, s) && !s.at.Cleared? && t in s.threads && s.threads[t].pc == Saved && ThreadStep(s, s', t)
    requires t in Unposted(s, Counted(c, s.at))
    ensures CountOk(c, s')
  {
    var ts := Counted(c, s.at);
    UnpostedUpdate(s, s', t, ts);
    UnpostedUpdate(s, s', t, c.All());
    var u, u' := Unposted(s, ts), Unposted(s', ts);
    hide ThreadOk;
    if s.at.Timed? || s.at.Wait? { FewerCovers(s, s', s.live - s.at.i, u, u', t); }
    if s.at.Check? || s.at.Compare? { FewerCovers(s, s', s.live, u, u', t); }
    if s.at.Scan? {
      UnpostedUpdate(s, s', t, c.Targets(s.at.i));
      FewerElements(Unposted(s, c.Targets(s.at.i)), Unposted(s', c.Targets(s.at.i)), t);
      FewerCovers(s, s', if s.at.resend then s.live else s.at.sent, u, u', t);
    }
  }

  lemma VanishStep(c: Config, s: State, s': State, t: nat)
    requires Inv(c, s) && Vanish(s, s', t)
    ensures Inv(c, s')
  {
    if !s.at.Cleared? {
      var ts := Counted(c, s.at);
      UnpostedLoses(s, s', t, ts);
      UnpostedLoses(s, s', t, c.All());
      if s.at.Scan? { UnpostedLoses(s, s', t, c.Targets(s.at.i)); }
    }
  }

  lemma UnpostedLoses(s: State, s': State, t: nat, ts: set<nat>)
    requires Vanish(s, s', t)
    ensures Unposted(s', ts) <= Unposted(s, ts) && |Unposted(s', ts)| <= |Unposted(s, ts)|
  {
    assert Unposted(s', ts) == Unposted(s, ts) - {t};
  }

  lemma ThreadStepKeeps(c: Config, s: State, s': State, t: nat)
    requires Inv(c, s) && ThreadStep(s, s', t)
    ensures Inv(c, s')
  {
    if !s.at.Cleared? {
      assert ThreadOk(c, s, t, s.threads[t]);
      if s.threads[t].pc == Saved {
        PostStep(c, s, s', t);
      } else if s' != s {
        QuietStep(c, s, s', t, s'.threads[t]);
      }
    }
  }

  lemma LoseKeeps(c: Config, s: State, s': State, t: nat)
    requires Inv(c, s) && LoseSignal(s, s', t)
    ensures Inv(c, s')
  {
    if !s.at.Cleared? {
      assert ThreadOk(c, s, t, s.threads[t]);
      QuietStep(c, s, s', t, s'.threads[t]);
    }
  }

  /** A thread that gets no signal adds nothing to the acknowledgements expected. */
  lemma ScanSkip(c: Config, s: State, s': State)
    requires Inv(c, s) && ScanStep(c, s, s')
    requires c.table[s.at.i] in c.skip || s.threads[c.table[s.at.i]].last == s.stop || !s.threads[c.table[s.at.i]].alive
    ensures Inv(c, s')
  {
    var i, t := s.at.i, c.table[s.at.i];
    TargetsStep(c, i);
    assert ThreadOk(c, s, t, s.threads[t]);
    assert Unposted(s', c.Targets(i + 1)) == Unposted(s, c.Targets(i));
  }

  /** One that gets a signal counts as unacknowledged, or has acknowledged just now. */
  lemma ScanSignal(c: Config, s: State, s': State)
    requires Inv(c, s) && ScanStep(c, s, s')
    requires !(c.table[s.at.i] in c.skip || s.threads[c.table[s.at.i]].last == s.stop ||
      !s.threads[c.table[s.at.i]].alive)
    ensures Inv(c, s')
  {
    TargetsStep(c, s.at.i);
    TargetsGrow(c, s.at.i + 1);
    SignalKeepsThreads(c, s, s', c.table[s.at.i]);
    if s.at.resend { SignalAgain(c, s, s'); } else { SignalFirst(c, s, s'); }
  }

  lemma OneSignal(s: State, s': State, t: nat, ts: set<nat>)
    requires t !in ts && t in s.threads && s.threads[t].alive
    requires s'.threads == s.threads[t := s.threads[t].(pending := true)]
    ensures |Unposted(s', ts + {t})| == |Unposted(s, ts)| + (if Posted(s.threads[t].pc) then 0 else 1)
  {
    UnpostedUpdate(s, s', t, ts);
    UnpostedOneMore(s', ts, t);
  }

  lemma SignalFirst(c: Config, s: State, s': State)
    requires Inv(c, s) && ScanStep(c, s, s') && !s.at.resend
    requires !(c.table[s.at.i] in c.skip || s.threads[c.table[s.at.i]].last == s.stop ||
      !s.threads[c.table[s.at.i]].alive)
    ensures CountOk(c, s')
  {
    assert Untouched(s, c.table[s.at.i]);
    TargetsStep(c, s.at.i);
    OneSignal(s, s', c.table[s.at.i], c.Targets(s.at.i));
    StillUntouched(c, s, s');
    assert Covers(s, s.at.sent, Unposted(s, c.Targets(s.at.i)));
    hide Inv, Unposted, Config.Targets, Config.All, Config.Valid, Untouched, ThreadOk;
  }

  lemma SignalAgain(c: Config, s: State, s': State)
    requires Inv(c, s) && ScanStep(c, s, s') && s.at.resend
    requires !(c.table[s.at.i] in c.skip || s.threads[c.table[s.at.i]].last == s.stop ||
      !s.threads[c.table[s.at.i]].alive)
    ensures CountOk(c, s')
  {
    TargetsStep(c, s.at.i);
    OneSignal(s, s', c.table[s.at.i], c.Targets(s.at.i));
    UnpostedUpdate(s, s', c.table[s.at.i], c.All());
    hide Unposted, Config.Targets, Config.All, Untouched, Config.Valid, ThreadOk;
  }

  lemma StillUntouched(c: Config, s: State, s': State)
    requires c.Valid() && s.at.Scan? && s.at.i < |c.table| && c.table[s.at.i] in s.threads
    requires s'.threads == s.threads[c.table[s.at.i] := s.threads[c.table[s.at.i]].(pending := true)]
    requires forall k :: s.at.i <= k < |c.table| ==> Untouched(s, c.table[k])
    ensures forall k :: s.at.i < k < |c.table| ==> Untouched(s', c.table[k])
  {
    forall k | s.at.i < k < |c.table| ensures Untouched(s', c.table[k]) { assert Untouched(s, c.table[k]); }
  }

  lemma SignalKeepsThreads(c: Config, s: State, s': State, t: nat)
    requires Inv(c, s) && ScanStep(c, s, s') && t == c.table[s.at.i] && t in c.All()
    requires s'.threads == s.threads[t := s.threads[t].(pending := true)]
    ensures forall x :: x in s'.threads ==> ThreadOk(c, s', x, s'.threads[x])
  {
    forall x | x in s'.threads ensures ThreadOk(c, s', x, s'.threads[x]) {
      assert ThreadOk(c, s, x, s.threads[x]);
    }
  }

  lemma UnpostedOneMore(s: State, ts: set<nat>, t: nat)
    requires t !in ts && t in s.threads && s.threads[t].alive
    ensures Unposted(s, ts + {t}) == Unposted(s, ts) + (if Posted(s.threads[t].pc) then {} else {t})
    ensures |Unposted(s, ts + {t})| == |Unposted(s, ts)| + (if Posted(s.threads[t].pc) then 0 else 1)
  {
    assert t !in Unposted(s, ts);
    assert Unposted(s, ts + {t}) == Unposted(s, ts) + (if Posted(s.threads[t].pc) then {} else {t});
  }

  /** A step of the stopping thread that changes none of the threads. */
  lemma LocalStep(c: Config, s: State, s': State)
    requires Inv(c, s) && StopperStep(c, s, s') && !s.at.Idle? && !s.at.Bumped? && !(s.at.Scan? && ScanStep(c, s, s'))
    ensures Inv(c, s')
  {
    assert s'.threads == s.threads;
    assert Unposted(s', c.All()) == Unposted(s, c.All());
    if s.at.Scan? { assert Unposted(s', c.Targets(s.at.i)) == Unposted(s, c.Targets(s.at.i)); }
    if !s'.at.Cleared? {
      forall t | t in s'.threads ensures ThreadOk(c, s', t, s'.threads[t]) { assert ThreadOk(c, s, t, s.threads[t]); }
      LocalCount(c, s, s');
    }
  }

  lemma LocalCount(c: Config, s: State, s': State)
    requires Inv(c, s) && StopperStep(c, s, s') && !s.at.Idle? && !s.at.Bumped? && !(s.at.Scan? && ScanStep(c, s, s'))
    requires !s'.at.Cleared? && s'.threads == s.threads
    ensures CountOk(c, s') && (s'.lost ==> s'.vanished)
  {
    assert c.Targets(0) == {};
    assert Unposted(s', {}) == {};
    assert Unposted(s', c.All()) == Unposted(s, c.All());
    hide ThreadOk, Unposted, Untouched;
  }

  lemma BumpKeeps(c: Config, s: State, s': State)
    requires Inv(c, s) && StopperStep(c, s, s') && s.at.Idle?
    ensures Inv(c, s')
  {
    forall t | t in s'.threads ensures ThreadOk(c, s', t, s'.threads[t]) { assert ThreadOk(c, s, t, s.threads[t]); }
  }

  lemma RaiseKeeps(c: Config, s: State, s': State)
    requires Inv(c, s) && StopperStep(c, s, s') && s.at.Bumped?
    ensures Inv(c, s')
  {
    assert c.Targets(0) == {};
    assert Unposted(s', c.Targets(0)) == {};
    forall t | t in s'.threads ensures ThreadOk(c, s', t, s'.threads[t]) && Untouched(s', t) {
      assert ThreadOk(c, s, t, s.threads[t]);
    }
  }

  lemma StopperKeeps(c: Config, s: State, s': State)
    requires Inv(c, s) && StopperStep(c, s, s')
    ensures Inv(c, s')
  {
    hide Inv;
    if s.at.Idle? {
      BumpKeeps(c, s, s');
    } else if s.at.Bumped? {
      RaiseKeeps(c, s, s');
    } else if s.at.Scan? && ScanStep(c, s, s') {
      if c.table[s.at.i] in c.skip || s.threads[c.table[s.at.i]].last == s.stop || !s.threads[c.table[s.at.i]].alive {
        ScanSkip(c, s, s');
      } else {
        ScanSignal(c, s, s');
      }
    } else {
      LocalStep(c, s, s');
    }
  }

  lemma NextKeeps(c: Config, s: State, s': State, a: Action)
    requires Inv(c, s) && Next(c, s, s', a)
    ensures Inv(c, s')
  {
    hide Inv, StopperStep, ThreadStep, LoseSignal, Vanish;
    match a
    case Stop => StopperKeeps(c, s, s');
    case OfThread(t) => ThreadStepKeeps(c, s, s', t);
    case Lose(t) => LoseKeeps(c, s, s', t);
    case Gone(t) => VanishStep(c, s, s', t);
  }

  // ---------------------------------------------------------------- whole runs

  lemma InitHolds(c: Config, s: State)
    requires Init(c, s)
    ensures Inv(c, s)
  {
  }

  lemma {:induction false} RunKeeps(c: Config, run: seq<State>, acts: seq<Action>, k: nat)
    requires Run(c, run, acts) && k < |run|
    ensures Inv(c, run[k])
  {
    hide Inv, Next, Init;
    if k == 0 {
      InitHolds(c, run[0]);
    } else {
      RunKeeps(c, run, acts, k - 1);
      NextKeeps(c, run[k - 1], run[k], acts[k - 1]);
    }
  }

  /** The thread has stored its stack pointer for this stop and is held in the handler. */
  predicate Held(s: State, t: nat) {
    t in s.threads && Posted(s.threads[t].pc) && s.threads[t].savedAt == s.stop && s.threads[t].my == s.stop
  }

  /** Whenever the world has been stopped, every other registered thread that exists and is
      neither finished nor blocked is held, and no acknowledgement is left over. */
  lemma StoppedMeansHeld(c: Config, run: seq<State>, acts: seq<Action>, k: nat)
    requires Run(c, run, acts) && k < |run| && run[k].at.Done?
    ensures run[k].world && run[k].sem == 0
    ensures forall j :: 0 <= j < |c.table| && c.table[j] !in c.skip ==>
      c.table[j] in run[k].threads && (run[k].threads[c.table[j]].alive ==> Held(run[k], c.table[j]))
  {
    RunKeeps(c, run, acts, k);
    var s := run[k];
    forall j | 0 <= j < |c.table| && c.table[j] !in c.skip && s.threads[c.table[j]].alive ensures Held(s, c.table[j]) {
      assert c.table[j] in c.All();
      assert c.table[j] !in Unposted(s, c.All());
      assert ThreadOk(c, s, c.table[j], s.threads[c.table[j]]);
    }
  }

  /** Threads are only given up for lost if one of them has ceased to exist. */
  lemma NoneLost(c: Config, run: seq<State>, acts: seq<Action>, k: nat)
    requires Run(c, run, acts) && k < |run| && run[k].lost
    ensures run[k].vanished
  {
    RunKeeps(c, run, acts, k);
  }

  /** No step but the stopping thread's own lets a held thread go. */
  lemma HeldStays(c: Config, s: State, s': State, a: Action, t: nat)
    requires Inv(c, s) && Next(c, s, s', a) && s.at.Done? && Held(s, t)
    ensures s'.at.Done? && s'.world ==> Held(s', t)
    ensures !s'.world ==> a.Stop? && s'.at.Cleared?
  {
  }

  /** From the moment the world is stopped until it may restart, a held thread stays held. */
  lemma {:induction false} HeldUntilRestart(c: Config, run: seq<State>, acts: seq<Action>, k: nat, m: nat, t: nat)
    requires Run(c, run, acts) && k <= m < |run| && run[k].at.Done? && Held(run[k], t)
    requires forall i :: k <= i <= m ==> run[i].world
    ensures run[m].at.Done? && Held(run[m], t)
    decreases m
  {
    hide Inv, Next, Held;
    if k < m {
      HeldUntilRestart(c, run, acts, k, m - 1, t);
      RunKeeps(c, run, acts, m - 1);
      StaysDone(c, run[m - 1], run[m], acts[m - 1]);
      HeldStays(c, run[m - 1], run[m], acts[m - 1], t);
    }
  }

  lemma StaysDone(c: Config, s: State, s': State, a: Action)
    requires Next(c, s, s', a) && s.at.Done? && s'.world
    ensures s'.at.Done?
  {
  }

  /** Once every target has acknowledged, the waits still to be made are exactly the
      acknowledgements at hand, so the stopping thread will not hang in the barrier. */
  lemma BarrierIsOpen(c: Config, run: seq<State>, acts: seq<Action>, k: nat)
    requires Run(c, run, acts) && k < |run| && run[k].at.Wait? && !run[k].vanished
    requires forall t :: t in run[k].threads && t in c.All() && run[k].threads[t].alive ==> Posted(run[k].threads[t].pc)
    ensures run[k].live - run[k].at.i == run[k].sem
  {
    RunKeeps(c, run, acts, k);
    assert Unposted(run[k], c.All()) == {};
  }

  // ---------------------------------------------------------------- resending

  /** How many signals were sent again in each round so far. */
  function Rounds(run: seq<State>): seq<nat> {
    if |run| <= 1 then []
    else
      var s, s' := run[|run| - 2], run[|run| - 1];
      Rounds(run[..|run| - 1]) + if s.at.Compare? && !s'.at.Compare? then [s.at.newly] else []
  }

  /** The last n elements of rounds are all v. */
  predicate EndsIn(rounds: seq<nat>, n: nat, v: nat) {
    n <= |rounds| && forall i :: |rounds| - n <= i < |rounds| ==> rounds[i] == v
  }

  /** The retry counter counts rounds that sent as many signals as the round before them. */
  ghost predicate RetriesOk(s: State, rounds: seq<nat>) {
    && s.retries < RESEND_SIGNALS_LIMIT
    && (if s.at.Aborted? then exists v :: EndsIn(rounds, RESEND_SIGNALS_LIMIT, v)
        else EndsIn(rounds, s.retries, s.prev))
  }

  lemma StepRetries(c: Config, s: State, s': State, a: Action, rounds: seq<nat>)
    requires Next(c, s, s', a) && RetriesOk(s, rounds)
    ensures RetriesOk(s', rounds + if s.at.Compare? && !s'.at.Compare? then [s.at.newly] else [])
  {
    if s.at.Compare? && !s'.at.Compare? {
      assert a.Stop? && CompareStep(s, s');
      if s'.at.Aborted? { assert EndsIn(rounds + [s.at.newly], RESEND_SIGNALS_LIMIT, s.at.newly); }
    } else {
      assert rounds + [] == rounds;
      assert s'.retries == s.retries && s'.prev == s.prev && s'.at.Aborted? == s.at.Aborted?;
    }
  }

  /** The stopping thread gives up only after 150 rounds in which it had to send the same number of
      signals again. */
  lemma {:induction false} AbortMeansNoProgress(c: Config, run: seq<State>, acts: seq<Action>, k: nat)
    requires Run(c, run, acts) && k < |run|
    ensures RetriesOk(run[k], Rounds(run[..k + 1]))
    ensures run[k].at.Aborted? ==>
      var rounds := Rounds(run[..k + 1]);
      |rounds| >= 150 && forall i, j :: |rounds| - 150 <= i < j < |rounds| ==> rounds[i] == rounds[j]
  {
    hide Next;
    if k > 0 {
      AbortMeansNoProgress(c, run, acts, k - 1);
      assert run[..k + 1][..k] == run[..k];
      StepRetries(c, run[k - 1], run[k], acts[k - 1], Rounds(run[..k]));
    }
  }

  /** Only threads of the table that exist, are neither finished nor blocked and have not stopped yet get
      a signal. */
  lemma OnlyRunningSignalled(c: Config, run: seq<State>, acts: seq<Action>, k: nat, t: nat)
    requires Run(c, run, acts) && k + 1 < |run| && t in run[k].threads && t in run[k + 1].threads
    requires !run[k].threads[t].pending && run[k + 1].threads[t].pending
    ensures t in c.table && t !in c.skip && run[k].threads[t].alive && run[k].threads[t].last != run[k].stop
    ensures run[k].threads[t].pc != Stopped && run[k].at.Scan?
  {
    RunKeeps(c, run, acts, k);
    var s, s', a := run[k], run[k + 1], acts[k];
    assert Next(c, s, s', a);
    hide Run;
    SignalSent(c, s, s', a, t);
    assert ThreadOk(c, s, t, s.threads[t]);
  }

  lemma SignalSent(c: Config, s: State, s': State, a: Action, t: nat)
    requires Next(c, s, s', a) && t in s.threads && t in s'.threads && !s.threads[t].pending && s'.threads[t].pending
    ensures s.at.Scan? && s.at.i < |c.table| && c.table[s.at.i] == t
    ensures t !in c.skip && s.threads[t].alive && s.threads[t].last != s.stop
  {
  }

  /** With retries, the acknowledgements at hand cover all waits of the barrier. */
  ghost predicate WaitsCovered(s: State) {
    s.at.Wait? ==> s.sem >= s.live - s.at.i
  }

  lemma StepCovers(c: Config, s: State, s': State, a: Action)
    requires c.retry && Inv(c, s) && Next(c, s, s', a) && WaitsCovered(s)
    ensures WaitsCovered(s')
  {
  }

  lemma {:induction false} RunCovers(c: Config, run: seq<State>, acts: seq<Action>, k: nat)
    requires c.retry && Run(c, run, acts) && k < |run|
    ensures WaitsCovered(run[k])
  {
    hide Inv, Next;
    if k > 0 {
      RunCovers(c, run, acts, k - 1);
      RunKeeps(c, run, acts, k - 1);
      StepCovers(c, run[k - 1], run[k], acts[k - 1]);
    }
  }

  /** With retries the stopping thread is never blocked, whatever signals are lost and whichever threads
      vanish: until the world is stopped or it gives up it has a next step that changes something. */
  lemma NeverBlocked(c: Config, run: seq<State>, acts: seq<Action>, k: nat)
    requires c.retry && Run(c, run, acts) && k < |run|
    requires !run[k].at.Done? && !run[k].at.Aborted? && !run[k].at.Cleared?
    ensures exists s' :: StopperStep(c, run[k], s') && s' != run[k]
  {
    RunKeeps(c, run, acts, k);
    RunCovers(c, run, acts, k);
    hide Run;
    var s' := StopperGoesOn(c, run[k]);
  }

  lemma StopperGoesOn(c: Config, s: State) returns (s': State)
    requires Inv(c, s) && WaitsCovered(s) && !s.at.Done? && !s.at.Aborted? && !s.at.Cleared?
    ensures StopperStep(c, s, s') && s' != s
  {
    match s.at
    case Idle => s' := s.(stop := s.stop + 2, at := Bumped);
    case Bumped => s' := s.(world := true, at := Scan(0, 0, false));
    case Scan(i, sent, resend) =>
      if i == |c.table| {
        s' := if resend then s.(at := Compare(sent)) else s.(live := sent, at := if c.retry then Timed(0) else Wait(0));
      } else {
        var t := c.table[i];
        var th := s.threads[t];
        s' := if t in c.skip || th.last == s.stop || !th.alive then s.(at := Scan(i + 1, sent, resend))
              else s.(threads := s.threads[t := th.(pending := true)], at := Scan(i + 1, sent + 1, resend));
      }
    case Timed(i) => s' := s.(live := s.live - i, at := Check);
    case Check => s' := s.(at := if s.live == 0 || s.sem == s.live then Wait(0) else Scan(0, 0, true));
    case Compare(newly) =>
      var s1 := s.(at := Check, prev := newly, retries := if newly != s.prev then 0 else s.retries + 1);
      s' := if newly == s.prev && s.retries + 1 >= RESEND_SIGNALS_LIMIT then s.(at := Aborted)
            else if newly < s.live - s.sem then s1.(live := s.sem + newly, lost := true) else s1;
    case Wait(i) => s' := if i >= s.live then s.(at := Done) else s.(sem := s.sem - 1, at := Wait(i + 1));
    assert s'.at != s.at;
  }

  // ---------------------------------------------------------------- restarting

  /** How far thread t has come on its way out of the handler. */
  function Stage(s: State, t: nat): nat
    requires t in s.threads
  {
    var th := s.threads[t];
    if th.pc == Acked then 0 else if th.pc == Stopped then 1 else if th.pc == Leaving then 2 else 3
  }

  /** The steps thread t takes in acts. */
  function StepsOf(acts: seq<Action>, t: nat): nat {
    if acts == [] then 0
    else StepsOf(acts[..|acts| - 1], t) + if acts[|acts| - 1] == OfThread(t) then 1 else 0
  }

  /** The thread is on its way out, or has left the handler for good. */
  ghost predicate GoesOut(s: State, t: nat) {
    && s.at.Cleared? && !s.world && t in s.threads
    && var th := s.threads[t];
      if Stage(s, t) < 3 then th.my == s.stop
      else th.last == s.stop + THREAD_RESTARTED && (th.pc == Away || (th.pc == Entered && th.my == s.stop))
  }

  lemma StepGoesOut(c: Config, s: State, s': State, a: Action, t: nat)
    requires Next(c, s, s', a) && GoesOut(s, t) && s.stop % 2 == 0
    ensures GoesOut(s', t) && s'.stop == s.stop
    ensures Stage(s', t) >= Stage(s, t)
    ensures a == OfThread(t) && Stage(s, t) < 3 ==> Stage(s', t) == Stage(s, t) + 1
  {
  }

  /** Once the world may restart no held thread stays: three of its own steps bring it out of the
      handler, and no signal left over makes it stop again. */
  lemma {:induction false} ThreadsLeave(c: Config, run: seq<State>, acts: seq<Action>, k: nat, m: nat, t: nat)
    requires Run(c, run, acts) && k <= m < |run| && run[k].at.Cleared? && Held(run[k], t)
    ensures t in run[m].threads && GoesOut(run[m], t)
    ensures StepsOf(acts[k..m], t) >= 3 ==>
      run[m].threads[t].last == run[k].stop + THREAD_RESTARTED && !Posted(run[m].threads[t].pc)
    ensures run[m].stop == run[k].stop
    ensures Stage(run[m], t) >= if StepsOf(acts[k..m], t) < 3 then StepsOf(acts[k..m], t) else 3
    decreases m
  {
    hide Next;
    RunKeeps(c, run, acts, k);
    if k == m {
      assert acts[k..m] == [];
    } else {
      ThreadsLeave(c, run, acts, k, m - 1, t);
      assert acts[k..m][..m - 1 - k] == acts[k..m - 1];
      assert Next(c, run[m - 1], run[m], acts[m - 1]);
      StepGoesOut(c, run[m - 1], run[m], acts[m - 1], t);
      hide Run, GoesOut, Held;
    }
  }

  /** A thread that exists is never kept from going on. */
  lemma CanLeave(s: State, t: nat) returns (s': State)
    requires GoesOut(s, t) && s.threads[t].alive && Stage(s, t) < 3
    ensures ThreadStep(s, s', t) && t in s'.threads && Stage(s', t) == Stage(s, t) + 1
  {
    var th := s.threads[t];
    match th.pc
    case Acked => s' := s.(threads := s.threads[t := th.(pc := Stopped, last := th.my)]);
    case Stopped => s' := s.(sem := s.sem + 1, threads := s.threads[t := th.(pc := Leaving)]);
    case Leaving => s' := s.(threads := s.threads[t := th.(pc := Away, last := th.my + THREAD_RESTARTED)]);
  }
}
