/** The cancellation protocol of one `CancelToken`, as an interleaved step machine.

Any number of cancellers, any number of query sessions and the re-interrupter threads share two
flags (`cancelled`, `inExecute`) and a mutex-held slot. Every atomic operation of the source is one
step here: a load, a store, a swap, taking the mutex, raising an interrupt, releasing the mutex.
A session follows the shape `attach; execute_guarded; detach; is_cancelled` of the reads at open,
the identity scan and the index build. DuckDB is the environment: it may clear its interrupt flag at
any moment, a running query may poll the flag, return or unwind at any moment, and the OS may refuse
the re-interrupter thread. */
module CancelProtocol {
  import opened Options

  type Tid = nat
  type Conn = nat

  datatype Thread = CancelThread(tid: Tid) | SessionThread(sid: Tid) | ReintThread(rid: nat)

  /** Where one call of `cancel_inner` stands; `already` is what its swap returned. */
  datatype CancelPc =
    | WantsLock(already: bool)
    | HasLock(already: bool)          // about to read the slot and interrupt
    | Unlocks(already: bool)
    | Looks(already: bool)            // about to evaluate `!already && in_execute`
    | Spawns(already: bool)           // read `in_execute` as true
    | Returned(already: bool)

  datatype ReintPc = Sleeps | Tests | Matches | Releases | Leaves | Gone

  datatype Ret = RetOk | RetErr
  datatype Guarded = GuardedOk | GuardedErr | GuardedCancelled
  datatype Outcome = OutOk | OutErr | OutCancelled

  /** Where one session stands; `c` is the connection it leased. */
  datatype SessionPc =
    | AttachLock(c: Conn)
    | AttachTest(c: Conn)             // mutex held from here
    | AttachRefuse(c: Conn)
    | AttachLoad(c: Conn)
    | AttachPoke(c: Conn)
    | AttachStore(c: Conn)
    | AttachUnlock(c: Conn)           // slot bound from here, mutex released by this step
    | GuardOpen(c: Conn)
    | GuardLoad(c: Conn)              // window open from here
    | Running(c: Conn)
    | Closing(c: Conn, ret: Ret)
    | ClosingCancelled(c: Conn)
    | Unwinding(c: Conn)
    | PostRead(c: Conn, ret: Ret)     // window closed
    | DetachLock(c: Conn, g: Guarded, readAt: nat)
    | DetachStore(c: Conn, g: Guarded, readAt: nat)
    | DetachUnlock(c: Conn, g: Guarded, readAt: nat)
    | FinalLoad(c: Conn, g: Guarded, readAt: nat)
    | Finished(c: Conn, g: Guarded, readAt: nat, out: Outcome, finalAt: nat)
    | AttachRefused(c: Conn)
    | Unwound(c: Conn)                // a panic left the closure; nobody detaches

  /** What the threads share. The last five fields record the past; no thread reads them. */
  datatype Shared = Shared(
    cancelled: bool,
    inExecute: bool,
    slot: Option<Conn>,
    lock: Option<Thread>,
    raised: set<Conn>,                // connections whose DuckDB interrupt flag is up
    spawns: nat,                      // re-interrupters started so far
    refused: bool,                    // the OS refused the thread
    reintLeft: bool,                  // a re-interrupter decided to leave its loop
    binder: Option<Tid>,              // which session bound the slot
    first: Option<Tid>,               // the false-to-true call, while it is still in progress
    firstSwap: Option<nat>,           // when the flag went up
    now: nat)

  datatype State = State(
    sh: Shared,
    cancellers: map<Tid, CancelPc>,
    sessions: map<Tid, SessionPc>,
    reints: map<nat, ReintPc>)

  datatype QueryEvent = Return(ret: Ret) | Panic | Poll

  datatype Action =
    | Call(t: Tid)                        // enter `cancel`: the swap
    | Canceller(t: Tid, granted: bool)    // its next step; `granted` is the OS's answer to a spawn
    | Begin(e: Tid, c: Conn)              // lease a free connection and enter `attach`
    | Session(e: Tid)                     // a session's next step outside the closure
    | Query(e: Tid, q: QueryEvent)        // what the closure does
    | Reint(r: nat)
    | Clear(c: Conn)                      // DuckDB clears its own flag

  const INITIAL := State(
    Shared(false, false, None, None, {}, 0, false, false, None, None, None, 0), map[], map[], map[])

  predicate CancelHolds(p: CancelPc) { p.HasLock? || p.Unlocks? }

  predicate SessionHolds(p: SessionPc) {
    p.AttachTest? || p.AttachRefuse? || p.AttachLoad? || p.AttachPoke? || p.AttachStore? ||
    p.AttachUnlock? || p.DetachStore? || p.DetachUnlock?
  }

  predicate ReintHolds(p: ReintPc) { p.Tests? || p.Matches? || p.Releases? || p.Leaves? }

  /** The slot names this session's connection. */
  predicate Bound(p: SessionPc) {
    p.AttachUnlock? || p.GuardOpen? || InWindow(p) || p.PostRead? || p.DetachLock? || p.DetachStore? ||
    p.Unwound?
  }

  predicate InWindow(p: SessionPc) {
    p.GuardLoad? || p.Running? || p.Closing? || p.ClosingCancelled? || p.Unwinding?
  }

  /** Holding the mutex over a slot this session saw or left empty. */
  predicate FoundEmpty(p: SessionPc) {
    p.AttachLoad? || p.AttachPoke? || p.AttachStore? || p.DetachUnlock?
  }

  /** The session is still using the connection it leased. */
  predicate Leased(p: SessionPc) { !p.Finished? && !p.AttachRefused? }

  /** From entering `attach` to the store that empties the slot. */
  predicate Attached(p: SessionPc) {
    p.AttachLock? || p.AttachTest? || p.AttachRefuse? || p.AttachLoad? || p.AttachPoke? ||
    p.AttachStore? || Bound(p)
  }

  predicate Alive(p: ReintPc) { !p.Leaves? && !p.Gone? }

  predicate Halted(p: SessionPc) { p.Running? || p.Finished? || p.AttachRefused? || p.Unwound? }

  // ---------------------------------------------------------------- steps of one thread

  function Ticked(sh: Shared): Shared { sh.(now := sh.now + 1) }

  /** `cancelled.swap(true)` by call `t`. */
  function Swapped(sh: Shared, t: Tid): Shared {
    if sh.cancelled then sh else sh.(cancelled := true, first := Some(t), firstSwap := Some(sh.now))
  }

  /** The next step of `cancel_inner` after its swap. */
  function CancelNext(sh: Shared, t: Tid, p: CancelPc, granted: bool): (Shared, CancelPc) {
    match p
    case WantsLock(already) => (sh.(lock := Some(CancelThread(t))), HasLock(already))
    case HasLock(already) =>
      (sh.(raised := if sh.slot.Some? then sh.raised + {sh.slot.value} else sh.raised), Unlocks(already))
    case Unlocks(already) => (sh.(lock := None), Looks(already))
    case Looks(already) =>
      if !already && sh.inExecute then (sh, Spawns(already)) else (CallOver(sh, t), Returned(already))
    case Spawns(already) =>
      (CallOver(if granted then sh.(spawns := sh.spawns + 1) else sh.(refused := true), t), Returned(already))
    case Returned(_) => (sh, p)
  }

  function CallOver(sh: Shared, t: Tid): Shared {
    if sh.first == Some(t) then sh.(first := None) else sh
  }

  /** `attach`, `execute_guarded` around the closure, `detach`, and the last `is_cancelled`. */
  function SessionNext(sh: Shared, e: Tid, p: SessionPc): (Shared, SessionPc) {
    match p
    case AttachLock(c) => (sh.(lock := Some(SessionThread(e))), AttachTest(c))
    case AttachTest(c) => (sh, if sh.slot.Some? then AttachRefuse(c) else AttachLoad(c))
    case AttachRefuse(c) => (sh.(lock := None), AttachRefused(c))
    case AttachLoad(c) => (sh, if sh.cancelled then AttachPoke(c) else AttachStore(c))
    case AttachPoke(c) => (sh.(raised := sh.raised + {c}), AttachStore(c))
    case AttachStore(c) => (sh.(slot := Some(c), binder := Some(e)), AttachUnlock(c))
    case AttachUnlock(c) => (sh.(lock := None), GuardOpen(c))
    case GuardOpen(c) => (sh.(inExecute := true), GuardLoad(c))
    case GuardLoad(c) => (sh, if sh.cancelled then ClosingCancelled(c) else Running(c))
    case Closing(c, ret) => (sh.(inExecute := false), PostRead(c, ret))
    case ClosingCancelled(c) => (sh.(inExecute := false), DetachLock(c, GuardedCancelled, sh.now))
    case Unwinding(c) => (sh.(inExecute := false), Unwound(c))
    case PostRead(c, ret) =>
      (sh, DetachLock(c, if ret.RetErr? then GuardedErr
                         else if sh.cancelled then GuardedCancelled else GuardedOk, sh.now))
    case DetachLock(c, g, at) => (sh.(lock := Some(SessionThread(e))), DetachStore(c, g, at))
    case DetachStore(c, g, at) => (sh.(slot := None, binder := None), DetachUnlock(c, g, at))
    case DetachUnlock(c, g, at) => (sh.(lock := None), FinalLoad(c, g, at))
    case FinalLoad(c, g, at) =>
      (sh, Finished(c, g, at, if sh.cancelled || g.GuardedCancelled? then OutCancelled
                              else if g.GuardedErr? then OutErr else OutOk, sh.now))
    case _ => (sh, p)
  }

  /** Anything the closure can do: DuckDB polling its flag, returning, or unwinding. */
  function QueryNext(sh: Shared, p: SessionPc, q: QueryEvent): SessionPc
    requires p.Running?
  {
    match q
    case Return(ret) => Closing(p.c, ret)
    case Panic => Unwinding(p.c)
    case Poll => if p.c in sh.raised then Closing(p.c, RetErr) else p
  }

  /** One step of the re-interrupter's loop. */
  function ReintNext(sh: Shared, r: nat, p: ReintPc): (Shared, ReintPc) {
    match p
    case Sleeps => (sh.(lock := Some(ReintThread(r))), Tests)
    case Tests => if sh.inExecute then (sh, Matches) else (sh.(reintLeft := true), Leaves)
    case Matches =>
      if sh.slot.Some? then (sh.(raised := sh.raised + {sh.slot.value}), Releases)
      else (sh.(reintLeft := true), Leaves)
    case Releases => (sh.(lock := None), Sleeps)
    case Leaves => (sh.(lock := None), Gone)
    case Gone => (sh, p)
  }

  // ---------------------------------------------------------------- the machine

  predicate Enabled(s: State, a: Action) {
    match a
    case Call(t) => t in s.cancellers ==> s.cancellers[t].Returned?
    case Canceller(t, _) =>
      && t in s.cancellers && !s.cancellers[t].Returned?
      && (s.cancellers[t].WantsLock? ==> s.sh.lock.None?)
    case Begin(e, c) =>
      && (e in s.sessions ==> !Leased(s.sessions[e]))
      && (forall f :: f in s.sessions && Leased(s.sessions[f]) ==> s.sessions[f].c != c)
    case Session(e) =>
      && e in s.sessions && !Halted(s.sessions[e])
      && (s.sessions[e].AttachLock? || s.sessions[e].DetachLock? ==> s.sh.lock.None?)
    case Query(e, _) => e in s.sessions && s.sessions[e].Running?
    case Reint(r) =>
      r in s.reints && !s.reints[r].Gone? && (s.reints[r].Sleeps? ==> s.sh.lock.None?)
    case Clear(_) => true
  }

  function Apply(s: State, a: Action): State
    requires Enabled(s, a)
  {
    var sh := Ticked(s.sh);
    match a
    case Call(t) => s.(sh := Swapped(sh, t), cancellers := s.cancellers[t := WantsLock(sh.cancelled)])
    case Canceller(t, granted) =>
      var (sh', p') := CancelNext(sh, t, s.cancellers[t], granted);
      s.(sh := sh', cancellers := s.cancellers[t := p'],
         reints := if sh'.spawns > sh.spawns then s.reints[sh.spawns := Sleeps] else s.reints)
    case Begin(e, c) => s.(sh := sh, sessions := s.sessions[e := AttachLock(c)])
    case Session(e) =>
      var (sh', p') := SessionNext(sh, e, s.sessions[e]);
      s.(sh := sh', sessions := s.sessions[e := p'])
    case Query(e, q) => s.(sh := sh, sessions := s.sessions[e := QueryNext(sh, s.sessions[e], q)])
    case Reint(r) =>
      var (sh', p') := ReintNext(sh, r, s.reints[r]);
      s.(sh := sh', reints := s.reints[r := p'])
    case Clear(c) => s.(sh := sh.(raised := sh.raised - {c}))
  }

  /** The connection a step interrupts, if it interrupts one. */
  function Interrupts(s: State, a: Action): Option<Conn>
    requires Enabled(s, a)
  {
    match a
    case Canceller(t, _) => if s.cancellers[t].HasLock? then s.sh.slot else None
    case Session(e) => if s.sessions[e].AttachPoke? then Some(s.sessions[e].c) else None
    case Reint(r) => if s.reints[r].Matches? then s.sh.slot else None
    case _ => None
  }

  /** The actions can be taken one after the other from `s`. */
  predicate Runs(s: State, acts: seq<Action>)
    decreases |acts|
  {
    acts == [] || (Enabled(s, acts[0]) && Runs(Apply(s, acts[0]), acts[1..]))
  }

  function After(s: State, acts: seq<Action>): State
    requires Runs(s, acts)
    decreases |acts|
  {
    if acts == [] then s else After(Apply(s, acts[0]), acts[1..])
  }

  // ---------------------------------------------------------------- the invariant, thread by thread

  /** An interrupt is still on its way: the first canceller has not finished its call, or the
      re-interrupter is in its loop, or the OS refused it. */
  predicate Covered(sh: Shared) { sh.first.Some? || (sh.spawns == 1 && !sh.reintLeft) || sh.refused }

  predicate SharedOk(sh: Shared) {
    && sh.slot.Some? == sh.binder.Some?
    && (sh.inExecute ==> sh.binder.Some?)
    && (sh.cancelled <==> sh.firstSwap.Some?)
    && (sh.firstSwap.Some? ==> sh.firstSwap.value <= sh.now)
    && sh.spawns <= 1
    && (sh.first.Some? ==> sh.cancelled && sh.spawns == 0 && !sh.refused)
    && (sh.spawns == 1 || sh.refused ==> sh.cancelled)
    && (sh.spawns == 1 ==> !sh.refused)
    && (sh.reintLeft ==> sh.spawns == 1)
    && (sh.lock.Some? && sh.lock.value.ReintThread? ==> sh.lock.value.rid < sh.spawns)
  }

  predicate CancelOk(sh: Shared, t: Tid, p: CancelPc) {
    && (CancelHolds(p) <==> sh.lock == Some(CancelThread(t)))
    && sh.cancelled
    && (sh.first == Some(t) <==> !p.already && !p.Returned?)
    && (p.Spawns? ==> !p.already)
  }

  predicate ReintOk(sh: Shared, r: nat, p: ReintPc) {
    && (ReintHolds(p) <==> sh.lock == Some(ReintThread(r)))
    && r < sh.spawns
    && (sh.reintLeft <==> !Alive(p))
  }

  predicate SessionOk(sh: Shared, e: Tid, p: SessionPc) { SessionFits(sh, e, p) && ResultOk(sh, p) }

  predicate SessionFits(sh: Shared, e: Tid, p: SessionPc) {
    && (SessionHolds(p) <==> sh.lock == Some(SessionThread(e)))
    && (Bound(p) <==> sh.binder == Some(e))
    && (Bound(p) ==> sh.slot == Some(p.c) && (InWindow(p) <==> sh.inExecute))
    && (FoundEmpty(p) ==> sh.slot.None?)
    && (p.Running? && sh.cancelled ==> Covered(sh))
    && (p.ClosingCancelled? ==> sh.cancelled)
  }

  /** What the recorded instants say about results. */
  predicate ResultOk(sh: Shared, p: SessionPc) {
    && (p.DetachLock? || p.DetachStore? || p.DetachUnlock? || p.FinalLoad? || p.Finished? ==>
          && p.readAt <= sh.now
          && (p.g.GuardedOk? ==> sh.firstSwap.None? || p.readAt < sh.firstSwap.value)
          && (p.g.GuardedCancelled? ==> sh.firstSwap.Some? && sh.firstSwap.value < p.readAt))
    && (p.Finished? ==>
          && p.readAt < p.finalAt <= sh.now
          && (p.out.OutCancelled? <==> sh.firstSwap.Some? && sh.firstSwap.value < p.finalAt)
          && (p.out.OutOk? ==> p.g.GuardedOk?)
          && (p.out.OutErr? ==> p.g.GuardedErr?))
  }

  ghost predicate Present(s: State) {
    && (s.sh.binder.Some? ==> s.sh.binder.value in s.sessions)
    && (s.sh.first.Some? ==> s.sh.first.value in s.cancellers)
    && (forall r: nat :: r < s.sh.spawns ==> r in s.reints)
    && (s.sh.lock.Some? ==>
          match s.sh.lock.value
          case CancelThread(t) => t in s.cancellers
          case SessionThread(e) => e in s.sessions
          case ReintThread(r) => r in s.reints)
  }

  /** No two sessions hold one connection. */
  ghost predicate Exclusive(s: State) {
    forall e, f ::
      (e in s.sessions && f in s.sessions && e != f && Leased(s.sessions[e]) && Leased(s.sessions[f]))
      ==> s.sessions[e].c != s.sessions[f].c
  }

  ghost predicate ThreadsOk(s: State) {
    && SharedOk(s.sh)
    && (forall t :: t in s.cancellers ==> CancelOk(s.sh, t, s.cancellers[t]))
    && (forall e :: e in s.sessions ==> SessionOk(s.sh, e, s.sessions[e]))
    && (forall r :: r in s.reints ==> ReintOk(s.sh, r, s.reints[r]))
  }

  ghost predicate Inv(s: State) { ThreadsOk(s) && Present(s) && Exclusive(s) }

  /** What a step by thread `me` may do to the fields that name other threads. */
  predicate Touches(sh: Shared, sh': Shared, me: Thread) {
    && (sh'.lock == sh.lock || sh'.lock == None || sh'.lock == Some(me))
    && (sh'.binder == sh.binder || sh'.binder == None || (me.SessionThread? && sh'.binder == Some(me.sid)))
    && (sh'.first == sh.first || sh'.first == None)
    && (sh'.spawns == sh.spawns || (me.CancelThread? && sh'.spawns == sh.spawns + 1))
  }

  // Whatever held of the other threads still holds once the shared part goes to `sh'`.

  ghost predicate SparesSessions(sh: Shared, sh': Shared, me: Thread) {
    forall f, q :: SessionThread(f) != me && SessionOk(sh, f, q) ==> SessionOk(sh', f, q)
  }

  ghost predicate SparesCancels(sh: Shared, sh': Shared, me: Thread) {
    forall t, q :: CancelThread(t) != me && CancelOk(sh, t, q) ==> CancelOk(sh', t, q)
  }

  ghost predicate SparesReints(sh: Shared, sh': Shared, me: Thread) {
    forall r, q :: ReintThread(r) != me && ReintOk(sh, r, q) ==> ReintOk(sh', r, q)
  }

  ghost predicate Spares(sh: Shared, sh': Shared, me: Thread) {
    SparesSessions(sh, sh', me) && SparesCancels(sh, sh', me) && SparesReints(sh, sh', me)
  }

  // ---------------------------------------------------------------- one thread's step, without maps

  predicate SessionReady(sh: Shared, e: Tid, p: SessionPc) {
    SharedOk(sh) && SessionOk(sh, e, p) && !Halted(p) && (p.AttachLock? || p.DetachLock? ==> sh.lock.None?)
  }

  lemma {:induction false} SessionShared(sh: Shared, e: Tid, p: SessionPc)
    requires SessionReady(sh, e, p)
    ensures var n := SessionNext(Ticked(sh), e, p);
            SharedOk(n.0) && Touches(sh, n.0, SessionThread(e)) && n.1.c == p.c && Leased(p)
  {
  }

  lemma {:induction false} AttachFitsNext(sh: Shared, e: Tid, p: SessionPc)
    requires SessionReady(sh, e, p) && Attached(p) && !Bound(p)
    ensures var n := SessionNext(Ticked(sh), e, p); SessionFits(n.0, e, n.1)
  {
  }

  /** Past the closing of the window. */
  predicate Ending(p: SessionPc) {
    p.PostRead? || p.DetachLock? || p.DetachStore? || p.DetachUnlock? || p.FinalLoad?
  }

  lemma {:induction false} GuardFitsNext(sh: Shared, e: Tid, p: SessionPc)
    requires SessionReady(sh, e, p) && Bound(p) && !Ending(p)
    ensures var n := SessionNext(Ticked(sh), e, p); SessionFits(n.0, e, n.1)
  {
  }

  lemma {:induction false} EndingFitsNext(sh: Shared, e: Tid, p: SessionPc)
    requires SessionReady(sh, e, p) && Ending(p)
    ensures var n := SessionNext(Ticked(sh), e, p); SessionFits(n.0, e, n.1)
  {
  }

  lemma {:induction false} SessionResultNext(sh: Shared, e: Tid, p: SessionPc)
    requires SessionReady(sh, e, p)
    ensures var n := SessionNext(Ticked(sh), e, p); ResultOk(n.0, n.1)
  {
  }

  lemma {:induction false} SessionLocal(sh: Shared, e: Tid, p: SessionPc)
    requires SessionReady(sh, e, p)
    ensures var n := SessionNext(Ticked(sh), e, p); SessionOk(n.0, e, n.1)
  {
    if Attached(p) && !Bound(p) {
      AttachFitsNext(sh, e, p);
    } else if Ending(p) {
      EndingFitsNext(sh, e, p);
    } else {
      GuardFitsNext(sh, e, p);
    }
    SessionResultNext(sh, e, p);
  }

  lemma {:induction false} SessionSparesSessions(sh: Shared, e: Tid, p: SessionPc)
    requires SessionReady(sh, e, p)
    ensures SparesSessions(sh, SessionNext(Ticked(sh), e, p).0, SessionThread(e))
  {
  }

  lemma {:induction false} SessionSparesOthers(sh: Shared, e: Tid, p: SessionPc)
    requires SessionReady(sh, e, p)
    ensures SparesCancels(sh, SessionNext(Ticked(sh), e, p).0, SessionThread(e))
    ensures SparesReints(sh, SessionNext(Ticked(sh), e, p).0, SessionThread(e))
  {
  }

  predicate CancelReady(sh: Shared, t: Tid, p: CancelPc) {
    SharedOk(sh) && CancelOk(sh, t, p) && !p.Returned? && (p.WantsLock? ==> sh.lock.None?)
  }

  lemma {:induction false} CancelLocal(sh: Shared, t: Tid, p: CancelPc, granted: bool)
    requires CancelReady(sh, t, p)
    ensures var n := CancelNext(Ticked(sh), t, p, granted);
            && SharedOk(n.0) && CancelOk(n.0, t, n.1) && Touches(sh, n.0, CancelThread(t))
            && (n.0.spawns > sh.spawns ==> ReintOk(n.0, sh.spawns, Sleeps))
  {
  }

  lemma {:induction false} CancelSparesAll(sh: Shared, t: Tid, p: CancelPc, granted: bool)
    requires CancelReady(sh, t, p)
    ensures Spares(sh, CancelNext(Ticked(sh), t, p, granted).0, CancelThread(t))
  {
  }

  predicate ReintReady(sh: Shared, r: nat, p: ReintPc) {
    SharedOk(sh) && ReintOk(sh, r, p) && !p.Gone? && (p.Sleeps? ==> sh.lock.None?)
  }

  lemma {:induction false} ReintLocal(sh: Shared, r: nat, p: ReintPc)
    requires ReintReady(sh, r, p)
    ensures var n := ReintNext(Ticked(sh), r, p);
            SharedOk(n.0) && ReintOk(n.0, r, n.1) && Touches(sh, n.0, ReintThread(r))
  {
  }

  lemma {:induction false} ReintSparesAll(sh: Shared, r: nat, p: ReintPc)
    requires ReintReady(sh, r, p)
    ensures Spares(sh, ReintNext(Ticked(sh), r, p).0, ReintThread(r))
  {
  }

  lemma {:induction false} QueryLocal(sh: Shared, e: Tid, p: SessionPc, q: QueryEvent)
    requires SharedOk(sh) && SessionOk(sh, e, p) && p.Running?
    ensures SessionOk(Ticked(sh), e, QueryNext(Ticked(sh), p, q))
  {
  }

  /** Time, a call's swap and DuckDB's own clearing disturb no thread. */
  lemma {:induction false} EnvironmentSpares(sh: Shared, t: Tid, c: Conn, me: Thread)
    requires SharedOk(sh)
    ensures SharedOk(Ticked(sh)) && Spares(sh, Ticked(sh), me)
    ensures SharedOk(Ticked(sh).(raised := sh.raised - {c})) && Spares(sh, Ticked(sh).(raised := sh.raised - {c}), me)
    ensures SharedOk(Swapped(Ticked(sh), t))
    ensures me == CancelThread(t) && sh.first != Some(t) ==> Spares(sh, Swapped(Ticked(sh), t), me)
  {
  }

  // ---------------------------------------------------------------- the whole state

  /** One session's position and the shared part change together; `e` may be new. */
  lemma {:induction false} SessionMoves(s: State, e: Tid, s': State)
    requires ThreadsOk(s) && e in s'.sessions
    requires s'.cancellers == s.cancellers && s'.reints == s.reints
    requires s'.sessions == s.sessions[e := s'.sessions[e]]
    requires SharedOk(s'.sh) && SessionOk(s'.sh, e, s'.sessions[e]) && Spares(s.sh, s'.sh, SessionThread(e))
    ensures ThreadsOk(s')
  {
  }

  lemma {:induction false} CancellerMoves(s: State, t: Tid, s': State)
    requires ThreadsOk(s) && t in s'.cancellers
    requires s'.cancellers == s.cancellers[t := s'.cancellers[t]] && s'.sessions == s.sessions
    requires s'.reints == if s'.sh.spawns > s.sh.spawns then s.reints[s.sh.spawns := Sleeps] else s.reints
    requires s'.sh.spawns > s.sh.spawns ==> ReintOk(s'.sh, s.sh.spawns, Sleeps)
    requires SharedOk(s'.sh) && CancelOk(s'.sh, t, s'.cancellers[t]) && Spares(s.sh, s'.sh, CancelThread(t))
    ensures ThreadsOk(s')
  {
  }

  lemma {:induction false} ReintMoves(s: State, r: nat, s': State)
    requires ThreadsOk(s) && r in s'.reints
    requires s'.cancellers == s.cancellers && s'.sessions == s.sessions
    requires s'.reints == s.reints[r := s'.reints[r]]
    requires SharedOk(s'.sh) && ReintOk(s'.sh, r, s'.reints[r]) && Spares(s.sh, s'.sh, ReintThread(r))
    ensures ThreadsOk(s')
  {
  }

  lemma {:induction false} StillPresent(s: State, s': State, me: Thread)
    requires Present(s) && Touches(s.sh, s'.sh, me)
    requires s'.cancellers.Keys >= s.cancellers.Keys && s'.sessions.Keys >= s.sessions.Keys
    requires s'.reints.Keys >= s.reints.Keys && (s'.sh.spawns > s.sh.spawns ==> s.sh.spawns in s'.reints)
    requires match me
             case CancelThread(t) => t in s'.cancellers
             case SessionThread(e) => e in s'.sessions
             case ReintThread(r) => r in s'.reints
    ensures Present(s')
  {
  }

  lemma {:induction false} CallKeepsInv(s: State, t: Tid)
    requires Inv(s) && Enabled(s, Call(t))
    ensures Inv(Apply(s, Call(t)))
  {
    var s' := Apply(s, Call(t));
    EnvironmentSpares(s.sh, t, 0, CancelThread(t));
    assert s.sh.first != Some(t);
    CancellerMoves(s, t, s');
  }

  lemma {:induction false} CancellerKeepsInv(s: State, t: Tid, granted: bool)
    requires Inv(s) && Enabled(s, Canceller(t, granted))
    ensures Inv(Apply(s, Canceller(t, granted)))
  {
    var s' := Apply(s, Canceller(t, granted));
    CancelLocal(s.sh, t, s.cancellers[t], granted);
    CancelSparesAll(s.sh, t, s.cancellers[t], granted);
    CancellerMoves(s, t, s');
    StillPresent(s, s', CancelThread(t));
  }

  lemma {:induction false} FreshSession(s: State, e: Tid, c: Conn)
    requires ThreadsOk(s) && Present(s) && (e in s.sessions ==> !Leased(s.sessions[e]))
    ensures SessionOk(Ticked(s.sh), e, AttachLock(c))
  {
    if e in s.sessions {
      assert SessionOk(s.sh, e, s.sessions[e]);
    }
  }

  lemma {:induction false} BeginKeepsInv(s: State, e: Tid, c: Conn)
    requires Inv(s) && Enabled(s, Begin(e, c))
    ensures Inv(Apply(s, Begin(e, c)))
  {
    var s' := Apply(s, Begin(e, c));
    FreshSession(s, e, c);
    EnvironmentSpares(s.sh, 0, 0, SessionThread(e));
    SessionMoves(s, e, s');
    StillPresent(s, s', SessionThread(e));
  }

  lemma {:induction false} SessionKeepsInv(s: State, e: Tid)
    requires Inv(s) && Enabled(s, Session(e))
    ensures Inv(Apply(s, Session(e)))
  {
    var s' := Apply(s, Session(e));
    SessionShared(s.sh, e, s.sessions[e]);
    SessionLocal(s.sh, e, s.sessions[e]);
    SessionSparesSessions(s.sh, e, s.sessions[e]);
    SessionSparesOthers(s.sh, e, s.sessions[e]);
    SessionMoves(s, e, s');
    StillPresent(s, s', SessionThread(e));
  }

  lemma {:induction false} QueryKeepsInv(s: State, e: Tid, q: QueryEvent)
    requires Inv(s) && Enabled(s, Query(e, q))
    ensures Inv(Apply(s, Query(e, q)))
  {
    var s' := Apply(s, Query(e, q));
    QueryLocal(s.sh, e, s.sessions[e], q);
    EnvironmentSpares(s.sh, 0, 0, SessionThread(e));
    SessionMoves(s, e, s');
    StillPresent(s, s', SessionThread(e));
  }

  lemma {:induction false} ReintKeepsInv(s: State, r: nat)
    requires Inv(s) && Enabled(s, Reint(r))
    ensures Inv(Apply(s, Reint(r)))
  {
    var s' := Apply(s, Reint(r));
    ReintLocal(s.sh, r, s.reints[r]);
    ReintSparesAll(s.sh, r, s.reints[r]);
    ReintMoves(s, r, s');
    StillPresent(s, s', ReintThread(r));
  }

  lemma {:induction false} ClearKeepsInv(s: State, c: Conn)
    requires Inv(s)
    ensures Inv(Apply(s, Clear(c)))
  {
    EnvironmentSpares(s.sh, 0, c, CancelThread(0));
    EnvironmentSpares(s.sh, 0, c, SessionThread(0));
  }

  lemma {:induction false} StepKeepsInv(s: State, a: Action)
    requires Inv(s) && Enabled(s, a)
    ensures Inv(Apply(s, a))
  {
    match a
    case Call(t) => CallKeepsInv(s, t);
    case Canceller(t, granted) => CancellerKeepsInv(s, t, granted);
    case Begin(e, c) => BeginKeepsInv(s, e, c);
    case Session(e) => SessionKeepsInv(s, e);
    case Query(e, q) => QueryKeepsInv(s, e, q);
    case Reint(r) => ReintKeepsInv(s, r);
    case Clear(c) => ClearKeepsInv(s, c);
  }

  // ---------------------------------------------------------------- every run

  lemma {:induction false} RunKeepsInv(s: State, acts: seq<Action>)
    requires Inv(s) && Runs(s, acts)
    ensures Inv(After(s, acts))
    decreases |acts|
  {
    if acts != [] {
      StepKeepsInv(s, acts[0]);
      RunKeepsInv(Apply(s, acts[0]), acts[1..]);
    }
  }

  /** Results never lose a cancel and never invent one. A session ends `Cancelled` exactly when the
      flag went up before its last check; the guard says `Ok` only if the flag was still down at its
      read after the closure returned, and `Cancelled` only if it was up. */
  lemma {:induction false} NoCancelIsLost(acts: seq<Action>, e: Tid)
    requires Runs(INITIAL, acts)
    requires e in After(INITIAL, acts).sessions && After(INITIAL, acts).sessions[e].Finished?
    ensures var s := After(INITIAL, acts); var p := s.sessions[e];
            && (p.out.OutCancelled? <==> s.sh.firstSwap.Some? && s.sh.firstSwap.value < p.finalAt)
            && (s.sh.firstSwap.Some? && s.sh.firstSwap.value < p.readAt ==> !p.g.GuardedOk?)
            && (p.g.GuardedCancelled? ==> s.sh.firstSwap.Some? && s.sh.firstSwap.value < p.readAt)
            && (p.out.OutOk? ==> p.g.GuardedOk?)
  {
    RunKeepsInv(INITIAL, acts);
  }

  /** While a closure runs with the flag up, the call that raised the flag has not returned, or the
      one re-interrupter is in its loop and the slot names the running connection, or the OS refused
      the thread. */
  lemma {:induction false} ARunningQueryIsCovered(acts: seq<Action>, e: Tid)
    requires Runs(INITIAL, acts)
    requires e in After(INITIAL, acts).sessions && After(INITIAL, acts).sessions[e].Running?
    requires After(INITIAL, acts).sh.cancelled
    ensures var s := After(INITIAL, acts);
            || (exists t :: t in s.cancellers && !s.cancellers[t].already && !s.cancellers[t].Returned?)
            || (0 in s.reints && Alive(s.reints[0]) && s.sh.slot == Some(s.sessions[e].c))
            || s.sh.refused
  {
    RunKeepsInv(INITIAL, acts);
    var s := After(INITIAL, acts);
    assert SessionOk(s.sh, e, s.sessions[e]);
    if s.sh.first.Some? {
      assert CancelOk(s.sh, s.sh.first.value, s.cancellers[s.sh.first.value]);
    } else if !s.sh.refused {
      assert ReintOk(s.sh, 0, s.reints[0]);
    }
  }

  /** At most one re-interrupter is ever started, and it leaves its loop only when no query that a
      cancel must reach is running. */
  lemma {:induction false} OneReinterrupter(acts: seq<Action>)
    requires Runs(INITIAL, acts)
    ensures var s := After(INITIAL, acts);
            && s.sh.spawns <= 1
            && (forall r :: r in s.reints ==> r == 0)
            && (0 in s.reints && !Alive(s.reints[0]) ==>
                  forall e :: e in s.sessions ==> !s.sessions[e].Running?)
  {
    RunKeepsInv(INITIAL, acts);
    var s := After(INITIAL, acts);
    forall r | r in s.reints
      ensures r == 0
    {
      assert ReintOk(s.sh, r, s.reints[r]);
    }
    forall e | 0 in s.reints && !Alive(s.reints[0]) && e in s.sessions
      ensures !s.sessions[e].Running?
    {
      assert ReintOk(s.sh, 0, s.reints[0]);
      assert SessionOk(s.sh, e, s.sessions[e]);
    }
  }

  /** One token, one live session; and `in_execute` is up exactly while that session's window is
      open, an unwinding closure included. */
  lemma {:induction false} OneSessionBound(acts: seq<Action>)
    requires Runs(INITIAL, acts)
    ensures var s := After(INITIAL, acts);
            && (forall e, f ::
                  (e in s.sessions && f in s.sessions && Bound(s.sessions[e]) && Bound(s.sessions[f]))
                  ==> e == f)
            && (s.sh.inExecute <==> exists e :: e in s.sessions && InWindow(s.sessions[e]))
            && (s.sh.slot.Some? <==> exists e :: e in s.sessions && Bound(s.sessions[e]))
  {
    RunKeepsInv(INITIAL, acts);
    var s := After(INITIAL, acts);
    if s.sh.binder.Some? {
      assert SessionOk(s.sh, s.sh.binder.value, s.sessions[s.sh.binder.value]);
    }
  }

  /** Whoever interrupts a connection, some session is then between entering `attach` with it and
      emptying the slot. */
  lemma {:induction false} InterruptsAreAttached(s: State, a: Action)
    requires Inv(s) && Enabled(s, a) && Interrupts(s, a).Some?
    ensures exists e :: e in s.sessions && Attached(s.sessions[e]) && s.sessions[e].c == Interrupts(s, a).value
  {
    if a.Session? {
      assert Attached(s.sessions[a.e]);
    } else {
      assert SessionOk(s.sh, s.sh.binder.value, s.sessions[s.sh.binder.value]);
    }
  }

  /** A connection whose session is past its `detach`, or that no session is attached with. */
  ghost predicate HandedBack(s: State, c: Conn) {
    || (exists e :: e in s.sessions && s.sessions[e].FinalLoad? && s.sessions[e].c == c)
    || (forall f :: f in s.sessions && s.sessions[f].c == c ==> !Attached(s.sessions[f]))
  }

  lemma {:induction false} HandedBackIsUnattached(s: State, c: Conn, f: Tid)
    requires Exclusive(s) && HandedBack(s, c) && f in s.sessions && s.sessions[f].c == c
    ensures !Attached(s.sessions[f])
  {
  }

  /** Once a session's `detach` has returned, nothing interrupts its connection while it still holds
      the lease, and nothing interrupts it afterwards until another session attaches with it. */
  lemma {:induction false} NoInterruptAfterDetach(acts: seq<Action>, a: Action, c: Conn)
    requires Runs(INITIAL, acts) && Enabled(After(INITIAL, acts), a)
    requires HandedBack(After(INITIAL, acts), c)
    ensures Interrupts(After(INITIAL, acts), a) != Some(c)
  {
    RunKeepsInv(INITIAL, acts);
    var s := After(INITIAL, acts);
    if Interrupts(s, a) == Some(c) {
      InterruptsAreAttached(s, a);
      var f :| f in s.sessions && Attached(s.sessions[f]) && s.sessions[f].c == c;
      HandedBackIsUnattached(s, c, f);
    }
  }

  // ---------------------------------------------------------------- the re-interrupter ends the query

  lemma {:induction false} SessionAfterCancel(sh: Shared, e: Tid, p: SessionPc)
    requires sh.cancelled && !Halted(p)
    ensures SessionNext(sh, e, p).0.cancelled && !SessionNext(sh, e, p).1.Running?
  {
  }

  lemma {:induction false} StepAfterCancel(s: State, a: Action, e: Tid)
    requires Enabled(s, a) && s.sh.cancelled
    ensures Apply(s, a).sh.cancelled
    ensures e in Apply(s, a).sessions && Apply(s, a).sessions[e].Running? ==>
              e in s.sessions && s.sessions[e] == Apply(s, a).sessions[e]
  {
    if a.Session? {
      SessionAfterCancel(Ticked(s.sh), a.e, s.sessions[a.e]);
    }
  }

  /** No closure starts once the flag is up: whatever runs at the end of a run was running at its
      start, on the same connection. */
  lemma {:induction false} NothingStartsAfterCancel(s: State, acts: seq<Action>, e: Tid)
    requires Runs(s, acts) && s.sh.cancelled
    requires e in After(s, acts).sessions && After(s, acts).sessions[e].Running?
    ensures e in s.sessions && s.sessions[e] == After(s, acts).sessions[e]
    decreases |acts|
  {
    if acts != [] {
      StepAfterCancel(s, acts[0], e);
      NothingStartsAfterCancel(Apply(s, acts[0]), acts[1..], e);
    }
  }

  /** A tick: the re-interrupter raises the interrupt of `c`. */
  predicate IsTick(s: State, a: Action, c: Conn)
    requires Enabled(s, a)
  {
    a.Reint? && Interrupts(s, a) == Some(c)
  }

  /** Ticks on `c` that the query of session `e` polls after, counted once each; `armed` says a tick
      has happened that no poll has followed yet. */
  function PolledTicks(s: State, acts: seq<Action>, e: Tid, c: Conn, armed: bool): nat
    requires Runs(s, acts)
    decreases |acts|
  {
    if acts == [] then 0
    else
      var rest := acts[1..];
      var s' := Apply(s, acts[0]);
      if IsTick(s, acts[0], c) then PolledTicks(s', rest, e, c, true)
      else if acts[0] == Query(e, Poll) && armed then 1 + PolledTicks(s', rest, e, c, false)
      else PolledTicks(s', rest, e, c, armed)
  }

  function Clears(acts: seq<Action>, c: Conn): nat {
    if acts == [] then 0 else (if acts[0] == Clear(c) then 1 else 0) + Clears(acts[1..], c)
  }

  /** What one step does to the interrupt flag of a query that outlives it. */
  lemma {:induction false} StepAndFlag(s: State, a: Action, e: Tid, c: Conn)
    requires Enabled(s, a) && e in s.sessions && s.sessions[e] == Running(c)
    requires e in Apply(s, a).sessions && Apply(s, a).sessions[e] == Running(c)
    ensures a == Query(e, Poll) ==> c !in s.sh.raised
    ensures IsTick(s, a, c) ==> c in Apply(s, a).sh.raised && a != Query(e, Poll) && a != Clear(c)
  {
  }

  lemma {:induction false} ThreadsOnlyRaise(
    sh: Shared, t: Tid, p: CancelPc, granted: bool, e: Tid, q: SessionPc, r: nat, x: ReintPc)
    ensures sh.raised <= CancelNext(sh, t, p, granted).0.raised
    ensures sh.raised <= SessionNext(sh, e, q).0.raised
    ensures sh.raised <= ReintNext(sh, r, x).0.raised
  {
  }

  /** Only DuckDB's own clearing lowers an interrupt flag. */
  lemma {:induction false} OnlyClearLowers(s: State, a: Action, c: Conn)
    requires Enabled(s, a) && a != Clear(c) && c in s.sh.raised
    ensures c in Apply(s, a).sh.raised
  {
    var sh := Ticked(s.sh);
    match a
    case Canceller(t, granted) => ThreadsOnlyRaise(sh, t, s.cancellers[t], granted, 0, AttachLock(0), 0, Gone);
    case Session(e) => ThreadsOnlyRaise(sh, 0, Looks(true), false, e, s.sessions[e], 0, Gone);
    case Reint(r) => ThreadsOnlyRaise(sh, 0, Looks(true), false, 0, AttachLock(0), r, s.reints[r]);
    case _ =>
  }

  /** A query outlives a polled tick only if DuckDB cleared its flag in between. */
  lemma {:induction false} SurvivalCostsClears(s: State, acts: seq<Action>, e: Tid, c: Conn, armed: bool)
    requires Runs(s, acts) && s.sh.cancelled
    requires e in After(s, acts).sessions && After(s, acts).sessions[e] == Running(c)
    ensures PolledTicks(s, acts, e, c, armed) <= Clears(acts, c) + (if armed && c !in s.sh.raised then 1 else 0)
    decreases |acts|
  {
    if acts != [] {
      var a, s' := acts[0], Apply(s, acts[0]);
      StepAfterCancel(s, a, e);
      NothingStartsAfterCancel(s', acts[1..], e);
      StepAndFlag(s, a, e, c);
      if a != Clear(c) && c in s.sh.raised {
        OnlyClearLowers(s, a, c);
      }
      var armed' := if IsTick(s, a, c) then true else if a == Query(e, Poll) then false else armed;
      SurvivalCostsClears(s', acts[1..], e, c, armed');
    }
  }

  /** If DuckDB clears its flag at most `k` more times, `k + 1` ticks that the query polls after end
      it. */
  lemma {:induction false} EnoughTicksEndTheQuery(s: State, acts: seq<Action>, e: Tid, c: Conn, k: nat)
    requires Runs(s, acts) && s.sh.cancelled
    requires e in s.sessions && s.sessions[e] == Running(c)
    requires Clears(acts, c) <= k < PolledTicks(s, acts, e, c, false)
    ensures e in After(s, acts).sessions ==> !After(s, acts).sessions[e].Running?
  {
    var s' := After(s, acts);
    if e in s'.sessions && s'.sessions[e].Running? {
      NothingStartsAfterCancel(s, acts, e);
      SurvivalCostsClears(s, acts, e, c, false);
    }
  }

  /** A session the re-interrupter must still reach: running under a raised flag, with the raising
      call over and the thread granted. */
  predicate Awaiting(s: State, e: Tid, c: Conn) {
    && e in s.sessions && s.sessions[e] == Running(c)
    && s.sh.cancelled && s.sh.first.None? && !s.sh.refused
  }

  /** The run takes only steps of threads that already exist and ends in a tick on `c`. */
  predicate EndsInTick(s: State, acts: seq<Action>, c: Conn)
    decreases |acts|
  {
    && acts != [] && Enabled(s, acts[0])
    && (acts[0].Canceller? || acts[0].Session? || acts[0].Reint?)
    && (if |acts| == 1 then IsTick(s, acts[0], c) else EndsInTick(Apply(s, acts[0]), acts[1..], c))
  }

  /** Who moves next when the re-interrupter wants the mutex: its holder, or the thread itself. */
  function Next(s: State): Action {
    if s.sh.lock.None? then Reint(0)
    else match s.sh.lock.value
      case CancelThread(t) => Canceller(t, false)
      case SessionThread(f) => Session(f)
      case ReintThread(r) => Reint(r)
  }

  /** Steps until the tick, an upper bound. */
  function Distance(s: State): nat {
    if s.sh.lock.None? then 3
    else match s.sh.lock.value
      case CancelThread(t) => if t in s.cancellers && s.cancellers[t].HasLock? then 5 else 4
      case SessionThread(f) => if f in s.sessions && s.sessions[f].AttachTest? then 5 else 4
      case ReintThread(r) =>
        if r !in s.reints then 0
        else if s.reints[r].Tests? then 2
        else if s.reints[r].Matches? then 1
        else 4
  }

  lemma {:induction false} NextIsEnabled(s: State, e: Tid, c: Conn)
    requires Inv(s) && Awaiting(s, e, c)
    ensures Enabled(s, Next(s)) && (Next(s).Canceller? || Next(s).Session? || Next(s).Reint?)
    ensures Distance(s) == 1 <==> IsTick(s, Next(s), c)
    ensures 1 <= Distance(s) <= 5
  {
    assert SessionOk(s.sh, e, s.sessions[e]);
    assert ReintOk(s.sh, 0, s.reints[0]);
    if s.sh.lock.Some? {
      match s.sh.lock.value
      case CancelThread(t) => assert CancelOk(s.sh, t, s.cancellers[t]);
      case SessionThread(f) => assert SessionOk(s.sh, f, s.sessions[f]);
      case ReintThread(r) => assert ReintOk(s.sh, r, s.reints[r]);
    }
  }

  lemma {:induction false} NextComesCloser(s: State, e: Tid, c: Conn)
    requires Inv(s) && Awaiting(s, e, c) && Enabled(s, Next(s)) && Distance(s) > 1
    ensures Awaiting(Apply(s, Next(s)), e, c) && Distance(Apply(s, Next(s))) < Distance(s)
  {
    assert SessionOk(s.sh, e, s.sessions[e]);
    assert ReintOk(s.sh, 0, s.reints[0]);
    if s.sh.lock.Some? {
      match s.sh.lock.value
      case CancelThread(t) => assert CancelOk(s.sh, t, s.cancellers[t]);
      case SessionThread(f) => assert SessionOk(s.sh, f, s.sessions[f]);
      case ReintThread(r) => assert ReintOk(s.sh, r, s.reints[r]);
    }
  }

  /** The mutex never keeps the re-interrupter away: from any such state a tick is at most five
      steps off, none of them the query's or DuckDB's. */
  lemma {:induction false} ATickIsAlwaysNear(s: State, e: Tid, c: Conn) returns (acts: seq<Action>)
    requires Inv(s) && Awaiting(s, e, c)
    ensures EndsInTick(s, acts, c) && |acts| <= 5
    ensures |acts| <= Distance(s)
    decreases Distance(s)
  {
    NextIsEnabled(s, e, c);
    if Distance(s) == 1 {
      acts := [Next(s)];
    } else {
      StepKeepsInv(s, Next(s));
      NextComesCloser(s, e, c);
      var rest := ATickIsAlwaysNear(Apply(s, Next(s)), e, c);
      acts := [Next(s)] + rest;
      assert acts[1..] == rest;
    }
  }
}
