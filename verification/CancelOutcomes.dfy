/** What a session's results say about its closure, who raises interrupts, and that every thread of the
    cancellation protocol ends. */
module CancelOutcomes {
  import opened Options
  import opened CancelProtocol

  // ---------------------------------------------------------------- results and what the closure returned

  /** What the closure of session `e` has returned by the end of a run, read off the run's own events;
      `last` is what it had returned at its start. A poll that finds the interrupt flag up makes the
      query fail. */
  function ClosureReturned(s: State, acts: seq<Action>, e: Tid, last: Option<Ret>): Option<Ret>
    requires Runs(s, acts)
    decreases |acts|
  {
    if acts == [] then last
    else ClosureReturned(Apply(s, acts[0]), acts[1..], e, NowReturned(s, acts[0], e, last))
  }

  function NowReturned(s: State, a: Action, e: Tid, last: Option<Ret>): Option<Ret>
    requires Enabled(s, a)
  {
    match a
    case Begin(f, _) => if f == e then None else last
    case Query(f, Return(ret)) => if f == e then Some(ret) else last
    case Query(f, Poll) => if f == e && s.sessions[e].c in s.sh.raised then Some(RetErr) else last
    case _ => last
  }

  /** Where a session stands agrees with what its closure returned, if it returned at all. */
  predicate AgreesWith(p: SessionPc, last: Option<Ret>) {
    match p
    case Closing(_, ret) => last == Some(ret)
    case PostRead(_, ret) => last == Some(ret)
    case DetachLock(_, g, _) => ResultOf(g, last)
    case DetachStore(_, g, _) => ResultOf(g, last)
    case DetachUnlock(_, g, _) => ResultOf(g, last)
    case FinalLoad(_, g, _) => ResultOf(g, last)
    case Finished(_, g, _, _, _) => ResultOf(g, last)
    case _ => last.None?
  }

  predicate ResultOf(g: Guarded, last: Option<Ret>) {
    && (g.GuardedErr? <==> last == Some(RetErr))
    && (g.GuardedOk? ==> last == Some(RetOk))
  }

  ghost predicate Agrees(s: State, e: Tid, last: Option<Ret>) {
    if e in s.sessions then AgreesWith(s.sessions[e], last) else last.None?
  }

  lemma {:induction false} SessionAgrees(sh: Shared, e: Tid, p: SessionPc, last: Option<Ret>)
    requires AgreesWith(p, last) && !Halted(p)
    ensures AgreesWith(SessionNext(sh, e, p).1, last)
  {
  }

  lemma {:induction false} StepAgrees(s: State, a: Action, e: Tid, last: Option<Ret>)
    requires Enabled(s, a) && Agrees(s, e, last)
    ensures Agrees(Apply(s, a), e, NowReturned(s, a, e, last))
  {
    if a == Session(e) {
      SessionAgrees(Ticked(s.sh), e, s.sessions[e], last);
    }
  }

  lemma {:induction false} RunAgrees(s: State, acts: seq<Action>, e: Tid, last: Option<Ret>)
    requires Runs(s, acts) && Agrees(s, e, last)
    ensures Agrees(After(s, acts), e, ClosureReturned(s, acts, e, last))
    decreases |acts|
  {
    if acts != [] {
      StepAgrees(s, acts[0], e, last);
      RunAgrees(Apply(s, acts[0]), acts[1..], e, NowReturned(s, acts[0], e, last));
    }
  }

  /** The flag was raised before the instant `t`. */
  predicate RaisedBefore(s: State, t: nat) { s.sh.firstSwap.Some? && s.sh.firstSwap.value < t }

  /** In every run, a finished session's results are exactly its closure's, but for a cancel: the guard
      says `Err` exactly when the closure failed, `Ok` exactly when it returned `Ok` and no cancel came
      before the guard's read, and `Cancelled` otherwise; the outcome is the closure's exactly when no
      cancel came before the last check, and `Cancelled` otherwise. */
  lemma {:induction false} ResultsAreTheClosures(acts: seq<Action>, e: Tid)
    requires Runs(INITIAL, acts)
    requires e in After(INITIAL, acts).sessions && After(INITIAL, acts).sessions[e].Finished?
    ensures var s := After(INITIAL, acts); var p := s.sessions[e];
            var ret := ClosureReturned(INITIAL, acts, e, None);
            && (p.g.GuardedErr? <==> ret == Some(RetErr))
            && (p.g.GuardedOk? <==> ret == Some(RetOk) && !RaisedBefore(s, p.readAt))
            && (p.g.GuardedCancelled? <==> ret != Some(RetErr) && RaisedBefore(s, p.readAt))
            && (p.out.OutOk? <==> ret == Some(RetOk) && !RaisedBefore(s, p.finalAt))
            && (p.out.OutErr? <==> ret == Some(RetErr) && !RaisedBefore(s, p.finalAt))
            && (p.out.OutCancelled? <==> RaisedBefore(s, p.finalAt))
            && (ret.None? ==> RaisedBefore(s, p.readAt))
  {
    RunKeepsInv(INITIAL, acts);
    RunAgrees(INITIAL, acts, e, None);
    var s := After(INITIAL, acts);
    assert SessionOk(s.sh, e, s.sessions[e]);
  }

  // ---------------------------------------------------------------- who raises an interrupt, and when

  /** The three places that interrupt do leave the connection's flag up, and nothing else puts one up: a
      canceller holding the mutex over a bound slot, an `attach` that found the token cancelled, and the
      re-interrupter. */
  lemma {:induction false} InterruptsAreRaised(s: State, a: Action, c: Conn)
    requires Enabled(s, a)
    ensures Interrupts(s, a) == Some(c) ==> c in Apply(s, a).sh.raised
    ensures c in Apply(s, a).sh.raised && c !in s.sh.raised ==> Interrupts(s, a) == Some(c)
  {
  }

  /** An `attach` under a raised flag interrupts the connection before it binds it, and every other one
      goes straight on; it is refused exactly when another session is bound. */
  lemma {:induction false} AttachesAsTheTokenStands(s: State, e: Tid)
    requires Inv(s) && Enabled(s, Session(e))
    ensures var p, next := s.sessions[e], Apply(s, Session(e)).sessions[e];
            && (p.AttachLoad? ==> (next.AttachPoke? <==> s.sh.cancelled) && (next.AttachStore? <==> !s.sh.cancelled))
            && (p.AttachPoke? ==> next.AttachStore? && p.c in Apply(s, Session(e)).sh.raised)
            && (p.AttachTest? ==>
                  (next.AttachRefuse? <==> exists f :: f in s.sessions && f != e && Bound(s.sessions[f])))
            && (p.AttachTest? ==> next.AttachRefuse? || next.AttachLoad?)
  {
    assert SessionOk(s.sh, e, s.sessions[e]);
    if s.sh.binder.Some? {
      assert SessionOk(s.sh, s.sh.binder.value, s.sessions[s.sh.binder.value]);
    }
  }

  /** The OS granted every thread it was asked for. */
  predicate AllGranted(acts: seq<Action>) {
    forall i :: 0 <= i < |acts| && acts[i].Canceller? ==> acts[i].granted
  }

  lemma {:induction false} OnlyTheOsRefuses(s: State, a: Action)
    requires Enabled(s, a) && Apply(s, a).sh.refused && !s.sh.refused
    ensures a.Canceller? && !a.granted
  {
  }

  lemma {:induction false} GrantedIsNotRefused(s: State, acts: seq<Action>)
    requires Runs(s, acts) && AllGranted(acts) && !s.sh.refused
    ensures !After(s, acts).sh.refused
    decreases |acts|
  {
    if acts != [] {
      if Apply(s, acts[0]).sh.refused {
        OnlyTheOsRefuses(s, acts[0]);
      }
      GrantedIsNotRefused(Apply(s, acts[0]), acts[1..]);
    }
  }

  /** Where the OS grants the thread, a closure that runs with the flag up has the call that raised it
      still in progress, or the one re-interrupter in its loop and the slot naming its connection. */
  lemma {:induction false} GrantedMeansCovered(acts: seq<Action>, e: Tid)
    requires Runs(INITIAL, acts) && AllGranted(acts)
    requires e in After(INITIAL, acts).sessions && After(INITIAL, acts).sessions[e].Running?
    requires After(INITIAL, acts).sh.cancelled
    ensures var s := After(INITIAL, acts);
            || (exists t :: t in s.cancellers && !s.cancellers[t].already && !s.cancellers[t].Returned?)
            || (0 in s.reints && Alive(s.reints[0]) && s.sh.slot == Some(s.sessions[e].c))
  {
    GrantedIsNotRefused(INITIAL, acts);
    ARunningQueryIsCovered(acts, e);
  }

  // ---------------------------------------------------------------- every thread ends, none waits for ever

  /** A bound on the steps a session still takes outside its closure. */
  function StepsLeft(p: SessionPc): nat {
    match p
    case AttachLock(_) => 16
    case AttachTest(_) => 15
    case AttachRefuse(_) => 1
    case AttachLoad(_) => 14
    case AttachPoke(_) => 13
    case AttachStore(_) => 12
    case AttachUnlock(_) => 11
    case GuardOpen(_) => 10
    case GuardLoad(_) => 9
    case Running(_) => 8
    case Closing(_, _) => 7
    case ClosingCancelled(_) => 6
    case Unwinding(_) => 6
    case PostRead(_, _) => 6
    case DetachLock(_, _, _) => 5
    case DetachStore(_, _, _) => 4
    case DetachUnlock(_, _, _) => 3
    case FinalLoad(_, _, _) => 2
    case Finished(_, _, _, _, _) => 0
    case AttachRefused(_) => 0
    case Unwound(_) => 0
  }

  /** Every step brings a session nearer its end, where its results are recorded or it was refused or its
      closure unwound. */
  lemma {:induction false} SessionsEnd(s: State, a: Action, e: Tid)
    requires Enabled(s, a) && e in s.sessions && (a == Session(e) || (a.Query? && a.e == e && a.q != Poll))
    ensures e in Apply(s, a).sessions && StepsLeft(Apply(s, a).sessions[e]) < StepsLeft(s.sessions[e])
    ensures StepsLeft(s.sessions[e]) == 0 <==>
            s.sessions[e].Finished? || s.sessions[e].AttachRefused? || s.sessions[e].Unwound?
  {
  }

  /** A bound on the steps the re-interrupter still takes once no window is open. */
  function TicksLeft(p: ReintPc): nat {
    match p
    case Matches => 6
    case Releases => 5
    case Sleeps => 4
    case Tests => 3
    case Leaves => 2
    case Gone => 0
  }

  /** With the window closed, every step of the re-interrupter brings it nearer its end. */
  lemma {:induction false} TheReinterrupterEnds(s: State, r: nat)
    requires Enabled(s, Reint(r)) && !s.sh.inExecute
    ensures r in Apply(s, Reint(r)).reints && TicksLeft(Apply(s, Reint(r)).reints[r]) < TicksLeft(s.reints[r])
  {
  }

  /** No deadlock: while a session is neither over nor in its closure, the thread that holds the mutex, or
      the session itself, can move. */
  lemma {:induction false} SomeoneMoves(s: State, e: Tid)
    requires Inv(s) && e in s.sessions && !Halted(s.sessions[e])
    ensures Enabled(s, if s.sh.lock.None? then Session(e) else Next(s))
  {
    if s.sh.lock.Some? {
      match s.sh.lock.value
      case CancelThread(t) => assert CancelOk(s.sh, t, s.cancellers[t]);
      case SessionThread(f) => assert SessionOk(s.sh, f, s.sessions[f]);
      case ReintThread(r) => assert ReintOk(s.sh, r, s.reints[r]);
    }
  }
}
