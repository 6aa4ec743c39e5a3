/**
 The traffic record FIFO of restund/src/db.c.

 Server threads append records; the database thread takes them off the head, writes them to the database
 and puts a record back at the head when the write fails.  Every access to the FIFO holds a mutex, so a
 run is a sequence of locked sections and database writes in any order.
 */
module TrafficLog {

  /** Where the database thread is; quitSeen is its local copy of the quit flag. */
  datatype Pc<R> =
    | Top
    | Waiting(signalled: bool)
    | Looking(quitSeen: bool)
    | Inserting(record: R, quitSeen: bool)
    | Saved(quitSeen: bool)
    | Exited

  /** The shared state, the thread, and the history: records appended, written and thrown away at close. */
  datatype State<R> = State(fifo: seq<R>, quit: bool, pc: Pc<R>,
                            appended: seq<R>, written: seq<R>, discarded: seq<R>, flushed: bool,
                            mark: nat) // records appended before quit was set

  datatype Event<R> =
    | Log(record: R)   // restund_log_traffic
    | Enter            // the thread looks at quit and waits or not
    | Wake             // signal, timeout or spurious wake-up
    | Look             // the head of the FIFO is taken, or there is none
    | Written          // the database takes the record in flight
    | PutBack          // the write failed: back to the head
    | Finish           // the end of a round: exit or start over
    | Quit             // restund_db_close sets the flag
    | Flush            // restund_db_close after the thread has ended

  predicate Enabled<R>(s: State<R>, e: Event<R>) {
    match e
    case Log(_) => true
    case Enter => s.pc.Top?
    case Wake => s.pc.Waiting?
    case Look => s.pc.Looking?
    case Written => s.pc.Inserting?
    case PutBack => s.pc.Inserting?
    case Finish => s.pc.Saved?
    case Quit => !s.quit
    case Flush => s.quit && s.pc.Exited? && !s.flushed
  }

  function Signalled<R>(pc: Pc<R>): Pc<R> {
    if pc.Waiting? then Waiting(true) else pc
  }

  function Step<R>(s: State<R>, e: Event<R>): State<R>
    requires Enabled(s, e)
  {
    match e
    case Log(record) =>
      s.(fifo := s.fifo + [record], appended := s.appended + [record], pc := Signalled(s.pc))
    case Enter => if s.quit then s.(pc := Looking(true)) else s.(pc := Waiting(false))
    case Wake => s.(pc := Looking(s.quit))
    case Look =>
      if s.fifo == [] then s.(pc := Saved(s.pc.quitSeen))
      else s.(fifo := s.fifo[1..], pc := Inserting(s.fifo[0], s.pc.quitSeen))
    case Written => s.(written := s.written + [s.pc.record], pc := Looking(s.pc.quitSeen))
    case PutBack => s.(fifo := [s.pc.record] + s.fifo, pc := Saved(s.pc.quitSeen))
    case Finish => if s.pc.quitSeen then s.(pc := Exited) else s.(pc := Top)
    case Quit => s.(quit := true, pc := Signalled(s.pc), mark := |s.appended|)
    case Flush => s.(discarded := s.discarded + s.fifo, fifo := [], flushed := true)
  }

  function Init<R>(): State<R> {
    State([], false, Top, [], [], [], false, 0)
  }

  predicate Run<R(==)>(s: State<R>, es: seq<Event<R>>, t: State<R>)
    decreases |es|
  {
    if es == [] then s == t else Enabled(s, es[0]) && Run(Step(s, es[0]), es[1..], t)
  }

  // ---------------------------------------------------------------- invariants

  function InFlight<R>(pc: Pc<R>): seq<R> {
    if pc.Inserting? then [pc.record] else []
  }

  /** Nothing is lost, duplicated or reordered. */
  predicate Conserved<R(==)>(s: State<R>) {
    s.written + s.discarded + InFlight(s.pc) + s.fifo == s.appended
  }

  /** What the thread knows about quit is true. */
  predicate QuitKept<R>(s: State<R>) {
    && (s.pc.Looking? || s.pc.Inserting? || s.pc.Saved? ==> (s.pc.quitSeen ==> s.quit))
    && (s.pc.Exited? ==> s.quit)
    && (s.flushed ==> s.pc.Exited?)
    && (!s.flushed ==> s.discarded == [])
    && s.mark <= |s.appended|
  }

  predicate Inv<R(==)>(s: State<R>) { Conserved(s) && QuitKept(s) }

  lemma Assoc<R>(a: seq<R>, b: seq<R>, c: seq<R>)
    ensures a + b + c == a + (b + c)
  {
  }

  lemma StepConserved<R>(s: State<R>, e: Event<R>)
    requires Enabled(s, e) && Conserved(s) && QuitKept(s)
    ensures Conserved(Step(s, e))
  {
    var done := s.written + s.discarded;
    match e {
      case Log(record) =>
        Assoc(done + InFlight(s.pc), s.fifo, [record]);
      case Look =>
        if s.fifo != [] {
          assert s.fifo == [s.fifo[0]] + s.fifo[1..];
          Assoc(done, [s.fifo[0]], s.fifo[1..]);
        }
      case Written =>
        assert s.written + [] == s.written;
        assert s.written + [s.pc.record] + [] == s.written + [s.pc.record];
        assert done + [s.pc.record] + [] == done + [s.pc.record];
      case PutBack =>
        Assoc(done, [s.pc.record], s.fifo);
      case Flush =>
        Assoc(s.written, s.discarded, s.fifo);
      case _ =>
    }
  }

  lemma StepInv<R>(s: State<R>, e: Event<R>)
    requires Enabled(s, e) && Inv(s)
    ensures Inv(Step(s, e))
  {
    StepConserved(s, e);
  }

  lemma {:induction false} RunInv<R>(s: State<R>, es: seq<Event<R>>, t: State<R>)
    requires Inv(s) && Run(s, es, t)
    ensures Inv(t)
    decreases |es|
  {
    if es == [] {
    } else {
      StepInv(s, es[0]);
      RunInv(Step(s, es[0]), es[1..], t);
    }
  }

  // ---------------------------------------------------------------- what the events so far say

  predicate Attempt<R>(e: Event<R>) { e.Look? || e.PutBack? }

  /** The position of the last look at the FIFO or failed write, or -1. */
  function LastAttempt<R>(es: seq<Event<R>>): (k: int)
    ensures -1 <= k < |es| && (k >= 0 ==> Attempt(es[k]))
    ensures forall j :: k < j < |es| ==> !Attempt(es[j])
    decreases |es|
  {
    if es == [] then -1
    else if Attempt(es[|es| - 1]) then |es| - 1
    else LastAttempt(es[..|es| - 1])
  }

  /** The last round of writes ended with a failure. */
  predicate Failed<R>(es: seq<Event<R>>) { var k := LastAttempt(es); k >= 0 && es[k].PutBack? }

  /** A record was appended after the last look at the FIFO. */
  predicate LoggedSince<R>(es: seq<Event<R>>) { exists j :: LastAttempt(es) < j < |es| && es[j].Log? }

  lemma EventsGrow<R>(es: seq<Event<R>>, e: Event<R>)
    ensures Failed(es + [e]) <==> if Attempt(e) then e.PutBack? else Failed(es)
    ensures LoggedSince(es + [e]) <==> !Attempt(e) && (e.Log? || LoggedSince(es))
  {
    var k, l := LastAttempt(es), LastAttempt(es + [e]);
    assert (es + [e])[..|es|] == es;
    if !Attempt(e) {
      assert l == k;
      if LoggedSince(es) {
        var j :| k < j < |es| && es[j].Log?;
        assert (es + [e])[j].Log?;
      }
      if e.Log? {
        assert (es + [e])[|es|].Log?;
      }
      if LoggedSince(es + [e]) && !e.Log? {
        var j :| l < j < |es + [e]| && (es + [e])[j].Log?;
        assert es[j].Log?;
      }
    }
  }

  /** The position at which the thread last began to wait, or decided not to; or -1. */
  function LastEnter<R>(es: seq<Event<R>>): (k: int)
    ensures -1 <= k < |es|
    decreases |es|
  {
    if es == [] then -1
    else if es[|es| - 1].Enter? then |es| - 1
    else LastEnter(es[..|es| - 1])
  }

  /** A record was appended or quit was set since then. */
  predicate Woken<R>(es: seq<Event<R>>) { exists j :: LastEnter(es) < j < |es| && (es[j].Log? || es[j].Quit?) }

  lemma EnterGrows<R>(es: seq<Event<R>>, e: Event<R>)
    ensures LastEnter(es + [e]) == if e.Enter? then |es| else LastEnter(es)
  {
    assert (es + [e])[..|es|] == es;
  }

  lemma WokenGrows<R>(es: seq<Event<R>>, e: Event<R>)
    ensures Woken(es + [e]) <==> !e.Enter? && (e.Log? || e.Quit? || Woken(es))
  {
    var fs, k := es + [e], LastEnter(es);
    EnterGrows(es, e);
    assert fs[|es|] == e;
    if !e.Enter? {
      if j :| k < j < |es| && (es[j].Log? || es[j].Quit?) {
        assert fs[j] == es[j];
      }
      if j :| k < j < |es| && (fs[j].Log? || fs[j].Quit?) {
        assert es[j] == fs[j];
      }
    }
  }

  predicate Between<R>(s: State<R>) {
    s.pc.Saved? || s.pc.Top? || s.pc == Waiting(false) || (s.pc.Exited? && !s.flushed)
  }

  /** What the FIFO and the database hold between two rounds, told by the events so far. */
  predicate Accounted<R>(es: seq<Event<R>>, s: State<R>) {
    && (Between(s) ==> (s.fifo != [] <==> Failed(es) || LoggedSince(es)))
    && (s.flushed && Failed(es) ==> s.discarded != [])
    && ((s.pc.Exited? || (s.pc.Saved? && s.pc.quitSeen)) && !Failed(es) ==> s.mark <= |s.written|)
    && (s.pc.Waiting? ==> (s.pc.signalled <==> Woken(es)))
  }

  lemma StepAccounted<R>(es: seq<Event<R>>, s: State<R>, e: Event<R>)
    requires Enabled(s, e) && Inv(s) && Accounted(es, s)
    ensures Accounted(es + [e], Step(s, e))
  {
    EventsGrow(es, e);
    WokenGrows(es, e);
  }

  lemma {:induction false} RunAccounted<R>(done: seq<Event<R>>, s: State<R>, es: seq<Event<R>>, t: State<R>)
    requires Inv(s) && Accounted(done, s) && Run(s, es, t)
    ensures Accounted(done + es, t)
    decreases |es|
  {
    if es == [] {
      assert done + es == done;
    } else {
      StepInv(s, es[0]);
      StepAccounted(done, s, es[0]);
      RunAccounted(done + [es[0]], Step(s, es[0]), es[1..], t);
      assert done + [es[0]] + es[1..] == done + es;
    }
  }

  /** Every run from the start. */
  lemma {:induction false} Reachable<R>(es: seq<Event<R>>, t: State<R>)
    requires Run(Init(), es, t)
    ensures Inv(t) && Accounted(es, t)
  {
    RunInv(Init(), es, t);
    var none: seq<Event<R>> := [];
    assert !Failed(none) && !LoggedSince(none) && !Woken(none);
    RunAccounted(none, Init(), es, t);
    assert none + es == es;
  }

  // ---------------------------------------------------------------- what the log promises

  function LoggedBy<R>(e: Event<R>): seq<R> { if e.Log? then [e.record] else [] }

  /** The records of the log events, in their order. */
  function Logged<R>(es: seq<Event<R>>): seq<R> {
    if es == [] then [] else LoggedBy(es[0]) + Logged(es[1..])
  }

  lemma StepAppends<R>(s: State<R>, e: Event<R>)
    requires Enabled(s, e)
    ensures Step(s, e).appended == s.appended + LoggedBy(e)
    ensures s.quit ==> Step(s, e).quit && Step(s, e).mark == s.mark
  {
    assert s.appended + [] == s.appended;
  }

  lemma {:induction false} AppendedIsLogged<R>(s: State<R>, es: seq<Event<R>>, t: State<R>)
    requires Run(s, es, t)
    ensures t.appended == s.appended + Logged(es)
    ensures s.quit ==> t.mark == s.mark
    decreases |es|
  {
    if es == [] {
      assert s.appended + [] == s.appended;
    } else {
      StepAppends(s, es[0]);
      AppendedIsLogged(Step(s, es[0]), es[1..], t);
      Assoc(s.appended, LoggedBy(es[0]), Logged(es[1..]));
    }
  }

  /** The records that count as old are those logged before the event that sets quit. */
  lemma {:induction false} MarkAtQuit<R>(s: State<R>, es: seq<Event<R>>, t: State<R>, q: nat)
    requires Run(s, es, t) && q < |es| && es[q].Quit?
    ensures t.mark == |s.appended| + |Logged(es[..q])|
    decreases |es|
  {
    var u := Step(s, es[0]);
    if q == 0 {
      AppendedIsLogged(u, es[1..], t);
    } else {
      StepAppends(s, es[0]);
      MarkAtQuit(u, es[1..], t, q - 1);
      assert es[..q][1..] == es[1..][..q - 1];
    }
  }

  lemma {:induction false} LoggedPrefix<R>(es: seq<Event<R>>, q: nat)
    requires q <= |es|
    ensures Logged(es[..q]) <= Logged(es)
    decreases q
  {
    if q == 0 {
    } else {
      LoggedPrefix(es[1..], q - 1);
      assert es[..q][1..] == es[1..][..q - 1];
    }
  }

  /** In every reachable state the written records are the oldest logged ones, in their order. */
  lemma {:induction false} WrittenInOrder<R>(es: seq<Event<R>>, t: State<R>)
    requires Run(Init(), es, t)
    ensures t.written + t.discarded + InFlight(t.pc) + t.fifo == Logged(es)
    ensures t.written <= Logged(es)
  {
    Reachable(es, t);
    AppendedIsLogged(Init(), es, t);
    assert t.appended[..|t.written|] == t.written;
    assert [] + Logged(es) == Logged(es);
  }

  /**
   After close: every record logged before quit was set has been written, unless the last write of the
   thread failed.  Then the record it failed on is the first one thrown away, and the records written are
   still the oldest ones.
   */
  lemma {:induction false} CloseLosesNothingOld<R>(es: seq<Event<R>>, t: State<R>, q: nat)
    requires Run(Init(), es, t) && t.flushed && q < |es| && es[q].Quit?
    ensures t.written + t.discarded + t.fifo == Logged(es)
    ensures !Failed(es) ==> Logged(es[..q]) <= t.written
    ensures Failed(es) ==> t.discarded != [] && |t.written| < |Logged(es)| && t.discarded[0] == Logged(es)[|t.written|]
  {
    Reachable(es, t);
    WrittenInOrder(es, t);
    MarkAtQuit(Init(), es, t, q);
    LoggedPrefix(es, q);
    assert t.written + t.discarded + [] + t.fifo == t.written + t.discarded + t.fifo;
    if !Failed(es) {
      assert Logged(es[..q]) == t.written[..t.mark];
    } else {
      assert (t.written + t.discarded + t.fifo)[|t.written|] == t.discarded[0];
    }
  }

  lemma {:induction false} EnterAt<R>(es: seq<Event<R>>)
    ensures LastEnter(es) >= 0 ==> es[LastEnter(es)].Enter?
    decreases |es|
  {
    if es == [] {
    } else {
      EnterAt(es[..|es| - 1]);
    }
  }

  /**
   The thread waits although records are queued exactly when the round before ended with a failed write, or a
   record was appended after its last look at the FIFO and before it began to wait: that record's signal woke
   nobody up.  A record or quit that comes while it waits always wakes it.
   */
  lemma {:induction false} WaitsOnQueuedRecords<R>(es: seq<Event<R>>, t: State<R>)
    requires Run(Init(), es, t) && t.pc.Waiting?
    ensures t.pc.signalled <==> exists j :: LastEnter(es) < j < |es| && (es[j].Log? || es[j].Quit?)
    ensures var k := LastAttempt(es);
            !t.pc.signalled ==>
              (t.fifo != [] <==> (k >= 0 && es[k].PutBack?) || exists j :: k < j < LastEnter(es) && es[j].Log?)
  {
    Reachable(es, t);
    if !t.pc.signalled {
      var k, n := LastAttempt(es), LastEnter(es);
      assert Accounted(es, t) && Between(t);
      if LoggedSince(es) {
        var j :| k < j < |es| && es[j].Log?;
        EnterAt(es);
        assert j <= n && j != n;
      }
    }
  }

  // ---------------------------------------------------------------- the end of the thread

  predicate OfThread<R>(e: Event<R>) { e.Enter? || e.Wake? || e.Look? || e.Written? || e.PutBack? || e.Finish? }

  function ThreadSteps<R>(es: seq<Event<R>>): nat {
    if es == [] then 0 else (if OfThread(es[0]) then 1 else 0) + ThreadSteps(es[1..])
  }

  function Logs<R>(es: seq<Event<R>>): nat {
    if es == [] then 0 else (if es[0].Log? then 1 else 0) + Logs(es[1..])
  }

  /** A bound on the steps the thread can still take once quit is set and nothing is appended any more. */
  function StepsLeft<R>(s: State<R>): nat {
    var n := |s.fifo|;
    match s.pc
    case Top => 2 * n + 3
    case Waiting(_) => 2 * n + 3
    case Looking(quitSeen) => if quitSeen then 2 * n + 2 else 4 * n + 5
    case Inserting(_, quitSeen) => if quitSeen then 2 * n + 3 else 4 * n + 7
    case Saved(quitSeen) => if quitSeen then 1 else 2 * n + 4
    case Exited => 0
  }

  lemma StepTowardsEnd<R>(s: State<R>, e: Event<R>)
    requires s.quit && Enabled(s, e)
    ensures Step(s, e).quit
    ensures StepsLeft(Step(s, e)) + (if OfThread(e) then 1 else 0) <= StepsLeft(s) + (if e.Log? then 4 else 0)
  {
  }

  lemma {:induction false} RunTowardsEnd<R>(s: State<R>, es: seq<Event<R>>, t: State<R>)
    requires s.quit && Run(s, es, t)
    ensures ThreadSteps(es) + StepsLeft(t) <= StepsLeft(s) + 4 * Logs(es)
    decreases |es|
  {
    if es == [] {
    } else {
      StepTowardsEnd(s, es[0]);
      RunTowardsEnd(Step(s, es[0]), es[1..], t);
    }
  }

  /**
   Once quit is set, the thread ends: whatever fails and whatever is appended meanwhile, it takes at most four steps
   for every record and seven more, and until it has exited there is a step it can take.
   */
  lemma ThreadEnds<R>(s: State<R>, es: seq<Event<R>>, t: State<R>)
    requires s.quit && Run(s, es, t)
    ensures ThreadSteps(es) <= 4 * (|s.fifo| + Logs(es)) + 7
    ensures t.pc.Exited? || exists e: Event<R> :: OfThread(e) && Enabled(t, e)
  {
    RunTowardsEnd(s, es, t);
    var enter: Event<R>, wake: Event<R>, look: Event<R>, written: Event<R>, finish: Event<R> := Enter, Wake, Look, Written, Finish;
    assert t.pc.Top? ==> Enabled(t, enter);
    assert t.pc.Waiting? ==> Enabled(t, wake);
    assert t.pc.Looking? ==> Enabled(t, look);
    assert t.pc.Inserting? ==> Enabled(t, written);
    assert t.pc.Saved? ==> Enabled(t, finish);
  }

  // ---------------------------------------------------------------- runs that go wrong

  lemma {:induction false} RunCons<R>(s: State<R>, e: Event<R>, es: seq<Event<R>>, t: State<R>)
    requires Enabled(s, e) && Run(Step(s, e), es, t)
    ensures Run(s, [e] + es, t)
  {
    assert ([e] + es)[1..] == es;
  }

  lemma {:induction false} RunOne<R>(s: State<R>, e: Event<R>)
    requires Enabled(s, e)
    ensures Run(s, [e], Step(s, e))
  {
    assert [e][1..] == [];
    assert Run(Step(s, e), [], Step(s, e));
  }

  lemma {:induction false} FailedLastRound(r: int)
    ensures Run(State([r], true, Looking(true), [r], [], [], false, 1), [Look, PutBack, Finish, Flush],
                State([], true, Exited, [r], [], [r], true, 1))
  {
    var s4 := State([], true, Inserting(r, true), [r], [], [], false, 1);
    var s5 := State([r], true, Saved(true), [r], [], [], false, 1);
    var s6 := State([r], true, Exited, [r], [], [], false, 1);
    var s7 := State([], true, Exited, [r], [], [r], true, 1);
    RunOne(s6, Flush);
    RunCons(s5, Finish, [Flush], s7);
    RunCons(s4, PutBack, [Finish, Flush], s7);
    RunCons(State([r], true, Looking(true), [r], [], [], false, 1), Look, [PutBack, Finish, Flush], s7);
    var look: Event<int> := Look;
    assert [look] + [PutBack, Finish, Flush] == [Look, PutBack, Finish, Flush];
  }

  /** A failing write at close loses the records behind it, although they were appended before quit. */
  lemma {:induction false} FailedCloseExample(r: int)
    ensures Run(Init(), [Log(r), Quit, Enter, Look, PutBack, Finish, Flush],
                State([], true, Exited, [r], [], [r], true, 1))
  {
    var s1 := State([r], false, Top, [r], [], [], false, 0);
    var s2 := State([r], true, Top, [r], [], [], false, 1);
    var s7 := State([], true, Exited, [r], [], [r], true, 1);
    FailedLastRound(r);
    RunCons(s2, Enter, [Look, PutBack, Finish, Flush], s7);
    RunCons(s1, Quit, [Enter, Look, PutBack, Finish, Flush], s7);
    RunCons(Init(), Log(r), [Quit, Enter, Look, PutBack, Finish, Flush], s7);
    assert [Log(r)] + [Quit, Enter, Look, PutBack, Finish, Flush] == [Log(r), Quit, Enter, Look, PutBack, Finish, Flush];
  }

  /** A record appended between the last look at the FIFO and the wait stays there while the thread sleeps. */
  lemma {:induction false} MissedSignalExample(r: int)
    ensures Run(Init(), [Enter, Wake, Look, Log(r), Finish, Enter],
                State([r], false, Waiting(false), [r], [], [], false, 0))
  {
    var s1: State<int> := State([], false, Waiting(false), [], [], [], false, 0);
    var s2: State<int> := State([], false, Looking(false), [], [], [], false, 0);
    var s3: State<int> := State([], false, Saved(false), [], [], [], false, 0);
    var s4 := State([r], false, Saved(false), [r], [], [], false, 0);
    var s5 := State([r], false, Top, [r], [], [], false, 0);
    var s6 := State([r], false, Waiting(false), [r], [], [], false, 0);
    RunOne(s5, Enter);
    RunCons(s4, Finish, [Enter], s6);
    RunCons(s3, Log(r), [Finish, Enter], s6);
    RunCons(s2, Look, [Log(r), Finish, Enter], s6);
    RunCons(s1, Wake, [Look, Log(r), Finish, Enter], s6);
    RunCons(Init(), Enter, [Wake, Look, Log(r), Finish, Enter], s6);
    assert [Enter] + [Wake, Look, Log(r), Finish, Enter] == [Enter, Wake, Look, Log(r), Finish, Enter];
  }

  // ---------------------------------------------------------------- the operations

  datatype Err = Ok | EINVAL | ENOMEM

  class Database<R> {
    var fifo: seq<R>
    var run: bool
    var quit: bool

    constructor ()
      ensures fifo == [] && !run && !quit
    {
      fifo, run, quit := [], false, false;
    }

    /**
     restund_log_traffic; complete says that no address and no statistics are missing, backend whether a
     database with a traffic handler is there, memory whether the record can be allocated.
     */
    method LogTraffic(record: R, complete: bool, backend: bool, memory: bool) returns (err: Err)
      modifies `fifo
      ensures fifo == if complete && run && backend && memory then old(fifo) + [record] else old(fifo)
      ensures err == Ok <==> fifo == old(fifo) + [record] || (complete && (!run || !backend))
      ensures err == EINVAL <==> !complete
    {
      if !complete {
        return EINVAL;
      }
      if !run || !backend {
        return Ok;
      }
      if !memory {
        return ENOMEM;
      }
      fifo := fifo + [record];
      return Ok;
    }

    /**
     save_traffic_records without interference; the write after succeed successful ones fails, if there is
     one.  written are the records the database took.
     */
    method SaveTrafficRecords(succeed: nat) returns (written: seq<R>, ok: bool)
      modifies `fifo
      ensures written + fifo == old(fifo)
      ensures |written| == if succeed < |old(fifo)| then succeed else |old(fifo)|
      ensures ok <==> fifo == []
    {
      written, ok := [], true;
      while true
        invariant ok && written + fifo == old(fifo) && |written| <= succeed
        decreases |fifo|
      {
        if fifo == [] {
          break;
        }
        var trf := fifo[0];
        fifo := fifo[1..];
        if |written| == succeed {
          ok := false;
          fifo := [trf] + fifo;
          break;
        }
        written := written + [trf];
      }
    }

    /** restund_db_close around the join with the thread, whose last round is part of it. */
    method Close(succeed: nat) returns (written: seq<R>, discarded: seq<R>)
      modifies this
      ensures fifo == [] && !run && quit == (old(quit) || old(run))
      ensures written + discarded == old(fifo)
      ensures old(run) && succeed >= |old(fifo)| ==> discarded == []
      ensures !old(run) ==> written == []
    {
      written := [];
      if run {
        quit := true;
        var ok;
        written, ok := SaveTrafficRecords(succeed);
        run := false;
      }
      discarded := fifo;
      fifo := [];
    }
  }

  /** The steps of a round of n successful writes and possibly a failing one, as the interleaved machine takes them. */
  function RoundEvents<R>(n: nat, fails: bool): seq<Event<R>> {
    if n > 0 then [Look, Written] + RoundEvents(n - 1, fails)
    else if fails then [Look, PutBack]
    else [Look]
  }

  /** The state after a round that writes n records. */
  function AfterRound<R>(s: State<R>, n: nat): State<R>
    requires s.pc.Looking? && n <= |s.fifo|
  {
    s.(written := s.written + s.fifo[..n], fifo := s.fifo[n..], pc := Saved(s.pc.quitSeen))
  }

  /** The end of a round: the FIFO is empty, or the first write fails. */
  lemma {:induction false} LastLook<R>(s: State<R>, fails: bool)
    requires s.pc.Looking? && (fails <==> s.fifo != [])
    ensures Run(s, RoundEvents(0, fails), AfterRound(s, 0))
  {
    assert s.written + s.fifo[..0] == s.written;
    if fails {
      var s1 := Step(s, Look);
      assert Step(s1, PutBack) == AfterRound(s, 0);
      RunOne(s1, PutBack);
      RunCons(s, Look, [PutBack], AfterRound(s, 0));
      assert [Look] + [PutBack] == RoundEvents<R>(0, true);
    } else {
      RunOne(s, Look);
    }
  }

  /**
   Without interference a round of the machine does what save_traffic_records does, whether a write fails or
   not: it writes the records before the failing one and leaves the others in their order.
   */
  lemma {:induction false} UndisturbedRound<R>(s: State<R>, n: nat)
    requires s.pc.Looking? && n <= |s.fifo|
    ensures Run(s, RoundEvents(n, n < |s.fifo|), AfterRound(s, n))
    decreases n
  {
    var fails := n < |s.fifo|;
    if n == 0 {
      LastLook(s, fails);
    } else {
      var s1 := Step(s, Look);
      var s2 := Step(s1, Written);
      assert AfterRound(s2, n - 1) == AfterRound(s, n) by {
        assert s.written + s.fifo[..n] == s.written + [s.fifo[0]] + s.fifo[1..][..n - 1];
        assert s.fifo[n..] == s.fifo[1..][n - 1..];
      }
      UndisturbedRound(s2, n - 1);
      RunCons(s1, Written, RoundEvents(n - 1, fails), AfterRound(s, n));
      RunCons(s, Look, [Written] + RoundEvents(n - 1, fails), AfterRound(s, n));
      assert [Look] + ([Written] + RoundEvents<R>(n - 1, fails)) == RoundEvents<R>(n, fails);
    }
  }
}
