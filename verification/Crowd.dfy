/**
 The cloudflared supervisor with any number of callers of Create, Delete and Stop at once
 (internal/tunnel/manager.go:56-215): what Supervisor.RunKeeps promises of callers one at a time, and the
 steps that break it.
 */
module Crowd {
  import opened Common
  import opened Supervisor

  /** `shared` is the supervisor's state between two steps, with no caller in it; `calls` is where each
      caller is. */
  datatype Crowd = Crowd(shared: State, calls: seq<CallPC>)

  datatype Move = By(i: nat, a: Action) | Aside(a: Action)

  /** One caller's step is Supervisor's, with that caller put in; the rest goes on aside. */
  function Go(c: Crowd, m: Move): Option<Crowd> {
    match m
    case By(i, a) =>
      if i >= |c.calls| then None
      else (
        match Call(c.shared.(call := c.calls[i]), a)
        case None => None
        case Some(s) => Some(Crowd(s.(call := Idle), c.calls[i := s.call])))
    case Aside(a) =>
      if !Background(a) && a != RootCancel then None
      else (
        match Do(c.shared, a)
        case None => None
        case Some(s) => Some(c.(shared := s)))
  }

  function GoAll(c: Crowd, ms: seq<Move>): Option<Crowd>
    decreases |ms|
  {
    if ms == [] then Some(c)
    else match Go(c, ms[0])
      case None => None
      case Some(c') => GoAll(c', ms[1..])
  }

  /** A crowd of one is what Supervisor speaks of. */
  lemma OneCaller(s: State, a: Action)
    ensures var c := Crowd(s.(call := Idle), [s.call]);
      var m := if Background(a) || a == RootCancel then Aside(a) else By(0, a);
      match Do(s, a)
      case None => Go(c, m).None?
      case Some(s') => Go(c, m) == Some(Crowd(s'.(call := Idle), [s'.call]))
  {
    hide Call, WatchStep;
    match a {
      case Watch(w, pick) =>
        if w < |s.watchers| {
          WatchesAnyCall(s, w, pick);
        }
      case Exit(p) =>
      case RootCancel =>
      case _ =>
        assert s.(call := Idle).(call := [s.call][0]) == s;
        assert forall pc: CallPC :: [s.call][0 := pc] == [pc];
    }
  }

  /** Watchers do not look at callers. */
  lemma WatchesAnyCall(s: State, w: nat, pick: bool)
    requires w < |s.watchers|
    ensures match WatchStep(s, w, pick)
      case None => WatchStep(s.(call := Idle), w, pick).None?
      case Some(s') => s'.call == s.call && WatchStep(s.(call := Idle), w, pick) == Some(s'.(call := Idle))
  {
    assert Locked(s.(call := Idle)) == Locked(s);
    hide Locked;
  }

  // ---- Two supervisors ------------------------------------------------------------------------------------

  predicate Open(s: State, ctx: nat) {
    ctx < |s.cancelled| && !s.cancelled[ctx]
  }

  predicate AtMostOne(s: State) {
    forall i, j | 0 <= i < j < |s.cancelled| :: s.cancelled[i] || s.cancelled[j]
  }

  /** A start succeeds under a context that can live, while `running` is false and an older context has not
      been cancelled. */
  predicate Doubles(c: Crowd, m: Move) {
    m.By? && m.a == Start(true) && !c.shared.running && !c.shared.root && !AllDone(c.shared)
  }

  /** From at most one context that is not cancelled, a step makes two exactly when it is such a start. */
  lemma DoublesIff(c: Crowd, m: Move)
    requires AtMostOne(c.shared) && Go(c, m).Some?
    ensures AtMostOne(Go(c, m).value.shared) <==> !Doubles(c, m)
  {
    hide Call, StartProcess, Locked, WatchStep;
    var s := c.shared;
    match m {
      case By(i, a) =>
        CallCancels(s.(call := c.calls[i]), a);
        if a.Start? {
          StartDoubles(s.(call := Starting), a.ok);
        }
      case Aside(Watch(w, pick)) => WatchFrame(s, w, pick);
      case Aside(_) =>
    }
  }

  /** No other step of a caller makes a context, or brings one back. */
  lemma CallCancels(s: State, a: Action)
    requires Call(s, a).Some?
    ensures var s' := Call(s, a).value;
      if a.Start? then s.call == Starting && s' == StartProcess(s, a.ok)
      else |s'.cancelled| == |s.cancelled| && forall c | 0 <= c < |s.cancelled| :: s.cancelled[c] ==> s'.cancelled[c]
  {
    hide StartProcess, Locked;
  }

  lemma StartDoubles(s: State, ok: bool)
    requires AtMostOne(s) && s.call == Starting
    ensures AtMostOne(StartProcess(s, ok)) <==> !(ok && !s.running && !s.root && !AllDone(s))
  {
    var s' := StartProcess(s, ok);
    if ok && !s.running && !s.root && !AllDone(s) {
      var k :| 0 <= k < |s.cancelled| && !s.cancelled[k];
      assert !s'.cancelled[k] && !s'.cancelled[|s.cancelled|];
    }
  }

  predicate AtMostOneAll(c: Crowd, ms: seq<Move>)
    requires GoAll(c, ms).Some?
    decreases |ms|
  {
    AtMostOne(c.shared) && (ms == [] || AtMostOneAll(Go(c, ms[0]).value, ms[1..]))
  }

  predicate NoneDoubles(c: Crowd, ms: seq<Move>)
    requires GoAll(c, ms).Some?
    decreases |ms|
  {
    ms == [] || (!Doubles(c, ms[0]) && NoneDoubles(Go(c, ms[0]).value, ms[1..]))
  }

  /** However many callers there are, at most one context is not cancelled all through a run exactly when
      no start in it doubles. */
  lemma {:induction false} AtMostOneIff(c: Crowd, ms: seq<Move>)
    requires AtMostOne(c.shared) && GoAll(c, ms).Some?
    ensures AtMostOneAll(c, ms) <==> NoneDoubles(c, ms)
    decreases |ms|
  {
    hide Go, AtMostOne, Doubles;
    if ms != [] {
      DoublesIff(c, ms[0]);
      if !Doubles(c, ms[0]) {
        AtMostOneIff(Go(c, ms[0]).value, ms[1..]);
      }
    }
  }

  // ---- Out of reach -----------------------------------------------------------------------------------------

  predicate Holding(pc: CallPC, ctx: nat) {
    pc.Cancelling? && pc.held == Some(ctx)
  }

  /** Not cancelled, and neither m.cancel nor a Stop in progress can do it. */
  predicate Lost(c: Crowd, ctx: nat) {
    Open(c.shared, ctx) && c.shared.cancel != Some(ctx) && NobodyHolds(c.calls, ctx)
  }

  predicate NobodyHolds(calls: seq<CallPC>, ctx: nat) {
    forall i | 0 <= i < |calls| :: !Holding(calls[i], ctx)
  }

  lemma HoldersAfter(calls: seq<CallPC>, i: nat, pc: CallPC, ctx: nat)
    requires i < |calls|
    ensures (Holding(pc, ctx) <==> Holding(calls[i], ctx)) ==>
              (NobodyHolds(calls[i := pc], ctx) <==> NobodyHolds(calls, ctx))
    ensures Holding(pc, ctx) ==> !NobodyHolds(calls[i := pc], ctx)
    ensures Holding(calls[i], ctx) ==> !NobodyHolds(calls, ctx)
  {
    var after := calls[i := pc];
    assert after[i] == pc && forall j | 0 <= j < |calls| && j != i :: after[j] == calls[j];
  }

  /** A start, whether it succeeds or not, replaces the means to cancel a context that is not cancelled. */
  predicate Overwrites(c: Crowd, m: Move, ctx: nat) {
    m.By? && m.a.Start? && !c.shared.running && c.shared.cancel == Some(ctx) && Open(c.shared, ctx)
  }

  /** What m.cancel cancels no Stop has taken. */
  predicate Sole(c: Crowd) {
    && (c.shared.cancel.Some? ==> c.shared.cancel.value < |c.shared.cancelled|)
    && (forall i | 0 <= i < |c.calls| && c.calls[i].Cancelling? && c.calls[i].held.Some? ::
          c.calls[i].held.value < |c.shared.cancelled| && c.shared.cancel != c.calls[i].held)
  }

  lemma SoleKept(c: Crowd, m: Move)
    requires Sole(c) && Go(c, m).Some?
    ensures Sole(Go(c, m).value)
  {
    hide Locked;
    match m {
      case By(i, Start(ok)) =>
      case By(i, a) => hide StartProcess;
      case Aside(Watch(w, pick)) =>
        hide WatchStep;
        WatchFrame(c.shared, w, pick);
      case Aside(_) =>
    }
  }

  /** Once lost, a context stays so until the application ends, whatever anybody calls; and a context gets
      lost by being overwritten and in no other way. */
  lemma LostIff(c: Crowd, m: Move, ctx: nat)
    requires Sole(c) && m != Aside(RootCancel) && Go(c, m).Some?
    ensures Lost(Go(c, m).value, ctx) <==> Lost(c, ctx) || Overwrites(c, m, ctx)
  {
    hide Locked, NobodyHolds;
    match m {
      case By(i, a) =>
        hide Call;
        HoldersAfter(c.calls, i, Go(c, m).value.calls[i], ctx);
        CallLoses(c, i, a, ctx);
        SoleHolder(c, ctx);
      case Aside(Watch(w, pick)) =>
        hide WatchStep;
        WatchFrame(c.shared, w, pick);
      case Aside(_) =>
    }
  }

  lemma SoleHolder(c: Crowd, ctx: nat)
    requires Sole(c)
    ensures c.shared.cancel == Some(ctx) ==> NobodyHolds(c.calls, ctx)
  {
  }

  /** What a caller's step does to one context. */
  lemma CallLoses(c: Crowd, i: nat, a: Action, ctx: nat)
    requires Sole(c) && Go(c, By(i, a)).Some?
    ensures var c' := Go(c, By(i, a)).value; var was, pc := c.calls[i], c'.calls[i];
      if Holding(was, ctx) then !Holding(pc, ctx) && !Open(c'.shared, ctx)
      else if Holding(pc, ctx) then c.shared.cancel == Some(ctx) && !Overwrites(c, By(i, a), ctx)
      else
        && (c'.shared.cancel == Some(ctx) ==> c.shared.cancel == Some(ctx) || !Open(c.shared, ctx))
        && (Open(c.shared, ctx) ==> Open(c'.shared, ctx))
        && (Open(c'.shared, ctx) ==> Open(c.shared, ctx) || c'.shared.cancel == Some(ctx))
        && (c.shared.cancel == Some(ctx) && c'.shared.cancel != Some(ctx) && Open(c'.shared, ctx) <==>
              Overwrites(c, By(i, a), ctx))
  {
    hide Locked;
  }

  predicate Overwritten(c: Crowd, ms: seq<Move>, ctx: nat)
    requires GoAll(c, ms).Some?
    decreases |ms|
  {
    ms != [] && (Overwrites(c, ms[0], ctx) || Overwritten(Go(c, ms[0]).value, ms[1..], ctx))
  }

  /** So at the end of a run, until the application ends, exactly those contexts are lost that were at its
      start or have been overwritten in it. */
  lemma {:induction false} LostAfterRunIff(c: Crowd, ms: seq<Move>, ctx: nat)
    requires Sole(c) && GoAll(c, ms).Some? && Aside(RootCancel) !in ms
    ensures Lost(GoAll(c, ms).value, ctx) <==> Lost(c, ctx) || Overwritten(c, ms, ctx)
    decreases |ms|
  {
    hide Go, Sole, Lost, Overwrites;
    if ms != [] {
      assert ms[0] in ms;
      LostIff(c, ms[0], ctx);
      SoleKept(c, ms[0]);
      LostAfterRunIff(Go(c, ms[0]).value, ms[1..], ctx);
    }
  }

  // ---- Two Creates ------------------------------------------------------------------------------------------

  const TWO := Crowd(BOOTED, [Idle, Idle])

  ghost predicate Reached(c: Crowd) {
    exists ms :: GoAll(TWO, ms) == Some(c)
  }

  lemma Next(c: Crowd, m: Move) returns (c': Crowd)
    requires Reached(c) && Go(c, m).Some?
    ensures c' == Go(c, m).value && Reached(c')
  {
    c' := Go(c, m).value;
    var ms :| GoAll(TWO, ms) == Some(c);
    GoLast(TWO, ms, m);
    assert GoAll(TWO, ms + [m]) == Some(c');
  }

  lemma {:induction false} GoLast(c: Crowd, ms: seq<Move>, m: Move)
    requires GoAll(c, ms).Some?
    ensures GoAll(c, ms + [m]) == Go(GoAll(c, ms).value, m)
    decreases |ms|
  {
    hide Go;
    if ms == [] {
      assert ([] + [m])[0] == m && ([] + [m])[1..] == [];
    } else {
      assert (ms + [m])[0] == ms[0] && (ms + [m])[1..] == ms[1..] + [m];
      GoLast(Go(c, ms[0]).value, ms[1..], m);
    }
  }

  /** Two Creates pass the gate; the first one's process crashes, and before its watcher starts it again the
      second Create starts one. Both are then supervised, and no Delete or Stop can end the first. */
  lemma TwoCreates() returns (c: Crowd)
    ensures Reached(c) && c.calls == [Idle, Idle]
    ensures !AtMostOne(c.shared) && Sole(c) && Lost(c, 0)
  {
    hide Reached;
    c := FirstDown();
    c := Next(c, By(1, Stored(true)));
    c := Next(c, By(1, Start(true)));
    assert c.shared.cancelled == [false, false] && c.shared.cancel == Some(1) && c.calls == [Idle, Idle];
    assert !c.shared.cancelled[0] && !c.shared.cancelled[1];
  }

  lemma FirstDown() returns (c: Crowd)
    ensures Reached(c) && c.calls == [Idle, Gated]
    ensures c.shared == State(false, [false], [Process(0, false)], [Watcher(0, Check)], Some(0), false, Some(0), true,
                              Idle)
  {
    hide Reached;
    c := FirstUp();
    c := Next(c, Aside(Watch(0, true)));
    assert c.shared == State(false, [false], [Process(0, true)], [Watcher(0, Waiting(0))], Some(0), true, Some(0),
                             true, Idle);
    c := Next(c, Aside(Exit(0)));
    c := Next(c, Aside(Watch(0, true)));
    assert c.shared == State(false, [false], [Process(0, false)], [Watcher(0, Exited)], Some(0), true, Some(0), true,
                             Idle);
    c := Next(c, Aside(Watch(0, true)));
  }

  lemma FirstUp() returns (c: Crowd)
    ensures Reached(c) && c.calls == [Idle, Gated]
    ensures c.shared == State(false, [false], [Process(0, true)], [Watcher(0, Load)], Some(0), true, Some(0), true,
                              Idle)
  {
    hide Reached;
    c := TwoPassed();
    c := Next(c, By(0, Stored(true)));
    assert c.calls == [Starting, Gated] && c.shared == BOOTED.(tunnel := true);
    c := Next(c, By(0, Start(true)));
    assert c.calls == [Idle, Gated];
  }

  lemma TwoPassed() returns (c: Crowd)
    ensures Reached(c) && c == Crowd(BOOTED, [Gated, Gated])
  {
    c := TWO;
    assert GoAll(TWO, []) == Some(c);
    hide Reached;
    c := Next(c, By(0, Gate));
    c := Next(c, By(1, Gate));
  }
}
