/**
 The cloudflared supervisor (internal/tunnel/manager.go) as a step system: the watcher goroutines, the
 processes and the callers of Create, Delete and Stop take turns. Callers are serialised; each takes the
 steps between two lock operations at once, and starting a process under the lock takes two.
 */
module Supervisor {
  import opened Common

  datatype Process = Process(ctx: nat, live: bool)

  /** Where a watcher is in its loop. */
  datatype WatchPC = Load | Waiting(cmd: nat) | Exited | Check | Pause | Relaunch | Forking | Gone

  datatype Watcher = Watcher(ctx: nat, pc: WatchPC)

  /** Where the current caller is; `del` tells Delete's call of Stop from a bare one. */
  datatype CallPC =
    | Idle
    | Gated
    | Starting
    | Taking(del: bool)
    | Cancelling(del: bool, held: Option<nat>, cmd: Option<nat>)
    | Killing(del: bool, cmd: Option<nat>)
    | Deleting

  datatype State = State(
    root: bool,              // the application's context is cancelled
    cancelled: seq<bool>,    // of each watch context made so far
    procs: seq<Process>,
    watchers: seq<Watcher>,
    cmd: Option<nat>,
    running: bool,
    cancel: Option<nat>,     // the context that m.cancel cancels
    tunnel: bool,            // the store has a tunnel
    call: CallPC)

  datatype Action =
    | Gate
    | Stored(ok: bool)
    | Start(ok: bool)
    | CallStop
    | CallDelete
    | Take
    | Cancel
    | Kill
    | Deleted(ok: bool)
    | Watch(w: nat, pick: bool)
    | Exit(p: nat)
    | RootCancel

  /** At boot a stored tunnel is started again. */
  predicate Init(s: State) {
    && !s.root && s.cancelled == [] && s.procs == [] && s.watchers == []
    && s.cmd == None && !s.running && s.cancel == None
    && s.call == if s.tunnel then Starting else Idle
  }

  /** Some watcher holds the lock while it starts a process. */
  predicate Locked(s: State) {
    exists w | 0 <= w < |s.watchers| :: s.watchers[w].pc == Forking
  }

  function Killed(procs: seq<Process>, p: Option<nat>): seq<Process> {
    if p.Some? && p.value < |procs| then procs[p.value := procs[p.value].(live := false)] else procs
  }

  /** startProcess, under the lock. */
  function StartProcess(s: State, ok: bool): State {
    if s.running then s.(call := Idle)
    else
      var c := |s.cancelled|;
      if ok && !s.root then
        s.(cancelled := s.cancelled + [false],
           procs := s.procs + [Process(c, true)],
           watchers := s.watchers + [Watcher(c, Load)],
           cmd := Some(|s.procs|), running := true, cancel := Some(c), call := Idle)
      else s.(cancelled := s.cancelled + [true], cancel := Some(c), call := Idle)
  }

  /** One step of a caller; none when it is not its turn. */
  function Call(s: State, a: Action): Option<State> {
    match (a, s.call)
    case (Gate, Idle) => if !s.tunnel && !Locked(s) then Some(s.(call := Gated)) else None
    case (Stored(ok), Gated) => Some(if ok then s.(tunnel := true, call := Starting) else s.(call := Idle))
    case (Start(ok), Starting) => if Locked(s) then None else Some(StartProcess(s, ok))
    case (CallStop, Idle) => Some(s.(call := Taking(false)))
    case (CallDelete, Idle) => Some(s.(call := Taking(true)))
    case (Take, Taking(del)) =>
      if Locked(s) then None
      else Some(s.(cancel := None, cmd := None, running := false, call := Cancelling(del, s.cancel, s.cmd)))
    case (Cancel, Cancelling(del, held, cmd)) =>
      var s' := s.(call := Killing(del, cmd));
      Some(if held.Some? && held.value < |s.cancelled| then s'.(cancelled := s.cancelled[held.value := true]) else s')
    case (Kill, Killing(del, cmd)) =>
      Some(s.(procs := Killed(s.procs, cmd), call := if del then Deleting else Idle))
    case (Deleted(ok), Deleting) => Some(s.(tunnel := s.tunnel && !ok, call := Idle))
    case _ => None
  }

  function At(s: State, w: nat, pc: WatchPC): State
    requires w < |s.watchers|
  {
    s.(watchers := s.watchers[w := s.watchers[w].(pc := pc)])
  }

  predicate Done(s: State, ctx: nat) {
    ctx < |s.cancelled| && s.cancelled[ctx]
  }

  /** Where a watcher goes next; none when it has to wait. `pick` resolves what the loop does not: which
      of two ready channels is chosen, and whether a start succeeds. A start is refused when the context
      is done already; it may still succeed when the context is cancelled meanwhile. */
  function NextPC(s: State, ctx: nat, pc: WatchPC, pick: bool): Option<WatchPC> {
    match pc
    case Load => if Locked(s) then None else Some(match s.cmd case None => Gone case Some(p) => Waiting(p))
    case Waiting(p) => if p < |s.procs| && s.procs[p].live then None else Some(Exited)
    case Exited => if Locked(s) then None else Some(Check)
    case Check => Some(if Done(s, ctx) then Gone else Pause)
    case Pause => Some(if Done(s, ctx) && !pick then Gone else Relaunch)
    case Relaunch => if Locked(s) then None else Some(if Done(s, ctx) then Gone else Forking)
    case Forking => Some(if pick then Load else Gone)
    case Gone => None
  }

  /** One step of a watcher's loop. */
  function WatchStep(s: State, w: nat, pick: bool): Option<State>
    requires w < |s.watchers|
  {
    var Watcher(ctx, pc) := s.watchers[w];
    match NextPC(s, ctx, pc, pick)
    case None => None
    case Some(pc') =>
      var s' := At(s, w, pc');
      Some(if pc == Exited then s'.(running := false)
           else if pc == Forking && pick then
             s'.(procs := s.procs + [Process(ctx, true)], cmd := Some(|s.procs|), running := true)
           else s')
  }

  function Do(s: State, a: Action): Option<State> {
    match a
    case Watch(w, pick) => if w < |s.watchers| then WatchStep(s, w, pick) else None
    case Exit(p) =>
      if p < |s.procs| && s.procs[p].live then Some(s.(procs := Killed(s.procs, Some(p)))) else None
    case RootCancel => Some(s.(root := true, cancelled := seq(|s.cancelled|, i => true)))
    case _ => Call(s, a)
  }

  /** The state after all of `acts`, if every one of them could be taken. */
  function DoAll(s: State, acts: seq<Action>): Option<State>
    decreases |acts|
  {
    if acts == [] then Some(s)
    else match Do(s, acts[0])
      case None => None
      case Some(s') => DoAll(s', acts[1..])
  }

  // ---- One supervisor at a time ----------------------------------------------------------------------

  predicate AllDone(s: State) {
    forall c | 0 <= c < |s.cancelled| :: s.cancelled[c]
  }

  /** The context is in the hands of m.cancel or of a Stop that has taken it. */
  predicate Held(s: State, c: nat) {
    s.cancel == Some(c) || (s.call.Cancelling? && s.call.held == Some(c))
  }

  /** No supervision can be under way: nothing has been started since the last Stop. */
  predicate Quiet(s: State) {
    || s.call in {Gated, Starting, Deleting} || s.call.Killing?
    || (s.call == Idle && !s.tunnel)
  }

  predicate InRange(s: State) {
    && (forall p | 0 <= p < |s.procs| :: s.procs[p].ctx < |s.cancelled|)
    && (forall w | 0 <= w < |s.watchers| :: s.watchers[w].ctx < |s.cancelled|)
    && (s.cmd.Some? ==> s.cmd.value < |s.procs|)
  }

  ghost predicate Inv(s: State) {
    && InRange(s)
    && (forall c | 0 <= c < |s.cancelled| && !s.cancelled[c] :: Held(s, c))
    && (s.call.Cancelling? || s.call.Killing? || s.call == Deleting ==> s.cancel == None)
    && (Quiet(s) ==> AllDone(s))
    && (s.root ==> AllDone(s))
    && (s.call == Starting ==> s.tunnel)
    && OneForking(s)
  }

  predicate OneForking(s: State) {
    (forall v, w | 0 <= v < w < |s.watchers| :: s.watchers[v].pc == Forking ==> s.watchers[w].pc != Forking)
  }

  lemma InitInv(s: State)
    requires Init(s)
    ensures Inv(s)
  {
  }

  lemma CallKeeps(s: State, a: Action)
    requires Inv(s) && Call(s, a).Some?
    ensures Inv(Call(s, a).value)
  {
    hide Locked, OneForking;
    SameForking(s, Call(s, a).value);
    match a {
      case Start(ok) => StartKeeps(s, ok);
      case Take => TakeKeeps(s);
      case Cancel => CancelKeeps(s);
      case _ => hide StartProcess;
    }
  }

  lemma TakeKeeps(s: State)
    requires Inv(s) && Call(s, Take).Some? && OneForking(Call(s, Take).value)
    ensures Inv(Call(s, Take).value)
  {
    hide Locked, OneForking, StartProcess;
    var s' := Call(s, Take).value;
    assert forall c :: Held(s, c) ==> Held(s', c);
  }

  lemma CancelKeeps(s: State)
    requires Inv(s) && Call(s, Cancel).Some? && OneForking(Call(s, Cancel).value)
    ensures Inv(Call(s, Cancel).value)
  {
    hide Locked, OneForking, StartProcess;
  }

  lemma StartKeeps(s: State, ok: bool)
    requires Inv(s) && s.call == Starting && OneForking(StartProcess(s, ok))
    ensures Inv(StartProcess(s, ok))
  {
  }

  /** A step that moves no watcher, or adds one at the top of its loop, keeps the lock as it is. */
  lemma SameForking(s: State, s': State)
    requires OneForking(s) && s.watchers <= s'.watchers
    requires forall w | |s.watchers| <= w < |s'.watchers| :: s'.watchers[w].pc != Forking
    ensures OneForking(s')
  {
  }

  lemma WatchKeeps(s: State, w: nat, pick: bool)
    requires Inv(s) && w < |s.watchers| && WatchStep(s, w, pick).Some?
    ensures Inv(WatchStep(s, w, pick).value)
  {
    hide OneForking, Locked, WatchStep;
    WatchForking(s, w, pick);
    WatchFrame(s, w, pick);
    var s' := WatchStep(s, w, pick).value;
    assert forall c :: Held(s', c) <==> Held(s, c);
  }

  /** What a step of a watcher leaves alone. */
  lemma WatchFrame(s: State, w: nat, pick: bool)
    requires w < |s.watchers| && WatchStep(s, w, pick).Some?
    ensures var s' := WatchStep(s, w, pick).value;
      && s' == s.(watchers := s'.watchers, procs := s'.procs, cmd := s'.cmd, running := s'.running)
      && s'.watchers == s.watchers[w := s'.watchers[w]] && s'.watchers[w].ctx == s.watchers[w].ctx
      && if s.watchers[w].pc == Forking && pick then
           s'.procs == s.procs + [Process(s.watchers[w].ctx, true)] && s'.cmd == Some(|s.procs|)
         else s'.procs == s.procs && s'.cmd == s.cmd
  {
  }

  lemma WatchForking(s: State, w: nat, pick: bool)
    requires OneForking(s) && w < |s.watchers| && WatchStep(s, w, pick).Some?
    ensures OneForking(WatchStep(s, w, pick).value)
  {
  }

  lemma StepKeeps(s: State, a: Action)
    requires Inv(s) && Do(s, a).Some?
    ensures Inv(Do(s, a).value)
  {
    hide Call, WatchStep;
    match a {
      case Watch(w, pick) => WatchKeeps(s, w, pick);
      case Exit(p) =>
      case RootCancel =>
      case _ => CallKeeps(s, a);
    }
  }

  /** In every interleaving, at most one watch context is not cancelled, and the means to cancel it is
      held by m.cancel or by a Stop in progress. */
  lemma {:induction false} RunKeeps(s: State, acts: seq<Action>)
    requires Inv(s) && DoAll(s, acts).Some?
    ensures Inv(DoAll(s, acts).value)
    ensures forall c, d | 0 <= c < d < |DoAll(s, acts).value.cancelled| ::
              DoAll(s, acts).value.cancelled[c] || DoAll(s, acts).value.cancelled[d]
    decreases |acts|
  {
    hide Do;
    if acts != [] {
      StepKeeps(s, acts[0]);
      RunKeeps(Do(s, acts[0]).value, acts[1..]);
    } else {
      forall c, d | 0 <= c < d < |s.cancelled| ensures s.cancelled[c] || s.cancelled[d] {
        if !s.cancelled[c] {
          assert Held(s, c);
        }
        if !s.cancelled[d] {
          assert Held(s, d);
        }
      }
    }
  }

  // ---- After a Stop -------------------------------------------------------------------------------------

  /** No startProcess in this run, so nothing new is supervised. */
  predicate NoStart(acts: seq<Action>) {
    forall i | 0 <= i < |acts| :: !acts[i].Start?
  }

  function LateStarts(s: State): nat {
    if Locked(s) then 1 else 0
  }

  lemma StepAfterStop(s: State, a: Action)
    requires Inv(s) && AllDone(s) && !a.Start? && Do(s, a).Some?
    ensures var s' := Do(s, a).value; AllDone(s') && |s'.procs| + LateStarts(s') <= |s.procs| + LateStarts(s)
  {
    match a {
      case Watch(w, pick) =>
        hide WatchStep;
        WatchFrame(s, w, pick);
        WatchLock(s, w, pick);
      case _ =>
    }
  }

  /** Once every context is done no watcher takes the lock to start a process. */
  lemma WatchLock(s: State, w: nat, pick: bool)
    requires Inv(s) && AllDone(s) && w < |s.watchers| && WatchStep(s, w, pick).Some?
    ensures Locked(WatchStep(s, w, pick).value) <==> Locked(s) && s.watchers[w].pc != Forking
  {
    var s' := WatchStep(s, w, pick).value;
    assert Done(s, s.watchers[w].ctx);
    if v :| 0 <= v < |s.watchers| && s.watchers[v].pc == Forking && s.watchers[w].pc != Forking {
      assert s'.watchers[v].pc == Forking;
    }
  }

  /** After the contexts are cancelled and until the next start, whatever else goes on, every process
      belongs to a cancelled context, and at most one more is started: the one a watcher was starting
      when it happened. */
  lemma {:induction false} AfterStop(s: State, acts: seq<Action>)
    requires Inv(s) && AllDone(s) && NoStart(acts) && DoAll(s, acts).Some?
    ensures var s' := DoAll(s, acts).value;
      && AllDone(s') && |s'.procs| <= |s.procs| + LateStarts(s)
      && forall p | 0 <= p < |s'.procs| :: Done(s', s'.procs[p].ctx)
    decreases |acts|
  {
    hide Do, Locked;
    if acts != [] {
      assert acts[0] in acts;
      StepKeeps(s, acts[0]);
      StepAfterStop(s, acts[0]);
      AfterStop(Do(s, acts[0]).value, acts[1..]);
    }
  }

  /** Stop cancels: when its own steps are over the premise of AfterStop holds. */
  lemma StopCancels(s: State)
    requires Inv(s) && s.call.Killing?
    ensures Do(s, Kill).Some? && Inv(Do(s, Kill).value) && AllDone(Do(s, Kill).value)
    ensures s.call.cmd.Some? && s.call.cmd.value < |s.procs| ==> !Do(s, Kill).value.procs[s.call.cmd.value].live
  {
  }

  function Rank(pc: WatchPC): nat {
    match pc
    case Gone => 0
    case Check => 1
    case Relaunch => 1
    case Pause => 2
    case Exited => 3
    case Waiting(_) => 4
    case Load => 5
    case Forking => 7
  }

  function RankOf(): Watcher -> nat {
    (w: Watcher) => Rank(w.pc)
  }

  function IsLive(): Process -> nat {
    (p: Process) => if p.live then 1 else 0
  }

  /** A bound on what is still to come. */
  function Remaining(s: State): nat {
    Sum(s.watchers, RankOf()) + Sum(s.procs, IsLive())
  }

  predicate Background(a: Action) {
    a.Watch? || a.Exit?
  }

  lemma BackgroundShrinks(s: State, a: Action)
    requires Inv(s) && AllDone(s) && Background(a) && Do(s, a).Some?
    ensures Remaining(Do(s, a).value) < Remaining(s)
  {
    hide Sum, Inv;
    match a {
      case Watch(w, pick) =>
        hide WatchStep;
        WatchFrame(s, w, pick);
        WatchRank(s, w, pick);
        SumUpdate(s.watchers, w, Do(s, a).value.watchers[w], RankOf());
        SumSnoc(s.procs, Process(s.watchers[w].ctx, true), IsLive());
      case Exit(p) =>
        SumUpdate(s.procs, p, s.procs[p].(live := false), IsLive());
    }
  }

  lemma WatchRank(s: State, w: nat, pick: bool)
    requires Inv(s) && AllDone(s) && w < |s.watchers| && WatchStep(s, w, pick).Some?
    ensures var nu := WatchStep(s, w, pick).value.watchers[w];
      Rank(nu.pc) + (if s.watchers[w].pc == Forking && pick then 1 else 0) < Rank(s.watchers[w].pc)
  {
  }

  /** After a Stop the background settles: it can take only a bounded number of steps, and where it can
      take none no process is left alive and no watcher is left. */
  lemma {:induction false} Settles(s: State, acts: seq<Action>)
    requires Inv(s) && AllDone(s) && DoAll(s, acts).Some?
    requires forall i | 0 <= i < |acts| :: Background(acts[i])
    ensures var s' := DoAll(s, acts).value;
      && |acts| + Remaining(s') <= Remaining(s)
      && ((forall a | Background(a) :: Do(s', a).None?) ==>
            (forall p | 0 <= p < |s'.procs| :: !s'.procs[p].live) &&
            (forall w | 0 <= w < |s'.watchers| :: s'.watchers[w].pc == Gone))
    decreases |acts|
  {
    hide Do, Remaining;
    if acts != [] {
      StepKeeps(s, acts[0]);
      StepAfterStop(s, acts[0]);
      BackgroundShrinks(s, acts[0]);
      Settles(Do(s, acts[0]).value, acts[1..]);
    } else if forall a | Background(a) :: Do(s, a).None? {
      NothingLeft(s);
    }
  }

  lemma NothingLeft(s: State)
    requires forall a | Background(a) :: Do(s, a).None?
    ensures forall p | 0 <= p < |s.procs| :: !s.procs[p].live
    ensures forall w | 0 <= w < |s.watchers| :: s.watchers[w].pc == Gone
  {
    forall p | 0 <= p < |s.procs| ensures !s.procs[p].live {
      assert Do(s, Exit(p)).None?;
    }
    forall w | 0 <= w < |s.watchers| ensures s.watchers[w].pc != Forking {
      assert Do(s, Watch(w, true)).None?;
    }
    forall w | 0 <= w < |s.watchers| ensures s.watchers[w].pc == Gone {
      assert Do(s, Watch(w, true)).None?;
    }
  }

  // ---- What calls come to -----------------------------------------------------------------------------------

  function CallRank(pc: CallPC): nat {
    match pc
    case Idle => 0
    case Starting => 1
    case Gated => 2
    case Deleting => 1
    case Killing(_, _) => 2
    case Cancelling(_, _, _) => 3
    case Taking(_) => 4
  }

  /** A call under way can go on whenever nobody holds the lock, and every step brings it nearer to its end:
      at most four more. */
  lemma CallEnds(s: State, a: Action)
    requires s.call != Idle
    ensures Call(s, a).Some? ==> CallRank(Call(s, a).value.call) < CallRank(s.call) <= 4
    ensures !Locked(s) ==> exists b :: Call(s, b).Some?
  {
    hide Locked;
    var b := match s.call
      case Gated => Stored(true)
      case Starting => Start(true)
      case Taking(_) => Take
      case Cancelling(_, _, _) => Cancel
      case Killing(_, _) => Kill
      case _ => Deleted(true);
    assert !Locked(s) ==> Call(s, b).Some?;
  }

  /** An undisturbed Stop, or Delete: every context is cancelled, the process that m.cmd named is dead, nothing is
      supervised, and a Delete that succeeds takes the tunnel away. */
  lemma StopRun(s: State, del: bool, ok: bool)
    requires Inv(s) && s.call == Idle && !Locked(s)
    ensures var acts := if del then [CallDelete, Take, Cancel, Kill, Deleted(ok)] else [CallStop, Take, Cancel, Kill];
      && DoAll(s, acts).Some?
      && var s' := DoAll(s, acts).value;
      && s'.call == Idle && AllDone(s') && s'.cmd == None && s'.cancel == None && !s'.running
      && (s'.tunnel <==> s.tunnel && !(del && ok))
      && |s'.procs| == |s.procs|
      && (s.cmd.Some? ==> s'.procs == s.procs[s.cmd.value := s.procs[s.cmd.value].(live := false)])
  {
    hide Do, Inv, AllDone;
    var s4 := StopSteps(s, del);
    var last := if del then [Deleted(ok)] else [];
    var first := if del then CallDelete else CallStop;
    StopEnds(s4, del, ok);
    var s1 := Do(s, first).value;
    var s2 := Do(s1, Take).value;
    var s3 := Do(s2, Cancel).value;
    DoFirst(s3, Kill, last);
    DoFirst(s2, Cancel, [Kill] + last);
    DoFirst(s1, Take, [Cancel] + ([Kill] + last));
    DoFirst(s, first, [Take] + ([Cancel] + ([Kill] + last)));
    assert [first] + ([Take] + ([Cancel] + ([Kill] + last))) ==
           if del then [CallDelete, Take, Cancel, Kill, Deleted(ok)] else [CallStop, Take, Cancel, Kill];
  }

  /** The four steps that a Stop and a Delete have in common. */
  lemma StopSteps(s: State, del: bool) returns (s4: State)
    requires Inv(s) && s.call == Idle && !Locked(s)
    ensures var s1 := Do(s, if del then CallDelete else CallStop);
      && s1.Some? && Do(s1.value, Take).Some?
      && var s2 := Do(s1.value, Take).value;
      && Do(s2, Cancel).Some? && Do(Do(s2, Cancel).value, Kill) == Some(s4)
    ensures AllDone(s4) && s4.cmd == None && s4.cancel == None && !s4.running && s4.tunnel == s.tunnel
    ensures s4.call == (if del then Deleting else Idle) && |s4.procs| == |s.procs|
    ensures s4.procs == if s.cmd.Some? then s.procs[s.cmd.value := s.procs[s.cmd.value].(live := false)] else s.procs
  {
    var s1 := s.(call := Taking(del));
    SameLock(s, s1);
    hide Locked, StartProcess, WatchStep, Inv;
    var s2 := s1.(cancel := None, cmd := None, running := false, call := Cancelling(del, s.cancel, s.cmd));
    assert Do(s, if del then CallDelete else CallStop) == Some(s1) && Do(s1, Take) == Some(s2);
    var s3 := Do(s2, Cancel).value;
    s4 := Do(s3, Kill).value;
    OnlyCancel(s);
  }

  lemma OnlyCancel(s: State)
    requires Inv(s) && s.call == Idle
    ensures forall c | 0 <= c < |s.cancelled| && !s.cancelled[c] :: s.cancel == Some(c)
    ensures s.cmd.Some? ==> s.cmd.value < |s.procs|
  {
  }

  lemma StopEnds(s: State, del: bool, ok: bool)
    requires s.call == (if del then Deleting else Idle) && AllDone(s)
    ensures var r := DoAll(s, if del then [Deleted(ok)] else []);
      r == Some(s.(call := Idle, tunnel := s.tunnel && !(del && ok))) && AllDone(r.value)
  {
    assert [Deleted(ok)][1..] == [];
  }

  lemma DoFirst(s: State, a: Action, rest: seq<Action>)
    requires Do(s, a).Some?
    ensures DoAll(s, [a] + rest) == DoAll(Do(s, a).value, rest)
  {
    hide Do;
    assert ([a] + rest)[0] == a && ([a] + rest)[1..] == rest;
  }

  lemma SameLock(s: State, s': State)
    requires s'.watchers == s.watchers
    ensures Locked(s') <==> Locked(s)
  {
  }

  /** Without a cancel a watcher gives up only when there is no process to wait for, or one cannot be started. */
  lemma GivesUpIff(s: State, w: nat, pick: bool)
    requires w < |s.watchers| && WatchStep(s, w, pick).Some? && !Done(s, s.watchers[w].ctx)
    ensures var pc := s.watchers[w].pc;
      WatchStep(s, w, pick).value.watchers[w].pc == Gone <==> (pc == Load && s.cmd == None) || (pc == Forking && !pick)
  {
    hide Locked;
  }

  /** The store's tunnel comes only with a Create and goes only with a Delete that succeeds. */
  lemma TunnelIff(s: State, a: Action)
    requires Do(s, a).Some?
    ensures Do(s, a).value.tunnel != s.tunnel <==>
            (a == Stored(true) && !s.tunnel) || (a == Deleted(true) && s.tunnel)
  {
    match a {
      case Watch(w, pick) =>
        hide WatchStep;
        WatchFrame(s, w, pick);
      case _ => hide WatchStep, Locked;
    }
  }

  predicate Deletes(pc: CallPC) {
    (pc.Taking? && pc.del) || (pc.Cancelling? && pc.del) || (pc.Killing? && pc.del) || pc == Deleting
  }

  lemma DeletesKept(s: State, a: Action)
    requires !Deletes(s.call) && a != CallDelete && Do(s, a).Some?
    ensures !Deletes(Do(s, a).value.call) && (s.tunnel ==> Do(s, a).value.tunnel)
  {
    TunnelIff(s, a);
    match a {
      case Watch(w, pick) =>
        hide WatchStep;
        WatchFrame(s, w, pick);
      case _ => hide WatchStep, Locked;
    }
  }

  /** Through any run without a Delete, whatever is stopped, the stored tunnel stays. */
  lemma {:induction false} TunnelStays(s: State, acts: seq<Action>)
    requires s.tunnel && !Deletes(s.call) && CallDelete !in acts && DoAll(s, acts).Some?
    ensures DoAll(s, acts).value.tunnel
    decreases |acts|
  {
    hide Do, Deletes;
    if acts != [] {
      assert acts[0] in acts;
      DeletesKept(s, acts[0]);
      TunnelStays(Do(s, acts[0]).value, acts[1..]);
    }
  }

  /** Once the application's context is cancelled every watch context is, and stays so, whatever is called. */
  lemma {:induction false} RootEndsAll(s: State, acts: seq<Action>)
    requires Inv(s) && DoAll(s, acts).Some? && (s.root || RootCancel in acts)
    ensures DoAll(s, acts).value.root && AllDone(DoAll(s, acts).value)
    decreases |acts|
  {
    hide Do, Inv, AllDone;
    if acts == [] {
      RootDone(s);
    } else {
      var s' := Do(s, acts[0]).value;
      StepKeeps(s, acts[0]);
      RootStep(s, acts[0]);
      assert RootCancel in acts ==> acts[0] == RootCancel || RootCancel in acts[1..];
      RootEndsAll(s', acts[1..]);
    }
  }

  lemma RootDone(s: State)
    requires Inv(s) && s.root
    ensures AllDone(s)
  {
  }

  lemma RootStep(s: State, a: Action)
    requires Do(s, a).Some?
    ensures Do(s, a).value.root <==> s.root || a == RootCancel
  {
    match a {
      case Watch(w, pick) =>
        hide WatchStep;
        WatchFrame(s, w, pick);
      case _ => hide WatchStep, Locked;
    }
  }

  // ---- When `running` tells the truth -----------------------------------------------------------------------

  /** Some process is alive and nobody has cancelled its context. */
  predicate Alive(s: State) {
    exists p | 0 <= p < |s.procs| :: s.procs[p].live && !Done(s, s.procs[p].ctx)
  }

  /** `running` is set beside a living process, except between the two halves of a Stop. */
  predicate Honest(s: State) {
    Alive(s) && !s.call.Cancelling? ==> s.running
  }

  /** A watcher reports the end of its process while another one lives. */
  predicate LateReport(s: State, a: Action) {
    a.Watch? && a.w < |s.watchers| && s.watchers[a.w].pc == Exited && Alive(s) && !s.call.Cancelling?
  }

  /** A step makes `running` lie in just one way: a watcher is late to report. */
  lemma HonestIff(s: State, a: Action)
    requires Inv(s) && Honest(s) && Do(s, a).Some?
    ensures Honest(Do(s, a).value) <==> !LateReport(s, a)
  {
    var s' := Do(s, a).value;
    match a {
      case Watch(w, pick) => WatchAlive(s, w, pick);
      case Start(ok) => StartAlive(s, ok);
      case _ =>
    }
  }

  lemma WatchAlive(s: State, w: nat, pick: bool)
    requires Inv(s) && Honest(s) && w < |s.watchers| && WatchStep(s, w, pick).Some?
    ensures Honest(WatchStep(s, w, pick).value) <==> !LateReport(s, Watch(w, pick))
  {
    var s' := WatchStep(s, w, pick).value;
    hide NextPC, Inv;
    WatchFrame(s, w, pick);
    if s.watchers[w].pc != Forking {
      assert Alive(s') <==> Alive(s);
    }
  }

  lemma StartAlive(s: State, ok: bool)
    requires Inv(s) && Honest(s) && s.call == Starting
    ensures Honest(StartProcess(s, ok))
  {
    var s' := StartProcess(s, ok);
    if p :| 0 <= p < |s'.procs| && s'.procs[p].live && !Done(s', s'.procs[p].ctx) && p < |s.procs| {
      assert s.procs[p].ctx < |s.cancelled| && !Done(s, s.procs[p].ctx);
    }
  }

  predicate HonestAll(s: State, acts: seq<Action>)
    requires DoAll(s, acts).Some?
    decreases |acts|
  {
    Honest(s) && (acts == [] || HonestAll(Do(s, acts[0]).value, acts[1..]))
  }

  predicate NoLateReport(s: State, acts: seq<Action>)
    requires DoAll(s, acts).Some?
    decreases |acts|
  {
    acts == [] || (!LateReport(s, acts[0]) && NoLateReport(Do(s, acts[0]).value, acts[1..]))
  }

  /** All through a run `running` is set beside a living process exactly when no watcher reports late. */
  lemma {:induction false} HonestRunIff(s: State, acts: seq<Action>)
    requires Inv(s) && Honest(s) && DoAll(s, acts).Some?
    ensures HonestAll(s, acts) <==> NoLateReport(s, acts)
    decreases |acts|
  {
    hide Do, Inv, Honest, LateReport;
    if acts != [] {
      HonestIff(s, acts[0]);
      StepKeeps(s, acts[0]);
      if Honest(Do(s, acts[0]).value) {
        HonestRunIff(Do(s, acts[0]).value, acts[1..]);
      }
    }
  }

  // ---- What does not hold ---------------------------------------------------------------------------------

  const BOOTED := State(false, [], [], [], None, false, None, false, Idle)

  ghost predicate Reachable(s: State) {
    exists acts :: DoAll(BOOTED, acts) == Some(s)
  }

  lemma Then(s: State, a: Action) returns (s': State)
    requires Reachable(s) && Do(s, a).Some?
    ensures s' == Do(s, a).value && Reachable(s')
  {
    s' := Do(s, a).value;
    var acts :| DoAll(BOOTED, acts) == Some(s);
    DoLast(BOOTED, acts, a);
    assert DoAll(BOOTED, acts + [a]) == Some(s');
  }

  lemma {:induction false} DoLast(s: State, acts: seq<Action>, a: Action)
    requires DoAll(s, acts).Some?
    ensures DoAll(s, acts + [a]) == Do(DoAll(s, acts).value, a)
    decreases |acts|
  {
    hide Do;
    if acts == [] {
      assert ([] + [a])[0] == a && ([] + [a])[1..] == [];
    } else {
      assert (acts + [a])[0] == acts[0] && (acts + [a])[1..] == acts[1..] + [a];
      DoLast(Do(s, acts[0]).value, acts[1..], a);
    }
  }

  /** A first Create, whose process has crashed and been waited for. */
  lemma CreatedAndCrashed() returns (s: State)
    ensures Reachable(s)
    ensures s == State(false, [false], [Process(0, false)], [Watcher(0, Exited)], Some(0), true, Some(0), true, Idle)
  {
    hide Reachable;
    s := CreatedAndUp();
    s := Then(s, Watch(0, true));
    s := Then(s, Exit(0));
    assert s == State(false, [false], [Process(0, false)], [Watcher(0, Waiting(0))], Some(0), true, Some(0), true,
                      Idle);
    s := Then(s, Watch(0, true));
  }

  lemma CreatedAndUp() returns (s: State)
    ensures Reachable(s)
    ensures s == State(false, [false], [Process(0, true)], [Watcher(0, Load)], Some(0), true, Some(0), true, Idle)
  {
    hide Reachable;
    s := Booted();
    s := Then(s, Gate);
    s := Then(s, Stored(true));
    s := Then(s, Start(true));
  }

  lemma Booted() returns (s: State)
    ensures s == BOOTED && Reachable(s) && Init(s)
  {
    s := BOOTED;
    assert DoAll(BOOTED, []) == Some(BOOTED);
  }

  lemma DeletedSinceCrash() returns (s: State)
    ensures Reachable(s)
    ensures s == State(false, [true], [Process(0, false)], [Watcher(0, Exited)], None, false, None, false, Idle)
  {
    hide Reachable;
    s := CreatedAndCrashed();
    s := Then(s, CallDelete);
    s := Then(s, Take);
    s := Then(s, Cancel);
    s := Then(s, Kill);
    s := Then(s, Deleted(true));
  }

  /** `running` can be false beside a live process that nobody is stopping: the first watcher says that
      its process has ended only after Delete and a second Create. */
  lemma FalseWhileAlive() returns (s: State)
    ensures Reachable(s) && s.call == Idle && s.tunnel && !s.running
    ensures Alive(s)
  {
    hide Reachable;
    s := DeletedSinceCrash();
    s := Then(s, Gate);
    s := Then(s, Stored(true));
    s := Then(s, Start(true));
    assert s == State(false, [true, false], [Process(0, false), Process(1, true)],
                      [Watcher(0, Exited), Watcher(1, Load)], Some(1), true, Some(1), true, Idle);
    s := Then(s, Watch(0, true));
    assert s.procs[1].live && !Done(s, s.procs[1].ctx);
  }

  /** And Create can report success and leave nothing running: the watcher restarts its process after
      Delete's Stop has cleared the fields and before it cancels, and the next Create goes by `running`. */
  lemma CreatedButNotStarted() returns (s: State)
    ensures Reachable(s) && s.call == Idle && s.tunnel && s.running
    ensures AllDone(s) && forall p | 0 <= p < |s.procs| :: !s.procs[p].live
  {
    hide Reachable;
    s := RestartedInStop();
    s := Then(s, Cancel);
    s := Then(s, Kill);
    s := Then(s, Exit(1));
    s := Then(s, Deleted(true));
    assert s == State(false, [true], [Process(0, false), Process(0, false)], [Watcher(0, Load)], Some(1), true, None,
                      false, Idle);
    s := Then(s, Gate);
    s := Then(s, Stored(true));
    s := Then(s, Start(true));
  }

  lemma RestartedInStop() returns (s: State)
    ensures Reachable(s)
    ensures s == State(false, [false], [Process(0, false), Process(0, true)], [Watcher(0, Load)], Some(1), true, None,
                       true, Cancelling(true, Some(0), Some(0)))
  {
    hide Reachable;
    s := CreatedAndCrashed();
    s := Then(s, Watch(0, true));
    s := Then(s, Watch(0, true));
    s := Then(s, Watch(0, true));
    s := Then(s, CallDelete);
    s := Then(s, Take);
    assert s == State(false, [false], [Process(0, false)], [Watcher(0, Relaunch)], None, false, None, true,
                      Cancelling(true, Some(0), Some(0)));
    s := Then(s, Watch(0, true));
    s := Then(s, Watch(0, true));
  }

  /** A Create that gets as far as starting leaves a process alive and not being stopped exactly when
      `running` was false. */
  lemma CreateStartsIff(s: State)
    requires Inv(s) && s.call == Starting && !Locked(s) && !s.root
    ensures var s' := Do(s, Start(true)).value;
      Alive(s') <==> !s.running
  {
    var s' := Do(s, Start(true)).value;
    if !s.running {
      assert s'.procs[|s.procs|].live && !Done(s', s'.procs[|s.procs|].ctx);
    }
  }
}
