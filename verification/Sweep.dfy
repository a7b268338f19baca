/**
 The TCP sweep (internal/discovery/network.go:293-364) as a step system: one goroutine for each address
 and port, at most 1024 of them at a time, shared counters, and progress lines at every quarter.
 */
module Sweep {
  import opened Common

  datatype Outcome = Open | Refused | TimedOut | Other

  datatype PC =
    | Waiting
    | Dialling
    | Counting(o: Outcome)
    | Appending
    | Adding(o: Outcome)
    | Logging(o: Outcome, n: nat)
    | Over(o: Outcome)
    | Skipped              // the context was done before the dial

  datatype State = State(
    jobs: seq<PC>,         // in the order they are started
    counts: map<Outcome, nat>,
    done: nat,
    open: seq<nat>,        // the jobs whose port is listed as open
    lines: seq<nat>,       // the percentages of the progress lines written
    cancelled: bool)

  datatype Action = Go(w: nat, o: Outcome) | Cancel

  const LIMIT := 1024

  predicate Init(s: State) {
    && s == State(s.jobs, map[Open := 0, Refused := 0, TimedOut := 0, Other := 0], 0, [], [], false)
    && forall w | 0 <= w < |s.jobs| :: s.jobs[w] == Waiting
  }

  function One(b: bool): nat {
    if b then 1 else 0
  }

  function Count(jobs: seq<PC>, p: PC -> bool): nat {
    if jobs == [] then 0 else One(p(jobs[0])) + Count(jobs[1..], p)
  }

  function IsRunning(): PC -> bool {
    (pc: PC) => pc != Waiting && !pc.Over? && pc != Skipped
  }

  /** What job number n to be finished logs, of `total`: the quarter it completes. */
  function Line(n: nat, total: nat): Option<nat>
    requires total > 0
  {
    var prev, curr := if n == 0 then 0 else (n - 1) * 100 / total, n * 100 / total;
    if curr / 25 > prev / 25 && curr < 100 then Some(curr / 25 * 25) else None
  }

  /** The next step of job `w`; `o` is how its dial ends. */
  function GoStep(s: State, w: nat, o: Outcome): Option<State>
    requires w < |s.jobs|
  {
    match s.jobs[w]
    case Waiting =>
      if (w > 0 && s.jobs[w - 1] == Waiting) || Count(s.jobs, IsRunning()) >= LIMIT then None
      else Some(s.(jobs := s.jobs[w := if s.cancelled then Skipped else Dialling]))
    case Dialling => Some(s.(jobs := s.jobs[w := Counting(o)]))
    case Counting(o) =>
      Some(s.(jobs := s.jobs[w := if o == Open then Appending else Adding(o)],
              counts := s.counts[o := if o in s.counts then s.counts[o] + 1 else 1]))
    case Appending => Some(s.(jobs := s.jobs[w := Adding(Open)], open := s.open + [w]))
    case Adding(o) => Some(s.(jobs := s.jobs[w := Logging(o, s.done + 1)], done := s.done + 1))
    case Logging(o, n) =>
      Some(s.(jobs := s.jobs[w := Over(o)],
              lines := match Line(n, |s.jobs|) case None => s.lines case Some(k) => s.lines + [k]))
    case _ => None
  }

  function Do(s: State, a: Action): Option<State> {
    match a
    case Go(w, o) => if w < |s.jobs| then GoStep(s, w, o) else None
    case Cancel => Some(s.(cancelled := true))
  }

  function DoAll(s: State, acts: seq<Action>): Option<State>
    decreases |acts|
  {
    if acts == [] then Some(s)
    else match Do(s, acts[0])
      case None => None
      case Some(s') => DoAll(s', acts[1..])
  }

  // ---- Counters ---------------------------------------------------------------------------------------

  function IsCounted(o: Outcome): PC -> bool {
    (pc: PC) => match pc
      case Appending => o == Open
      case Adding(p) => p == o
      case Logging(p, _) => p == o
      case Over(p) => p == o
      case _ => false
  }

  function IsAdded(): PC -> bool {
    (pc: PC) => pc.Logging? || pc.Over?
  }

  predicate Listed(pc: PC) {
    (pc.Adding? || pc.Logging? || pc.Over?) && pc.o == Open
  }

  ghost predicate CountsRight(s: State) {
    && (forall o: Outcome :: o in s.counts && s.counts[o] == Count(s.jobs, IsCounted(o)))
    && s.done == Count(s.jobs, IsAdded())
    && OpenRight(s.jobs, s.open)
  }

  /** The list has each job that has put itself there, once. */
  ghost predicate OpenRight(jobs: seq<PC>, open: seq<nat>) {
    forall w: nat :: multiset(open)[w] == if w < |jobs| && Listed(jobs[w]) then 1 else 0
  }

  lemma {:induction false} CountUpdate(jobs: seq<PC>, w: nat, nu: PC, p: PC -> bool)
    requires w < |jobs|
    ensures Count(jobs[w := nu], p) == Count(jobs, p) - One(p(jobs[w])) + One(p(nu))
  {
    if w == 0 {
      assert jobs[w := nu][1..] == jobs[1..];
    } else {
      assert jobs[w := nu][1..] == jobs[1..][w - 1 := nu];
      CountUpdate(jobs[1..], w - 1, nu, p);
    }
  }

  lemma {:induction false} CountNone(jobs: seq<PC>, p: PC -> bool)
    ensures (forall w | 0 <= w < |jobs| :: !p(jobs[w])) ==> Count(jobs, p) == 0
    ensures (forall w | 0 <= w < |jobs| :: p(jobs[w])) ==> Count(jobs, p) == |jobs|
    ensures Count(jobs, p) <= |jobs|
  {
    if jobs != [] {
      CountNone(jobs[1..], p);
    }
  }

  /** What a step of a job does to the counters. */
  lemma CountFrame(s: State, w: nat, o: Outcome)
    requires w < |s.jobs| && GoStep(s, w, o).Some? && forall c: Outcome :: c in s.counts
    ensures var s', pc := GoStep(s, w, o).value, s.jobs[w];
      forall c: Outcome :: c in s'.counts &&
        s'.counts[c] == s.counts[c] - One(IsCounted(c)(pc)) + One(IsCounted(c)(s'.jobs[w]))
  {
    hide Count, Line;
    assert GoStep(s, w, o).value.jobs[w] != Waiting;
  }

  lemma JobFrame(s: State, w: nat, o: Outcome)
    requires w < |s.jobs| && GoStep(s, w, o).Some?
    ensures var s' := GoStep(s, w, o).value; s'.jobs == s.jobs[w := s'.jobs[w]]
  {
    hide Count, Line;
  }

  lemma OpenFrame(s: State, w: nat, o: Outcome)
    requires w < |s.jobs| && GoStep(s, w, o).Some?
    ensures var s', pc := GoStep(s, w, o).value, s.jobs[w]; var nu := s'.jobs[w];
      && s'.done == s.done - One(IsAdded()(pc)) + One(IsAdded()(nu))
      && (Listed(pc) ==> Listed(nu)) && s'.open == if Listed(nu) && !Listed(pc) then s.open + [w] else s.open
  {
    hide Count, Line;
  }

  lemma CountsStep(s: State, a: Action)
    requires CountsRight(s) && Do(s, a).Some?
    ensures CountsRight(Do(s, a).value)
  {
    hide Count, Line, GoStep, IsCounted, IsAdded;
    if a.Go? {
      JobFrame(s, a.w, a.o);
      CountFrame(s, a.w, a.o);
      OpenFrame(s, a.w, a.o);
      var w, s' := a.w, Do(s, a).value;
      forall c: Outcome ensures c in s'.counts && s'.counts[c] == Count(s'.jobs, IsCounted(c)) {
        CountUpdate(s.jobs, w, s'.jobs[w], IsCounted(c));
      }
      CountUpdate(s.jobs, w, s'.jobs[w], IsAdded());
      forall v: nat ensures multiset(s'.open)[v] == if v < |s'.jobs| && Listed(s'.jobs[v]) then 1 else 0 {
        assert v != w && v < |s.jobs| ==> s'.jobs[v] == s.jobs[v];
        assert multiset(s.open)[v] == if v < |s.jobs| && Listed(s.jobs[v]) then 1 else 0;
      }
    }
  }

  // ---- Progress lines -----------------------------------------------------------------------------------

  function Single(k: Option<nat>): multiset<nat> {
    match k case None => multiset{} case Some(k) => multiset{k}
  }

  function ToLog(pc: PC, total: nat): multiset<nat>
    requires total > 0
  {
    if pc.Logging? then Single(Line(pc.n, total)) else multiset{}
  }

  function ToLogOf(total: nat): PC -> multiset<nat>
    requires total > 0
  {
    (pc: PC) => ToLog(pc, total)
  }

  /** The lines due when `n` jobs have been counted as done. */
  function Lines(n: nat, total: nat): multiset<nat>
    requires total > 0
  {
    if n == 0 then multiset{} else Lines(n - 1, total) + Single(Line(n, total))
  }

  ghost predicate LinesRight(s: State) {
    |s.jobs| > 0 ==> multiset(s.lines) + Bag(s.jobs, ToLogOf(|s.jobs|)) == Lines(s.done, |s.jobs|)
  }

  function Written(pc: PC, total: nat): seq<nat>
    requires total > 0
  {
    if pc.Logging? && Line(pc.n, total).Some? then [Line(pc.n, total).value] else []
  }

  /** What a step of a job does to the lines. */
  lemma LineFrame(s: State, w: nat, o: Outcome)
    requires w < |s.jobs| && GoStep(s, w, o).Some?
    ensures var s', t, pc := GoStep(s, w, o).value, |s.jobs|, s.jobs[w]; var nu := s'.jobs[w];
      && s'.jobs == s.jobs[w := nu] && s'.lines == s.lines + Written(pc, t)
      && (if pc.Adding? then s'.done == s.done + 1 && nu == Logging(pc.o, s'.done)
          else s'.done == s.done && !nu.Logging?)
  {
    hide Count, Line;
  }

  lemma LineEffect(s: State, w: nat, o: Outcome)
    requires w < |s.jobs| && GoStep(s, w, o).Some?
    ensures var s', t, pc := GoStep(s, w, o).value, |s.jobs|, s.jobs[w]; var nu := s'.jobs[w];
      && s'.jobs == s.jobs[w := nu]
      && multiset(s'.lines) == multiset(s.lines) + ToLog(pc, t)
      && Lines(s'.done, t) == Lines(s.done, t) + ToLog(nu, t)
  {
    hide Line, Lines, GoStep;
    LineFrame(s, w, o);
    var t, pc := |s.jobs|, s.jobs[w];
    NextLine(s.done, t);
    assert Lines(s.done, t) + multiset{} == Lines(s.done, t);
    assert multiset(Written(pc, t)) == ToLog(pc, t);
    assert multiset(s.lines + Written(pc, t)) == multiset(s.lines) + multiset(Written(pc, t));
  }

  lemma LinesStep(s: State, a: Action)
    requires LinesRight(s) && Do(s, a).Some?
    ensures LinesRight(Do(s, a).value)
  {
    hide ToLog, Bag, Lines, GoStep;
    if a.Go? {
      var w, s', t := a.w, Do(s, a).value, |s.jobs|;
      LineEffect(s, w, a.o);
      BagUpdate(s.jobs, w, s'.jobs[w], ToLogOf(t));
      Shift(multiset(s.lines), Bag(s.jobs, ToLogOf(t)), Bag(s'.jobs, ToLogOf(t)), ToLog(s.jobs[w], t),
            ToLog(s'.jobs[w], t));
    }
  }

  lemma NextLine(n: nat, total: nat)
    requires total > 0
    ensures Lines(n + 1, total) == Lines(n, total) + Single(Line(n + 1, total))
  {
  }

  // ---- Runs ---------------------------------------------------------------------------------------------

  lemma {:induction false} RunKeeps(s: State, acts: seq<Action>)
    requires CountsRight(s) && LinesRight(s) && DoAll(s, acts).Some?
    ensures CountsRight(DoAll(s, acts).value) && LinesRight(DoAll(s, acts).value)
    ensures |DoAll(s, acts).value.jobs| == |s.jobs|
    decreases |acts|
  {
    hide CountsRight, LinesRight, Count, Line;
    if acts != [] {
      CountsStep(s, acts[0]);
      LinesStep(s, acts[0]);
      RunKeeps(Do(s, acts[0]).value, acts[1..]);
    }
  }

  lemma InitRight(s: State)
    requires Init(s)
    ensures CountsRight(s) && LinesRight(s)
  {
    forall o: Outcome ensures o in s.counts && s.counts[o] == Count(s.jobs, IsCounted(o)) {
      match o {
        case Open => case Refused => case TimedOut => case Other =>
      }
      CountNone(s.jobs, IsCounted(o));
    }
    CountNone(s.jobs, IsAdded());
    if s.jobs != [] {
      BagNone(s.jobs, ToLogOf(|s.jobs|));
    }
  }

  predicate Ended(s: State) {
    forall w | 0 <= w < |s.jobs| :: s.jobs[w].Over? || s.jobs[w] == Skipped
  }

  predicate NoneSkipped(s: State) {
    forall w | 0 <= w < |s.jobs| :: s.jobs[w] != Skipped
  }

  function Total(s: State): nat
    requires forall o: Outcome :: o in s.counts
  {
    s.counts[Open] + s.counts[Refused] + s.counts[TimedOut] + s.counts[Other]
  }

  /** Without a cancellation no goroutine is skipped. */
  lemma {:induction false} NoCancelNoSkip(s: State, acts: seq<Action>)
    requires !s.cancelled && NoneSkipped(s) && Cancel !in acts && DoAll(s, acts).Some?
    ensures NoneSkipped(DoAll(s, acts).value)
    decreases |acts|
  {
    hide Count, Line;
    if acts != [] {
      assert acts[0] in acts && acts[0] != Cancel;
      assert forall a | a in acts[1..] :: a in acts;
      NoCancelNoSkip(Do(s, acts[0]).value, acts[1..]);
    }
  }

  /** In every interleaving, when all goroutines have ended: the four counters add up to the number
      finished, which is all of them if the sweep was not cancelled, and in any case exactly when none
      was skipped; exactly the ports that answered are listed, each once; and the progress lines are
      those of the jobs counted. */
  lemma SweepResult(s: State, acts: seq<Action>)
    requires Init(s) && DoAll(s, acts).Some? && Ended(DoAll(s, acts).value)
    ensures var s' := DoAll(s, acts).value;
      && (forall o: Outcome :: o in s'.counts)
      && Total(s') == s'.done <= |s.jobs| && (NoneSkipped(s') <==> s'.done == |s.jobs|)
      && (Cancel !in acts ==> s'.done == |s.jobs|)
      && |s'.open| == s'.counts[Open]
      && (forall w: nat :: multiset(s'.open)[w] == if w < |s'.jobs| && s'.jobs[w] == Over(Open) then 1 else 0)
      && (|s.jobs| > 0 ==> multiset(s'.lines) == Lines(s'.done, |s.jobs|))
  {
    hide Count, Line, Do, DoAll, Lines, OpenRight;
    InitRight(s);
    RunKeeps(s, acts);
    var s' := DoAll(s, acts).value;
    if Cancel !in acts {
      NoCancelNoSkip(s, acts);
    }
    EndedCounts(s');
    if s'.jobs != [] {
      BagNone(s'.jobs, ToLogOf(|s'.jobs|));
    }
  }

  lemma EndedCounts(s: State)
    requires CountsRight(s) && Ended(s)
    ensures Total(s) == s.done <= |s.jobs| && (NoneSkipped(s) <==> s.done == |s.jobs|) && |s.open| == s.counts[Open]
    ensures forall w: nat :: multiset(s.open)[w] == if w < |s.jobs| && s.jobs[w] == Over(Open) then 1 else 0
  {
    hide Count;
    CountsAddUp(s.jobs);
    AddedAll(s.jobs);
    OpenCounted(s.jobs, s.open);
  }

  lemma {:induction false} CountsAddUp(jobs: seq<PC>)
    requires forall w | 0 <= w < |jobs| :: jobs[w].Over? || jobs[w] == Skipped
    ensures Count(jobs, IsCounted(Open)) + Count(jobs, IsCounted(Refused)) + Count(jobs, IsCounted(TimedOut))
            + Count(jobs, IsCounted(Other)) == Count(jobs, IsAdded())
  {
    if jobs != [] {
      CountsAddUp(jobs[1..]);
    }
  }

  lemma {:induction false} AddedAll(jobs: seq<PC>)
    requires forall w | 0 <= w < |jobs| :: jobs[w].Over? || jobs[w] == Skipped
    ensures Count(jobs, IsAdded()) <= |jobs|
    ensures Count(jobs, IsAdded()) == |jobs| <==> forall w | 0 <= w < |jobs| :: jobs[w] != Skipped
  {
    if jobs != [] {
      AddedAll(jobs[1..]);
      assert (forall w | 0 <= w < |jobs| :: jobs[w] != Skipped) <==>
             jobs[0] != Skipped && forall w | 0 <= w < |jobs[1..]| :: jobs[1..][w] != Skipped by {
        assert forall w | 1 <= w < |jobs| :: jobs[w] == jobs[1..][w - 1];
      }
    }
  }

  /** A list that has each of the jobs that answered once is as long as their count. */
  lemma {:induction false} OpenCounted(jobs: seq<PC>, open: seq<nat>)
    requires forall w | 0 <= w < |jobs| :: jobs[w].Over? || jobs[w] == Skipped
    requires OpenRight(jobs, open)
    ensures |open| == Count(jobs, IsCounted(Open))
    decreases |jobs|
  {
    if jobs == [] {
      assert forall i | 0 <= i < |open| :: multiset(open)[open[i]] > 0;
    } else {
      var n := |jobs| - 1;
      var rest := jobs[..n];
      CountSnoc(rest, jobs[n], IsCounted(Open));
      assert rest + [jobs[n]] == jobs;
      if Listed(jobs[n]) {
        var open' := TakeOut(jobs, open);
        OpenCounted(rest, open');
      } else {
        OpenCounted(rest, open);
      }
    }
  }

  lemma TakeOut(jobs: seq<PC>, open: seq<nat>) returns (open': seq<nat>)
    requires jobs != [] && OpenRight(jobs, open) && Listed(jobs[|jobs| - 1])
    ensures |open'| == |open| - 1 && OpenRight(jobs[..|jobs| - 1], open')
  {
    var n := |jobs| - 1;
    assert n in multiset(open);
    var i :| 0 <= i < |open| && open[i] == n;
    open' := open[..i] + open[i + 1..];
    assert open == open[..i] + [n] + open[i + 1..];
    var one: multiset<nat> := multiset{n};
    assert multiset(open) == multiset(open') + one;
    forall w: nat ensures multiset(open')[w] == if w < n && Listed(jobs[..n][w]) then 1 else 0 {
      assert multiset(open)[w] == if w < |jobs| && Listed(jobs[w]) then 1 else 0;
    }
  }

  lemma {:induction false} CountSnoc(jobs: seq<PC>, pc: PC, p: PC -> bool)
    ensures Count(jobs + [pc], p) == Count(jobs, p) + One(p(pc))
  {
    if jobs == [] {
      assert ([] + [pc])[1..] == [];
    } else {
      assert (jobs + [pc])[0] == jobs[0] && (jobs + [pc])[1..] == jobs[1..] + [pc];
      CountSnoc(jobs[1..], pc, p);
    }
  }

  // ---- No more than the limit, and never stuck --------------------------------------------------------------

  lemma LimitStep(s: State, a: Action)
    requires Count(s.jobs, IsRunning()) <= LIMIT && Do(s, a).Some?
    ensures Count(Do(s, a).value.jobs, IsRunning()) <= LIMIT
  {
    hide Count, Line;
    if a.Go? {
      var s' := Do(s, a).value;
      CountUpdate(s.jobs, a.w, s'.jobs[a.w], IsRunning());
      assert s'.jobs == s.jobs[a.w := s'.jobs[a.w]];
    }
  }

  /** Never more than 1024 dials at a time. */
  lemma {:induction false} LimitHolds(s: State, acts: seq<Action>)
    requires Count(s.jobs, IsRunning()) <= LIMIT && DoAll(s, acts).Some?
    ensures Count(DoAll(s, acts).value.jobs, IsRunning()) <= LIMIT
    decreases |acts|
  {
    hide Count, Do;
    if acts != [] {
      LimitStep(s, acts[0]);
      LimitHolds(Do(s, acts[0]).value, acts[1..]);
    }
  }

  function Diallers(jobs: seq<PC>): set<nat> {
    set w: nat | w < |jobs| && jobs[w] == Dialling
  }

  lemma {:induction false} DialsCounted(jobs: seq<PC>)
    ensures |Diallers(jobs)| <= Count(jobs, IsRunning())
  {
    if jobs == [] {
      assert Diallers(jobs) == {};
    } else {
      var n := |jobs| - 1;
      assert jobs == jobs[..n] + [jobs[n]];
      DialsCounted(jobs[..n]);
      CountSnoc(jobs[..n], jobs[n], IsRunning());
      assert Diallers(jobs) == Diallers(jobs[..n]) + if jobs[n] == Dialling then {n} else {};
    }
  }

  /** In no state of a sweep do more than 1024 goroutines dial. */
  lemma DialsAtMost(s: State, acts: seq<Action>)
    requires Init(s) && DoAll(s, acts).Some?
    ensures |Diallers(DoAll(s, acts).value.jobs)| <= 1024
  {
    CountNone(s.jobs, IsRunning());
    LimitHolds(s, acts);
    DialsCounted(DoAll(s, acts).value.jobs);
  }

  lemma CancelStep(s: State, a: Action)
    requires Do(s, a).Some?
    ensures var s' := Do(s, a).value;
      && |s'.jobs| == |s.jobs| && (s'.cancelled <==> s.cancelled || a == Cancel)
      && forall w | 0 <= w < |s.jobs| ::
           s.jobs[w] == Waiting || s.jobs[w] == Skipped ==>
             s'.jobs[w] == s.jobs[w] || s'.jobs[w] == if s.cancelled then Skipped else Dialling
  {
    hide Count, Line;
  }

  /** Once the sweep is cancelled no goroutine that was waiting dials any more. */
  lemma {:induction false} AfterCancel(s: State, acts: seq<Action>, w: nat)
    requires s.cancelled && DoAll(s, acts).Some? && w < |s.jobs| && s.jobs[w] in {Waiting, Skipped}
    ensures var s' := DoAll(s, acts).value; s'.cancelled && w < |s'.jobs| && s'.jobs[w] in {Waiting, Skipped}
    decreases |acts|
  {
    hide Do;
    if acts != [] {
      CancelStep(s, acts[0]);
      AfterCancel(Do(s, acts[0]).value, acts[1..], w);
    }
  }

  function Rank(pc: PC): nat {
    match pc
    case Waiting => 6
    case Dialling => 5
    case Counting(_) => 4
    case Appending => 3
    case Adding(_) => 2
    case Logging(_, _) => 1
    case _ => 0
  }

  function RankOf(): PC -> nat {
    (pc: PC) => Rank(pc)
  }

  lemma JobShrinks(s: State, w: nat, o: Outcome)
    requires w < |s.jobs| && GoStep(s, w, o).Some?
    ensures Sum(GoStep(s, w, o).value.jobs, RankOf()) < Sum(s.jobs, RankOf())
  {
    hide Count, Line, Sum;
    JobFrame(s, w, o);
    SumUpdate(s.jobs, w, GoStep(s, w, o).value.jobs[w], RankOf());
  }

  /** A sweep ends: its goroutines take a bounded number of steps between them, and one that cannot go on has
      ended them all. */
  lemma {:induction false} SweepEnds(s: State, acts: seq<Action>)
    requires DoAll(s, acts).Some? && forall i | 0 <= i < |acts| :: acts[i] != Cancel
    ensures var s' := DoAll(s, acts).value;
      && |acts| + Sum(s'.jobs, RankOf()) <= Sum(s.jobs, RankOf())
      && ((forall w: nat, o :: Do(s', Go(w, o)).None?) ==> Ended(s'))
    decreases |acts|
  {
    hide Sum, GoStep, Ended;
    if acts != [] {
      JobShrinks(s, acts[0].w, acts[0].o);
      SweepEnds(Do(s, acts[0]).value, acts[1..]);
    } else if !Ended(s) {
      NotStuck(s);
    }
  }

  /** Jobs are started in order. */
  ghost predicate InOrder(s: State) {
    forall v, w | 0 <= v < w < |s.jobs| && s.jobs[v] == Waiting :: s.jobs[w] == Waiting
  }

  /** No goroutine starts before all earlier ones have. */
  lemma {:induction false} StartedInOrder(s: State, acts: seq<Action>)
    requires InOrder(s) && DoAll(s, acts).Some?
    ensures InOrder(DoAll(s, acts).value)
    decreases |acts|
  {
    hide Do, InOrder;
    if acts != [] {
      OrderStep(s, acts[0]);
      StartedInOrder(Do(s, acts[0]).value, acts[1..]);
    }
  }

  lemma OrderStep(s: State, a: Action)
    requires InOrder(s) && Do(s, a).Some?
    ensures InOrder(Do(s, a).value)
  {
    hide Count, Line;
    if a.Go? {
      JobFrame(s, a.w, a.o);
    }
  }

  /** Until all have ended some goroutine can go on. */
  lemma NotStuck(s: State)
    requires !Ended(s)
    ensures exists w :: Do(s, Go(w, Open)).Some?
  {
    hide Line;
    if w :| 0 <= w < |s.jobs| && IsRunning()(s.jobs[w]) {
      assert Do(s, Go(w, Open)).Some?;
    } else {
      var w :| 0 <= w < |s.jobs| && s.jobs[w] == Waiting;
      var first := FirstWaiting(s.jobs, w);
      CountNone(s.jobs, IsRunning());
      assert Do(s, Go(first, Open)).Some?;
    }
  }

  lemma {:induction false} FirstWaiting(jobs: seq<PC>, w: nat) returns (first: nat)
    requires w < |jobs| && jobs[w] == Waiting
    ensures first <= w && jobs[first] == Waiting && (first > 0 ==> jobs[first - 1] != Waiting)
  {
    first := w;
    if w > 0 && jobs[w - 1] == Waiting {
      first := FirstWaiting(jobs, w - 1);
    }
  }

  // ---- Quarters -------------------------------------------------------------------------------------------

  /** How many quarters are over when n of total are. */
  function Quarter(n: nat, total: nat): nat
    requires total > 0
  {
    n * 4 / total
  }

  /** The same by percentages: rounding down twice loses nothing. */
  lemma Quarters(n: nat, total: nat)
    requires total > 0
    ensures n * 100 / total / 25 == n * 4 / total
  {
    var q, r := n * 4 / total, n * 4 % total;
    var q', r' := r * 25 / total, r * 25 % total;
    Floor(n * 4, total);
    Floor(r * 25, total);
    Spread(total, q, q');
    DivModIs(n * 100, total, q * 25 + q', r');
    Below(r, total);
  }

  lemma Below(r: nat, d: nat)
    requires r < d
    ensures r * 25 / d < 25
  {
    Floor(r * 25, d);
    if r * 25 / d >= 25 {
      Taller(r * 25 / d, 25, d);
    }
  }

  lemma Taller(a: nat, b: nat, d: nat)
    requires a >= b
    ensures d * a >= d * b
  {
  }

  lemma Spread(t: nat, q: nat, p: nat)
    ensures t * (q * 25 + p) == (t * q) * 25 + t * p
  {
  }

  /** Percentages reach 100 only at the end. */
  lemma Hundred(n: nat, total: nat)
    requires 0 < n <= total
    ensures n * 100 / total < 100 <==> n < total
  {
  }

  /** One job more completes at most one quarter, when there are at least four jobs. */
  lemma OneQuarter(n: nat, total: nat)
    requires total >= 4
    ensures Quarter(n, total) <= Quarter(n + 1, total) <= Quarter(n, total) + 1
  {
    var q, r := n * 4 / total, n * 4 % total;
    assert n * 4 == q * total + r;
    if r + 4 < total {
      DivModIs((n + 1) * 4, total, q, r + 4);
    } else {
      assert (q + 1) * total == q * total + total;
      DivModIs((n + 1) * 4, total, q + 1, r + 4 - total);
    }
  }

  lemma LineIs(n: nat, total: nat)
    requires n < total
    ensures Line(n + 1, total) ==
            if Quarter(n + 1, total) > Quarter(n, total) && n + 1 < total then Some(Quarter(n + 1, total) * 25)
            else None
  {
    Quarters(n, total);
    Quarters(n + 1, total);
    Hundred(n + 1, total);
  }

  function Upto(q: nat): multiset<nat> {
    if q == 0 then multiset{} else Upto(q - 1) + multiset{q * 25}
  }

  lemma {:induction false} LinesUpto(n: nat, total: nat)
    requires 4 <= total && n < total
    ensures Lines(n, total) == Upto(Quarter(n, total))
  {
    hide Line, Lines, Upto, Quarter;
    if n == 0 {
      NoLinesYet(total);
    } else {
      LinesUpto(n - 1, total);
      LineIs(n - 1, total);
      OneQuarter(n - 1, total);
      NextLine(n - 1, total);
      UptoNext(Quarter(n - 1, total), Quarter(n, total));
    }
  }

  lemma NoLinesYet(total: nat)
    requires total > 0
    ensures Lines(0, total) == Upto(Quarter(0, total))
  {
  }

  lemma UptoNext(q: nat, q': nat)
    requires q <= q' <= q + 1
    ensures Upto(q') == Upto(q) + Single(if q' > q then Some(q' * 25) else None)
  {
  }

  lemma LastQuarter(total: nat)
    requires total >= 4
    ensures Quarter(total - 1, total) == 3
  {
  }

  lemma UptoThree()
    ensures Upto(3) == multiset{25, 50, 75}
  {
  }

  lemma {:induction false} FewLines(n: nat, total: nat)
    requires total > 0
    ensures |Lines(n, total)| <= n
  {
    if n > 0 {
      FewLines(n - 1, total);
    }
  }

  /** Exactly one line each for 25, 50 and 75 percent are due in a sweep of four or more; with fewer
      there is not one for each. */
  lemma EveryQuarterIff(total: nat)
    requires total > 0
    ensures Lines(total, total) == multiset{25, 50, 75} <==> total >= 4
  {
    hide Line, Lines, Upto, Quarter;
    LineIs(total - 1, total);
    NextLine(total - 1, total);
    assert Lines(total - 1, total) + multiset{} == Lines(total - 1, total);
    if total >= 4 {
      LinesUpto(total - 1, total);
      LastQuarter(total);
      UptoThree();
    } else {
      FewLines(total - 1, total);
      assert |multiset{25, 50, 75}| == 3;
    }
  }

  /** So a completed sweep that was not cancelled has written exactly those lines. */
  lemma SweepLinesIff(s: State, acts: seq<Action>)
    requires Init(s) && DoAll(s, acts).Some? && Ended(DoAll(s, acts).value) && Cancel !in acts && |s.jobs| > 0
    ensures multiset(DoAll(s, acts).value.lines) == multiset{25, 50, 75} <==> |s.jobs| >= 4
  {
    hide Lines, DoAll, Init, Ended, NoneSkipped;
    SweepResult(s, acts);
    EveryQuarterIff(|s.jobs|);
  }
}
