/**
 The scan pipeline (internal/discovery/network.go:477-632) as a step system: workers of four discovery
 paths take endpoints from their path's queue, probe each endpoint once between them, and send what
 answers over a channel of 64 slots to one consumer.
 */
module Pipeline {
  import opened Common
  import opened Scan
  import Catalog
  import Entities
  import Text

  datatype Endpoint = Endpoint(ip: string, port: int)

  /** Where a worker is in its loop. */
  datatype PC =
    | Fetch
    | Checking(e: Endpoint)
    | Claiming(e: Endpoint)
    | Probing(e: Endpoint)
    | Sending(r: ProbeResult)
    | Finished

  /** A goroutine that serves one queue: one of the 80 that share the TCP sweep's queue, or the only one
      of another path. */
  datatype Worker = Worker(queue: nat, pc: PC)

  datatype State = State(
    queues: seq<seq<Endpoint>>,
    workers: seq<Worker>,
    claimed: set<string>,      // the probedPorts table
    probes: seq<Endpoint>,     // the probes made so far, in order
    buffer: seq<ProbeResult>,
    received: seq<ProbeResult>,
    closed: bool,
    drained: bool,             // the consumer's loop has ended
    cancelled: bool)

  datatype Action = Work(w: nat) | Close | Receive | Finish | Cancel

  const SLOTS := 64

  /** What a probe of each endpoint would find. */
  type Net = Endpoint -> Option<ProbeResult>

  function K(e: Endpoint): string {
    Text.Key(e.ip, e.port)
  }

  /** Every queue has a worker. */
  ghost predicate Init(s: State, found: seq<seq<Endpoint>>) {
    && s == State(found, s.workers, {}, [], [], [], false, false, false)
    && (forall w | 0 <= w < |s.workers| :: s.workers[w].queue < |found| && s.workers[w].pc == Fetch)
    && Staffed(s)
  }

  predicate Serves(s: State, w: int, q: nat) {
    0 <= w < |s.workers| && s.workers[w].queue == q
  }

  ghost predicate Served(s: State, q: nat) {
    exists w :: Serves(s, w, q)
  }

  ghost predicate Staffed(s: State) {
    forall q | 0 <= q < |s.queues| :: Served(s, q)
  }

  /** Where a worker goes next; none when it has to wait. */
  function NextPC(net: Net, s: State, w: Worker): Option<PC> {
    match w.pc
    case Fetch => Some(if Queued(s, w.queue) then Checking(s.queues[w.queue][0]) else Finished)
    case Checking(e) => Some(if s.cancelled then Finished else Claiming(e))
    case Claiming(e) => Some(if K(e) in s.claimed then Fetch else Probing(e))
    case Probing(e) => Some(match net(e) case None => Fetch case Some(r) => Sending(r))
    case Sending(_) => if |s.buffer| < SLOTS then Some(Fetch) else None
    case Finished => None
  }

  predicate Queued(s: State, q: nat) {
    q < |s.queues| && s.queues[q] != []
  }

  function WorkStep(net: Net, s: State, w: nat): Option<State>
    requires w < |s.workers|
  {
    var Worker(q, pc) := s.workers[w];
    match NextPC(net, s, s.workers[w])
    case None => None
    case Some(nu) =>
      Some(s.(workers := s.workers[w := Worker(q, nu)],
              queues := if pc == Fetch && Queued(s, q) then s.queues[q := s.queues[q][1..]] else s.queues,
              claimed := if nu.Probing? then s.claimed + {K(nu.e)} else s.claimed,
              probes := if pc.Probing? then s.probes + [pc.e] else s.probes,
              buffer := if pc.Sending? then s.buffer + [pc.r] else s.buffer))
  }

  predicate AllFinished(s: State) {
    forall w | 0 <= w < |s.workers| :: s.workers[w].pc == Finished
  }

  function Do(net: Net, s: State, a: Action): Option<State> {
    match a
    case Work(w) => if w < |s.workers| then WorkStep(net, s, w) else None
    case Close => if AllFinished(s) && !s.closed then Some(s.(closed := true)) else None
    case Receive =>
      if s.buffer != [] then Some(s.(received := s.received + [s.buffer[0]], buffer := s.buffer[1..])) else None
    case Finish => if s.closed && s.buffer == [] && !s.drained then Some(s.(drained := true)) else None
    case Cancel => Some(s.(cancelled := true))
  }

  function DoAll(net: Net, s: State, acts: seq<Action>): Option<State>
    decreases |acts|
  {
    if acts == [] then Some(s)
    else match Do(net, s, acts[0])
      case None => None
      case Some(s') => DoAll(net, s', acts[1..])
  }

  // ---- Once each --------------------------------------------------------------------------------------

  ghost predicate InProbe(s: State, w: int, e: Endpoint) {
    0 <= w < |s.workers| && s.workers[w].pc == Probing(e)
  }

  /** The table holds the keys of the endpoints that have been probed or are being probed, each by one
      worker. */
  ghost predicate ClaimsRight(s: State) {
    && (forall i, j | 0 <= i < j < |s.probes| :: s.probes[i] != s.probes[j])
    && (forall e | e in s.probes :: K(e) in s.claimed)
    && (forall w, e | InProbe(s, w, e) :: K(e) in s.claimed && e !in s.probes)
    && (forall v, w, e | InProbe(s, v, e) && InProbe(s, w, e) :: v == w)
    && (forall k | k in s.claimed :: exists e :: Claimant(s, e, k))
  }

  ghost predicate Claimant(s: State, e: Endpoint, k: string) {
    K(e) == k && (e in s.probes || exists w :: InProbe(s, w, e))
  }

  function Answers(net: Net, es: seq<Endpoint>): multiset<ProbeResult> {
    if es == [] then multiset{}
    else Answers(net, es[..|es| - 1]) + match net(es[|es| - 1]) case None => multiset{} case Some(r) => multiset{r}
  }

  function InHand(pc: PC): multiset<ProbeResult> {
    if pc.Sending? then multiset{pc.r} else multiset{}
  }

  function Pending(): Worker -> multiset<ProbeResult> {
    (w: Worker) => InHand(w.pc)
  }

  /** No answer is lost or doubled: what the probes found is with the consumer, in the channel, or in the
      hands of a worker that is about to send it. */
  ghost predicate AnswersKept(net: Net, s: State) {
    multiset(s.received) + multiset(s.buffer) + Bag(s.workers, Pending()) == Answers(net, s.probes)
  }

  ghost predicate Wf(s: State) {
    && (forall w | 0 <= w < |s.workers| :: s.workers[w].queue < |s.queues|)
    && |s.buffer| <= SLOTS && (s.closed ==> AllFinished(s)) && (s.drained ==> s.closed && s.buffer == [])
    && Staffed(s)
  }

  lemma KInjective(d: Endpoint, e: Endpoint)
    ensures K(d) == K(e) ==> d == e
  {
    Text.KeyInjective(d.ip, d.port, e.ip, e.port);
  }

  lemma AnswersSnoc(net: Net, es: seq<Endpoint>, e: Endpoint)
    ensures Answers(net, es + [e]) ==
            Answers(net, es) + match net(e) case None => multiset{} case Some(r) => multiset{r}
  {
  }

  /** What a step of a worker does to the answers. */
  lemma WorkFrame(net: Net, s: State, w: nat)
    requires w < |s.workers| && WorkStep(net, s, w).Some?
    ensures var s', pc := WorkStep(net, s, w).value, s.workers[w].pc; var nu := s'.workers[w];
      && s'.received == s.received && s'.workers == s.workers[w := nu]
      && s'.probes == (if pc.Probing? then s.probes + [pc.e] else s.probes)
      && s'.buffer == (if pc.Sending? then s.buffer + [pc.r] else s.buffer)
      && InHand(nu.pc) == (if pc.Probing? && net(pc.e).Some? then multiset{net(pc.e).value} else multiset{})
  {
  }

  lemma WorkAnswers(net: Net, s: State, w: nat)
    requires AnswersKept(net, s) && w < |s.workers| && WorkStep(net, s, w).Some?
    ensures AnswersKept(net, WorkStep(net, s, w).value)
  {
    hide Answers, Bag, WorkStep;
    var s', pc := WorkStep(net, s, w).value, s.workers[w].pc;
    WorkFrame(net, s, w);
    BagUpdate(s.workers, w, s'.workers[w], Pending());
    var kept, p, p' := multiset(s.received) + multiset(s.buffer), Bag(s.workers, Pending()), Bag(s'.workers, Pending());
    Shift(kept, p, p', InHand(pc), InHand(s'.workers[w].pc));
    match pc {
      case Probing(e) => AnswersSnoc(net, s.probes, e);
      case Sending(r) => assert kept + p' + multiset{r} == (multiset(s.received) + multiset(s.buffer + [r])) + p';
      case _ => assert (kept + p') + multiset{} == kept + p' && (kept + p) + multiset{} == kept + p;
    }
  }

  lemma AnswersStep(net: Net, s: State, a: Action)
    requires AnswersKept(net, s) && Do(net, s, a).Some?
    ensures AnswersKept(net, Do(net, s, a).value)
  {
    hide Answers, Bag, K;
    var s' := Do(net, s, a).value;
    match a {
      case Work(w) =>
        WorkAnswers(net, s, w);
      case Receive =>
        assert s.buffer == [s.buffer[0]] + s.buffer[1..];
      case _ =>
    }
  }

  lemma ClaimsStep(net: Net, s: State, a: Action)
    requires ClaimsRight(s) && Do(net, s, a).Some?
    ensures ClaimsRight(Do(net, s, a).value)
  {
    hide K;
    var s' := Do(net, s, a).value;
    match a {
      case Work(w) =>
        match s.workers[w].pc {
          case Claiming(e) => ClaimStep(net, s, w);
          case Probing(e) => ProbeStep(net, s, w);
          case _ => ClaimsSame(s, s');
        }
      case _ => ClaimsSame(s, s');
    }
  }

  lemma ClaimsSame(s: State, s': State)
    requires ClaimsRight(s) && s'.claimed == s.claimed && s'.probes == s.probes
    requires forall w, e :: InProbe(s', w, e) <==> InProbe(s, w, e)
    ensures ClaimsRight(s')
  {
    forall k | k in s'.claimed ensures exists e :: Claimant(s', e, k) {
      var e :| Claimant(s, e, k);
      assert Claimant(s', e, k);
    }
  }

  lemma ClaimStep(net: Net, s: State, w: nat)
    requires ClaimsRight(s) && w < |s.workers| && s.workers[w].pc.Claiming?
    ensures ClaimsRight(WorkStep(net, s, w).value)
  {
    hide K;
    var s', e := WorkStep(net, s, w).value, s.workers[w].pc.e;
    if K(e) in s.claimed {
      ClaimsSame(s, s');
    } else {
      forall v, d ensures InProbe(s', v, d) <==> InProbe(s, v, d) || (v == w && d == e) {
      }
      forall k | k in s'.claimed ensures exists d :: Claimant(s', d, k) {
        if k == K(e) {
          assert InProbe(s', w, e);
          assert Claimant(s', e, k);
        } else {
          var d :| Claimant(s, d, k);
          if v :| InProbe(s, v, d) {
            assert InProbe(s', v, d);
          }
          assert Claimant(s', d, k);
        }
      }
    }
  }

  lemma ProbeStep(net: Net, s: State, w: nat)
    requires ClaimsRight(s) && w < |s.workers| && s.workers[w].pc.Probing?
    ensures ClaimsRight(WorkStep(net, s, w).value)
  {
    hide K;
    var s', e := WorkStep(net, s, w).value, s.workers[w].pc.e;
    assert InProbe(s, w, e);
    forall v, d ensures InProbe(s', v, d) <==> InProbe(s, v, d) && v != w {
    }
    forall d ensures d in s'.probes <==> d in s.probes || d == e {
    }
    forall v, d | InProbe(s', v, d) ensures K(d) in s'.claimed && d !in s'.probes {
      assert InProbe(s, v, d);
    }
    forall k | k in s'.claimed ensures exists d :: Claimant(s', d, k) {
      var d :| Claimant(s, d, k);
      if v :| InProbe(s, v, d) {
        assert v != w ==> InProbe(s', v, d);
      }
      assert Claimant(s', d, k);
    }
  }

  lemma WfStep(net: Net, s: State, a: Action)
    requires Wf(s) && Do(net, s, a).Some?
    ensures Wf(Do(net, s, a).value)
  {
    var s' := Do(net, s, a).value;
    forall q | 0 <= q < |s'.queues| ensures Served(s', q) {
      assert Served(s, q);
      var w :| Serves(s, w, q);
      assert Serves(s', w, q);
    }
  }

  // ---- Nothing lost, nothing made up --------------------------------------------------------------------

  ghost predicate Listed(qs: seq<seq<Endpoint>>, e: Endpoint) {
    exists q :: InQueue(qs, q, e)
  }

  predicate InQueue(qs: seq<seq<Endpoint>>, q: int, e: Endpoint) {
    0 <= q < |qs| && e in qs[q]
  }

  ghost predicate OnHand(s: State, w: int, e: Endpoint) {
    0 <= w < |s.workers| && s.workers[w].pc in {Checking(e), Claiming(e)}
  }

  ghost predicate Somewhere(s: State, e: Endpoint) {
    Listed(s.queues, e) || (exists w :: OnHand(s, w, e)) || K(e) in s.claimed
  }

  /** Unless the scan is cancelled, what was found is still queued, on hand, or claimed; and a worker
      finishes only when its queue is empty. */
  ghost predicate NoneLost(s: State, found: seq<seq<Endpoint>>) {
    !s.cancelled ==>
      && (forall e | Listed(found, e) :: Somewhere(s, e))
      && (forall w | 0 <= w < |s.workers| && s.workers[w].pc == Finished && s.workers[w].queue < |s.queues| ::
            s.queues[s.workers[w].queue] == [])
  }

  ghost predicate OnlyFound(s: State, found: seq<seq<Endpoint>>) {
    && (forall e | Listed(s.queues, e) :: Listed(found, e))
    && (forall w, e | OnHand(s, w, e) || InProbe(s, w, e) :: Listed(found, e))
    && (forall e | e in s.probes :: Listed(found, e))
  }

  lemma FetchMoves(net: Net, s: State, w: nat)
    requires w < |s.workers| && s.workers[w].pc == Fetch && s.workers[w].queue < |s.queues|
    requires s.queues[s.workers[w].queue] != []
    ensures var s' := WorkStep(net, s, w).value; var e0 := s.queues[s.workers[w].queue][0];
      && OnHand(s', w, e0) && Listed(s.queues, e0)
      && (forall e | Listed(s.queues, e) :: Listed(s'.queues, e) || e == e0)
      && (forall e | Listed(s'.queues, e) :: Listed(s.queues, e))
  {
    var s', q := WorkStep(net, s, w).value, s.workers[w].queue;
    assert s.queues[q] == [s.queues[q][0]] + s.queues[q][1..];
    assert InQueue(s.queues, q, s.queues[q][0]);
    forall e | Listed(s.queues, e) ensures Listed(s'.queues, e) || e == s.queues[q][0] {
      var p :| InQueue(s.queues, p, e);
      assert InQueue(s'.queues, p, e) || e == s.queues[q][0];
    }
    forall e | Listed(s'.queues, e) ensures Listed(s.queues, e) {
      var p :| InQueue(s'.queues, p, e);
      assert InQueue(s.queues, p, e);
    }
  }

  lemma NoneLostStep(net: Net, s: State, a: Action, found: seq<seq<Endpoint>>)
    requires NoneLost(s, found) && Do(net, s, a).Some?
    ensures NoneLost(Do(net, s, a).value, found)
  {
    hide K, Listed;
    var s' := Do(net, s, a).value;
    if !s'.cancelled {
      if a.Work? && s.workers[a.w].pc == Fetch && Queued(s, s.workers[a.w].queue) {
        FetchMoves(net, s, a.w);
      }
      forall e | Listed(found, e) ensures Somewhere(s', e) {
        assert Somewhere(s, e);
        if w :| OnHand(s, w, e) {
          assert (a == Work(w) && s.workers[w].pc == Claiming(e)) || OnHand(s', w, e);
        }
      }
    }
  }

  /** A worker gets endpoints from its queue only. */
  lemma WorkMoves(net: Net, s: State, w: nat)
    requires w < |s.workers| && WorkStep(net, s, w).Some?
    ensures var s' := WorkStep(net, s, w).value;
      && (forall e | Listed(s'.queues, e) :: Listed(s.queues, e))
      && (forall v, e | OnHand(s', v, e) || InProbe(s', v, e) ::
            OnHand(s, v, e) || InProbe(s, v, e) || Listed(s.queues, e))
  {
    hide K, Listed;
    if s.workers[w].pc == Fetch && s.workers[w].queue < |s.queues| && s.queues[s.workers[w].queue] != [] {
      FetchMoves(net, s, w);
    }
  }

  lemma OnlyFoundStep(net: Net, s: State, a: Action, found: seq<seq<Endpoint>>)
    requires OnlyFound(s, found) && Do(net, s, a).Some?
    ensures OnlyFound(Do(net, s, a).value, found)
  {
    hide Listed, WorkStep;
    if a.Work? {
      WorkMoves(net, s, a.w);
      WorkFrame(net, s, a.w);
      assert s.workers[a.w].pc.Probing? ==> InProbe(s, a.w, s.workers[a.w].pc.e);
    } else {
      var s' := Do(net, s, a).value;
      assert forall v, e :: (OnHand(s', v, e) <==> OnHand(s, v, e)) && (InProbe(s', v, e) <==> InProbe(s, v, e));
    }
  }

  ghost predicate Inv(net: Net, s: State, found: seq<seq<Endpoint>>) {
    Wf(s) && ClaimsRight(s) && AnswersKept(net, s) && NoneLost(s, found) && OnlyFound(s, found)
  }

  lemma InitInv(net: Net, s: State, found: seq<seq<Endpoint>>)
    requires Init(s, found)
    ensures Inv(net, s, found)
  {
    BagNone(s.workers, Pending());
  }

  lemma {:induction false} RunKeeps(net: Net, s: State, acts: seq<Action>, found: seq<seq<Endpoint>>)
    requires Inv(net, s, found) && DoAll(net, s, acts).Some?
    ensures Inv(net, DoAll(net, s, acts).value, found)
    decreases |acts|
  {
    hide Do, Wf, ClaimsRight, AnswersKept, NoneLost, OnlyFound;
    if acts != [] {
      WfStep(net, s, acts[0]);
      ClaimsStep(net, s, acts[0]);
      AnswersStep(net, s, acts[0]);
      NoneLostStep(net, s, acts[0], found);
      OnlyFoundStep(net, s, acts[0], found);
      RunKeeps(net, Do(net, s, acts[0]).value, acts[1..], found);
    }
  }

  /** When the consumer's loop ends, in every interleaving: no endpoint was probed twice, only endpoints
      that some path found were probed, and the consumer has each answer exactly once. Without a
      cancellation, every endpoint found was probed. */
  lemma ExactlyOnce(net: Net, s: State, acts: seq<Action>, found: seq<seq<Endpoint>>)
    requires Init(s, found) && DoAll(net, s, acts).Some? && DoAll(net, s, acts).value.drained
    ensures var s' := DoAll(net, s, acts).value;
      && (forall i, j | 0 <= i < j < |s'.probes| :: s'.probes[i] != s'.probes[j])
      && multiset(s'.received) == Answers(net, s'.probes)
      && (forall e | e in s'.probes :: Listed(found, e))
      && (!s'.cancelled ==> forall e | Listed(found, e) :: e in s'.probes)
  {
    hide Do, Listed, K;
    InitInv(net, s, found);
    RunKeeps(net, s, acts, found);
    var s' := DoAll(net, s, acts).value;
    BagNone(s'.workers, Pending());
    if !s'.cancelled {
      NoQueueLeft(s', found);
      forall e | Listed(found, e) ensures e in s'.probes {
        assert Somewhere(s', e);
        var d :| Claimant(s', d, K(e));
        KInjective(d, e);
      }
    }
  }

  lemma NoQueueLeft(s: State, found: seq<seq<Endpoint>>)
    requires Wf(s) && NoneLost(s, found) && AllFinished(s) && !s.cancelled
    ensures forall e :: !Listed(s.queues, e)
  {
    forall q | 0 <= q < |s.queues| ensures s.queues[q] == [] {
      assert Served(s, q);
      var w :| Serves(s, w, q);
    }
    assert forall q, e :: !InQueue(s.queues, q, e);
  }

  // ---- The scan comes to an end ---------------------------------------------------------------------------

  function Rank(pc: PC): nat {
    match pc
    case Finished => 0
    case Fetch => 1
    case Sending(_) => 4
    case Probing(_) => 5
    case Claiming(_) => 6
    case Checking(_) => 7
  }

  function RankOf(): Worker -> nat {
    (w: Worker) => Rank(w.pc)
  }

  function Length(): seq<Endpoint> -> nat {
    (q: seq<Endpoint>) => |q|
  }

  function Remaining(s: State): nat {
    7 * Sum(s.queues, Length()) + Sum(s.workers, RankOf()) + 2 * |s.buffer|
    + (if s.closed then 0 else 1) + if s.drained then 0 else 1
  }

  lemma WorkShrinks(net: Net, s: State, w: nat)
    requires w < |s.workers| && WorkStep(net, s, w).Some?
    ensures Remaining(WorkStep(net, s, w).value) < Remaining(s)
  {
    hide K, Sum;
    var s', q := WorkStep(net, s, w).value, s.workers[w].queue;
    SumUpdate(s.workers, w, s'.workers[w], RankOf());
    assert s'.closed == s.closed && s'.drained == s.drained;
    assert |s'.buffer| == |s.buffer| + if s.workers[w].pc.Sending? then 1 else 0;
    if s.workers[w].pc == Fetch && q < |s.queues| && s.queues[q] != [] {
      SumUpdate(s.queues, q, s.queues[q][1..], Length());
    } else {
      assert s'.queues == s.queues;
    }
  }

  lemma StepShrinks(net: Net, s: State, a: Action)
    requires Do(net, s, a).Some? && a != Cancel
    ensures Remaining(Do(net, s, a).value) < Remaining(s)
  {
    hide WorkStep, Sum;
    if a.Work? {
      WorkShrinks(net, s, a.w);
    }
  }

  // ---- After a cancel ---------------------------------------------------------------------------------------

  /** The worker may probe once more: it is past the test of the context. */
  function MayProbe(): Worker -> nat {
    (w: Worker) => if w.pc.Claiming? || w.pc.Probing? then 1 else 0
  }

  lemma CancelledWork(net: Net, s: State, w: nat)
    requires s.cancelled && w < |s.workers| && WorkStep(net, s, w).Some?
    ensures var s' := WorkStep(net, s, w).value;
      s'.cancelled && |s'.probes| + Sum(s'.workers, MayProbe()) <= |s.probes| + Sum(s.workers, MayProbe())
  {
    hide K, Sum, Queued;
    var s' := WorkStep(net, s, w).value;
    SumUpdate(s.workers, w, s'.workers[w], MayProbe());
  }

  lemma CancelledStep(net: Net, s: State, a: Action)
    requires Do(net, s, a).Some? && (s.cancelled || a == Cancel)
    ensures var s' := Do(net, s, a).value;
      s'.cancelled && |s'.probes| + Sum(s'.workers, MayProbe()) <= |s.probes| + Sum(s.workers, MayProbe())
  {
    hide WorkStep, Sum;
    if a.Work? {
      CancelledWork(net, s, a.w);
    }
  }

  /** From the moment a scan is cancelled each worker makes at most one more probe, and only if it was past
      the test of the context. */
  lemma {:induction false} AfterCancel(net: Net, s: State, acts: seq<Action>)
    requires DoAll(net, s, acts).Some? && (s.cancelled || (acts != [] && acts[0] == Cancel))
    ensures var s' := DoAll(net, s, acts).value;
      s'.cancelled && |s'.probes| + Sum(s'.workers, MayProbe()) <= |s.probes| + Sum(s.workers, MayProbe())
    decreases |acts|
  {
    hide Do, Sum;
    if acts != [] {
      CancelledStep(net, s, acts[0]);
      AfterCancel(net, Do(net, s, acts[0]).value, acts[1..]);
    }
  }

  /** The channel never holds more than 64 results. */
  lemma {:induction false} BufferHolds(net: Net, s: State, acts: seq<Action>)
    requires Wf(s) && DoAll(net, s, acts).Some?
    ensures |DoAll(net, s, acts).value.buffer| <= 64
    decreases |acts|
  {
    hide Do;
    if acts != [] {
      WfStep(net, s, acts[0]);
      hide Wf;
      BufferHolds(net, Do(net, s, acts[0]).value, acts[1..]);
    }
  }

  /** The scan cannot get stuck: until the consumer is done some step can be taken. */
  lemma CanStep(net: Net, s: State)
    requires Wf(s) && !s.drained
    ensures exists a :: a != Cancel && Do(net, s, a).Some?
  {
    hide K;
    if s.buffer != [] {
      assert Do(net, s, Receive).Some?;
    } else if w :| 0 <= w < |s.workers| && s.workers[w].pc != Finished {
      assert Do(net, s, Work(w)).Some?;
    } else if s.closed {
      assert Do(net, s, Finish).Some?;
    } else {
      assert Do(net, s, Close).Some?;
    }
  }

  /** So every run is bounded by what there was to do, and one that cannot be continued has been drained. */
  lemma {:induction false} Ends(net: Net, s: State, acts: seq<Action>)
    requires Wf(s) && DoAll(net, s, acts).Some?
    requires forall i | 0 <= i < |acts| :: acts[i] != Cancel
    ensures var s' := DoAll(net, s, acts).value;
      && |acts| + Remaining(s') <= Remaining(s)
      && ((forall a | a != Cancel :: Do(net, s', a).None?) ==> s'.drained)
    decreases |acts|
  {
    hide Do, Wf, Remaining;
    if acts != [] {
      WfStep(net, s, acts[0]);
      StepShrinks(net, s, acts[0]);
      Ends(net, Do(net, s, acts[0]).value, acts[1..]);
    } else if !s.drained {
      CanStep(net, s);
    }
  }

  // ---- From what answered to what is shown ------------------------------------------------------------------

  lemma {:induction false} AnswersAre(net: Net, es: seq<Endpoint>)
    ensures forall r :: r in Answers(net, es) <==> exists e :: e in es && net(e) == Some(r)
  {
    if es != [] {
      var init, last := es[..|es| - 1], es[|es| - 1];
      assert es == init + [last];
      AnswersAre(net, init);
    }
  }

  ghost predicate AnswersAt(net: Net, found: seq<seq<Endpoint>>, services: Catalog.Services,
                            igs: seq<Entities.Ignored>, ip: string, port: int, e: Endpoint) {
    && Listed(found, e) && net(e).Some? && Wanted(services, igs, net(e).value)
    && net(e).value.ip == ip && net(e).value.port == port
  }

  /** A full scan from end to end: whatever the interleaving, when a scan that is not cancelled is over,
      the network entries shown are exactly the places where an endpoint that some path found answered,
      and that are neither ignored nor assigned. */
  lemma ScanShowsWhatAnswers(net: Net, s: State, acts: seq<Action>, found: seq<seq<Endpoint>>,
                             services: Catalog.Services, igs: seq<Entities.Ignored>, ds: Catalog.Shelf, fs: seq<Found>,
                             ip: string, port: int)
    requires Init(s, found) && DoAll(net, s, acts).Some?
    requires DoAll(net, s, acts).value.drained && !DoAll(net, s, acts).value.cancelled
    requires |fs| == |DoAll(net, s, acts).value.received|
    requires forall i | 0 <= i < |fs| :: fs[i].r == DoAll(net, s, acts).value.received[i]
    ensures Shows(FullScan(ds, Accepted(services, igs, fs)), ip, port) <==>
            exists e :: AnswersAt(net, found, services, igs, ip, port, e)
  {
    hide DoAll, Wanted, FullScan, Accepted, Listed, Init, OnePerEndpoint, EntryFor, Shows, AnswersAt, WantedAt, Answers;
    var s' := DoAll(net, s, acts).value;
    ExactlyOnce(net, s, acts, found);
    FullScanResult(services, igs, ds, fs);
    WantedAnswers(net, s'.probes, found, services, igs, s'.received, fs, ip, port);
  }

  lemma WantedAnswers(net: Net, probes: seq<Endpoint>, found: seq<seq<Endpoint>>, services: Catalog.Services,
                      igs: seq<Entities.Ignored>, rs: seq<ProbeResult>, fs: seq<Found>, ip: string, port: int)
    requires (forall e :: e in probes <==> Listed(found, e)) && multiset(rs) == Answers(net, probes)
    requires |fs| == |rs| && forall i | 0 <= i < |fs| :: fs[i].r == rs[i]
    ensures WantedAt(services, igs, fs, ip, port) <==> exists e :: AnswersAt(net, found, services, igs, ip, port, e)
  {
    hide Wanted, Listed;
    AnswersAre(net, probes);
    assert forall r :: r in rs <==> r in multiset(rs);
    if f :| f in fs && f.At(ip, port) && Wanted(services, igs, f.r) {
      assert f.r in rs;
      var e :| e in probes && net(e) == Some(f.r);
      assert AnswersAt(net, found, services, igs, ip, port, e);
    }
    if e :| AnswersAt(net, found, services, igs, ip, port, e) {
      var r := net(e).value;
      assert r in rs;
      var i :| 0 <= i < |rs| && rs[i] == r;
      assert fs[i] in fs && fs[i].At(ip, port);
    }
  }
}
