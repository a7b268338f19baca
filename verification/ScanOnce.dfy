/**
 Who may scan when (internal/discovery/discovery.go:75-118, 181-238): ScanNow and the scheduled scan share
 one flag, which is tested and set under a lock by the first and only tested by the second.
 */
module ScanOnce {
  import opened Common

  /** The scheduled scan's turn: waiting for the next tick, past the test, or scanning. */
  datatype Turn = Between | Allowed | Light

  datatype State = State(scanning: bool, full: nat, turn: Turn)

  datatype Action = ScanNow | FullOver | Tick | LightStart | LightOver

  const START := State(false, 0, Between)

  function Do(s: State, a: Action): Option<State> {
    match (a, s.turn)
    case (ScanNow, _) => Some(if s.scanning then s else s.(scanning := true, full := s.full + 1))
    case (FullOver, _) => if s.full > 0 then Some(s.(scanning := false, full := s.full - 1)) else None
    case (Tick, Between) => Some(if s.scanning then s else s.(turn := Allowed))
    case (LightStart, Allowed) => Some(s.(turn := Light))
    case (LightOver, Light) => Some(s.(turn := Between))
    case _ => None
  }

  function DoAll(s: State, acts: seq<Action>): Option<State>
    decreases |acts|
  {
    if acts == [] then Some(s)
    else match Do(s, acts[0])
      case None => None
      case Some(s') => DoAll(s', acts[1..])
  }

  /** The flag counts the full scans. */
  predicate Flagged(s: State) {
    s.full == if s.scanning then 1 else 0
  }

  /** However often and whenever ScanNow is called, at most one full scan runs, and the flag says so. */
  lemma {:induction false} OneFullScan(s: State, acts: seq<Action>)
    requires Flagged(s) && DoAll(s, acts).Some?
    ensures Flagged(DoAll(s, acts).value)
    decreases |acts|
  {
    if acts != [] {
      OneFullScan(Do(s, acts[0]).value, acts[1..]);
    }
  }

  /** ScanNow starts a full scan exactly when none is active; one that is can end, and then the next request
      starts another; and after a light scan the next tick, if no full one is active, allows another. */
  lemma ScansAgain(s: State)
    requires Flagged(s)
    ensures Do(s, ScanNow).value.full == 1 && (Do(s, ScanNow).value == s <==> s.full == 1)
    ensures Do(s, FullOver).Some? <==> s.full == 1
    ensures s.full == 1 ==>
      Do(s, FullOver).value.full == 0 && DoAll(s, [FullOver, ScanNow]) == Some(s)
    ensures s.turn == Light && s.full == 0 ==> DoAll(s, [LightOver, Tick, LightStart]) == Some(s)
  {
    assert [FullOver, ScanNow][1..] == [ScanNow] && [ScanNow][1..] == [];
    assert [LightOver, Tick, LightStart][1..] == [Tick, LightStart] && [Tick, LightStart][1..] == [LightStart];
    assert [LightStart][1..] == [];
  }

  predicate Overlap(s: State) {
    s.full > 0 && s.turn == Light
  }

  /** This step lets the two kinds of scan meet: a full one is asked for while a light one runs, or a
      light one that has passed the test begins while a full one runs. */
  predicate Collides(s: State, a: Action) {
    (a == ScanNow && !s.scanning && s.turn == Light) || (a == LightStart && s.turn == Allowed && s.full > 0)
  }

  lemma OverlapIff(s: State, a: Action)
    requires Flagged(s) && !Overlap(s) && Do(s, a).Some?
    ensures Overlap(Do(s, a).value) <==> Collides(s, a)
  {
  }

  ghost predicate Apart(s: State, acts: seq<Action>)
    requires DoAll(s, acts).Some?
    decreases |acts|
  {
    !Overlap(s) && (acts == [] || Apart(Do(s, acts[0]).value, acts[1..]))
  }

  ghost predicate NoCollision(s: State, acts: seq<Action>)
    requires DoAll(s, acts).Some?
    decreases |acts|
  {
    acts == [] || (!Collides(s, acts[0]) && NoCollision(Do(s, acts[0]).value, acts[1..]))
  }

  /** A light scan stays apart from every full one all through a run exactly when no step of the run lets
      them meet: the flag, which the light scan tests only before it starts, does not see to that. */
  lemma {:induction false} ApartIff(s: State, acts: seq<Action>)
    requires Flagged(s) && !Overlap(s) && DoAll(s, acts).Some?
    ensures Apart(s, acts) <==> NoCollision(s, acts)
    decreases |acts|
  {
    if acts != [] {
      var s' := Do(s, acts[0]).value;
      OverlapIff(s, acts[0]);
      if !Overlap(s') {
        ApartIff(s', acts[1..]);
      }
    }
  }

  /** They do meet. */
  lemma LightBesideFull()
    ensures var acts := [Tick, LightStart, ScanNow];
      DoAll(START, acts) == Some(State(true, 1, Light)) && Overlap(State(true, 1, Light))
  {
  }
}
