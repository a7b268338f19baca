/**
 Saving (internal/store/store.go:235-249) and loading again after a crash (internal/store/store.go:135-161)
 as a step system: any number of goroutines save at once, writes stop at any byte, and the process can
 die at any step.
 */
module SaveCrash {
  import opened Common
  import opened IndexedStore

  type Bytes = seq<nat>

  datatype PC =
    | Waiting               // marshalled, wants saveMu
    | Writing(n: nat)       // n bytes are in the temporary file
    | Renaming
    | Over

  /** A call of Save, what it marshalled, and the bytes that gave. */
  datatype Saver = Saver(of: Snapshot, raw: Bytes, pc: PC)

  datatype State = State(
    past: seq<Snapshot>,    // what the store has held, the current contents last
    savers: seq<Saver>,
    tmp: Option<Bytes>,     // config.json.tmp
    file: Option<Bytes>)    // config.json

  datatype Action =
    | Change(d: Snapshot)
    | Save
    | Go(w: nat, move: Move)
    | Crash

  datatype Move = Lock | Write | Rename | Fail

  /** json.Marshal and json.Unmarshal, which are not part of this model. */
  datatype Json = Json(encode: Snapshot -> Bytes, decode: Bytes -> Option<Snapshot>)

  /** What is marshalled comes back, for each of these snapshots. */
  ghost predicate RoundTrips(j: Json, ds: seq<Snapshot>) {
    forall d | d in ds :: j.decode(j.encode(d)) == Some(d)
  }

  /** For any list of snapshots there is such a pair: write down the place in the list. */
  lemma JsonExists(ds: seq<Snapshot>) returns (j: Json)
    ensures RoundTrips(j, ds)
  {
    j := Json(d => [PlaceOf(ds, d)], raw => if |raw| == 1 && raw[0] < |ds| then Some(ds[raw[0]]) else None);
    forall d | d in ds ensures j.decode(j.encode(d)) == Some(d) {
      PlaceIs(ds, d);
    }
  }

  function PlaceOf(ds: seq<Snapshot>, d: Snapshot): nat {
    if ds == [] || ds[0] == d then 0 else 1 + PlaceOf(ds[1..], d)
  }

  lemma {:induction false} PlaceIs(ds: seq<Snapshot>, d: Snapshot)
    requires d in ds
    ensures PlaceOf(ds, d) < |ds| && ds[PlaceOf(ds, d)] == d
  {
    if ds[0] != d {
      PlaceIs(ds[1..], d);
    }
  }

  /** The list has everything the store holds over the run. */
  ghost predicate Covers(ds: seq<Snapshot>, s: State, acts: seq<Action>) {
    && EMPTY in ds && (forall d | d in s.past :: d in ds)
    && forall i | 0 <= i < |acts| && acts[i].Change? :: acts[i].d in ds
  }

  const EMPTY := Snapshot(map[], [], [], [])

  function Current(s: State): Snapshot
    requires s.past != []
  {
    s.past[|s.past| - 1]
  }

  predicate Holding(s: Saver) {
    s.pc.Writing? || s.pc == Renaming
  }

  predicate Locked(s: State) {
    exists w | 0 <= w < |s.savers| :: Holding(s.savers[w])
  }

  predicate Init(s: State) {
    s == State([EMPTY], [], s.tmp, None)
  }

  function At(s: State, w: nat, pc: PC): State
    requires w < |s.savers|
  {
    s.(savers := s.savers[w := s.savers[w].(pc := pc)])
  }

  /** What a restart finds. */
  function Loaded(j: Json, s: State): Option<Snapshot> {
    if s.file.None? then Some(EMPTY) else j.decode(s.file.value)
  }

  function SaverStep(s: State, w: nat, move: Move): Option<State>
    requires w < |s.savers|
  {
    var Saver(_, raw, pc) := s.savers[w];
    match (move, pc)
    case (Lock, Waiting) => if Locked(s) then None else Some(At(s, w, Writing(0)).(tmp := Some([])))
    case (Write, Writing(n)) =>
      if n < |raw| then Some(At(s, w, Writing(n + 1)).(tmp := Some(raw[..n + 1]))) else Some(At(s, w, Renaming))
    case (Rename, Renaming) => Some(At(s, w, Over).(tmp := None, file := s.tmp))
    case (Fail, Writing(_)) => Some(At(s, w, Over))
    case (Fail, Renaming) => Some(At(s, w, Over))
    case _ => None
  }

  function Do(j: Json, s: State, a: Action): Option<State> {
    match a
    case Change(d) => Some(s.(past := s.past + [d]))
    case Save =>
      if s.past == [] then None else Some(s.(savers := s.savers + [Saver(Current(s), j.encode(Current(s)), Waiting)]))
    case Crash =>
      var d := Loaded(j, s);  // if this fails the server does not come up
      if d.None? then None else Some(s.(past := s.past + [d.value], savers := []))
    case Go(w, move) => if w < |s.savers| then SaverStep(s, w, move) else None
  }

  function DoAll(j: Json, s: State, acts: seq<Action>): Option<State>
    decreases |acts|
  {
    if acts == [] then Some(s)
    else match Do(j, s, acts[0])
      case None => None
      case Some(s') => DoAll(j, s', acts[1..])
  }

  // ---- What holds at every step ---------------------------------------------------------------------------

  /** These bytes are a whole snapshot of something the store has held. */
  ghost predicate OfPast(j: Json, past: seq<Snapshot>, raw: Bytes) {
    exists i :: 0 <= i < |past| && raw == j.encode(past[i])
  }

  predicate TmpRight(s: State, v: Saver) {
    match v.pc
    case Writing(n) => n <= |v.raw| && s.tmp == Some(v.raw[..n])
    case Renaming => s.tmp == Some(v.raw)
    case _ => true
  }

  ghost predicate Inv(j: Json, s: State) {
    && s.past != []
    && (forall w | 0 <= w < |s.savers| :: s.savers[w].of in s.past && s.savers[w].raw == j.encode(s.savers[w].of))
    && (forall w | 0 <= w < |s.savers| :: TmpRight(s, s.savers[w]))
    && (forall v, w | 0 <= v < w < |s.savers| :: !(Holding(s.savers[v]) && Holding(s.savers[w])))
    && (s.file.Some? ==> OfPast(j, s.past, s.file.value))
  }

  lemma PastGrows(j: Json, past: seq<Snapshot>, d: Snapshot, raw: Bytes)
    requires OfPast(j, past, raw)
    ensures OfPast(j, past + [d], raw)
  {
    var i :| 0 <= i < |past| && raw == j.encode(past[i]);
    assert (past + [d])[i] == past[i];
  }

  lemma SaverKeeps(j: Json, s: State, w: nat, move: Move)
    requires Inv(j, s) && w < |s.savers| && SaverStep(s, w, move).Some?
    ensures Inv(j, SaverStep(s, w, move).value)
  {
    var s' := SaverStep(s, w, move).value;
    assert TmpRight(s, s.savers[w]);
    SaverOwn(s, w, move);
    assert OfPast(j, s.past, s.savers[w].raw);
    hide OfPast, SaverStep;
    forall v | 0 <= v < |s.savers| && v != w
      ensures s'.savers[v] == s.savers[v] && TmpRight(s', s.savers[v])
      ensures Holding(s'.savers[w]) ==> !Holding(s.savers[v])
    {
      assert TmpRight(s, s.savers[v]);
      assert v < w ==> !(Holding(s.savers[v]) && Holding(s.savers[w]));
      assert w < v ==> !(Holding(s.savers[w]) && Holding(s.savers[v]));
    }
  }

  lemma SaverOwn(s: State, w: nat, move: Move)
    requires w < |s.savers| && SaverStep(s, w, move).Some? && TmpRight(s, s.savers[w])
    ensures var s' := SaverStep(s, w, move).value;
      && s' == s.(savers := s'.savers, tmp := s'.tmp, file := s'.file) && s'.savers == s.savers[w := s'.savers[w]]
      && TmpRight(s', s'.savers[w]) && s'.savers[w] == s.savers[w].(pc := s'.savers[w].pc)
      && s'.file == if move == Rename then Some(s.savers[w].raw) else s.file
  {
    assert s.savers[w].raw[..|s.savers[w].raw|] == s.savers[w].raw;
  }

  lemma StepKeeps(j: Json, ds: seq<Snapshot>, s: State, a: Action)
    requires Inv(j, s) && Do(j, s, a).Some? && RoundTrips(j, ds) && Covers(ds, s, [a])
    ensures Inv(j, Do(j, s, a).value) && Covers(ds, Do(j, s, a).value, [])
  {
    hide SaverStep;
    var s' := Do(j, s, a).value;
    assert a.Change? ==> [a][0].d in ds;
    match a {
      case Change(d) =>
        if s.file.Some? {
          PastGrows(j, s.past, d, s.file.value);
        }
      case Crash =>
        if s.file.Some? {
          PastGrows(j, s.past, Loaded(j, s).value, s.file.value);
        }
      case Go(w, move) =>
        SaverKeeps(j, s, w, move);
        SaverOwn(s, w, move);
      case _ =>
    }
  }

  lemma {:induction false} RunKeeps(j: Json, ds: seq<Snapshot>, s: State, acts: seq<Action>)
    requires Inv(j, s) && DoAll(j, s, acts).Some? && RoundTrips(j, ds) && Covers(ds, s, acts)
    ensures Inv(j, DoAll(j, s, acts).value) && Covers(ds, DoAll(j, s, acts).value, [])
    decreases |acts|
  {
    hide Do, Inv, RoundTrips;
    if acts != [] {
      StepKeeps(j, ds, s, acts[0]);
      RunKeeps(j, ds, Do(j, s, acts[0]).value, acts[1..]);
    }
  }

  /** Whenever the process dies, config.json is absent or a whole snapshot of a past state, and so
      loading it succeeds. */
  lemma CrashSafe(j: Json, ds: seq<Snapshot>, s: State, acts: seq<Action>)
    requires Init(s) && DoAll(j, s, acts).Some? && RoundTrips(j, ds) && Covers(ds, s, acts)
    ensures var s' := DoAll(j, s, acts).value;
      && (s'.file.Some? ==> OfPast(j, s'.past, s'.file.value))
      && Loaded(j, s').Some? && (Loaded(j, s').value == EMPTY || Loaded(j, s').value in s'.past)
  {
    RunKeeps(j, ds, s, acts);
    LoadedPast(j, ds, DoAll(j, s, acts).value);
  }

  lemma LoadedPast(j: Json, ds: seq<Snapshot>, s: State)
    requires Inv(j, s) && RoundTrips(j, ds) && Covers(ds, s, [])
    ensures Loaded(j, s).Some? && (Loaded(j, s).value == EMPTY || Loaded(j, s).value in s.past)
  {
    if s.file.Some? {
      var i :| 0 <= i < |s.past| && s.file.value == j.encode(s.past[i]);
      assert s.past[i] in s.past;
    }
  }

  ghost predicate Kept(s: State) {
    forall d | d in s.past :: Loadable(d)
  }

  /** And what is loaded after any crash is what Store.Load needs to rebuild every lookup map, as long as
      what the store holds always is (see IndexedStore.SavedIsLoadable). */
  lemma {:induction false} LoadableAfterCrash(j: Json, ds: seq<Snapshot>, s: State, acts: seq<Action>)
    requires Inv(j, s) && Kept(s) && DoAll(j, s, acts).Some? && RoundTrips(j, ds) && Covers(ds, s, acts)
    requires forall i | 0 <= i < |acts| && acts[i].Change? :: Loadable(acts[i].d)
    ensures var s' := DoAll(j, s, acts).value; Kept(s') && Loaded(j, s').Some? && Loadable(Loaded(j, s').value)
    decreases |acts|
  {
    hide Inv, SaverStep, RoundTrips;
    LoadedPast(j, ds, s);
    assert Loadable(EMPTY);
    hide Loadable;
    if acts != [] {
      StepKeeps(j, ds, s, acts[0]);
      KeptStep(j, ds, s, acts[0]);
      LoadableAfterCrash(j, ds, Do(j, s, acts[0]).value, acts[1..]);
    }
  }

  lemma KeptStep(j: Json, ds: seq<Snapshot>, s: State, a: Action)
    requires Inv(j, s) && Kept(s) && Do(j, s, a).Some? && RoundTrips(j, ds) && Covers(ds, s, [a])
    requires (a.Change? ==> Loadable(a.d)) && Loadable(EMPTY)
    ensures Kept(Do(j, s, a).value)
  {
    hide Loadable, OfPast;
    LoadedPast(j, ds, s);
  }

  // ---- When the file holds the latest contents --------------------------------------------------------------

  /** Which call of Save took the lock last, when `last` did before the run. */
  function LastLock(acts: seq<Action>, last: Option<nat>): Option<nat> {
    if acts == [] then last else LastLock(acts[1..], Relocked(acts[0], last))
  }

  function Relocked(a: Action, last: Option<nat>): Option<nat> {
    if a.Go? && a.move == Lock then Some(a.w) else last
  }

  predicate Smooth(a: Action) {
    a != Crash && !(a.Go? && a.move == Fail)
  }

  /** The one that took the lock last holds it, or has put its bytes into the file. */
  predicate LastRight(s: State, last: Option<nat>) {
    match last
    case None => s.file == None && forall v | 0 <= v < |s.savers| :: s.savers[v].pc == Waiting
    case Some(w) =>
      && w < |s.savers| && s.savers[w].pc != Waiting
      && (forall v | 0 <= v < |s.savers| && v != w :: !Holding(s.savers[v]))
      && (s.savers[w].pc == Over ==> s.file == Some(s.savers[w].raw))
  }

  lemma LastStep(j: Json, s: State, a: Action, last: Option<nat>)
    requires Inv(j, s) && LastRight(s, last) && Do(j, s, a).Some? && Smooth(a)
    ensures LastRight(Do(j, s, a).value, Relocked(a, last))
  {
    if a.Go? {
      assert TmpRight(s, s.savers[a.w]);
      assert last.None? ==> s.savers[a.w].pc == Waiting && a.move == Lock;
      SaverOwn(s, a.w, a.move);
    }
  }

  lemma {:induction false} LastRun(j: Json, ds: seq<Snapshot>, s: State, acts: seq<Action>, last: Option<nat>)
    requires Inv(j, s) && DoAll(j, s, acts).Some? && RoundTrips(j, ds) && Covers(ds, s, acts)
    requires LastRight(s, last) && forall i | 0 <= i < |acts| :: Smooth(acts[i])
    ensures LastRight(DoAll(j, s, acts).value, LastLock(acts, last))
    decreases |acts|
  {
    hide Do, Inv, RoundTrips, LastRight;
    if acts != [] {
      StepKeeps(j, ds, s, acts[0]);
      LastStep(j, s, acts[0], last);
      LastRun(j, ds, Do(j, s, acts[0]).value, acts[1..], Relocked(acts[0], last));
    }
  }

  /** When all calls of Save are over and none failed, the file is what the last to take the lock had
      marshalled; so it is the latest contents exactly when that call marshalled the latest contents. */
  lemma LatestIff(j: Json, ds: seq<Snapshot>, s: State, acts: seq<Action>)
    requires Init(s) && DoAll(j, s, acts).Some? && RoundTrips(j, ds) && Covers(ds, s, acts)
    requires forall i | 0 <= i < |acts| :: Smooth(acts[i])
    requires forall v | 0 <= v < |DoAll(j, s, acts).value.savers| :: DoAll(j, s, acts).value.savers[v].pc == Over
    ensures DoAll(j, s, acts).value.past != []
    ensures var s' := DoAll(j, s, acts).value;
      match LastLock(acts, None)
      case None => s'.savers == [] && s'.file == None
      case Some(w) =>
        && w < |s'.savers| && s'.file == Some(s'.savers[w].raw)
        && (Loaded(j, s') == Some(Current(s')) <==> s'.savers[w].of == Current(s'))
  {
    RunKeeps(j, ds, s, acts);
    LastRun(j, ds, s, acts, None);
    var s' := DoAll(j, s, acts).value;
    assert s'.savers != [] ==> s'.savers[0].pc == Over;
    if LastLock(acts, None).Some? {
      var w := LastLock(acts, None).value;
      assert s'.savers[w].of in s'.past && s'.savers[w].of in ds;
    }
  }

  lemma {:induction false} DoBoth(j: Json, s: State, a: seq<Action>, b: seq<Action>)
    requires DoAll(j, s, a).Some?
    ensures DoAll(j, s, a + b) == DoAll(j, DoAll(j, s, a).value, b)
    decreases |a|
  {
    hide Do;
    if a == [] {
      assert a + b == b;
    } else {
      assert (a + b)[0] == a[0] && (a + b)[1..] == a[1..] + b;
      DoBoth(j, Do(j, s, a[0]).value, a[1..], b);
    }
  }

  function Saved(s: State, w: nat): State
    requires w < |s.savers|
  {
    At(s, w, Over).(tmp := None, file := Some(s.savers[w].raw))
  }

  lemma {:induction false} Finish(j: Json, s: State, w: nat, n: nat) returns (acts: seq<Action>)
    requires w < |s.savers| && n <= |s.savers[w].raw|
    requires s.savers[w].pc == Writing(n) && s.tmp == Some(s.savers[w].raw[..n])
    ensures DoAll(j, s, acts) == Some(Saved(s, w))
    decreases |s.savers[w].raw| - n
  {
    var s1 := Do(j, s, Go(w, Write)).value;
    if n < |s.savers[w].raw| {
      var rest := Finish(j, s1, w, n + 1);
      acts := [Go(w, Write)] + rest;
      assert acts[1..] == rest && Saved(s1, w) == Saved(s, w);
    } else {
      acts := [Go(w, Write), Go(w, Rename)];
      assert s.savers[w].raw[..n] == s.savers[w].raw;
      assert acts[1..] == [Go(w, Rename)] && acts[1..][1..] == [];
      assert At(s1, w, Over).savers == At(s, w, Over).savers && s1.tmp == Some(s.savers[w].raw);
      assert Do(j, s1, Go(w, Rename)) == Some(Saved(s, w));
      assert DoAll(j, Saved(s, w), []) == Some(Saved(s, w));
    }
  }

  lemma SaveNow(j: Json, s: State, w: nat) returns (acts: seq<Action>)
    requires w < |s.savers| && s.savers[w].pc == Waiting && !Locked(s)
    ensures DoAll(j, s, acts) == Some(Saved(s, w))
  {
    var s1 := Do(j, s, Go(w, Lock)).value;
    var rest := Finish(j, s1, w, 0);
    acts := [Go(w, Lock)] + rest;
    assert acts[1..] == rest && Saved(s1, w) == Saved(s, w);
  }

  /** Of two saves the one that marshalled first may be written last: both succeed, and the file holds
      what was there before the change. */
  lemma MayBeStale(j: Json, tmp: Option<Bytes>, d: Snapshot) returns (acts: seq<Action>)
    ensures var s' := DoAll(j, State([EMPTY], [], tmp, None), acts);
      && s'.Some? && s'.value.past == [EMPTY, d] && s'.value.file == Some(j.encode(EMPTY))
      && forall w | 0 <= w < |s'.value.savers| :: s'.value.savers[w].pc == Over
  {
    hide SaverStep;
    var s := State([EMPTY], [], tmp, None);
    var first := [Save, Change(d), Save];
    var s1 := State([EMPTY, d], [Saver(EMPTY, j.encode(EMPTY), Waiting), Saver(d, j.encode(d), Waiting)], tmp, None);
    var old0, new0 := Saver(EMPTY, j.encode(EMPTY), Waiting), Saver(d, j.encode(d), Waiting);
    assert s.savers + [old0] == [old0] && [old0] + [new0] == [old0, new0] && [EMPTY] + [d] == [EMPTY, d];
    var sA, sB := s.(savers := [old0]), State([EMPTY, d], [old0], tmp, None);
    assert [Save][1..] == [] && [Change(d), Save][1..] == [Save] && first[1..] == [Change(d), Save];
    assert DoAll(j, s1, []) == Some(s1);
    assert Do(j, sB, Save) == Some(s1) && DoAll(j, sB, [Save]) == Some(s1);
    assert Do(j, sA, Change(d)) == Some(sB) && DoAll(j, sA, [Change(d), Save]) == Some(s1);
    assert Do(j, s, Save) == Some(sA);
    assert DoAll(j, s, first) == Some(s1);
    var second := SaveNow(j, s1, 1);
    var s2 := Saved(s1, 1);
    var third := SaveNow(j, s2, 0);
    DoBoth(j, s1, second, third);
    DoBoth(j, s, first, second + third);
    acts := first + (second + third);
  }

  // ---- What a crash and a failed write leave ---------------------------------------------------------------

  /** After a restart nobody is saving, the files are as the crash left them, and the contents are what the file
      says; or, if there is none, empty. */
  lemma CrashRestarts(j: Json, s: State)
    requires Do(j, s, Crash).Some?
    ensures var s' := Do(j, s, Crash).value;
      && s'.savers == [] && s'.file == s.file && s'.tmp == s.tmp && s'.past != []
      && Some(Current(s')) == (if s.file.None? then Some(Snapshot(map[], [], [], [])) else j.decode(s.file.value))
  {
  }

  /** A write or a rename that fails ends that save, lets the next one in, and leaves the file alone. */
  lemma FailLeavesFile(j: Json, s: State, w: nat)
    requires w < |s.savers| && Holding(s.savers[w])
    requires forall v | 0 <= v < |s.savers| && v != w :: !Holding(s.savers[v])
    ensures Do(j, s, Go(w, Fail)).Some?
    ensures var s' := Do(j, s, Go(w, Fail)).value; !Locked(s') && s'.file == s.file && s'.past == s.past
  {
  }
}
