/**
 The size-capped cache with expiring entries (internal/web/ttlcache.go). Times are numbers on one
 clock; the orders in which Go visits a map are arbitrary. Nobody stores the empty key, which the search
 for the oldest entry uses for "nothing yet": isValidIconID refuses it (internal/web/static.go:197-199).
 */
module TtlCache {
  import opened Common

  datatype Entry<V> = Entry(value: V, expires: int)

  type Entries<V> = map<string, Entry<V>>

  // ---- What the operations should do --------------------------------------------------------------------

  function Lookup<V>(m: Entries<V>, key: string, now: int): Option<V> {
    if key in m && now <= m[key].expires then Some(m[key].value) else None
  }

  function Live<V>(m: Entries<V>, now: int): Entries<V> {
    map k | k in m && now <= m[k].expires :: m[k]
  }

  function Quota(n: nat): nat {
    if n / 4 > 1 then n / 4 else 1
  }

  /** The `n` entries that expire first are gone. */
  ghost predicate OldestGone<V>(m: Entries<V>, m': Entries<V>, n: nat) {
    && m'.Keys <= m.Keys && (forall k | k in m' :: m'[k] == m[k])
    && |m'| == |m| - n
    && forall k, j | k in m && k !in m' && j in m' :: m[k].expires <= m[j].expires
  }

  /** Eviction for a new entry: nothing below the cap; otherwise the expired entries, and if that does
      not do, what as many searches as a quarter of the rest, at least one, find in some orders. */
  ghost predicate Evicted<V(!new)>(cap: nat, m: Entries<V>, now: int, m': Entries<V>) {
    if |m| < cap then m' == m
    else if |Live(m, now)| < cap then m' == Live(m, now)
    else Searched(Live(m, now), m', Quota(|Live(m, now)|))
  }

  /** Set looks at the clock twice, when it evicts and when it stores. */
  datatype Op<V> = Get(key: string, now: int) | Set(key: string, value: V, ttl: int, now: int, later: int)

  ghost predicate Step<V(!new)>(cap: nat, m: Entries<V>, op: Op<V>, m': Entries<V>) {
    match op
    case Get(key, now) => m' == if key in m && now > m[key].expires then m - {key} else m
    case Set(key, value, ttl, now, later) =>
      exists e: Entries<V> :: Evicted(cap, m, now, e) && m' == e[key := Entry(value, later + ttl)]
  }

  // ---- The search for the oldest entry ----------------------------------------------------------------

  /** What the search has found when it has visited `order`: "" stands for nothing yet. */
  function Scan<V>(m: Entries<V>, order: seq<string>): string
    requires forall k | k in order :: k in m
    ensures Scan(m, order) == "" || Scan(m, order) in order
  {
    if order == [] then ""
    else
      var init, k := order[..|order| - 1], order[|order| - 1];
      var oldest := Scan(m, init);
      if oldest == "" || m[k].expires < m[oldest].expires then k else oldest
  }

  /** A visit of each key once. */
  ghost predicate Visit<V>(m: Entries<V>, order: seq<string>) {
    (forall k :: k in order <==> k in m) && forall i, j | 0 <= i < j < |order| :: order[i] != order[j]
  }

  /** One search in some order, and what it finds deleted. */
  ghost predicate Search<V>(m: Entries<V>, order: seq<string>, m': Entries<V>) {
    Visit(m, order) && m' == if Scan(m, order) == "" then m else m - {Scan(m, order)}
  }

  /** The outcome of `n` searches. */
  ghost predicate Searched<V(!new)>(m: Entries<V>, m': Entries<V>, n: nat)
    decreases n
  {
    if n == 0 then m' == m else exists mid, order :: Searched(m, mid, n - 1) && Search(mid, order, m')
  }

  ghost predicate Oldest<V>(m: Entries<V>, k: string) {
    k in m && forall j | j in m :: m[k].expires <= m[j].expires
  }

  /** The entry under "" is older than all others. */
  ghost predicate EmptyKeyFirst<V>(m: Entries<V>) {
    "" in m && forall j | j in m && j != "" :: m[""].expires < m[j].expires
  }

  /** One more key visited. */
  lemma ScanNext<V>(m: Entries<V>, init: seq<string>, k: string)
    requires k in m && forall j | j in init :: j in m
    ensures forall j | j in init + [k] :: j in m
    ensures var found := Scan(m, init);
      Scan(m, init + [k]) == if found == "" || m[k].expires < m[found].expires then k else found
  {
    assert (init + [k])[..|init|] == init;
  }

  lemma {:induction false} ScanOldest<V>(m: Entries<V>, order: seq<string>)
    requires forall k | k in order :: k in m
    requires "" !in order
    ensures order != [] ==>
              Scan(m, order) in order && forall j | j in order :: m[Scan(m, order)].expires <= m[j].expires
  {
    hide Scan;
    if order != [] {
      var init, k := order[..|order| - 1], order[|order| - 1];
      assert order == init + [k];
      ScanNext(m, init, k);
      ScanOldest(m, init);
      assert init == [] ==> Scan(m, init) == "";
    }
  }

  /** Where "" has been visited and something else expires no later, the search has the oldest once it
      has visited that too. */
  lemma {:induction false} ScanPast<V>(m: Entries<V>, order: seq<string>, x: string)
    requires forall k | k in order :: k in m
    requires x in order && x != "" && "" in m && m[x].expires <= m[""].expires
    ensures Scan(m, order) != "" && m[Scan(m, order)].expires <= m[x].expires
    ensures forall j | j in order && m[j].expires < m[""].expires :: m[Scan(m, order)].expires <= m[j].expires
  {
    hide Scan;
    var init, k := order[..|order| - 1], order[|order| - 1];
    assert order == init + [k];
    ScanNext(m, init, k);
    if x in init {
      ScanPast(m, init, x);
    } else {
      ScanYoung(m, init);
    }
  }

  /** Whatever has been visited, the search is at something no younger than each visited entry that is
      older than the one under "", unless it is at nothing. */
  lemma {:induction false} ScanYoung<V>(m: Entries<V>, order: seq<string>)
    requires (forall k | k in order :: k in m) && "" in m
    ensures forall j | j in order && m[j].expires < m[""].expires ::
              Scan(m, order) != "" && m[Scan(m, order)].expires <= m[j].expires
  {
    hide Scan;
    if order != [] {
      var init, k := order[..|order| - 1], order[|order| - 1];
      assert order == init + [k];
      ScanNext(m, init, k);
      ScanYoung(m, init);
    }
  }

  /** The search finds an oldest entry in whatever order it visits them exactly when no key is empty, or
      the entry under the empty key is not the only oldest one. */
  lemma ScanRightIff<V>(m: Entries<V>)
    requires m != map[]
    ensures (forall order | Visit(m, order) :: Scan(m, order) != "" && Oldest(m, Scan(m, order))) <==> !EmptyKeyFirst(m)
  {
    if EmptyKeyFirst(m) {
      var rest := AnyVisit(m - {""});
      hide Scan;
      ScanNext(m, rest, "");
      VisitedLast(m, rest, "");
      assert Scan(m, rest + [""]) == "";
    } else {
      forall order | Visit(m, order) ensures Scan(m, order) != "" && Oldest(m, Scan(m, order)) {
        if "" in m {
          var x :| x in m && x != "" && m[x].expires <= m[""].expires;
          ScanPast(m, order, x);
        } else {
          ScanOldest(m, order);
          var k :| k in m;
          assert k in order;
        }
      }
    }
  }

  lemma VisitedLast<V>(m: Entries<V>, rest: seq<string>, k: string)
    requires k in m && Visit(m - {k}, rest)
    ensures Visit(m, rest + [k])
  {
    var order := rest + [k];
    assert forall j :: j in order <==> j in rest || j == k;
    forall i | 0 <= i < |rest| ensures rest[i] != k {
      assert rest[i] in rest;
    }
  }

  lemma {:induction false} AnyVisit<V>(m: Entries<V>) returns (order: seq<string>)
    ensures Visit(m, order)
    decreases |m|
  {
    if m == map[] {
      order := [];
    } else {
      var k :| k in m;
      var rest := AnyVisit(m - {k});
      order := rest + [k];
      VisitedLast(m, rest, k);
    }
  }

  // ---- The cache ----------------------------------------------------------------------------------------

  class Cache<V(!new)> {
    var m: Entries<V>
    const cap: nat

    constructor (capacity: nat)
      ensures m == map[] && cap == capacity
    {
      m := map[];
      cap := capacity;
    }

    method Get(key: string, now: int) returns (r: Option<V>)
      modifies this`m
      ensures r == Lookup(old(m), key, now)
      ensures Step(cap, old(m), Op.Get(key, now), m)
    {
      if key !in m {
        return None;
      }
      if now > m[key].expires {
        m := m - {key};
        return None;
      }
      return Some(m[key].value);
    }

    method Set(key: string, value: V, ttl: int, now: int, later: int)
      modifies this`m
      ensures Step(cap, old(m), Op.Set(key, value, ttl, now, later), m)
    {
      if |m| >= cap {
        EvictLocked(now);
      }
      ghost var e := m;
      m := m[key := Entry(value, later + ttl)];
      assert Evicted(cap, old(m), now, e);
    }

    method EvictLocked(now: int)
      requires |m| >= cap
      modifies this`m
      ensures Evicted(cap, old(m), now, m)
    {
      hide Scan, Visit;
      SweepExpired(now);
      if |m| < cap {
        return;
      }
      ghost var live := m;
      var evict := Quota(|m|);
      for i := 0 to evict
        invariant Searched(live, m, i)
      {
        ghost var mid := m;
        var oldest, order := FindOldest();
        if oldest != "" {
          m := m - {oldest};
        }
        assert Search(mid, order, m);
      }
    }

    method SweepExpired(now: int)
      modifies this`m
      ensures m == Live(old(m), now)
    {
      var todo := m.Keys;
      while todo != {}
        invariant todo <= m.Keys
        invariant forall k :: k in m <==> k in old(m) && (k in todo || now <= old(m)[k].expires)
        invariant forall k | k in m :: m[k] == old(m)[k]
      {
        var k :| k in todo;
        if now > m[k].expires {
          m := m - {k};
        }
        todo := todo - {k};
      }
    }

    /** The search of the second phase, in whatever order the map is visited. */
    method FindOldest() returns (oldest: string, ghost order: seq<string>)
      ensures Visit(m, order) && oldest == Scan(m, order)
    {
      oldest, order := "", [];
      var oldestExp := 0;
      var todo := m.Keys;
      while todo != {}
        invariant todo <= m.Keys
        invariant forall k :: k in order <==> k in m && k !in todo
        invariant forall i, j | 0 <= i < j < |order| :: order[i] != order[j]
        invariant oldest == Scan(m, order)
        invariant oldest != "" ==> oldest in m && oldestExp == m[oldest].expires
      {
        var k :| k in todo;
        assert (order + [k])[..|order|] == order;
        assert forall j :: j in order + [k] <==> j in order || j == k;
        if oldest == "" || m[k].expires < oldestExp {
          oldest := k;
          oldestExp := m[k].expires;
        }
        order := order + [k];
        todo := todo - {k};
      }
    }
  }

  lemma OneMoreGone<V>(m: Entries<V>, was: Entries<V>, k: string, n: nat)
    requires OldestGone(m, was, n) && Oldest(was, k)
    ensures OldestGone(m, was - {k}, n + 1)
  {
  }

  /** With no empty key, the searches take out the oldest entries, one each. */
  lemma {:induction false} SearchedOldest<V(!new)>(m: Entries<V>, m': Entries<V>, n: nat)
    requires Searched(m, m', n) && "" !in m && n <= |m|
    ensures OldestGone(m, m', n)
    decreases n
  {
    hide OldestGone, Search;
    if n == 0 {
      NoneGone(m);
    } else {
      var mid, order :| Searched(m, mid, n - 1) && Search(mid, order, m');
      SearchedOldest(m, mid, n - 1);
      SearchOne(m, mid, order, m', n - 1);
    }
  }

  lemma NoneGone<V>(m: Entries<V>)
    ensures OldestGone(m, m, 0)
  {
  }

  lemma SearchOne<V(!new)>(m: Entries<V>, mid: Entries<V>, order: seq<string>, m': Entries<V>, n: nat)
    requires OldestGone(m, mid, n) && Search(mid, order, m') && "" !in m && n < |m|
    ensures OldestGone(m, m', n + 1)
  {
    hide Scan;
    assert |mid| > 0;
    ScanRightIff(mid);
    OneMoreGone(m, mid, Scan(mid, order), n);
  }

  /** So eviction with no empty key leaves room, and takes out the oldest quarter if it has to take out
      anything that has not expired. */
  lemma EvictsOldest<V(!new)>(cap: nat, m: Entries<V>, now: int, e: Entries<V>)
    requires Evicted(cap, m, now, e) && cap >= 1 && "" !in m && |m| >= cap && |Live(m, now)| >= cap
    ensures var live := Live(m, now);
      && |e| == |live| - (if |live| >= 8 then |live| / 4 else 1)
      && (forall k | k in e :: k in live && e[k] == live[k])
      && forall k, j | k in live && k !in e && j in e :: live[k].expires <= live[j].expires
  {
    SearchedOldest(Live(m, now), e, Quota(|Live(m, now)|));
  }

  lemma NothingFound<V(!new)>(m: Entries<V>, m': Entries<V>)
    requires m.Keys == {""} && Searched(m, m', 1)
    ensures m' == m
  {
    var mid, order :| Searched(m, mid, 0) && Search(mid, order, m');
    assert forall k | k in order :: k == "";
  }

  /** With the empty key alone the search finds nothing, and a cache of one entry gets a second. */
  lemma EmptyKeyOverflows<V(!new)>(m: Entries<V>, key: string, value: V, ttl: int, now: int, m': Entries<V>)
    requires m.Keys == {""} && now <= m[""].expires && key != ""
    requires Step(1, m, Op.Set(key, value, ttl, now, now), m')
    ensures m'.Keys == {"", key} && |m'| == 2
  {
    hide Searched;
    var e :| Evicted(1, m, now, e) && m' == e[key := Entry(value, now + ttl)];
    assert Live(m, now) == m && |m.Keys| == 1;
    NothingFound(m, e);
    assert m'.Keys == {"", key};
    assert |m'.Keys| == 2;
  }

  // ---- Runs ---------------------------------------------------------------------------------------------

  function Begins<V>(op: Op<V>): int {
    op.now
  }

  function Ends<V>(op: Op<V>): int {
    if op.Get? then op.now else op.later
  }

  /** The states of a cache over a run of operations with non-empty keys and a clock that never goes back. */
  ghost predicate IsRun<V(!new)>(cap: nat, ops: seq<Op<V>>, ms: seq<Entries<V>>) {
    && |ms| == |ops| + 1 && ms[0] == map[]
    && (forall i | 0 <= i < |ops| :: Step(cap, ms[i], ops[i], ms[i + 1]))
    && (forall i | 0 <= i < |ops| :: ops[i].key != "" && Begins(ops[i]) <= Ends(ops[i]))
    && (forall i, j | 0 <= i < j < |ops| :: Ends(ops[i]) <= Begins(ops[j]))
  }

  /** What a cache without a cap would hold: for each key what was last set, expired or not. */
  function Unbounded<V>(ops: seq<Op<V>>): Entries<V> {
    if ops == [] then map[]
    else
      var before, op := Unbounded(ops[..|ops| - 1]), ops[|ops| - 1];
      if op.Set? then before[op.key := Entry(op.value, op.later + op.ttl)] else before
  }

  ghost predicate SetAt<V>(ops: seq<Op<V>>, i: int, key: string) {
    0 <= i < |ops| && ops[i].Set? && ops[i].key == key
  }

  lemma {:induction false} UnboundedIsLastSet<V>(ops: seq<Op<V>>, key: string)
    ensures key in Unbounded(ops) <==> exists i :: SetAt(ops, i, key)
    ensures forall i | SetAt(ops, i, key) && (forall j | i < j :: !SetAt(ops, j, key)) ::
              key in Unbounded(ops) && Unbounded(ops)[key] == Entry(ops[i].value, ops[i].later + ops[i].ttl)
  {
    if ops != [] {
      var n := |ops| - 1;
      var init := ops[..n];
      UnboundedIsLastSet(init, key);
      assert forall i :: SetAt(init, i, key) <==> SetAt(ops, i, key) && i < n;
      assert SetAt(ops, n, key) <==> ops[n].Set? && ops[n].key == key;
    }
  }

  ghost predicate Within<V>(m: Entries<V>, full: Entries<V>) {
    forall k | k in m :: k in full && m[k] == full[k]
  }

  lemma EvictedShrinks<V(!new)>(cap: nat, m: Entries<V>, now: int, e: Entries<V>)
    requires Evicted(cap, m, now, e) && cap >= 1 && |m| <= cap && "" !in m
    ensures |e| < cap && Within(e, m)
  {
    LiveFewer(m, now);
    if |m| >= cap && |Live(m, now)| >= cap {
      EvictsOldest(cap, m, now, e);
    }
  }

  lemma LiveFewer<V>(m: Entries<V>, now: int)
    ensures |Live(m, now)| <= |m|
  {
    FewerKeys(Live(m, now).Keys, m.Keys);
  }

  lemma {:induction false} FewerKeys(a: set<string>, b: set<string>)
    requires a <= b
    ensures |a| <= |b|
  {
    assert b == a + (b - a);
  }

  lemma StepWithin<V(!new)>(cap: nat, m: Entries<V>, op: Op<V>, m': Entries<V>, full: Entries<V>)
    requires Step(cap, m, op, m') && cap >= 1 && op.key != ""
    requires |m| <= cap && "" !in m && Within(m, full)
    ensures |m'| <= cap && "" !in m'
    ensures Within(m', if op.Set? then full[op.key := Entry(op.value, op.later + op.ttl)] else full)
  {
    hide Evicted;
    match op {
      case Get(key, now) =>
        FewerKeys((m - {key}).Keys, m.Keys);
      case Set(key, value, ttl, now, later) =>
        var e :| Evicted(cap, m, now, e) && m' == e[key := Entry(value, later + ttl)];
        EvictedShrinks(cap, m, now, e);
        assert m'.Keys == e.Keys + {key};
    }
  }

  /** The cap holds, and the cache never has anything but what was last set. */
  lemma {:induction false} RunWithin<V(!new)>(cap: nat, ops: seq<Op<V>>, ms: seq<Entries<V>>, n: nat)
    requires IsRun(cap, ops, ms) && cap >= 1 && n <= |ops|
    ensures |ms[n]| <= cap && "" !in ms[n] && Within(ms[n], Unbounded(ops[..n]))
  {
    hide Evicted, Live, Quota;
    if n > 0 {
      var m, m', op := ms[n - 1], ms[n], ops[n - 1];
      RunWithin(cap, ops, ms, n - 1);
      assert ops[..n][..n - 1] == ops[..n - 1];
      hide Step, Within;
      assert op.key != "";
      StepWithin(cap, m, op, m', Unbounded(ops[..n - 1]));
    }
  }

  /** A hit is the value last set for the key, and has not expired. */
  lemma HitIsLastSet<V(!new)>(cap: nat, ops: seq<Op<V>>, ms: seq<Entries<V>>, n: nat, key: string, now: int)
    requires IsRun(cap, ops, ms) && cap >= 1 && n <= |ops|
    requires Lookup(ms[n], key, now).Some?
    ensures exists i :: SetAt(ops[..n], i, key) && (forall j | i < j :: !SetAt(ops[..n], j, key))
                        && Lookup(ms[n], key, now) == Some(ops[i].value) && now <= ops[i].later + ops[i].ttl
  {
    RunWithin(cap, ops, ms, n);
    UnboundedIsLastSet(ops[..n], key);
    var i := LastOf(ops[..n], key);
  }

  lemma {:induction false} LastOf<V>(ops: seq<Op<V>>, key: string) returns (i: int)
    requires exists i :: SetAt(ops, i, key)
    ensures SetAt(ops, i, key) && forall j | i < j :: !SetAt(ops, j, key)
  {
    i := |ops| - 1;
    if !SetAt(ops, i, key) {
      var init := ops[..|ops| - 1];
      assert forall j :: SetAt(init, j, key) <==> SetAt(ops, j, key);
      i := LastOf(init, key);
    }
  }

  /** This Set has to give up something that has not expired. */
  ghost predicate Lossy<V>(cap: nat, m: Entries<V>, op: Op<V>) {
    op.Set? && |m| >= cap && |Live(m, op.now)| >= cap
  }

  /** Until some Set finds the cache full of unexpired entries, it answers like one without a cap. */
  lemma {:induction false} LosslessIsUnbounded<V(!new)>(cap: nat, ops: seq<Op<V>>, ms: seq<Entries<V>>, n: nat,
                                                        key: string, now: int)
    requires IsRun(cap, ops, ms) && cap >= 1 && n <= |ops|
    requires forall i | 0 <= i < n :: !Lossy(cap, ms[i], ops[i]) && Ends(ops[i]) <= now
    ensures Lookup(ms[n], key, now) == Lookup(Unbounded(ops[..n]), key, now)
  {
    if n > 0 {
      var m, m', op := ms[n - 1], ms[n], ops[n - 1];
      LosslessIsUnbounded(cap, ops, ms, n - 1, key, now);
      assert ops[..n][..n - 1] == ops[..n - 1];
      assert Step(cap, m, op, m') && !Lossy(cap, m, op) && Ends(op) <= now && Begins(op) <= Ends(op);
      hide Step, Lossy, Lookup;
      LosslessStep(cap, m, op, m', Unbounded(ops[..n - 1]), key, now);
    }
  }

  lemma LosslessStep<V(!new)>(cap: nat, m: Entries<V>, op: Op<V>, m': Entries<V>, full: Entries<V>, key: string,
                              now: int)
    requires Step(cap, m, op, m') && !Lossy(cap, m, op) && Begins(op) <= Ends(op) <= now
    requires Lookup(m, key, now) == Lookup(full, key, now)
    ensures var full' := if op.Set? then full[op.key := Entry(op.value, op.later + op.ttl)] else full;
      Lookup(m', key, now) == Lookup(full', key, now)
  {
  }
}
