/**
 The tunnel's ingress list (internal/cf/tunnel.go): an ordered list of rules that cloudflared
 searches from the front. A rule without a hostname is a catch-all.
 */
module Ingress {
  import opened Common

  datatype Rule = Rule(hostname: string, service: string)

  const DEFAULT_CATCH_ALL := Rule("", "http_status:404")

  /** The rules whose hostname is outside `hosts`, in their old order. */
  function Drop(rules: seq<Rule>, hosts: set<string>): seq<Rule> {
    if rules == [] then []
    else (if rules[0].hostname in hosts then [] else [rules[0]]) + Drop(rules[1..], hosts)
  }

  /** The rules for exactly one hostname, in order. */
  function Only(rules: seq<Rule>, hostname: string): seq<Rule> {
    if rules == [] then []
    else (if rules[0].hostname == hostname then [rules[0]] else []) + Only(rules[1..], hostname)
  }

  /** Which backend the first matching rule sends `hostname` to. */
  function Lookup(rules: seq<Rule>, hostname: string): Option<string> {
    if rules == [] then None
    else if rules[0].hostname == hostname then Some(rules[0].service)
    else Lookup(rules[1..], hostname)
  }

  /** The catch-all an edit keeps: the last one listed, or the default when there is none. */
  function CatchAllOf(rules: seq<Rule>): (r: Rule)
    ensures r.hostname == ""
  {
    if rules == [] then DEFAULT_CATCH_ALL
    else if rules[|rules| - 1].hostname == "" then rules[|rules| - 1]
    else CatchAllOf(rules[..|rules| - 1])
  }

  predicate OneCatchAllLast(rules: seq<Rule>) {
    |rules| > 0 && rules[|rules| - 1].hostname == "" &&
    forall i | 0 <= i < |rules| - 1 :: rules[i].hostname != ""
  }

  /** The three edits that are passed to modifyIngress. */
  datatype Edit =
    | AddRoute(hostname: string, backend: string)
    | RemoveRoute(hostname: string)
    | ReplaceRoute(oldHostname: string, newHostname: string, backend: string)
  {
    predicate PutsHostname() {
      match this
      case AddRoute(h, _) => h != ""
      case RemoveRoute(_) => true
      case ReplaceRoute(_, n, _) => n != ""
    }

    function Touched(): set<string> {
      match this
      case AddRoute(h, _) => {h}
      case RemoveRoute(h) => {h}
      case ReplaceRoute(o, n, _) => {o, n}
    }

    /** What a lookup of `q` answers after the edit, given what it answered before. */
    function Answer(q: string, before: Option<string>): Option<string> {
      match this
      case AddRoute(h, b) => if q == h then Some(b) else before
      case RemoveRoute(h) => if q == h then None else before
      case ReplaceRoute(o, n, b) =>
        if q == n && (n == o || before.None?) then Some(b)
        else if q == o then None
        else before
    }
  }

  function Apply(edit: Edit, named: seq<Rule>): seq<Rule> {
    match edit
    case AddRoute(h, b) => Drop(named, {h}) + [Rule(h, b)]
    case RemoveRoute(h) => Drop(named, {h})
    case ReplaceRoute(o, n, b) => Drop(named, {o}) + [Rule(n, b)]
  }

  /** The list that modifyIngress writes back. */
  function Edited(edit: Edit, rules: seq<Rule>): seq<Rule> {
    Apply(edit, Drop(rules, {""})) + [CatchAllOf(rules)]
  }

  function EditAll(edits: seq<Edit>, rules: seq<Rule>): seq<Rule> {
    if edits == [] then rules else EditAll(edits[1..], Edited(edits[0], rules))
  }

  // ---- The loops of tunnel.go --------------------------------------------------------------

  /** removeHostname: a new slice without the rules for `hostname`. */
  method RemoveHostname(rules: seq<Rule>, hostname: string) returns (filtered: seq<Rule>)
    ensures filtered == Drop(rules, {hostname})
  {
    filtered := [];
    for i := 0 to |rules|
      invariant filtered == Drop(rules[..i], {hostname})
    {
      DropSnoc(rules[..i], rules[i], {hostname});
      assert rules[..i + 1] == rules[..i] + [rules[i]];
      if rules[i].hostname != hostname {
        filtered := filtered + [rules[i]];
      }
    }
    assert rules[..|rules|] == rules;
  }

  /** The closures that AddTunnelRoute, RemoveTunnelRoute and ReplaceTunnelRoute pass in. */
  method ApplyEdit(edit: Edit, named: seq<Rule>) returns (r: seq<Rule>)
    ensures r == Apply(edit, named)
  {
    match edit {
      case AddRoute(h, b) =>
        r := RemoveHostname(named, h);
        r := r + [Rule(h, b)];
      case RemoveRoute(h) =>
        r := RemoveHostname(named, h);
      case ReplaceRoute(o, n, b) =>
        r := RemoveHostname(named, o);
        r := r + [Rule(n, b)];
    }
  }

  /** The middle of modifyIngress: split off the catch-all, edit the named rules, put it back last. */
  method Rewrite(edit: Edit, rules: seq<Rule>) returns (r: seq<Rule>)
    ensures r == Edited(edit, rules)
  {
    hide CatchAllOf, Drop, Apply;
    NothingYet();
    var named := [];
    var catchAll: Option<Rule> := None;
    for i := 0 to |rules|
      invariant named == Drop(rules[..i], {""})
      invariant CatchAllOf(rules[..i]) == if catchAll.Some? then catchAll.value else DEFAULT_CATCH_ALL
    {
      DropSnoc(rules[..i], rules[i], {""});
      CatchAllSnoc(rules[..i], rules[i]);
      assert rules[..i + 1] == rules[..i] + [rules[i]];
      if rules[i].hostname == "" {
        catchAll := Some(rules[i]);
      } else {
        named := named + [rules[i]];
      }
    }
    assert rules[..|rules|] == rules;
    named := ApplyEdit(edit, named);
    if catchAll.Some? {
      r := named + [catchAll.value];
    } else {
      r := named + [DEFAULT_CATCH_ALL];
    }
  }

  lemma NothingYet()
    ensures Drop([], {""}) == [] && CatchAllOf([]) == DEFAULT_CATCH_ALL
  {
  }

  lemma CatchAllSnoc(rules: seq<Rule>, r: Rule)
    ensures CatchAllOf(rules + [r]) == if r.hostname == "" then r else CatchAllOf(rules)
  {
    assert (rules + [r])[..|rules|] == rules;
  }

  // ---- Filtering laws ----------------------------------------------------------------------

  lemma {:induction false} DropSnoc(rules: seq<Rule>, r: Rule, hosts: set<string>)
    ensures Drop(rules + [r], hosts) == Drop(rules, hosts) + if r.hostname in hosts then [] else [r]
  {
    DropConcat(rules, [r], hosts);
  }

  lemma UnfoldDrop(rules: seq<Rule>, hosts: set<string>)
    requires rules != []
    ensures Drop(rules, hosts) ==
            (if rules[0].hostname in hosts then [] else [rules[0]]) + Drop(rules[1..], hosts)
  {
  }

  lemma {:induction false} DropConcat(a: seq<Rule>, b: seq<Rule>, hosts: set<string>)
    ensures Drop(a + b, hosts) == Drop(a, hosts) + Drop(b, hosts)
  {
    if a == [] {
      assert a + b == b;
    } else {
      assert a + b != [] && (a + b)[0] == a[0] && (a + b)[1..] == a[1..] + b;
      hide Drop;
      UnfoldDrop(a, hosts);
      UnfoldDrop(a + b, hosts);
      DropConcat(a[1..], b, hosts);
    }
  }

  lemma {:induction false} DropDrop(rules: seq<Rule>, h: set<string>, k: set<string>)
    ensures Drop(Drop(rules, h), k) == Drop(rules, h + k)
  {
    if rules != [] {
      DropDrop(rules[1..], h, k);
      DropConcat(if rules[0].hostname in h then [] else [rules[0]], Drop(rules[1..], h), k);
    }
  }

  lemma {:induction false} DropHosts(rules: seq<Rule>, hosts: set<string>)
    ensures forall i | 0 <= i < |Drop(rules, hosts)| :: Drop(rules, hosts)[i].hostname !in hosts
  {
    if rules != [] {
      DropHosts(rules[1..], hosts);
    }
  }

  lemma {:induction false} OnlyConcat(a: seq<Rule>, b: seq<Rule>, hostname: string)
    ensures Only(a + b, hostname) == Only(a, hostname) + Only(b, hostname)
  {
    if a == [] {
      assert a + b == b;
    } else {
      assert (a + b)[0] == a[0] && (a + b)[1..] == a[1..] + b;
      OnlyConcat(a[1..], b, hostname);
    }
  }

  lemma {:induction false} OnlyDrop(rules: seq<Rule>, hosts: set<string>, q: string)
    ensures Only(Drop(rules, hosts), q) == if q in hosts then [] else Only(rules, q)
  {
    if rules != [] {
      OnlyDrop(rules[1..], hosts, q);
      OnlyConcat(if rules[0].hostname in hosts then [] else [rules[0]], Drop(rules[1..], hosts), q);
    }
  }

  lemma {:induction false} LookupOnly(rules: seq<Rule>, q: string)
    ensures Lookup(rules, q) == if Only(rules, q) == [] then None else Some(Only(rules, q)[0].service)
  {
    if rules != [] {
      LookupOnly(rules[1..], q);
    }
  }

  lemma OnlyOne(rule: Rule, q: string)
    ensures Only([rule], q) == if rule.hostname == q then [rule] else []
  {
  }

  /** The rules one edit leaves for a hostname, in terms of the rules it found. */
  lemma OnlyEdited(edit: Edit, rules: seq<Rule>, q: string)
    requires q != ""
    ensures Only(Edited(edit, rules), q) ==
      match edit
      case AddRoute(h, b) => if q == h then [Rule(h, b)] else Only(rules, q)
      case RemoveRoute(h) => if q == h then [] else Only(rules, q)
      case ReplaceRoute(o, n, b) =>
        (if q == o then [] else Only(rules, q)) + (if q == n then [Rule(n, b)] else [])
  {
    hide CatchAllOf, Only, Drop;
    var named := Drop(rules, {""});
    OnlyDrop(rules, {""}, q);
    OnlyConcat(Apply(edit, named), [CatchAllOf(rules)], q);
    OnlyOne(CatchAllOf(rules), q);
    match edit {
      case AddRoute(h, b) =>
        OnlyDrop(named, {h}, q);
        OnlyConcat(Drop(named, {h}), [Rule(h, b)], q);
        OnlyOne(Rule(h, b), q);
      case RemoveRoute(h) =>
        OnlyDrop(named, {h}, q);
      case ReplaceRoute(o, n, b) =>
        OnlyDrop(named, {o}, q);
        OnlyConcat(Drop(named, {o}), [Rule(n, b)], q);
        OnlyOne(Rule(n, b), q);
    }
  }

  /** The rule that every edit leaves in last place: the last one listed without a hostname, or, where there
      is none, the one that answers with 404. */
  lemma {:induction false} LastRule(edit: Edit, rules: seq<Rule>)
    ensures var after := Edited(edit, rules); var last := after[|after| - 1];
      if exists i :: 0 <= i < |rules| && rules[i].hostname == "" then
        exists i :: 0 <= i < |rules| && LastCatchAll(rules, i) && last == rules[i]
      else last == Rule("", "http_status:404")
  {
    if i :| 0 <= i < |rules| && rules[i].hostname == "" {
      var j := CatchAllAt(rules);
    } else {
      NoCatchAll(rules);
    }
  }

  predicate LastCatchAll(rules: seq<Rule>, i: nat)
    requires i < |rules|
  {
    rules[i].hostname == "" && forall j | i < j < |rules| :: rules[j].hostname != ""
  }

  lemma {:induction false} CatchAllAt(rules: seq<Rule>) returns (i: nat)
    requires exists i :: 0 <= i < |rules| && rules[i].hostname == ""
    ensures i < |rules| && LastCatchAll(rules, i) && CatchAllOf(rules) == rules[i]
  {
    i := |rules| - 1;
    if rules[i].hostname != "" {
      i := CatchAllAt(rules[..i]);
    }
  }

  lemma {:induction false} NoCatchAll(rules: seq<Rule>)
    requires forall i | 0 <= i < |rules| :: rules[i].hostname != ""
    ensures CatchAllOf(rules) == DEFAULT_CATCH_ALL
  {
    if rules != [] {
      NoCatchAll(rules[..|rules| - 1]);
    }
  }

  // ---- What every edit does ----------------------------------------------------------------

  /** Whatever the list looked like, an edit leaves one catch-all, last, exactly when it does not
      itself put in a rule with an empty hostname. */
  lemma EditLeavesOneCatchAll(edit: Edit, rules: seq<Rule>)
    ensures OneCatchAllLast(Edited(edit, rules)) <==> edit.PutsHostname()
  {
    var named := Drop(rules, {""});
    DropHosts(rules, {""});
    match edit {
      case AddRoute(h, b) =>
        DropDrop(rules, {""}, {h});
        DropHosts(rules, {""} + {h});
        assert Edited(edit, rules)[|Edited(edit, rules)| - 2] == Rule(h, b);
      case RemoveRoute(h) =>
        DropDrop(rules, {""}, {h});
        DropHosts(rules, {""} + {h});
      case ReplaceRoute(o, n, b) =>
        DropDrop(rules, {""}, {o});
        DropHosts(rules, {""} + {o});
        assert Edited(edit, rules)[|Edited(edit, rules)| - 2] == Rule(n, b);
    }
  }

  lemma LookupEdited(edit: Edit, rules: seq<Rule>, q: string)
    requires q != ""
    ensures Lookup(Edited(edit, rules), q) == edit.Answer(q, Lookup(rules, q))
  {
    OnlyEdited(edit, rules, q);
    LookupOnly(rules, q);
    LookupOnly(Edited(edit, rules), q);
  }

  lemma CatchAllKept(edit: Edit, rules: seq<Rule>)
    ensures CatchAllOf(Edited(edit, rules)) == CatchAllOf(rules)
  {
  }

  lemma {:induction false} UntouchedKept(edit: Edit, rules: seq<Rule>, hosts: set<string>)
    requires edit.Touched() + {""} <= hosts
    ensures Drop(Edited(edit, rules), hosts) == Drop(rules, hosts)
  {
    var named := Drop(rules, {""});
    DropDrop(rules, {""}, hosts);
    assert {""} + hosts == hosts;
    DropSnoc(Apply(edit, named), CatchAllOf(rules), hosts);
    match edit {
      case AddRoute(h, b) =>
        DropDrop(named, {h}, hosts);
        assert {h} + hosts == hosts;
        DropSnoc(Drop(named, {h}), Rule(h, b), hosts);
      case RemoveRoute(h) =>
        DropDrop(named, {h}, hosts);
        assert {h} + hosts == hosts;
      case ReplaceRoute(o, n, b) =>
        DropDrop(named, {o}, hosts);
        assert {o} + hosts == hosts;
        DropSnoc(Drop(named, {o}), Rule(n, b), hosts);
    }
  }

  // ---- What every run of edits does ----------------------------------------------------------

  ghost function TouchedBy(edits: seq<Edit>): set<string> {
    if edits == [] then {} else edits[0].Touched() + TouchedBy(edits[1..])
  }

  ghost function Answers(edits: seq<Edit>, q: string, before: Option<string>): Option<string> {
    if edits == [] then before else Answers(edits[1..], q, edits[0].Answer(q, before))
  }

  /** From any list, every non-empty run of edits ends with one catch-all in last place, and it is
      the one the list started with (the last listed, or the default). */
  lemma {:induction false} RunsEndInOneCatchAll(edits: seq<Edit>, rules: seq<Rule>)
    requires edits != [] && forall i | 0 <= i < |edits| :: edits[i].PutsHostname()
    ensures OneCatchAllLast(EditAll(edits, rules))
    ensures EditAll(edits, rules)[|EditAll(edits, rules)| - 1] == CatchAllOf(rules)
  {
    hide Edited, CatchAllOf, OneCatchAllLast;
    var r := Edited(edits[0], rules);
    CatchAllKept(edits[0], rules);
    if |edits| == 1 {
      EditLeavesOneCatchAll(edits[0], rules);
      LastIsCatchAll(r);
      assert edits[1..] == [] && EditAll([], r) == r;
    } else {
      assert forall i | 0 <= i < |edits| - 1 :: edits[1..][i] == edits[i + 1];
      RunsEndInOneCatchAll(edits[1..], r);
    }
  }

  lemma LastIsCatchAll(rules: seq<Rule>)
    requires OneCatchAllLast(rules)
    ensures rules != [] && rules[|rules| - 1] == CatchAllOf(rules)
  {
  }

  /** First-match lookup after a run is decided by the edits alone, starting from the old answer. */
  lemma {:induction false} LookupAfterRun(edits: seq<Edit>, rules: seq<Rule>, q: string)
    requires q != ""
    ensures Lookup(EditAll(edits, rules), q) == Answers(edits, q, Lookup(rules, q))
  {
    if edits != [] {
      LookupEdited(edits[0], rules, q);
      LookupAfterRun(edits[1..], Edited(edits[0], rules), q);
    }
  }

  /** Named rules no edit mentions keep their backends and their relative order over a whole run. */
  lemma {:induction false} OthersSurviveRun(edits: seq<Edit>, rules: seq<Rule>, hosts: set<string>)
    requires TouchedBy(edits) + {""} <= hosts
    ensures Drop(EditAll(edits, rules), hosts) == Drop(rules, hosts)
  {
    if edits != [] {
      UntouchedKept(edits[0], rules, hosts);
      OthersSurviveRun(edits[1..], Edited(edits[0], rules), hosts);
    }
  }

  /** A replace serves the new hostname from the new backend exactly when nothing else already
      answers for that hostname. */
  lemma ReplaceTakesEffectIff(o: string, n: string, b: string, rules: seq<Rule>)
    requires n != ""
    ensures Lookup(Edited(ReplaceRoute(o, n, b), rules), n) == Some(b) <==>
            n == o || Lookup(rules, n) in {None, Some(b)}
  {
    LookupEdited(ReplaceRoute(o, n, b), rules, n);
  }

  /** Adding twice changes nothing more, and adding then removing is the same as removing. */
  lemma AddLaws(h: string, b: string, b': string, rules: seq<Rule>)
    requires h != ""
    ensures Edited(AddRoute(h, b'), Edited(AddRoute(h, b), rules)) == Edited(AddRoute(h, b'), rules)
    ensures Edited(RemoveRoute(h), Edited(AddRoute(h, b), rules)) == Edited(RemoveRoute(h), rules)
  {
    var r := Edited(AddRoute(h, b), rules);
    CatchAllKept(AddRoute(h, b), rules);
    UntouchedKept(AddRoute(h, b), rules, {"", h});
    DropDrop(r, {""}, {h});
    DropDrop(rules, {""}, {h});
    assert {""} + {h} == {"", h};
  }
}
