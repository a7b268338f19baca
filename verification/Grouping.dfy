/**
 Sorting and grouping for the homepage (internal/web/templates.go:314-348). sort.Slice and
 sort.SliceStable are represented by one stable insertion sort; strings.ToLower is a parameter.
 */
module Grouping {
  import opened Catalog

  // ---- Orders -------------------------------------------------------------------------------------------

  /** Go's < on strings. */
  predicate StringLess(a: string, b: string) {
    b != "" && (a == "" || a[0] < b[0] || (a[0] == b[0] && StringLess(a[1..], b[1..])))
  }

  ghost predicate StrictOrder<T(!new)>(less: (T, T) -> bool) {
    && (forall x, y :: less(x, y) ==> !less(y, x))
    && (forall x, y, z :: less(x, y) && less(y, z) ==> less(x, z))
    && (forall x, y, z :: less(x, z) ==> less(x, y) || less(y, z))
  }

  lemma {:induction false} StringsOrdered(a: string, b: string, c: string)
    ensures StringLess(a, b) ==> !StringLess(b, a)
    ensures StringLess(a, b) && StringLess(b, c) ==> StringLess(a, c)
    ensures StringLess(a, b) || StringLess(b, a) || a == b
    decreases |a|
  {
    if a != "" && b != "" {
      StringsOrdered(a[1..], b[1..], if c == "" then "" else c[1..]);
      assert a == [a[0]] + a[1..] && b == [b[0]] + b[1..];
    }
  }

  datatype Keyed<!T> = Keyed(order: T -> int, name: T -> string, category: T -> string, lower: string -> string)

  /** By order, then by lower-case name. */
  function ItemLess<T>(k: Keyed<T>): (T, T) -> bool {
    (x: T, y: T) => if k.order(x) != k.order(y) then k.order(x) < k.order(y)
                    else StringLess(k.lower(k.name(x)), k.lower(k.name(y)))
  }

  /** The empty category first, then by lower case. The keys it is used on are distinct, so it is never
      asked about two empty ones. */
  function KeyLess(lower: string -> string): (string, string) -> bool {
    (x: string, y: string) => y != "" && (x == "" || StringLess(lower(x), lower(y)))
  }

  lemma ItemsOrdered<T(!new)>(k: Keyed<T>)
    ensures StrictOrder(ItemLess(k))
  {
    forall x, y, z
      ensures ItemLess(k)(x, y) ==> !ItemLess(k)(y, x)
      ensures ItemLess(k)(x, y) && ItemLess(k)(y, z) ==> ItemLess(k)(x, z)
      ensures ItemLess(k)(x, z) ==> ItemLess(k)(x, y) || ItemLess(k)(y, z)
    {
      StringsOrdered(k.lower(k.name(x)), k.lower(k.name(y)), k.lower(k.name(z)));
      StringsOrdered(k.lower(k.name(y)), k.lower(k.name(x)), k.lower(k.name(z)));
    }
  }

  lemma KeysOrdered(lower: string -> string)
    ensures StrictOrder(KeyLess(lower))
  {
    forall x, y, z
      ensures KeyLess(lower)(x, y) ==> !KeyLess(lower)(y, x)
      ensures KeyLess(lower)(x, y) && KeyLess(lower)(y, z) ==> KeyLess(lower)(x, z)
      ensures KeyLess(lower)(x, z) ==> KeyLess(lower)(x, y) || KeyLess(lower)(y, z)
    {
      StringsOrdered(lower(x), lower(y), lower(z));
      StringsOrdered(lower(y), lower(x), lower(z));
    }
  }

  // ---- Sorting --------------------------------------------------------------------------------------------

  ghost predicate Ordered<T>(s: seq<T>, less: (T, T) -> bool) {
    forall i, j | 0 <= i < j < |s| :: !less(s[j], s[i])
  }

  method Sort<T(!new)>(s: seq<T>, less: (T, T) -> bool) returns (r: seq<T>)
    requires StrictOrder(less)
    ensures Ordered(r, less) && multiset(r) == multiset(s)
  {
    r := [];
    for i := 0 to |s|
      invariant Ordered(r, less) && multiset(r) == multiset(s[..i])
    {
      assert s[..i + 1] == s[..i] + [s[i]];
      var at := |r|;
      while at > 0 && less(s[i], r[at - 1])
        invariant 0 <= at <= |r| && forall j | at <= j < |r| :: less(s[i], r[j])
      {
        at := at - 1;
      }
      InsertOrdered(r, s[i], at, less);
      assert r == r[..at] + r[at..];
      r := r[..at] + [s[i]] + r[at..];
    }
    assert s[..|s|] == s;
  }

  lemma InsertOrdered<T(!new)>(r: seq<T>, x: T, at: nat, less: (T, T) -> bool)
    requires StrictOrder(less) && Ordered(r, less) && at <= |r|
    requires forall j | at <= j < |r| :: less(x, r[j])
    requires at > 0 ==> !less(x, r[at - 1])
    ensures Ordered(r[..at] + [x] + r[at..], less)
  {
  }

  // ---- Grouping -------------------------------------------------------------------------------------------

  ghost function InCategory<T>(k: Keyed<T>, c: string): T -> bool {
    (x: T) => k.category(x) == c
  }

  /** The groups are made from a permutation of the items, each holding those of its category in order;
      and the keys are the categories, each once. */
  ghost predicate Grouped<T(!new)>(k: Keyed<T>, items: seq<T>, keys: seq<string>, groups: map<string, seq<T>>) {
    && (forall c :: c in keys <==> c in groups)
    && (forall c :: c in groups <==> HasCategory(k, items, c))
    && (forall i, j | 0 <= i < j < |keys| :: keys[i] != keys[j])
    && (forall c | c in groups :: GroupOf(k, items, c, groups[c]) && Ordered(groups[c], ItemLess(k)))
  }

  ghost predicate HasCategory<T(!new)>(k: Keyed<T>, items: seq<T>, c: string) {
    exists x :: x in items && k.category(x) == c
  }

  /** As many of each item of the category as there were, and nothing else. */
  ghost predicate GroupOf<T(!new)>(k: Keyed<T>, items: seq<T>, c: string, group: seq<T>) {
    forall x :: multiset(group)[x] == if k.category(x) == c then multiset(items)[x] else 0
  }

  lemma {:induction false} FilterCount<T>(s: seq<T>, keep: T -> bool, x: T)
    ensures multiset(Filter(s, keep))[x] == if keep(x) then multiset(s)[x] else 0
  {
    if s != [] {
      FilterCount(s[1..], keep, x);
      assert s == [s[0]] + s[1..];
      assert multiset(s) == multiset([s[0]]) + multiset(s[1..]);
    }
  }

  lemma {:induction false} FilterOrdered<T>(s: seq<T>, keep: T -> bool, less: (T, T) -> bool)
    requires Ordered(s, less)
    ensures Ordered(Filter(s, keep), less)
  {
    if s != [] {
      var rest := Filter(s[1..], keep);
      FilterOrdered(s[1..], keep, less);
      FilterMembers(s[1..], keep);
      forall j | 0 <= j < |rest| ensures !less(rest[j], s[0]) {
        assert rest[j] in s[1..];
      }
    }
  }

  method SortAndGroup<T(!new)>(k: Keyed<T>, items: seq<T>) returns (keys: seq<string>, groups: map<string, seq<T>>)
    ensures Grouped(k, items, keys, groups)
    ensures Ordered(keys, KeyLess(k.lower))
  {
    hide Filter, Ordered, HasCategory, GroupedSoFar;
    ItemsOrdered(k);
    KeysOrdered(k.lower);
    NoneIn(k);
    var sorted := Sort(items, ItemLess(k));
    keys, groups := [], map[];
    for i := 0 to |sorted|
      invariant GroupedSoFar(k, sorted[..i], keys, groups)
    {
      var item := sorted[i];
      var cat := k.category(item);
      GroupOne(k, sorted, i, keys, groups);
      if cat !in keys {
        keys := keys + [cat];
      }
      groups := groups[cat := (if cat in groups then groups[cat] else []) + [item]];
    }
    assert sorted[..|sorted|] == sorted;
    ghost var found := keys;
    keys := Sort(keys, KeyLess(k.lower));
    GroupsRight(k, items, sorted, found, keys, groups);
  }

  /** The groups hold the items gone through, category by category. */
  ghost predicate GroupedSoFar<T(!new)>(k: Keyed<T>, done: seq<T>, keys: seq<string>, groups: map<string, seq<T>>) {
    && (forall c :: c in keys <==> c in groups)
    && (forall c :: c in groups <==> HasCategory(k, done, c))
    && (forall a, b | 0 <= a < b < |keys| :: keys[a] != keys[b])
    && (forall c :: Filter(done, InCategory(k, c)) == if c in groups then groups[c] else [])
  }

  lemma NoneIn<T(!new)>(k: Keyed<T>)
    ensures GroupedSoFar(k, [], [], map[])
  {
  }

  lemma GroupOne<T(!new)>(k: Keyed<T>, sorted: seq<T>, i: nat, keys: seq<string>, groups: map<string, seq<T>>)
    requires i < |sorted| && GroupedSoFar(k, sorted[..i], keys, groups)
    ensures var cat := k.category(sorted[i]);
      GroupedSoFar(k, sorted[..i + 1], if cat in keys then keys else keys + [cat],
                   groups[cat := (if cat in groups then groups[cat] else []) + [sorted[i]]])
  {
    hide Filter, HasCategory, InCategory;
    OneMore(k, sorted, i);
  }

  lemma OneMore<T(!new)>(k: Keyed<T>, sorted: seq<T>, i: nat)
    requires i < |sorted|
    ensures forall c :: Filter(sorted[..i + 1], InCategory(k, c)) ==
                        if k.category(sorted[i]) == c then Filter(sorted[..i], InCategory(k, c)) + [sorted[i]]
                        else Filter(sorted[..i], InCategory(k, c))
    ensures forall c :: HasCategory(k, sorted[..i + 1], c) <==>
                        HasCategory(k, sorted[..i], c) || c == k.category(sorted[i])
  {
    hide Filter;
    assert sorted[..i + 1] == sorted[..i] + [sorted[i]];
    forall c ensures Filter(sorted[..i + 1], InCategory(k, c)) ==
                     if k.category(sorted[i]) == c then Filter(sorted[..i], InCategory(k, c)) + [sorted[i]]
                     else Filter(sorted[..i], InCategory(k, c)) {
      FilterSnoc(sorted[..i], sorted[i], InCategory(k, c));
    }
    assert forall x :: x in sorted[..i + 1] <==> x in sorted[..i] || x == sorted[i];
    forall c ensures HasCategory(k, sorted[..i + 1], c) <==>
                     HasCategory(k, sorted[..i], c) || c == k.category(sorted[i]) {
      if HasCategory(k, sorted[..i], c) {
        var x :| x in sorted[..i] && k.category(x) == c;
        assert x in sorted[..i + 1];
      }
      assert sorted[i] in sorted[..i + 1];
    }
  }

  lemma GroupsRight<T(!new)>(k: Keyed<T>, items: seq<T>, sorted: seq<T>, found: seq<string>, keys: seq<string>,
                             groups: map<string, seq<T>>)
    requires Ordered(sorted, ItemLess(k)) && multiset(sorted) == multiset(items)
    requires multiset(keys) == multiset(found) && GroupedSoFar(k, sorted, found, groups)
    ensures Grouped(k, items, keys, groups)
  {
    hide Ordered, Filter, HasCategory, GroupOf;
    SameMembers(found, keys);
    StillDistinct(found, keys);
    forall c ensures c in groups <==> HasCategory(k, items, c) {
      SameCategory(k, items, sorted, c);
    }
    forall c | c in groups ensures GroupOf(k, items, c, groups[c]) && Ordered(groups[c], ItemLess(k)) {
      FilterOrdered(sorted, InCategory(k, c), ItemLess(k));
      CountsOf(k, items, sorted, c);
    }
  }

  lemma SameCategory<T(!new)>(k: Keyed<T>, items: seq<T>, sorted: seq<T>, c: string)
    requires multiset(sorted) == multiset(items)
    ensures HasCategory(k, sorted, c) <==> HasCategory(k, items, c)
  {
    SameMembers(items, sorted);
  }

  lemma CountsOf<T(!new)>(k: Keyed<T>, items: seq<T>, sorted: seq<T>, c: string)
    requires multiset(sorted) == multiset(items)
    ensures GroupOf(k, items, c, Filter(sorted, InCategory(k, c)))
  {
    var group := Filter(sorted, InCategory(k, c));
    forall x ensures multiset(group)[x] == if k.category(x) == c then multiset(items)[x] else 0 {
      FilterCount(sorted, InCategory(k, c), x);
    }
  }

  lemma SameMembers<T(!new)>(a: seq<T>, b: seq<T>)
    requires multiset(a) == multiset(b)
    ensures forall x :: x in a <==> x in b
  {
    forall x ensures x in a <==> x in b {
      assert x in a <==> x in multiset(a);
      assert x in b <==> x in multiset(b);
    }
  }

  lemma StillDistinct(a: seq<string>, b: seq<string>)
    requires multiset(a) == multiset(b) && forall i, j | 0 <= i < j < |a| :: a[i] != a[j]
    ensures forall i, j | 0 <= i < j < |b| :: b[i] != b[j]
  {
    forall i, j | 0 <= i < j < |b| ensures b[i] != b[j] {
      Once(a, b[i]);
      Twice(b, i, j);
    }
  }

  lemma Twice(b: seq<string>, i: nat, j: nat)
    requires i < j < |b|
    ensures b[i] == b[j] ==> multiset(b)[b[i]] >= 2
  {
    var before, after := b[..j], b[j..];
    assert b == before + after;
    assert b[i] in before && b[j] in after;
    assert multiset(b) == multiset(before) + multiset(after);
  }

  lemma {:induction false} Once(a: seq<string>, x: string)
    requires forall i, j | 0 <= i < j < |a| :: a[i] != a[j]
    ensures multiset(a)[x] <= 1
  {
    if a != [] {
      assert a == [a[0]] + a[1..];
      Once(a[1..], x);
      if a[0] == x {
        assert x !in a[1..];
      }
    }
  }

  /** The empty category, if there is one, comes first. */
  lemma EmptyFirst<T(!new)>(k: Keyed<T>, items: seq<T>, keys: seq<string>, groups: map<string, seq<T>>)
    requires Grouped(k, items, keys, groups) && Ordered(keys, KeyLess(k.lower))
    ensures "" in keys ==> keys[0] == ""
    ensures forall i, j | 0 <= i < j < |keys| && keys[i] != "" :: !StringLess(k.lower(keys[j]), k.lower(keys[i]))
  {
  }
}
