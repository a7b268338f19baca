/**
 What the lookup maps of internal/store/store.go should hold, and how adding and removing entries
 changes that. Primary data is a map (services) or a slice (discovered entries, bookmarks) of
 pointers; a lookup map sends an attribute to the pointer of the one entry that has it.
 */
module Indexing {
  import opened Common
  import opened Entities
  import Catalog

  type Cells<T> = map<string, Ref<T>>

  /** The structs behind a map of pointers. */
  ghost function Deref<T>(cells: Cells<T>): map<string, T>
    reads cells.Values
  {
    map k | k in cells :: cells[k].v
  }

  lemma DerefPut<T>(cells: Cells<T>, k: string, cell: Ref<T>)
    ensures Deref(cells[k := cell]) == Deref(cells)[k := cell.v]
    ensures Deref(cells - {k}) == Deref(cells) - {k}
  {
  }

  lemma DerefExchange<T>(cells: Cells<T>, k: string, l: string, cell: Ref<T>)
    ensures Deref((cells - {k})[l := cell]) == (Deref(cells) - {k})[l := cell.v]
  {
  }

  // ---- What the lookup maps should hold -------------------------------------------------------------

  /** `idx` finds exactly the cells whose structs (`data`) have the attribute `attr`, each under it. */
  ghost predicate Indexes<T>(data: map<string, T>, cells: Cells<T>, idx: Cells<T>, attr: T -> Option<string>) {
    && data.Keys == cells.Keys
    && (forall k | k in data && attr(data[k]).Some? ::
          attr(data[k]).value in idx && idx[attr(data[k]).value] == cells[k])
    && (forall a | a in idx :: exists k :: Indexed(data, cells, k, idx[a], attr, a))
  }

  ghost predicate Indexed<T>(data: map<string, T>, cells: Cells<T>, k: string, cell: Ref<T>, attr: T -> Option<string>,
                             a: string) {
    k in data && k in cells && cells[k] == cell && attr(data[k]) == Some(a)
  }

  ghost function ByID(): Service -> Option<string> {
    (s: Service) => Some(s.id)
  }

  ghost function ByContainer(): Service -> Option<string> {
    (s: Service) => if s.containerID != "" then Some(s.containerID) else None
  }

  ghost function ByName(): Service -> Option<string> {
    (s: Service) => if s.source == SOURCE_DOCKER && s.containerName != "" then Some(s.containerName) else None
  }

  /** A lookup map is determined by the primary map: there is only one right way to fill it. */
  lemma IndexesDetermined<T>(data: map<string, T>, cells: Cells<T>, idx1: Cells<T>, idx2: Cells<T>,
                             attr: T -> Option<string>)
    requires Indexes(data, cells, idx1, attr) && Indexes(data, cells, idx2, attr)
    ensures idx1 == idx2
  {
  }

  /** No entry but the one at `k` has the attribute `a`. */
  ghost predicate OnlyAt<T>(data: map<string, T>, attr: T -> Option<string>, k: string, a: Option<string>) {
    a.Some? ==> forall l | l in data && l != k :: attr(data[l]) != a
  }

  ghost function WithEntry<T>(idx: Cells<T>, a: Option<string>, cell: Ref<T>): Cells<T> {
    if a.Some? then idx[a.value := cell] else idx
  }

  lemma IndexAdded<T>(data: map<string, T>, cells: Cells<T>, idx: Cells<T>, attr: T -> Option<string>,
                      k: string, x: T, cell: Ref<T>)
    requires Indexes(data, cells, idx, attr) && k !in data && OnlyAt(data, attr, k, attr(x))
    ensures Indexes(data[k := x], cells[k := cell], WithEntry(idx, attr(x), cell), attr)
  {
    var data', cells', idx' := data[k := x], cells[k := cell], WithEntry(idx, attr(x), cell);
    forall a | a in idx' ensures exists l :: Indexed(data', cells', l, idx'[a], attr, a) {
      if Some(a) == attr(x) {
        assert Indexed(data', cells', k, idx'[a], attr, a);
      } else {
        var l :| Indexed(data, cells, l, idx[a], attr, a);
        assert Indexed(data', cells', l, idx'[a], attr, a);
      }
    }
  }

  lemma IndexRemoved<T>(data: map<string, T>, cells: Cells<T>, idx: Cells<T>, attr: T -> Option<string>,
                        k: string, drop: string)
    requires Indexes(data, cells, idx, attr) && k in data && OnlyAt(data, attr, k, attr(data[k]))
    requires attr(data[k]) == Some(drop) || (attr(data[k]).None? && drop !in idx)
    ensures Indexes(data - {k}, cells - {k}, idx - {drop}, attr)
  {
    var data', cells', idx' := data - {k}, cells - {k}, idx - {drop};
    forall a | a in idx' ensures exists l :: Indexed(data', cells', l, idx'[a], attr, a) {
      var l :| Indexed(data, cells, l, idx[a], attr, a);
      assert Indexed(data', cells', l, idx'[a], attr, a);
    }
  }

  /** The three maps kept for services, all right for the given structs. */
  ghost predicate ServicesIndexed(data: Catalog.Services, cells: Cells<Service>, idIdx: Cells<Service>,
                                  containerIDIdx: Cells<Service>, containerNameIdx: Cells<Service>) {
    && Catalog.Unique(data)
    && Indexes(data, cells, idIdx, ByID())
    && Indexes(data, cells, containerIDIdx, ByContainer())
    && Indexes(data, cells, containerNameIdx, ByName())
  }

  lemma FittingAttributes(data: Catalog.Services, svc: Service)
    requires Catalog.Fits(data, svc)
    ensures OnlyAt(data, ByID(), svc.subdomain, ByID()(svc))
    ensures OnlyAt(data, ByContainer(), svc.subdomain, ByContainer()(svc))
    ensures OnlyAt(data, ByName(), svc.subdomain, ByName()(svc))
  {
  }

  lemma UniqueAttributes(data: Catalog.Services, k: string)
    requires Catalog.Unique(data) && k in data
    ensures OnlyAt(data, ByID(), k, ByID()(data[k]))
    ensures OnlyAt(data, ByContainer(), k, ByContainer()(data[k]))
    ensures OnlyAt(data, ByName(), k, ByName()(data[k]))
  {
  }

  lemma AddIndexed(data: Catalog.Services, cells: Cells<Service>, i: Cells<Service>, c: Cells<Service>,
                   n: Cells<Service>, svc: Service, cell: Ref<Service>)
    requires ServicesIndexed(data, cells, i, c, n) && Catalog.Fits(data, svc)
    ensures ServicesIndexed(data[svc.subdomain := svc], cells[svc.subdomain := cell], i[svc.id := cell],
                            WithEntry(c, ByContainer()(svc), cell), WithEntry(n, ByName()(svc), cell))
  {
    FittingAttributes(data, svc);
    IndexAdded(data, cells, i, ByID(), svc.subdomain, svc, cell);
    IndexAdded(data, cells, c, ByContainer(), svc.subdomain, svc, cell);
    IndexAdded(data, cells, n, ByName(), svc.subdomain, svc, cell);
    Catalog.AddKeepsUniqueIff(data, svc);
  }

  /** The ID of a service that was overwritten by one of another ID stays in the map of IDs. */
  lemma OverwrittenUnindexed(data: Catalog.Services, cells: Cells<Service>, i: Cells<Service>, svc: Service,
                             cell: Ref<Service>)
    requires Catalog.Unique(data) && Indexes(data, cells, i, ByID())
    requires svc.subdomain in data && Catalog.NewAt(data, svc)
    ensures !Indexes(data[svc.subdomain := svc], cells[svc.subdomain := cell], i[svc.id := cell], ByID())
  {
    var l := svc.subdomain;
    var data', cells', i', lost := data[l := svc], cells[l := cell], i[svc.id := cell], data[l].id;
    forall m | m in data' ensures data'[m].id != lost {
      assert m != l ==> Catalog.Distinct(data[m], data[l]);
    }
    assert ByID()(data[l]) == Some(lost) && lost in i && lost in i';
    hide Catalog.Unique;
    assert forall m :: !Indexed(data', cells', m, i'[lost], ByID(), lost);
  }

  /** Adding a service leaves the maps right exactly when it fits. */
  lemma AddIndexedIff(data: Catalog.Services, cells: Cells<Service>, i: Cells<Service>, c: Cells<Service>,
                      n: Cells<Service>, svc: Service, cell: Ref<Service>)
    requires ServicesIndexed(data, cells, i, c, n)
    ensures var indexed := ServicesIndexed(data[svc.subdomain := svc], cells[svc.subdomain := cell],
                                           i[svc.id := cell], WithEntry(c, ByContainer()(svc), cell),
                                           WithEntry(n, ByName()(svc), cell));
      (Catalog.Fits(data, svc) ==> indexed) && (Catalog.NewAt(data, svc) && indexed ==> Catalog.Fits(data, svc))
  {
    hide Indexes, Catalog.Unique, Catalog.Fits;
    if Catalog.Fits(data, svc) {
      AddIndexed(data, cells, i, c, n, svc, cell);
    } else if svc.subdomain !in data {
      Catalog.AddKeepsUniqueIff(data, svc);
    } else if Catalog.NewAt(data, svc) {
      OverwrittenUnindexed(data, cells, i, svc, cell);
    }
  }

  /** Removing the container-name key whatever the source is right because only docker services have
      a container name. */
  lemma RemoveIndexed(data: Catalog.Services, cells: Cells<Service>, i: Cells<Service>, c: Cells<Service>,
                      n: Cells<Service>, k: string)
    requires ServicesIndexed(data, cells, i, c, n) && k in data
    ensures ServicesIndexed(data - {k}, cells - {k}, i - {data[k].id}, c - {data[k].containerID},
                            n - {data[k].containerName})
  {
    UniqueAttributes(data, k);
    assert Catalog.Plain(data[k]);
    IndexRemoved(data, cells, i, ByID(), k, data[k].id);
    IndexRemoved(data, cells, c, ByContainer(), k, data[k].containerID);
    IndexRemoved(data, cells, n, ByName(), k, data[k].containerName);
    Catalog.RemoveKeepsUnique(data, k);
  }

  /** Replacing a service by an edit of it that does not fit among the others breaks the maps: if the new
      subdomain is taken, the service that had it is gone but still in the map of IDs. */
  lemma UnfitUnindexed(data: Catalog.Services, cells: Cells<Service>, i: Cells<Service>, c: Cells<Service>,
                       n: Cells<Service>, k: string, svc: Service, cell: Ref<Service>, c': Cells<Service>,
                       n': Cells<Service>)
    requires ServicesIndexed(data, cells, i, c, n) && k in data && svc.id == data[k].id
    requires !Catalog.Fits(data - {k}, svc)
    ensures !ServicesIndexed((data - {k})[svc.subdomain := svc], (cells - {k})[svc.subdomain := cell],
                             (i - {data[k].id})[svc.id := cell], c', n')
  {
    var l := svc.subdomain;
    if l in data - {k} {
      TakenUnindexed(data, cells, i, k, svc, cell);
    } else {
      Catalog.RemoveKeepsUnique(data, k);
      Catalog.AddKeepsUniqueIff(data - {k}, svc);
    }
  }

  /** After the overwriting no service has the ID of the one that was overwritten. */
  lemma NobodyHas(data: Catalog.Services, k: string, svc: Service)
    requires Catalog.Unique(data) && k in data && svc.id == data[k].id && svc.subdomain in data - {k}
    ensures svc.id != data[svc.subdomain].id
    ensures var data' := (data - {k})[svc.subdomain := svc];
      forall m | m in data' :: data'[m].id != data[svc.subdomain].id
  {
    forall m | m in data && m != svc.subdomain ensures data[m].id != data[svc.subdomain].id {
      assert Catalog.Distinct(data[m], data[svc.subdomain]);
    }
  }

  lemma TakenUnindexed(data: Catalog.Services, cells: Cells<Service>, i: Cells<Service>, k: string, svc: Service,
                       cell: Ref<Service>)
    requires Catalog.Unique(data) && Indexes(data, cells, i, ByID()) && k in data && svc.id == data[k].id
    requires svc.subdomain in data - {k}
    ensures !Indexes((data - {k})[svc.subdomain := svc], (cells - {k})[svc.subdomain := cell],
                     (i - {data[k].id})[svc.id := cell], ByID())
  {
    var l := svc.subdomain;
    var data', cells', i' := (data - {k})[l := svc], (cells - {k})[l := cell], (i - {data[k].id})[svc.id := cell];
    var lost := data[l].id;
    NobodyHas(data, k, svc);
    assert ByID()(data[l]) == Some(lost) && lost in i && lost in i';
    hide Catalog.Unique;
    assert forall m :: !Indexed(data', cells', m, i'[lost], ByID(), lost);
  }

  /** Replacing a service by an edit of it leaves the maps right exactly when the edit fits. */
  lemma EditIndexedIff(data: Catalog.Services, cells: Cells<Service>, i: Cells<Service>, c: Cells<Service>,
                       n: Cells<Service>, k: string, svc: Service, cell: Ref<Service>)
    requires ServicesIndexed(data, cells, i, c, n) && k in data
    ensures var fits := Catalog.Fits(data - {k}, svc);
      var indexed := ServicesIndexed((data - {k})[svc.subdomain := svc], (cells - {k})[svc.subdomain := cell],
                                     (i - {data[k].id})[svc.id := cell],
                                     WithEntry(c - {data[k].containerID}, ByContainer()(svc), cell),
                                     WithEntry(n - {data[k].containerName}, ByName()(svc), cell));
      (fits ==> indexed) && (svc.id == data[k].id && indexed ==> fits)
  {
    hide ServicesIndexed, Catalog.Fits;
    RemoveIndexed(data, cells, i, c, n, k);
    if Catalog.Fits(data - {k}, svc) {
      AddIndexed(data - {k}, cells - {k}, i - {data[k].id}, c - {data[k].containerID}, n - {data[k].containerName},
                 svc, cell);
    }
    if svc.id == data[k].id && !Catalog.Fits(data - {k}, svc) {
      UnfitUnindexed(data, cells, i, c, n, k, svc, cell,
                     WithEntry(c - {data[k].containerID}, ByContainer()(svc), cell),
                     WithEntry(n - {data[k].containerName}, ByName()(svc), cell));
    }
  }

  /** A hit in a lookup map is the cell of some entry with that attribute; a miss means there is none. */
  lemma IndexFinds<T>(data: map<string, T>, cells: Cells<T>, idx: Cells<T>, attr: T -> Option<string>, a: string)
    requires Indexes(data, cells, idx, attr)
    ensures a in idx ==> exists k :: Indexed(data, cells, k, idx[a], attr, a)
    ensures a !in idx ==> forall k | k in data :: attr(data[k]) != Some(a)
  {
  }

  /** What the lookup maps answer is what a search of the primary data would find. */
  lemma LookupByID(data: Catalog.Services, cells: Cells<Service>, i: Cells<Service>, c: Cells<Service>,
                   n: Cells<Service>, id: string)
    requires ServicesIndexed(data, cells, i, c, n)
    ensures var r := Catalog.KeyWhere(data, Catalog.HasID(id));
      && (id in i <==> r.Some?)
      && (r.Some? ==> r.value in data && r.value in cells && cells[r.value] == i[id]
                      && data[r.value].id == id && data[r.value].subdomain == r.value)
  {
    hide Indexes;
    IndexFinds(data, cells, i, ByID(), id);
    assert forall k | k in data :: ByID()(data[k]) == Some(id) <==> Catalog.At(data, k, Catalog.HasID(id));
    if id in i {
      var k :| Indexed(data, cells, k, i[id], ByID(), id);
      Catalog.KeyWhereUnique(data, k);
    }
  }

  lemma LookupByContainer(data: Catalog.Services, cells: Cells<Service>, i: Cells<Service>, c: Cells<Service>,
                          n: Cells<Service>, cid: string)
    requires ServicesIndexed(data, cells, i, c, n)
    ensures var r := Catalog.KeyWhere(data, Catalog.HasContainer(cid));
      && (cid in c <==> r.Some?)
      && (r.Some? ==> r.value in data && r.value in cells && cells[r.value] == c[cid]
                      && data[r.value].containerID == cid != "" && data[r.value].subdomain == r.value)
  {
    hide Indexes;
    IndexFinds(data, cells, c, ByContainer(), cid);
    assert forall k | k in data ::
             ByContainer()(data[k]) == Some(cid) <==> Catalog.At(data, k, Catalog.HasContainer(cid));
    if cid in c {
      var k :| Indexed(data, cells, k, c[cid], ByContainer(), cid);
      Catalog.KeyWhereUnique(data, k);
    }
  }

  lemma LookupByName(data: Catalog.Services, cells: Cells<Service>, i: Cells<Service>, c: Cells<Service>,
                     n: Cells<Service>, name: string)
    requires ServicesIndexed(data, cells, i, c, n)
    ensures var r := Catalog.KeyWhere(data, Catalog.HasName(name));
      && (name in n <==> r.Some?)
      && (r.Some? ==> r.value in data && r.value in cells && cells[r.value] == n[name])
  {
    hide Indexes;
    IndexFinds(data, cells, n, ByName(), name);
    assert forall k | k in data :: ByName()(data[k]) == Some(name) <==> Catalog.At(data, k, Catalog.HasName(name));
    if name in n {
      var k :| Indexed(data, cells, k, n[name], ByName(), name);
      Catalog.KeyWhereUnique(data, k);
    }
  }

  // ---- Slices ---------------------------------------------------------------------------------------

  /** A slice of pointers as a sequence of (struct, pointer) pairs. */
  type Slice<T> = seq<(T, Ref<T>)>

  ghost function Structs<T>(p: Slice<T>): seq<T> {
    seq(|p|, i requires 0 <= i < |p| => p[i].0)
  }

  ghost predicate InSlice<T>(p: Slice<T>, i: int, cell: Ref<T>, attr: T -> Option<string>, a: string) {
    0 <= i < |p| && p[i].1 == cell && attr(p[i].0) == Some(a)
  }

  ghost predicate SliceIndexes<T>(p: Slice<T>, idx: Cells<T>, attr: T -> Option<string>) {
    && (forall e | e in p && attr(e.0).Some? :: attr(e.0).value in idx && idx[attr(e.0).value] == e.1)
    && (forall a | a in idx :: exists i :: InSlice(p, i, idx[a], attr, a))
  }

  lemma SliceIndexesDetermined<T>(p: Slice<T>, idx1: Cells<T>, idx2: Cells<T>, attr: T -> Option<string>)
    requires SliceIndexes(p, idx1, attr) && SliceIndexes(p, idx2, attr)
    ensures idx1 == idx2
  {
  }

  lemma SliceAppended<T>(p: Slice<T>, idx: Cells<T>, attr: T -> Option<string>, x: T, cell: Ref<T>)
    requires SliceIndexes(p, idx, attr)
    requires forall e | e in p :: attr(e.0) != attr(x) || attr(x).None?
    ensures SliceIndexes(p + [(x, cell)], WithEntry(idx, attr(x), cell), attr)
  {
    var p', idx' := p + [(x, cell)], WithEntry(idx, attr(x), cell);
    assert (x, cell) in p';
    forall a | a in idx' ensures exists i :: InSlice(p', i, idx'[a], attr, a) {
      if Some(a) == attr(x) {
        assert InSlice(p', |p|, idx'[a], attr, a);
      } else {
        var i :| InSlice(p, i, idx[a], attr, a);
        assert InSlice(p', i, idx'[a], attr, a);
      }
    }
  }

  ghost function OnStruct<T>(keep: T -> bool): ((T, Ref<T>)) -> bool {
    (e: (T, Ref<T>)) => keep(e.0)
  }

  lemma {:induction false} StructsFiltered<T>(p: Slice<T>, keep: T -> bool)
    ensures Structs(Catalog.Filter(p, OnStruct(keep))) == Catalog.Filter(Structs(p), keep)
  {
    if p != [] {
      StructsFiltered(p[1..], keep);
      assert Structs(p)[1..] == Structs(p[1..]);
    }
  }

  /** `idx'` is `idx` without the attributes of the entries that are not kept. */
  ghost predicate Pruned<T>(p: Slice<T>, idx: Cells<T>, idx': Cells<T>, attr: T -> Option<string>, keep: T -> bool) {
    && (forall e | e in p && attr(e.0).Some? :: attr(e.0).value in idx' <==> keep(e.0))
    && (forall a | a in idx' :: a in idx && idx'[a] == idx[a])
  }

  lemma SliceFiltered<T>(p: Slice<T>, idx: Cells<T>, idx': Cells<T>, attr: T -> Option<string>, keep: T -> bool)
    requires SliceIndexes(p, idx, attr) && Pruned(p, idx, idx', attr, keep)
    ensures SliceIndexes(Catalog.Filter(p, OnStruct(keep)), idx', attr)
  {
    var f := Catalog.Filter(p, OnStruct(keep));
    Catalog.FilterMembers(p, OnStruct(keep));
    forall e | e in f && attr(e.0).Some? ensures attr(e.0).value in idx' && idx'[attr(e.0).value] == e.1 {
      assert e in p && keep(e.0);
    }
    forall a | a in idx' ensures exists j :: InSlice(f, j, idx'[a], attr, a) {
      var i :| InSlice(p, i, idx[a], attr, a);
      assert p[i] in f;
      var j :| 0 <= j < |f| && f[j] == p[i];
      assert InSlice(f, j, idx'[a], attr, a);
    }
  }

  /** A lookup map stays right when structs change in ways it does not look at. */
  lemma SliceUntouched<T>(p: Slice<T>, p': Slice<T>, idx: Cells<T>, attr: T -> Option<string>)
    requires SliceIndexes(p, idx, attr)
    requires |p'| == |p| && forall i | 0 <= i < |p| :: p'[i].1 == p[i].1 && attr(p'[i].0) == attr(p[i].0)
    ensures SliceIndexes(p', idx, attr)
  {
    forall e' | e' in p' && attr(e'.0).Some? ensures attr(e'.0).value in idx && idx[attr(e'.0).value] == e'.1 {
      var i :| 0 <= i < |p'| && p'[i] == e';
      assert p[i] in p;
    }
    forall a | a in idx ensures exists i :: InSlice(p', i, idx[a], attr, a) {
      var i :| InSlice(p, i, idx[a], attr, a);
      assert InSlice(p', i, idx[a], attr, a);
    }
  }

  lemma IndexUntouched<T>(data: map<string, T>, data': map<string, T>, cells: Cells<T>, idx: Cells<T>,
                          attr: T -> Option<string>)
    requires Indexes(data, cells, idx, attr)
    requires data'.Keys == data.Keys && forall k | k in data :: attr(data'[k]) == attr(data[k])
    ensures Indexes(data', cells, idx, attr)
  {
    forall a | a in idx ensures exists k :: Indexed(data', cells, k, idx[a], attr, a) {
      var k :| Indexed(data, cells, k, idx[a], attr, a);
      assert Indexed(data', cells, k, idx[a], attr, a);
    }
  }

  ghost function DiscID(): Discovered -> Option<string> {
    (d: Discovered) => Some(d.id)
  }

  ghost function DiscContainer(): Discovered -> Option<string> {
    (d: Discovered) => if d.containerID != "" then Some(d.containerID) else None
  }

  /** The two maps kept for discovered entries. */
  ghost predicate ShelfIndexed(p: Slice<Discovered>, idx: Cells<Discovered>, containerIdx: Cells<Discovered>) {
    && Catalog.UniqueShelf(Structs(p))
    && SliceIndexes(p, idx, DiscID())
    && SliceIndexes(p, containerIdx, DiscContainer())
  }

  lemma ShelfAppended(p: Slice<Discovered>, idx: Cells<Discovered>, cidx: Cells<Discovered>, d: Discovered,
                      cell: Ref<Discovered>)
    requires ShelfIndexed(p, idx, cidx) && Catalog.UniqueShelf(Structs(p) + [d])
    ensures ShelfIndexed(p + [(d, cell)], idx[d.id := cell], WithEntry(cidx, DiscContainer()(d), cell))
    ensures Structs(p + [(d, cell)]) == Structs(p) + [d]
  {
    var ds := Structs(p);
    forall e | e in p ensures Catalog.Apart(e.0, d) {
      var i :| 0 <= i < |p| && p[i] == e;
      assert Catalog.Apart((ds + [d])[i], (ds + [d])[|ds|]);
    }
    assert Structs(p + [(d, cell)]) == ds + [d];
    SliceAppended(p, idx, DiscID(), d, cell);
    SliceAppended(p, cidx, DiscContainer(), d, cell);
  }

  lemma ShelfFiltered(p: Slice<Discovered>, idx: Cells<Discovered>, cidx: Cells<Discovered>,
                      idx': Cells<Discovered>, cidx': Cells<Discovered>, keep: Discovered -> bool)
    requires ShelfIndexed(p, idx, cidx)
    requires Pruned(p, idx, idx', DiscID(), keep) && Pruned(p, cidx, cidx', DiscContainer(), keep)
    ensures ShelfIndexed(Catalog.Filter(p, OnStruct(keep)), idx', cidx')
  {
    Catalog.FilterKeepsUnique(Structs(p), keep);
    StructsFiltered(p, keep);
    SliceFiltered(p, idx, idx', DiscID(), keep);
    SliceFiltered(p, cidx, cidx', DiscContainer(), keep);
  }

  /** Taking one entry out of both maps prunes exactly that entry. */
  lemma OnePruned(p: Slice<Discovered>, idx: Cells<Discovered>, cidx: Cells<Discovered>,
                  gone: (Discovered, Ref<Discovered>), keep: Discovered -> bool)
    requires ShelfIndexed(p, idx, cidx) && gone in p
    requires forall e | e in p :: keep(e.0) <==> e != gone
    ensures Pruned(p, idx, idx - {gone.0.id}, DiscID(), keep)
    ensures Pruned(p, cidx, if gone.0.containerID != "" then cidx - {gone.0.containerID} else cidx, DiscContainer(),
                   keep)
  {
    forall e | e in p && e != gone
      ensures e.0.id != gone.0.id && (e.0.containerID == gone.0.containerID ==> gone.0.containerID == "")
    {
      EntriesApart(p, e, gone);
    }
  }

  lemma EntriesApart(p: Slice<Discovered>, e: (Discovered, Ref<Discovered>), f: (Discovered, Ref<Discovered>))
    requires Catalog.UniqueShelf(Structs(p)) && e in p && f in p && e != f
    ensures Catalog.Apart(e.0, f.0)
  {
    var i :| 0 <= i < |p| && p[i] == e;
    var j :| 0 <= j < |p| && p[j] == f;
    assert i < j ==> Catalog.Apart(Structs(p)[i], Structs(p)[j]);
    assert j < i ==> Catalog.Apart(Structs(p)[j], Structs(p)[i]);
  }

  ghost function SliceOf<T>(cells: seq<Ref<T>>): Slice<T>
    reads cells
  {
    seq(|cells|, i requires 0 <= i < |cells| reads cells => (cells[i].v, cells[i]))
  }

  ghost predicate IgnoredIndexed(igs: seq<Ignored>, idx: map<string, Ignored>) {
    && (forall ig | ig in igs :: ig.id in idx && idx[ig.id] == ig)
    && (forall a | a in idx :: idx[a] in igs && idx[a].id == a)
  }

  /** Detaching the container of the service at `k` takes its container out of one map only. */
  lemma ClearIndexed(data: Catalog.Services, cells: Cells<Service>, i: Cells<Service>, c: Cells<Service>,
                     n: Cells<Service>, k: string)
    requires ServicesIndexed(data, cells, i, c, n) && k in data && data[k].containerID != ""
    ensures Catalog.ClearContainer(data, data[k].containerID) == data[k := data[k].(containerID := "")]
    ensures ServicesIndexed(data[k := data[k].(containerID := "")], cells, i, c - {data[k].containerID}, n)
  {
    hide Indexes;
    Catalog.ClearKeepsUnique(data, data[k].containerID);
    hide Catalog.Unique, Catalog.ClearContainer;
    var data' := data[k := data[k].(containerID := "")];
    IndexUntouched(data, data', cells, i, ByID());
    IndexUntouched(data, data', cells, n, ByName());
    ContainerCleared(data, cells, c, k);
  }

  lemma ContainerCleared(data: Catalog.Services, cells: Cells<Service>, c: Cells<Service>, k: string)
    requires Indexes(data, cells, c, ByContainer()) && k in data && data[k].containerID != ""
    requires forall l | l in data && l != k :: data[l].containerID != data[k].containerID
    ensures Indexes(data[k := data[k].(containerID := "")], cells, c - {data[k].containerID}, ByContainer())
  {
    var cid := data[k].containerID;
    var data', c' := data[k := data[k].(containerID := "")], c - {data[k].containerID};
    var nu := data[k].(containerID := "");
    assert k in cells;
    hide Indexes;
    AloneAttached(data, k);
    IndexRemoved(data, cells, c, ByContainer(), k, cid);
    Unattached(data - {k}, cells - {k}, c', k, nu, cells[k]);
    assert data' == (data - {k})[k := nu];
    assert cells == (cells - {k})[k := cells[k]];
  }

  lemma AloneAttached(data: Catalog.Services, k: string)
    requires k in data && data[k].containerID != ""
    requires forall l | l in data && l != k :: data[l].containerID != data[k].containerID
    ensures OnlyAt(data, ByContainer(), k, ByContainer()(data[k]))
  {
  }

  /** A service without a container is not in the map of containers. */
  lemma Unattached(data: Catalog.Services, cells: Cells<Service>, c: Cells<Service>, k: string, svc: Service,
                   cell: Ref<Service>)
    requires Indexes(data, cells, c, ByContainer()) && k !in data && svc.containerID == ""
    ensures Indexes(data[k := svc], cells[k := cell], c, ByContainer())
  {
    var data', cells' := data[k := svc], cells[k := cell];
    forall a | a in c ensures exists l :: Indexed(data', cells', l, c[a], ByContainer(), a) {
      var l :| Indexed(data, cells, l, c[a], ByContainer(), a);
      assert Indexed(data', cells', l, c[a], ByContainer(), a);
    }
  }

  lemma OrderlyShelf(s: Catalog.Shelves)
    requires Catalog.Orderly(s)
    ensures Catalog.UniqueShelf(s.discovered)
  {
  }

  /** A hit in the ID map is the one entry with that ID; a miss means there is none. */
  lemma FindID(p: Slice<Discovered>, idx: Cells<Discovered>, cidx: Cells<Discovered>, id: string) returns (i: int)
    requires ShelfIndexed(p, idx, cidx)
    ensures id in idx ==> InSlice(p, i, idx[id], DiscID(), id) &&
                          (forall e | e in p :: Catalog.NotID(id)(e.0) <==> e != p[i]) &&
                          Catalog.Find(Structs(p), Catalog.IsID(id)) == Some(p[i].0)
    ensures id !in idx ==> Pruned(p, idx, idx, DiscID(), Catalog.NotID(id)) &&
                           Pruned(p, cidx, cidx, DiscContainer(), Catalog.NotID(id)) &&
                           Catalog.Find(Structs(p), Catalog.IsID(id)) == None
  {
    i := 0;
    if id in idx {
      i :| InSlice(p, i, idx[id], DiscID(), id);
      forall e | e in p ensures e.0.id == id ==> e == p[i] {
        if e != p[i] {
          EntriesApart(p, e, p[i]);
        }
      }
      Catalog.FindByID(Structs(p), Structs(p)[i]);
    } else {
      forall e | e in p ensures e.0.id != id {
      }
    }
  }

  lemma FindContainer(p: Slice<Discovered>, idx: Cells<Discovered>, cidx: Cells<Discovered>, cid: string)
    requires ShelfIndexed(p, idx, cidx)
    ensures cid in cidx <==> cid != "" && exists i | 0 <= i < |p| :: Structs(p)[i].containerID == cid
  {
    if cid in cidx {
      var i :| InSlice(p, i, cidx[cid], DiscContainer(), cid);
      assert Structs(p)[i].containerID == cid;
    }
    if cid != "" && exists i | 0 <= i < |p| :: Structs(p)[i].containerID == cid {
      var i :| 0 <= i < |p| && Structs(p)[i].containerID == cid;
      assert p[i] in p;
    }
  }

  /** Filtering out the entries without a container, which no lookup by container finds, leaves the maps
      right exactly when there are none: their IDs stay in the map. */
  lemma NoContainerFiltered(p: Slice<Discovered>, idx: Cells<Discovered>, cidx: Cells<Discovered>)
    requires ShelfIndexed(p, idx, cidx)
    ensures ShelfIndexed(Catalog.Filter(p, OnStruct(Catalog.NotContainer(""))), idx, cidx) <==>
            forall e | e in p :: e.0.containerID != ""
  {
    var keep := Catalog.NotContainer("");
    var p' := Catalog.Filter(p, OnStruct(keep));
    if e :| e in p && e.0.containerID == "" {
      Catalog.FilterMembers(p, OnStruct(keep));
      assert e.0.id in idx;
      forall i ensures !InSlice(p', i, idx[e.0.id], DiscID(), e.0.id) {
        if 0 <= i < |p'| {
          assert p'[i] in p' && p'[i] in p && OnStruct(keep)(p'[i]);
          EntriesApart(p, p'[i], e);
        }
      }
    } else {
      Catalog.FilterAll(p, OnStruct(keep));
    }
  }

  lemma NoneWithout(p: Slice<Discovered>)
    ensures (forall e | e in p :: e.0.containerID != "") <==> forall d | d in Structs(p) :: d.containerID != ""
  {
    forall i | 0 <= i < |p| ensures p[i] in p && Structs(p)[i] in Structs(p) && Structs(p)[i] == p[i].0 {
    }
  }

  lemma FindContainerEntry(p: Slice<Discovered>, idx: Cells<Discovered>, cidx: Cells<Discovered>, cid: string)
    returns (i: int)
    requires ShelfIndexed(p, idx, cidx) && cid != ""
    ensures cid in cidx ==> InSlice(p, i, cidx[cid], DiscContainer(), cid) &&
                            (forall e | e in p :: Catalog.NotContainer(cid)(e.0) <==> e != p[i])
    ensures cid !in cidx ==> Pruned(p, idx, idx, DiscID(), Catalog.NotContainer(cid)) &&
                             Pruned(p, cidx, cidx, DiscContainer(), Catalog.NotContainer(cid))
  {
    i := 0;
    if cid in cidx {
      i :| InSlice(p, i, cidx[cid], DiscContainer(), cid);
      forall e | e in p ensures e.0.containerID == cid ==> e == p[i] {
        if e != p[i] {
          EntriesApart(p, e, p[i]);
        }
      }
    } else {
      forall e | e in p ensures e.0.containerID != cid {
      }
    }
  }

  /** Like Pruned, with only the first n entries dealt with. */
  ghost predicate PrunedTo<T>(p: Slice<T>, idx: Cells<T>, idx': Cells<T>, attr: T -> Option<string>, keep: T -> bool,
                              n: nat) {
    && (forall i | 0 <= i < |p| && attr(p[i].0).Some? :: attr(p[i].0).value in idx' <==> i >= n || keep(p[i].0))
    && (forall a | a in idx' :: a in idx && idx'[a] == idx[a])
  }

  lemma PrunedNone(p: Slice<Discovered>, idx: Cells<Discovered>, cidx: Cells<Discovered>, keep: Discovered -> bool)
    requires ShelfIndexed(p, idx, cidx)
    ensures PrunedTo(p, idx, idx, DiscID(), keep, 0) && PrunedTo(p, cidx, cidx, DiscContainer(), keep, 0)
  {
  }

  lemma PrunedAll<T>(p: Slice<T>, idx: Cells<T>, idx': Cells<T>, attr: T -> Option<string>, keep: T -> bool)
    requires PrunedTo(p, idx, idx', attr, keep, |p|)
    ensures Pruned(p, idx, idx', attr, keep)
  {
  }

  lemma PruneNext<T>(p: Slice<T>, idx: Cells<T>, idx': Cells<T>, attr: T -> Option<string>, keep: T -> bool, n: nat)
    requires n < |p| && PrunedTo(p, idx, idx', attr, keep, n)
    requires forall i | 0 <= i < |p| && i != n :: attr(p[i].0) != attr(p[n].0) || attr(p[n].0).None?
    ensures PrunedTo(p, idx, if keep(p[n].0) || attr(p[n].0).None? then idx' else idx' - {attr(p[n].0).value}, attr,
                     keep, n + 1)
  {
  }

  lemma PruneOne(p: Slice<Discovered>, idx: Cells<Discovered>, cidx: Cells<Discovered>, idx': Cells<Discovered>,
                 cidx': Cells<Discovered>, keep: Discovered -> bool, n: nat)
    requires ShelfIndexed(p, idx, cidx) && n < |p|
    requires PrunedTo(p, idx, idx', DiscID(), keep, n) && PrunedTo(p, cidx, cidx', DiscContainer(), keep, n)
    ensures var d := p[n].0;
      && PrunedTo(p, idx, if keep(d) then idx' else idx' - {d.id}, DiscID(), keep, n + 1)
      && PrunedTo(p, cidx, if keep(d) || d.containerID == "" then cidx' else cidx' - {d.containerID}, DiscContainer(),
                  keep, n + 1)
  {
    OthersApart(p, idx, cidx, n);
    hide PrunedTo, ShelfIndexed;
    PruneNext(p, idx, idx', DiscID(), keep, n);
    PruneNext(p, cidx, cidx', DiscContainer(), keep, n);
  }

  lemma OthersApart(p: Slice<Discovered>, idx: Cells<Discovered>, cidx: Cells<Discovered>, n: nat)
    requires ShelfIndexed(p, idx, cidx) && n < |p|
    ensures forall i | 0 <= i < |p| && i != n ::
              DiscID()(p[i].0) != DiscID()(p[n].0) &&
              (DiscContainer()(p[i].0) != DiscContainer()(p[n].0) || DiscContainer()(p[n].0).None?)
  {
    hide SliceIndexes;
    var ds := Structs(p);
    forall i | 0 <= i < |p| && i != n
      ensures ds[i].id != ds[n].id && (ds[i].containerID == ds[n].containerID ==> ds[n].containerID == "")
    {
      assert i < n ==> Catalog.Apart(ds[i], ds[n]);
      assert n < i ==> Catalog.Apart(ds[n], ds[i]);
    }
    assert forall i | 0 <= i < |p| :: p[i].0 == ds[i];
  }

  /** The pointers of a well-indexed slice are all different. */
  lemma DistinctCells(cells: seq<Ref<Discovered>>, p: Slice<Discovered>, idx: Cells<Discovered>,
                      cidx: Cells<Discovered>)
    requires p == SliceOf(cells) && ShelfIndexed(p, idx, cidx)
    ensures forall i, j | 0 <= i < |cells| && 0 <= j < |cells| && i != j :: cells[i] != cells[j]
  {
    forall i, j | 0 <= i < j < |cells| ensures cells[i] != cells[j] {
      assert Catalog.Apart(Structs(p)[i], Structs(p)[j]);
    }
  }

  lemma ShelfUntouched(p: Slice<Discovered>, p': Slice<Discovered>, idx: Cells<Discovered>, cidx: Cells<Discovered>)
    requires ShelfIndexed(p, idx, cidx) && |p'| == |p| && Catalog.UniqueShelf(Structs(p'))
    requires forall i | 0 <= i < |p| ::
               p'[i].1 == p[i].1 && p'[i].0.id == p[i].0.id && p'[i].0.containerID == p[i].0.containerID
    ensures ShelfIndexed(p', idx, cidx)
  {
    SliceUntouched(p, p', idx, DiscID());
    SliceUntouched(p, p', cidx, DiscContainer());
  }

  lemma IgnoredAppended(s: Catalog.Shelves, idx: map<string, Ignored>, d: Discovered, now: int)
    requires Catalog.Orderly(s) && d in s.discovered && IgnoredIndexed(s.ignored, idx)
    ensures IgnoredIndexed(s.ignored + [Catalog.ToIgnored(d, now)], idx[d.id := Catalog.ToIgnored(d, now)])
  {
  }

  lemma FindIgnored(s: Catalog.Shelves, idx: map<string, Ignored>, id: string)
    requires IgnoredIndexed(s.ignored, idx)
    ensures Catalog.Find(s.ignored, Catalog.IsIgnoredID(id)) == if id in idx then Some(idx[id]) else None
    ensures id in idx ==> idx[id].id == id
  {
  }

  lemma IgnoredRemoved(s: Catalog.Shelves, idx: map<string, Ignored>, id: string)
    requires IgnoredIndexed(s.ignored, idx) && id in idx
    ensures IgnoredIndexed(Catalog.Filter(s.ignored, Catalog.NotIgnoredID(id)), idx - {id})
  {
    Catalog.FilterMembers(s.ignored, Catalog.NotIgnoredID(id));
  }

  // ---- Bookmarks ------------------------------------------------------------------------------------------

  ghost function BookmarkID(): Bookmark -> Option<string> {
    (b: Bookmark) => Some(b.id)
  }

  ghost predicate BookmarksIndexed(p: Slice<Bookmark>, idx: Cells<Bookmark>) {
    Catalog.UniqueBookmarks(Structs(p)) && SliceIndexes(p, idx, BookmarkID())
  }

  lemma BookmarkAppended(p: Slice<Bookmark>, idx: Cells<Bookmark>, b: Bookmark, cell: Ref<Bookmark>)
    requires BookmarksIndexed(p, idx) && Catalog.UniqueBookmarks(Structs(p) + [b])
    ensures BookmarksIndexed(p + [(b, cell)], idx[b.id := cell])
  {
    var bs := Structs(p) + [b];
    forall e | e in p ensures e.0.id != b.id {
      var i :| 0 <= i < |p| && p[i] == e;
      assert bs[i].id != bs[|p|].id;
    }
    assert Structs(p + [(b, cell)]) == bs;
    SliceAppended(p, idx, BookmarkID(), b, cell);
  }

  lemma BookmarksUnique(p: Slice<Bookmark>, idx: Cells<Bookmark>)
    ensures BookmarksIndexed(p, idx) ==> Catalog.UniqueBookmarks(Structs(p))
  {
  }

  /** Putting another bookmark in a place leaves a right map exactly when IDs are still distinct. */
  lemma BookmarkReplaced(p: Slice<Bookmark>, idx: Cells<Bookmark>, n: nat, b: Bookmark, cell: Ref<Bookmark>)
    requires BookmarksIndexed(p, idx) && n < |p|
    ensures Structs(p[n := (b, cell)]) == Structs(p)[n := b]
    ensures BookmarksIndexed(p[n := (b, cell)], (idx - {p[n].0.id})[b.id := cell]) <==>
            Catalog.UniqueBookmarks(Structs(p)[n := b])
  {
    var bs, bs' := Structs(p), Structs(p)[n := b];
    assert Structs(p[n := (b, cell)]) == bs';
    if Catalog.UniqueBookmarks(bs') {
      forall i | 0 <= i < |p| && i != n ensures p[i].0.id != p[n].0.id && p[i].0.id != b.id {
        assert bs[i].id != bs[n].id && bs'[i].id != bs'[n].id;
      }
      BookmarkReindexed(p, idx, n, b, cell);
    }
  }

  lemma BookmarkReindexed(p: Slice<Bookmark>, idx: Cells<Bookmark>, n: nat, b: Bookmark, cell: Ref<Bookmark>)
    requires SliceIndexes(p, idx, BookmarkID()) && n < |p|
    requires forall i | 0 <= i < |p| && i != n :: p[i].0.id != p[n].0.id && p[i].0.id != b.id
    ensures SliceIndexes(p[n := (b, cell)], (idx - {p[n].0.id})[b.id := cell], BookmarkID())
  {
    var p', idx' := p[n := (b, cell)], (idx - {p[n].0.id})[b.id := cell];
    forall e | e in p' ensures e.0.id in idx' && idx'[e.0.id] == e.1 {
      var i :| 0 <= i < |p'| && p'[i] == e;
      if i != n {
        assert p[i] in p;
      }
    }
    forall a | a in idx' ensures exists i :: InSlice(p', i, idx'[a], BookmarkID(), a) {
      if a == b.id {
        assert InSlice(p', n, idx'[a], BookmarkID(), a);
      } else {
        var i :| InSlice(p, i, idx[a], BookmarkID(), a);
        assert InSlice(p', i, idx'[a], BookmarkID(), a);
      }
    }
  }

  lemma BookmarkDeleted(p: Slice<Bookmark>, idx: Cells<Bookmark>, n: nat)
    requires BookmarksIndexed(p, idx) && n < |p|
    ensures BookmarksIndexed(p[..n] + p[n + 1..], idx - {p[n].0.id})
  {
    var p', idx' := p[..n] + p[n + 1..], idx - {p[n].0.id};
    var bs := Structs(p);
    assert forall i | 0 <= i < |p| && i != n :: bs[i].id != bs[n].id;
    assert Structs(p') == bs[..n] + bs[n + 1..];
    hide Catalog.UniqueBookmarks;
    BookmarkUnindexed(p, idx, n);
  }

  lemma BookmarkUnindexed(p: Slice<Bookmark>, idx: Cells<Bookmark>, n: nat)
    requires SliceIndexes(p, idx, BookmarkID()) && n < |p|
    requires forall i | 0 <= i < |p| && i != n :: Structs(p)[i].id != Structs(p)[n].id
    ensures SliceIndexes(p[..n] + p[n + 1..], idx - {p[n].0.id}, BookmarkID())
  {
    var p', idx', bs := p[..n] + p[n + 1..], idx - {p[n].0.id}, Structs(p);
    forall e | e in p' ensures e.0.id in idx' && idx'[e.0.id] == e.1 {
      var i :| 0 <= i < |p'| && p'[i] == e;
      var j := if i < n then i else i + 1;
      assert p[j] == e && p[j] in p && bs[j].id != bs[n].id;
    }
    forall a | a in idx' ensures exists i :: InSlice(p', i, idx'[a], BookmarkID(), a) {
      var i :| InSlice(p, i, idx[a], BookmarkID(), a);
      assert InSlice(p', if i < n then i else i - 1, idx'[a], BookmarkID(), a);
    }
  }

  // ---- Rebuilding -----------------------------------------------------------------------------------------

  /** One more service indexed while rebuilding: `todo` are the keys still to come. */
  lemma RebuildStep(data: Catalog.Services, cells: Cells<Service>, todo: set<string>, i: Cells<Service>,
                    c: Cells<Service>, n: Cells<Service>, k: string)
    requires Catalog.Unique(data) && data.Keys == cells.Keys && k in todo && todo <= data.Keys
    requires ServicesIndexed(data - todo, cells - todo, i, c, n)
    ensures ServicesIndexed(data - (todo - {k}), cells - (todo - {k}), i[data[k].id := cells[k]],
                            WithEntry(c, ByContainer()(data[k]), cells[k]), WithEntry(n, ByName()(data[k]), cells[k]))
  {
    Catalog.FitsAmongDone(data, todo, k);
    hide ServicesIndexed, Catalog.Unique, Catalog.Fits;
    AddIndexed(data - todo, cells - todo, i, c, n, data[k], cells[k]);
    assert (data - todo)[k := data[k]] == data - (todo - {k});
    assert (cells - todo)[k := cells[k]] == cells - (todo - {k});
  }

  lemma RebuildStart(data: Catalog.Services, cells: Cells<Service>)
    requires data.Keys == cells.Keys
    ensures ServicesIndexed(data - data.Keys, cells - data.Keys, map[], map[], map[])
  {
  }

  /** Two fillings of the three service maps that are both right are the same filling. */
  lemma ServicesDetermined(data: Catalog.Services, cells: Cells<Service>, i: Cells<Service>, c: Cells<Service>,
                           n: Cells<Service>, i': Cells<Service>, c': Cells<Service>, n': Cells<Service>)
    requires ServicesIndexed(data, cells, i, c, n) && ServicesIndexed(data, cells, i', c', n')
    ensures i == i' && c == c' && n == n'
  {
    hide Indexes, Catalog.Unique;
    IndexesDetermined(data, cells, i, i', ByID());
    IndexesDetermined(data, cells, c, c', ByContainer());
    IndexesDetermined(data, cells, n, n', ByName());
  }

  /** Right maps are for distinct entries. */
  lemma IndexedUnique(data: Catalog.Services, cells: Cells<Service>, i: Cells<Service>, c: Cells<Service>,
                      n: Cells<Service>)
    ensures ServicesIndexed(data, cells, i, c, n) ==> Catalog.Unique(data)
  {
  }

  lemma ShelfUnique(p: Slice<Discovered>, idx: Cells<Discovered>, cidx: Cells<Discovered>)
    ensures ShelfIndexed(p, idx, cidx) ==> Catalog.UniqueShelf(Structs(p))
  {
  }

  lemma ShelfRebuildStep(p: Slice<Discovered>, idx: Cells<Discovered>, cidx: Cells<Discovered>, n: nat)
    requires Catalog.UniqueShelf(Structs(p)) && n < |p| && ShelfIndexed(p[..n], idx, cidx)
    ensures ShelfIndexed(p[..n + 1], idx[p[n].0.id := p[n].1], WithEntry(cidx, DiscContainer()(p[n].0), p[n].1))
  {
    assert Structs(p[..n]) + [p[n].0] == Structs(p)[..n + 1];
    ShelfAppended(p[..n], idx, cidx, p[n].0, p[n].1);
    assert p[..n + 1] == p[..n] + [(p[n].0, p[n].1)];
  }

  lemma ShelfDetermined(p: Slice<Discovered>, idx: Cells<Discovered>, cidx: Cells<Discovered>, idx': Cells<Discovered>,
                        cidx': Cells<Discovered>)
    requires ShelfIndexed(p, idx, cidx) && ShelfIndexed(p, idx', cidx')
    ensures idx == idx' && cidx == cidx'
  {
    SliceIndexesDetermined(p, idx, idx', DiscID());
    SliceIndexesDetermined(p, cidx, cidx', DiscContainer());
  }

  lemma BookmarkRebuildStep(p: Slice<Bookmark>, idx: Cells<Bookmark>, n: nat)
    requires Catalog.UniqueBookmarks(Structs(p)) && n < |p| && BookmarksIndexed(p[..n], idx)
    ensures BookmarksIndexed(p[..n + 1], idx[p[n].0.id := p[n].1])
  {
    assert Structs(p[..n]) + [p[n].0] == Structs(p)[..n + 1];
    BookmarkAppended(p[..n], idx, p[n].0, p[n].1);
    assert p[..n + 1] == p[..n] + [(p[n].0, p[n].1)];
  }

  lemma IgnoredRebuildStep(igs: seq<Ignored>, idx: map<string, Ignored>, n: nat)
    requires Catalog.UniqueIgnored(igs) && n < |igs| && IgnoredIndexed(igs[..n], idx)
    ensures IgnoredIndexed(igs[..n + 1], idx[igs[n].id := igs[n]])
  {
  }

  lemma NothingIndexed(p: Slice<Discovered>, ds: seq<Ref<Discovered>>, igs: seq<Ignored>, bs: seq<Ref<Bookmark>>)
    ensures ShelfIndexed(p[..0], map[], map[])
    ensures BookmarksIndexed(SliceOf(bs)[..0], map[])
  {
  }

  lemma BookmarksDetermined(p: Slice<Bookmark>, idx: Cells<Bookmark>, idx': Cells<Bookmark>)
    requires BookmarksIndexed(p, idx) && BookmarksIndexed(p, idx')
    ensures idx == idx'
  {
  }

  /** Two services are never behind the same pointer. */
  lemma OneCell(data: Catalog.Services, cells: Cells<Service>, i: Cells<Service>, c: Cells<Service>, n: Cells<Service>,
                k: string)
    requires ServicesIndexed(data, cells, i, c, n) && data == Deref(cells) && k in data
    ensures forall l | l in cells && l != k :: cells[l] != cells[k]
  {
  }

  lemma ReorderStep(data: Catalog.Services, cells: Cells<Service>, i: Cells<Service>, c: Cells<Service>,
                    n: Cells<Service>, ids: seq<string>, j: nat, was: Catalog.Services, nu: Catalog.Services)
    requires j < |ids| && was == Catalog.Reorder(data, ids[..j]) && ServicesIndexed(was, cells, i, c, n)
    requires var k := Catalog.KeyWhere(was, Catalog.HasID(ids[j]));
             nu == if k.Some? then was[k.value := was[k.value].(order := j)] else was
    ensures nu == Catalog.Reorder(data, ids[..j + 1]) && ServicesIndexed(nu, cells, i, c, n)
  {
    hide Indexes, Catalog.Unique, Catalog.Reorder, Catalog.KeyWhere;
    Catalog.ReorderNext(data, ids, j, was);
    Catalog.ReorderKeepsUnique(data, ids[..j + 1]);
    IndexUntouched(was, nu, cells, i, ByID());
    IndexUntouched(was, nu, cells, c, ByContainer());
    IndexUntouched(was, nu, cells, n, ByName());
  }
}
