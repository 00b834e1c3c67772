/** IPv4 multicast source filters and their per-interface merge (section 3.2 of RFC 3376). */
module MulticastFilter {

  type Source = nat

  datatype Mode = INCLUDE | EXCLUDE

  datatype Filter = Filter(mode: Mode, sources: set<Source>)

  const NO_RECEPTION := Filter(INCLUDE, {})

  predicate HasReception(f: Filter) {
    f.mode == EXCLUDE || f.sources != {}
  }

  predicate Allows(f: Filter, s: Source) {
    if f.mode == INCLUDE then s in f.sources else s !in f.sources
  }

  /** Among all the sources u there are, a filter delivers some source exactly when it has reception and
      does not exclude every one. */
  lemma ReceptionIff(f: Filter, u: set<Source>)
    requires f.sources <= u && u != {}
    ensures (exists s :: s in u && Allows(f, s)) <==> HasReception(f) && f != Filter(EXCLUDE, u)
  {
    if f.mode == INCLUDE {
      if s :| s in f.sources {
        assert s in u && Allows(f, s);
      }
    } else if s :| s in u && s !in f.sources {
      assert s in u && Allows(f, s);
    } else {
      assert f.sources == u;
    }
  }

  ghost predicate SomeAllows(filters: seq<Filter>, s: Source) {
    exists i :: 0 <= i < |filters| && Allows(filters[i], s)
  }

  ghost predicate SomeExcludes(filters: seq<Filter>) {
    exists i :: 0 <= i < |filters| && filters[i].mode == EXCLUDE
  }

  /** What the interface filter must be: EXCLUDE exactly when some socket's is, and delivering a source
      exactly when some socket wants it. */
  ghost predicate IsMerge(filters: seq<Filter>, r: Filter) {
    && (r.mode == EXCLUDE <==> SomeExcludes(filters))
    && (forall s :: Allows(r, s) <==> SomeAllows(filters, s))
  }

  /** That determines the filter. */
  lemma MergeUnique(filters: seq<Filter>, r: Filter, r': Filter)
    requires IsMerge(filters, r) && IsMerge(filters, r')
    ensures r == r'
  {
    forall s
      ensures s in r.sources <==> s in r'.sources
    {
      assert Allows(r, s) <==> Allows(r', s);
    }
  }

  // ----- the merge

  /** `set(first).intersection(*others)` */
  function Intersection(first: set<Source>, others: seq<set<Source>>): (r: set<Source>)
    ensures forall s :: s in r <==> s in first && forall i :: 0 <= i < |others| ==> s in others[i]
  {
    if others == [] then first else
      var n := |others| - 1;
      Intersection(first, others[..n]) * others[n]
  }

  /** `Ip4MulticastFilter.merge` */
  method Merge(filters: seq<Filter>) returns (r: Filter)
    ensures IsMerge(filters, r)
  {
    var includeSources: set<Source> := {};
    var excludeLists: seq<set<Source>> := [];
    for i := 0 to |filters|
      invariant forall s :: s in includeSources <==> InSomeInclude(filters[..i], s)
      invariant forall s :: InAll(excludeLists, s) <==> InEveryExclude(filters[..i], s)
      invariant excludeLists != [] <==> SomeExcludes(filters[..i])
    {
      NextFilter(filters, i);
      if filters[i].mode == INCLUDE {
        includeSources := includeSources + filters[i].sources;
      } else {
        AppendList(excludeLists, filters[i].sources);
        excludeLists := excludeLists + [filters[i].sources];
      }
    }
    assert filters[..|filters|] == filters;
    if excludeLists != [] {
      var excluded := Intersection(excludeLists[0], excludeLists[1..]);
      FirstAndRest(excludeLists);
      excluded := excluded - includeSources;
      r := Filter(EXCLUDE, excluded);
    } else {
      r := Filter(INCLUDE, includeSources);
    }
    SourcesDecide(filters);
  }

  ghost predicate InSomeInclude(filters: seq<Filter>, s: Source) {
    exists i :: 0 <= i < |filters| && filters[i].mode == INCLUDE && s in filters[i].sources
  }

  ghost predicate InEveryExclude(filters: seq<Filter>, s: Source) {
    forall i :: 0 <= i < |filters| && filters[i].mode == EXCLUDE ==> s in filters[i].sources
  }

  ghost predicate InAll(lists: seq<set<Source>>, s: Source) {
    forall i :: 0 <= i < |lists| ==> s in lists[i]
  }

  lemma AppendList(lists: seq<set<Source>>, l: set<Source>)
    ensures forall s :: InAll(lists + [l], s) <==> InAll(lists, s) && s in l
  {
    var ls := lists + [l];
    assert ls[|lists|] == l && forall i :: 0 <= i < |lists| ==> ls[i] == lists[i];
  }

  lemma FirstAndRest(lists: seq<set<Source>>)
    requires lists != []
    ensures forall s :: InAll(lists, s) <==> s in lists[0] && forall i :: 0 <= i < |lists[1..]| ==> s in lists[1..][i]
  {
    forall s | s in lists[0] && forall i :: 0 <= i < |lists[1..]| ==> s in lists[1..][i]
      ensures InAll(lists, s)
    {
      forall i | 0 <= i < |lists|
        ensures s in lists[i]
      {
        if i > 0 {
          assert lists[1..][i - 1] == lists[i];
        }
      }
    }
  }

  lemma NextFilter(filters: seq<Filter>, i: nat)
    requires i < |filters|
    ensures forall s :: InSomeInclude(filters[..i + 1], s) <==>
      InSomeInclude(filters[..i], s) || (filters[i].mode == INCLUDE && s in filters[i].sources)
    ensures forall s :: InEveryExclude(filters[..i + 1], s) <==>
      InEveryExclude(filters[..i], s) && (filters[i].mode == EXCLUDE ==> s in filters[i].sources)
    ensures SomeExcludes(filters[..i + 1]) <==> SomeExcludes(filters[..i]) || filters[i].mode == EXCLUDE
  {
    var a, b := filters[..i], filters[..i + 1];
    assert b[i] == filters[i] && forall j :: 0 <= j < i ==> b[j] == a[j];
  }

  /** A source is wanted by some socket when one includes it or one with EXCLUDE does not list it. */
  lemma SourcesDecide(filters: seq<Filter>)
    ensures forall s :: SomeAllows(filters, s) <==> InSomeInclude(filters, s) || !InEveryExclude(filters, s)
    ensures !SomeExcludes(filters) ==> forall s :: InEveryExclude(filters, s)
  {
  }

  // ----- laws

  lemma SomeConcat(fs: seq<Filter>, gs: seq<Filter>)
    ensures SomeExcludes(fs + gs) <==> SomeExcludes(fs) || SomeExcludes(gs)
    ensures forall s :: SomeAllows(fs + gs, s) <==> SomeAllows(fs, s) || SomeAllows(gs, s)
  {
    var hs := fs + gs;
    assert forall i :: 0 <= i < |fs| ==> hs[i] == fs[i];
    assert forall i :: 0 <= i < |gs| ==> hs[|fs| + i] == gs[i];
  }

  /** Merging the merges of two groups is merging all their members. */
  lemma MergeIsHierarchical(fs: seq<Filter>, gs: seq<Filter>, f: Filter, g: Filter, r: Filter)
    requires IsMerge(fs, f) && IsMerge(gs, g)
    ensures IsMerge([f, g], r) <==> IsMerge(fs + gs, r)
  {
    SomeConcat(fs, gs);
    var two := [f, g];
    assert two[0] == f && two[1] == g;
    assert SomeExcludes(two) <==> SomeExcludes(fs + gs);
    forall s
      ensures SomeAllows(two, s) <==> SomeAllows(fs + gs, s)
    {
      assert SomeAllows(two, s) <==> Allows(f, s) || Allows(g, s);
    }
  }

  /** Merging depends only on which filters there are, not on their order or number. */
  lemma MergeIgnoresOrder(fs: seq<Filter>, gs: seq<Filter>, r: Filter)
    requires forall f :: f in fs <==> f in gs
    ensures IsMerge(fs, r) <==> IsMerge(gs, r)
  {
    SameMembers(fs, gs);
    SameMembers(gs, fs);
  }

  lemma SameMembers(fs: seq<Filter>, gs: seq<Filter>)
    requires forall f :: f in fs ==> f in gs
    ensures SomeExcludes(fs) ==> SomeExcludes(gs)
    ensures forall s :: SomeAllows(fs, s) ==> SomeAllows(gs, s)
  {
    forall i | 0 <= i < |fs|
      ensures exists j :: 0 <= j < |gs| && gs[j] == fs[i]
    {
      assert fs[i] in gs;
    }
  }

  /** No filters merge to no reception, which is the identity of merging. */
  lemma MergeIdentity(f: Filter)
    ensures IsMerge([], NO_RECEPTION)
    ensures IsMerge([f], f) && IsMerge([f, NO_RECEPTION], f) && IsMerge([NO_RECEPTION, f], f)
  {
    var one, left, right := [f], [f, NO_RECEPTION], [NO_RECEPTION, f];
    assert one[0] == f && left[0] == f && right[1] == f;
    assert left[1] == NO_RECEPTION && right[0] == NO_RECEPTION;
  }

  /** The interface receives exactly when some socket does. */
  lemma MergeReception(filters: seq<Filter>, r: Filter)
    requires IsMerge(filters, r)
    ensures HasReception(r) <==> exists i :: 0 <= i < |filters| && HasReception(filters[i])
  {
    if r.mode == INCLUDE {
      if s :| s in r.sources {
        assert Allows(r, s);
        var i :| 0 <= i < |filters| && Allows(filters[i], s);
        assert HasReception(filters[i]);
      }
      if i :| 0 <= i < |filters| && HasReception(filters[i]) {
        var s :| s in filters[i].sources;
        assert Allows(filters[i], s) && SomeAllows(filters, s);
      }
    }
  }
}
