/** From package descriptions and build triggers to a build plan. */
module Planner {
  import opened Collections
  import opened Names
  import opened Cull
  import opened Packages

  /** One entry of the package list; lists of names are already split into words. */
  datatype Entry = Entry(name: string, section: string, hierarchy: string, deps: map<string, seq<string>>,
                         unpack: seq<string>)

  ghost predicate EntryOk(e: Entry) {
    && ':' !in e.name
    && DepsOk(e.deps)
  }

  ghost predicate DepsOk(deps: map<string, seq<string>>) {
    && deps.Keys == Elements(TARGETS)
    && forall t, x :: t in deps && x in deps[t] ==> Token(x)
  }

  /** The last entry under a name at one level of the hierarchy. */
  function LastAt(jdata: seq<Entry>, hierarchy: string, name: string): Option<Entry> {
    if jdata == [] then None
    else
      var last := jdata[|jdata| - 1];
      if last.name == name && last.hierarchy == hierarchy then Some(last)
      else LastAt(jdata[..|jdata| - 1], hierarchy, name)
  }

  /** Object `p` holds what entry `e` says. */
  ghost predicate Carries(p: BuildPackage, e: Entry)
    reads p`deps, p`wants, p`unpacks
  {
    && p.name == e.name && p.section == e.section
    && p.deps == e.deps && p.unpacks == e.unpack
    && p.WantsDeps()
  }

  /** Nobody wants it yet. */
  ghost predicate Describes(p: BuildPackage, e: Entry)
    reads p
  {
    Carries(p, e) && p.wantedby == []
  }

  /** The dependencies for the first `i` targets. */
  ghost function Partly(targets: seq<string>, deps: map<string, seq<string>>, i: nat): map<string, seq<string>>
    requires deps.Keys == Elements(targets) && i <= |targets|
  {
    map t | t in Elements(targets) :: if t in targets[..i] then deps[t] else []
  }

  lemma PartlyNext(targets: seq<string>, deps: map<string, seq<string>>, i: nat)
    requires deps.Keys == Elements(targets) && i < |targets| && targets[i] !in targets[..i]
    ensures targets[i] in Elements(targets) && Partly(targets, deps, i).Keys == deps.Keys
    ensures var before := Partly(targets, deps, i);
            before[targets[i] := before[targets[i]] + deps[targets[i]]] == Partly(targets, deps, i + 1)
  {
    var t := targets[i];
    assert targets[..i + 1] == targets[..i] + [t];
    assert [] + deps[t] == deps[t];
  }

  lemma PartlyEnds(targets: seq<string>, deps: map<string, seq<string>>)
    requires deps.Keys == Elements(targets)
    ensures Partly(targets, deps, 0) == map t | t in Elements(targets) :: []
    ensures Partly(targets, deps, |targets|) == deps
  {
    assert targets[..|targets|] == targets;
  }

  lemma TargetsDiffer(i: nat)
    requires i < |TARGETS|
    ensures TARGETS[i] !in TARGETS[..i]
  {
  }

  /** Creates a package object from its description. */
  method InitPackage(e: Entry) returns (p: BuildPackage)
    requires e.deps.Keys == Elements(TARGETS)
    ensures fresh(p) && Describes(p, e)
  {
    hide Partly, BuildPackage.WantsDeps, Elements;
    p := new BuildPackage(e.name, e.section);
    PartlyEnds(TARGETS, e.deps);
    for i := 0 to |TARGETS|
      invariant p.deps == Partly(TARGETS, e.deps, i)
      invariant p.WantsDeps() && p.wantedby == [] && p.unpacks == []
    {
      TargetsDiffer(i);
      PartlyNext(TARGETS, e.deps, i);
      p.AddDependencies(TARGETS[i], e.deps[TARGETS[i]]);
    }
    if e.unpack != [] {
      p.unpacks := e.unpack;
    }
  }

  /** Whether a step of kind `pt` belongs to the group of `target`. */
  predicate SameKind(target: string, pt: string) {
    || (target in ["target", "init"] && pt in ["target", "init"])
    || (target in ["bootstrap", "host"] && pt in ["bootstrap", "host"])
  }

  function OfKind(target: string, list: seq<string>): seq<string> {
    if list == [] then []
    else
      var rest, p := OfKind(target, list[..|list| - 1]), list[|list| - 1];
      if SameKind(target, TargetOf(p)) then rest + [p] else rest
  }

  method GetPackagesByTarget(target: string, list: seq<string>) returns (newlist: seq<string>)
    ensures newlist == OfKind(target, list)
  {
    newlist := [];
    for i := 0 to |list|
      invariant newlist == OfKind(target, list[..i])
    {
      assert list[..i + 1][..i] == list[..i];
      if SameKind(target, TargetOf(list[i])) {
        newlist := newlist + [list[i]];
      }
    }
    assert list[..|list|] == list;
  }

  /** Exactly the triggers of the asked kind are kept. */
  lemma {:induction false} OfKindMembers(target: string, list: seq<string>, x: string)
    ensures x in OfKind(target, list) <==> x in list && SameKind(target, TargetOf(x))
  {
    hide SameKind, TargetOf;
    if list != [] {
      OfKindMembers(target, list[..|list| - 1], x);
      assert list == list[..|list| - 1] + [list[|list| - 1]];
    }
  }

  /** One kind is target and init, the other bootstrap and host. */
  lemma KindsAre(a: string, b: string)
    ensures SameKind(a, b) <==> {a, b} <= {"target", "init"} || {a, b} <= {"bootstrap", "host"}
  {
  }

  /** Joining with spaces and splitting again loses the empty names. */
  function Words(list: seq<string>): seq<string> {
    if list == [] then [] else (if list[0] == "" then [] else [list[0]]) + Words(list[1..])
  }

  lemma {:induction false} WordsMembers(list: seq<string>, x: string)
    ensures x in Words(list) <==> x in list && x != ""
  {
    if list != [] {
      WordsMembers(list[1..], x);
      assert list == [list[0]] + list[1..];
    }
  }

  /** The dummy package that wants the build triggers. */
  function Dummy(host: seq<string>, target: seq<string>): (e: Entry)
    ensures e.deps.Keys == Elements(TARGETS) && e.name == ROOT
  {
    Entry(ROOT, "virtual", "global", map["bootstrap" := [], "init" := [], "host" := host, "target" := target], [])
  }

  function RootEntry(build: seq<string>): (e: Entry)
    ensures e.deps.Keys == Elements(TARGETS) && e.name == ROOT
  {
    Dummy(Words(OfKind("host", build)), Words(OfKind("target", build)))
  }

  /**
   * The dummy package depends on exactly the triggers that are not empty: for the build host on those of the
   * targets bootstrap and host, for the target on those of target and init, and on nothing else.
   */
  lemma RootDepends(build: seq<string>, t: string, x: string)
    ensures t in RootEntry(build).deps && x in RootEntry(build).deps[t] <==>
            x in build && x != "" &&
            ((t == "host" && TargetOf(x) in {"bootstrap", "host"})
             || (t == "target" && TargetOf(x) in {"target", "init"}))
  {
    hide TargetOf, OfKind, Words;
    OfKindMembers("host", build, x);
    OfKindMembers("target", build, x);
    WordsMembers(OfKind("host", build), x);
    WordsMembers(OfKind("target", build), x);
  }

  type Catalog = map<string, Entry>

  /** Enters the descriptions of one level, later ones replacing earlier ones. */
  function Overlay(m: Catalog, jdata: seq<Entry>, hierarchy: string): Catalog {
    if jdata == [] then m
    else
      var before, last := Overlay(m, jdata[..|jdata| - 1], hierarchy), jdata[|jdata| - 1];
      if last.hierarchy == hierarchy then before[last.name := last] else before
  }

  function CatalogOf(jdata: seq<Entry>): Catalog {
    Overlay(Overlay(map[], jdata, "global"), jdata, "local")
  }

  lemma {:induction false} OverlayLast(m: Catalog, jdata: seq<Entry>, hierarchy: string, n: string)
    ensures var o := Overlay(m, jdata, hierarchy);
            match LastAt(jdata, hierarchy, n)
            case Some(e) => n in o && o[n] == e
            case None => (n in o <==> n in m) && (n in m ==> o[n] == m[n])
  {
    if jdata != [] {
      OverlayLast(m, jdata[..|jdata| - 1], hierarchy, n);
    }
  }

  /** Entry `i` is the last one under a name at a level. */
  ghost predicate IsLastAt(jdata: seq<Entry>, hierarchy: string, n: string, i: nat) {
    && i < |jdata| && jdata[i].name == n && jdata[i].hierarchy == hierarchy
    && forall k :: i < k < |jdata| ==> jdata[k].name != n || jdata[k].hierarchy != hierarchy
  }

  lemma {:induction false} LastAtIs(jdata: seq<Entry>, hierarchy: string, n: string)
    ensures LastAt(jdata, hierarchy, n).Some? ==>
              exists i: nat :: IsLastAt(jdata, hierarchy, n, i) && LastAt(jdata, hierarchy, n).value == jdata[i]
    ensures LastAt(jdata, hierarchy, n).None? ==>
              forall i :: 0 <= i < |jdata| ==> jdata[i].name != n || jdata[i].hierarchy != hierarchy
  {
    if jdata != [] {
      var m := |jdata| - 1;
      LastAtIs(jdata[..m], hierarchy, n);
      if jdata[m].name == n && jdata[m].hierarchy == hierarchy {
        assert IsLastAt(jdata, hierarchy, n, m);
      } else if LastAt(jdata[..m], hierarchy, n).Some? {
        var i: nat :| IsLastAt(jdata[..m], hierarchy, n, i) && LastAt(jdata, hierarchy, n).value == jdata[i];
        assert IsLastAt(jdata, hierarchy, n, i);
      }
    }
  }

  /** No entry is under that name at that level. */
  ghost predicate NoneAt(jdata: seq<Entry>, hierarchy: string, n: string) {
    forall i :: 0 <= i < |jdata| ==> jdata[i].name != n || jdata[i].hierarchy != hierarchy
  }

  /**
   * What is loaded under a name is the last local description, or the last global one if there is no local
   * one; nothing if there is neither.
   */
  lemma CatalogIsEffective(jdata: seq<Entry>, n: string)
    ensures n !in CatalogOf(jdata) <==> NoneAt(jdata, "local", n) && NoneAt(jdata, "global", n)
    ensures forall i: nat :: IsLastAt(jdata, "local", n, i) ==> n in CatalogOf(jdata) && CatalogOf(jdata)[n] == jdata[i]
    ensures forall i: nat :: NoneAt(jdata, "local", n) && IsLastAt(jdata, "global", n, i) ==>
              n in CatalogOf(jdata) && CatalogOf(jdata)[n] == jdata[i]
  {
    OverlayLast(map[], jdata, "global", n);
    OverlayLast(Overlay(map[], jdata, "global"), jdata, "local", n);
    LastAtIs(jdata, "global", n);
    LastAtIs(jdata, "local", n);
    hide Overlay, LastAt;
  }

  /** Every description in the catalog is well formed and filed under its name. */
  ghost predicate CatalogOk(m: Catalog) {
    forall n :: n in m ==> m[n].name == n && EntryOk(m[n])
  }

  lemma {:induction false} OverlayOk(m: Catalog, jdata: seq<Entry>, hierarchy: string)
    requires CatalogOk(m) && forall e :: e in jdata ==> EntryOk(e)
    ensures CatalogOk(Overlay(m, jdata, hierarchy))
  {
    hide EntryOk;
    if jdata != [] {
      OverlayOk(m, jdata[..|jdata| - 1], hierarchy);
      assert jdata[|jdata| - 1] in jdata;
    }
  }

  /** The objects in the table hold what the catalog says. */
  ghost predicate Holds(t: Table, m: Catalog)
    reads t.Values
  {
    t.Keys == m.Keys && forall n :: n in t ==> Describes(t[n], m[n])
  }

  lemma Registered(t: Table, m: Catalog, p: BuildPackage, e: Entry)
    requires Holds(t, m) && Describes(p, e)
    ensures Holds(t[e.name := p], m[e.name := e])
  {
    hide Describes;
  }

  /** One pass over the package list. */
  method LoadLevel(jdata: seq<Entry>, hierarchy: string, t0: Table, order0: seq<string>, ghost m: Catalog)
    returns (t: Table, order: seq<string>)
    requires forall e :: e in jdata ==> e.deps.Keys == Elements(TARGETS)
    requires Holds(t0, m) && Listed(t0, order0)
    ensures Holds(t, Overlay(m, jdata, hierarchy)) && Listed(t, order)
    ensures forall n :: n in t ==> fresh(t[n]) || (n in t0 && t[n] == t0[n])
  {
    hide Holds, Describes, Distinct;
    t, order := t0, order0;
    for i := 0 to |jdata|
      invariant Holds(t, Overlay(m, jdata[..i], hierarchy)) && Listed(t, order)
      invariant forall n :: n in t ==> fresh(t[n]) || (n in t0 && t[n] == t0[n])
    {
      assert jdata[..i + 1][..i] == jdata[..i];
      if jdata[i].hierarchy == hierarchy {
        assert jdata[i] in jdata;
        var p := InitPackage(jdata[i]);
        Registered(t, Overlay(m, jdata[..i], hierarchy), p, jdata[i]);
        t := t[jdata[i].name := p];
        EnterOnceDistinct(order, jdata[i].name);
        order := EnterOnce(order, jdata[i].name);
      }
    }
    assert jdata[..|jdata|] == jdata;
  }

  /** Loads the global packages, then the local ones, which replace global ones of the same name. */
  method LoadPackages(jdata: seq<Entry>) returns (t: Table, order: seq<string>)
    requires forall e :: e in jdata ==> e.deps.Keys == Elements(TARGETS)
    ensures Holds(t, CatalogOf(jdata)) && Listed(t, order)
    ensures forall n :: n in t ==> fresh(t[n])
  {
    t, order := map[], [];
    t, order := LoadLevel(jdata, "global", t, order, map[]);
    t, order := LoadLevel(jdata, "local", t, order, Overlay(map[], jdata, "global"));
  }

  /** The table with whatever wanters it has. */
  ghost predicate Carried(t: Table, m: Catalog)
    reads t.Values
  {
    t.Keys == m.Keys && forall n :: n in t ==> Carries(t[n], m[n])
  }

  ghost predicate Wants(m: Catalog, o: string, p: string) {
    o in m && o != p && Mentions(m[o].deps, p)
  }

  /** `w` lists for each package those that want it. */
  ghost predicate IsWanters(m: Catalog, w: Wanters) {
    w.Keys == m.Keys && forall p, o :: p in w ==> (o in w[p] <==> Wants(m, o, p))
  }

  /** Needed are the root and the greatest set of packages that the root or members of the set want. */
  ghost predicate IsNeeded(m: Catalog, needed: seq<string>) {
    Distinct(needed) && exists w, x :: IsWanters(m, w) && Greatest(w, x) && Elements(needed) == x + {ROOT}
  }

  lemma SupportedAlike(m: Catalog, w: Wanters, v: Wanters, x: set<string>)
    requires IsWanters(m, w) && IsWanters(m, v) && Supported(w, x)
    ensures Supported(v, x)
  {
    hide Wants;
    forall p | p in x
      ensures SupportedIn(v, x, p)
    {
      assert SupportedIn(w, x, p);
      var o :| o in w[p] && (o == ROOT || o in x);
      assert o in v[p];
    }
  }

  /** Which packages are needed is determined by the catalog. */
  lemma NeededUnique(m: Catalog, a: seq<string>, b: seq<string>)
    requires IsNeeded(m, a) && IsNeeded(m, b)
    ensures Elements(a) == Elements(b)
  {
    hide IsWanters, Distinct, Supported;
    var w, x :| IsWanters(m, w) && Greatest(w, x) && Elements(a) == x + {ROOT};
    var v, y :| IsWanters(m, v) && Greatest(v, y) && Elements(b) == y + {ROOT};
    SupportedAlike(m, w, v, x);
    SupportedAlike(m, v, w, y);
  }

  lemma LinkedWanters(t: Table, m: Catalog)
    requires Carried(t, m) && CatalogOk(m)
    requires forall p, o :: p in t ==> (o in t[p].wantedby <==> o in t && p in t[o].wants)
    ensures IsWanters(m, WantersOf(t))
  {
    hide EntryOk;
    forall p, o | p in t && o in t
      ensures p in t[o].wants <==> Wants(m, o, p)
    {
      assert Carries(t[o], m[o]);
    }
  }

  lemma HoldsIsFiled(t: Table, m: Catalog)
    requires Carried(t, m) && CatalogOk(m)
    ensures Filed(t)
  {
  }

  /** Lists the packages that are still wanted, and the root. */
  method CollectNeeded(t: Table, order: seq<string>) returns (needed: seq<string>)
    requires Listed(t, order) && ROOT in t
    ensures Distinct(needed) && Elements(needed) == Live(WantersOf(t)) + {ROOT}
  {
    needed := [];
    for i := 0 to |order|
      invariant Distinct(needed)
      invariant forall n :: n in needed <==> n in order[..i] && n in t && (t[n].wantedby != [] || n == ROOT)
    {
      assert order[i] in Elements(order);
      assert order[..i + 1] == order[..i] + [order[i]];
      if t[order[i]].IsWanted() || order[i] == ROOT {
        needed := needed + [order[i]];
      }
    }
    assert order[..|order|] == order;
    assert forall n :: n in t ==> n in Elements(order);
  }

  /** Adds the dummy package for the build triggers. */
  method AddRoot(t0: Table, order0: seq<string>, build: seq<string>, ghost m: Catalog)
    returns (t: Table, order: seq<string>)
    requires Holds(t0, m) && Listed(t0, order0)
    ensures Holds(t, m[ROOT := RootEntry(build)]) && Listed(t, order)
    ensures forall n :: n in t ==> fresh(t[n]) || (n in t0 && t[n] == t0[n])
  {
    hide Holds, Distinct, Dummy, Describes;
    var host := GetPackagesByTarget("host", build);
    var target := GetPackagesByTarget("target", build);
    var root := InitPackage(Dummy(Words(host), Words(target)));
    Registered(t0, m, root, RootEntry(build));
    t := t0[ROOT := root];
    EnterOnceDistinct(order0, ROOT);
    order := EnterOnce(order0, ROOT);
  }

  lemma HoldsIsCarried(t: Table, m: Catalog)
    requires Holds(t, m)
    ensures Carried(t, m) && forall n :: n in t ==> t[n].wantedby == []
  {
    hide Carries;
  }

  /** Links all packages, culls the unwanted ones and lists those that are needed. */
  method CullUnneeded(t: Table, order: seq<string>, ghost m: Catalog) returns (needed: seq<string>)
    requires Holds(t, m) && CatalogOk(m) && Listed(t, order) && ROOT in t
    modifies t.Values`wantedby
    ensures Carried(t, m)
    ensures IsNeeded(m, needed)
  {
    hide Holds, CatalogOk, Distinct, IsWanters, Greatest, Sound, Carries, IsNeeded, OnlySupportLeft;
    HoldsIsCarried(t, m);
    HoldsIsFiled(t, m);
    LinkReferences(t, order);
    LinkedWanters(t, m);
    ghost var w := WantersOf(t);
    CullAll(t, order);
    needed := CollectNeeded(t, order);
    NeededBy(m, w, Live(WantersOf(t)), needed);
  }

  lemma NeededBy(m: Catalog, w: Wanters, x: set<string>, needed: seq<string>)
    requires IsWanters(m, w) && Greatest(w, x) && Distinct(needed) && Elements(needed) == x + {ROOT}
    ensures IsNeeded(m, needed)
  {
  }
}
