/** Package objects, and the loops that link them and cull the unwanted ones in place. */
module Packages {
  import opened Collections
  import opened Names
  import opened Cull

  const TARGETS := ["bootstrap", "init", "host", "target"]

  /** Removing the first occurrence, as a list does. */
  function RemoveFirst(s: seq<string>, x: string): (r: seq<string>)
    requires x in s
    ensures |r| == |s| - 1
  {
    if s[0] == x then s[1..] else [s[0]] + RemoveFirst(s[1..], x)
  }

  lemma {:induction false} RemoveFirstDistinct(s: seq<string>, x: string)
    requires x in s && Distinct(s)
    ensures Distinct(RemoveFirst(s, x))
    ensures forall y :: y in RemoveFirst(s, x) <==> y in s && y != x
  {
    var rest := s[1..];
    assert s == [s[0]] + rest;
    assert forall i :: 0 <= i < |rest| ==> rest[i] == s[i + 1];
    assert s[0] !in rest;
    if s[0] != x {
      RemoveFirstDistinct(rest, x);
      assert s[0] !in RemoveFirst(rest, x);
    }
  }

  /** It is the first occurrence that goes, and nothing else moves. */
  lemma {:induction false} RemoveFirstAt(s: seq<string>, x: string, i: nat)
    requires i < |s| && s[i] == x && forall k :: 0 <= k < i ==> s[k] != x
    ensures RemoveFirst(s, x) == s[..i] + s[i + 1..]
  {
    if i > 0 {
      RemoveFirstAt(s[1..], x, i - 1);
      assert s[..i] == [s[0]] + s[1..][..i - 1];
    }
  }

  /** Some dependency, for whatever target, is on package `w`. */
  ghost predicate Mentions(deps: map<string, seq<string>>, w: string) {
    exists t, d :: t in deps && d in deps[t] && PackageOf(d) == w
  }

  class BuildPackage {
    const name: string
    const section: string
    var deps: map<string, seq<string>>
    var wants: seq<string>
    var wantedby: seq<string>
    var unpacks: seq<string>

    /** `wants` names each package that some dependency refers to once, except the package itself. */
    ghost predicate WantsDeps()
      reads this`deps, this`wants
    {
      && deps.Keys == Elements(TARGETS)
      && Distinct(wants)
      && forall w :: w in wants <==> w != name && Mentions(deps, w)
    }

    constructor (name: string, section: string)
      ensures this.name == name && this.section == section
      ensures deps == map t | t in Elements(TARGETS) :: []
      ensures wants == [] && wantedby == [] && unpacks == []
      ensures WantsDeps()
    {
      this.name, this.section := name, section;
      deps := map t | t in Elements(TARGETS) :: [];
      wants, wantedby, unpacks := [], [], [];
    }

    method AddDependencies(target: string, packages: seq<string>)
      requires WantsDeps() && target in deps
      modifies this`deps, this`wants
      ensures WantsDeps()
      ensures deps == old(deps)[target := old(deps)[target] + packages]
    {
      assert packages[..0] == [] && deps[target] + [] == deps[target];
      assert deps == deps[target := deps[target]];
      for i := 0 to |packages|
        invariant deps == old(deps)[target := old(deps)[target] + packages[..i]]
        invariant WantsDeps()
      {
        var d := packages[i];
        ghost var before := deps;
        deps := deps[target := deps[target] + [d]];
        assert old(deps)[target] + packages[..i] + [d] == old(deps)[target] + packages[..i + 1];
        var pkg := PackageOf(d);
        AddedWants(before, target, d);
        if pkg !in wants && pkg != name {
          wants := wants + [pkg];
        }
      }
      assert packages[..|packages|] == packages;
    }

    lemma AddedWants(before: map<string, seq<string>>, target: string, d: string)
      requires target in before
      ensures var after := before[target := before[target] + [d]];
              forall w :: Mentions(after, w) <==> Mentions(before, w) || w == PackageOf(d)
    {
      var after := before[target := before[target] + [d]];
      assert d in after[target];
      forall w | Mentions(before, w)
        ensures Mentions(after, w)
      {
        var t, x :| t in before && x in before[t] && PackageOf(x) == w;
        assert x in after[t];
      }
    }

    method AddReference(package: string)
      modifies this`wantedby
      ensures wantedby == EnterOnce(old(wantedby), PackageOf(package))
      ensures wantedby == if PackageOf(package) in old(wantedby) then old(wantedby)
              else old(wantedby) + [PackageOf(package)]
    {
      var name := PackageOf(package);
      if name !in wantedby {
        wantedby := wantedby + [name];
      }
    }

    method DelReference(package: string)
      modifies this`wantedby
      ensures wantedby == if PackageOf(package) in old(wantedby) then RemoveFirst(old(wantedby), PackageOf(package))
              else old(wantedby)
    {
      var name := PackageOf(package);
      if name in wantedby {
        wantedby := RemoveFirst(wantedby, name);
      }
    }

    predicate IsWanted()
      reads this`wantedby
    {
      wantedby != []
    }

    predicate References(package: string)
      reads this`wants
    {
      package in wants
    }
  }

  type Table = map<string, BuildPackage>

  /** Packages are filed under their own, colon-free names; so different names are different objects. */
  ghost predicate Filed(t: Table) {
    forall n :: n in t ==> t[n].name == n && ':' !in n
  }

  ghost function WantersOf(t: Table): Wanters
    reads t.Values
  {
    map n | n in t :: t[n].wantedby
  }

  ghost predicate Listed(t: Table, order: seq<string>) {
    Distinct(order) && Elements(order) == t.Keys
  }

  /** Lists of wanters name packages of the table, each once. */
  ghost predicate Sound(w: Wanters) {
    && Closed(w)
    && forall p :: p in w ==> Distinct(w[p])
  }

  function Size(w: Wanters, order: seq<string>): nat
    requires forall p :: p in order ==> p in w
  {
    if order == [] then 0 else |w[order[0]]| + Size(w, order[1..])
  }

  lemma {:induction false} SizeFalls(w: Wanters, v: Wanters, order: seq<string>, p: string)
    requires forall q :: q in order ==> q in w && q in v && |v[q]| <= |w[q]|
    requires p in order && |v[p]| < |w[p]|
    ensures Size(v, order) < Size(w, order)
  {
    assert order == [order[0]] + order[1..];
    if p in order[1..] {
      SizeFalls(w, v, order[1..], p);
    } else {
      SizeKept(w, v, order[1..]);
    }
  }

  lemma {:induction false} SizeKept(w: Wanters, v: Wanters, order: seq<string>)
    requires forall q :: q in order ==> q in w && q in v && |v[q]| <= |w[q]|
    ensures Size(v, order) <= Size(w, order)
  {
    if order != [] {
      assert order == [order[0]] + order[1..];
      SizeKept(w, v, order[1..]);
    }
  }

  ghost predicate SettledAt(w: Wanters, p: string) {
    p in w && forall o :: o in w[p] ==> o == ROOT || (o in w && w[o] != [])
  }

  /** Drops the references that unwanted packages hold on `p`, while iterating over them. */
  method CullPackage(t: Table, p: string, ghost w0: Wanters) returns (changed: bool)
    requires Filed(t) && p in t
    requires Sound(WantersOf(t)) && Culling(w0, WantersOf(t))
    modifies t.Values`wantedby
    ensures Sound(WantersOf(t)) && Culling(w0, WantersOf(t))
    ensures forall q :: q in t ==> |t[q].wantedby| <= |old(t[q].wantedby)|
    ensures if changed then |t[p].wantedby| < |old(t[p].wantedby)|
            else WantersOf(t) == old(WantersOf(t)) && SettledAt(WantersOf(t), p)
  {
    hide Sound, Culling, Distinct;
    changed := false;
    var pkg := t[p];
    var i := 0;
    while i < |pkg.wantedby|
      invariant Sound(WantersOf(t)) && Culling(w0, WantersOf(t))
      invariant forall q :: q in t ==> |t[q].wantedby| <= |old(t[q].wantedby)|
      invariant changed ==> |t[p].wantedby| < |old(t[p].wantedby)|
      invariant !changed ==> WantersOf(t) == old(WantersOf(t))
      invariant !changed ==> i <= |pkg.wantedby| && forall k :: 0 <= k < i ==>
                pkg.wantedby[k] == ROOT || (pkg.wantedby[k] in t && t[pkg.wantedby[k]].wantedby != [])
      decreases |pkg.wantedby| - i
    {
      var o := pkg.wantedby[i];
      WanterKnown(WantersOf(t), p, o);
      if o != ROOT && !t[o].IsWanted() {
        ghost var w := WantersOf(t);
        PackageOfPrefix(o, "");
        assert o + "" == o;
        DeleteSound(w0, w, p, o);
        pkg.DelReference(o);
        assert WantersOf(t) == w[p := RemoveFirst(w[p], o)];
        changed := true;
      }
      i := i + 1;
    }
  }

  lemma WanterKnown(w: Wanters, p: string, o: string)
    requires Sound(w) && p in w && o in w[p]
    ensures o in w
  {
  }

  lemma DeleteSound(w0: Wanters, w: Wanters, p: string, o: string)
    requires Sound(w) && Culling(w0, w)
    requires p in w && o in w[p] && o != ROOT && o in w && w[o] == []
    ensures Sound(w[p := RemoveFirst(w[p], o)]) && Culling(w0, w[p := RemoveFirst(w[p], o)])
  {
    RemoveFirstDistinct(w[p], o);
    hide Culling;
    DeleteKeeps(w0, w, p, o, RemoveFirst(w[p], o));
  }

  /** One pass over all packages. */
  method CullPass(t: Table, order: seq<string>, ghost w0: Wanters) returns (changed: bool)
    requires Filed(t) && Listed(t, order)
    requires Sound(WantersOf(t)) && Culling(w0, WantersOf(t))
    modifies t.Values`wantedby
    ensures Sound(WantersOf(t)) && Culling(w0, WantersOf(t))
    ensures changed ==> Size(WantersOf(t), order) < Size(old(WantersOf(t)), order)
    ensures !changed ==> Settled(WantersOf(t))
  {
    hide Sound, Culling, Distinct;
    ghost var before := WantersOf(t);
    ghost var shrunk := "";
    changed := false;
    for k := 0 to |order|
      invariant Sound(WantersOf(t)) && Culling(w0, WantersOf(t))
      invariant forall q :: q in t ==> |t[q].wantedby| <= |before[q]|
      invariant changed ==> shrunk in order && shrunk in t && |t[shrunk].wantedby| < |before[shrunk]|
      invariant !changed ==> WantersOf(t) == before
      invariant !changed ==> forall i :: 0 <= i < k ==> SettledAt(before, order[i])
    {
      assert order[k] in Elements(order);
      var c := CullPackage(t, order[k], w0);
      if c {
        changed, shrunk := true, order[k];
      }
    }
    if changed {
      SizeFalls(before, WantersOf(t), order, shrunk);
    } else {
      AllSettled(before, order);
    }
  }

  lemma AllSettled(w: Wanters, order: seq<string>)
    requires Elements(order) == w.Keys
    requires forall i :: 0 <= i < |order| ==> SettledAt(w, order[i])
    ensures Settled(w)
  {
    forall p | p in w
      ensures SettledAt(w, p)
    {
      assert p in Elements(order);
      var i :| 0 <= i < |order| && order[i] == p;
    }
  }

  /** Repeats passes until one changes nothing. */
  method CullAll(t: Table, order: seq<string>)
    requires Filed(t) && Listed(t, order)
    requires Sound(WantersOf(t))
    modifies t.Values`wantedby
    ensures Sound(WantersOf(t))
    ensures var w0 := old(WantersOf(t));
            && Greatest(w0, Live(WantersOf(t)))
            && forall p :: p in t ==> OnlySupportLeft(w0, WantersOf(t), p)
  {
    ghost var w0 := WantersOf(t);
    CullingStarts(w0);
    hide Sound, Culling, Settled, Greatest, OnlySupportLeft;
    while true
      invariant Sound(WantersOf(t)) && Culling(w0, WantersOf(t))
      decreases Size(WantersOf(t), order)
    {
      var changed := CullPass(t, order, w0);
      if !changed {
        break;
      }
    }
    SameNames(w0, WantersOf(t));
    SettledIsGreatest(w0, WantersOf(t));
  }

  lemma SameNames(w0: Wanters, w: Wanters)
    requires Culling(w0, w)
    ensures w0.Keys == w.Keys
  {
  }

  ghost function WantsOf(t: Table): Wanters
    reads t.Values
  {
    map n | n in t :: t[n].wants
  }

  /** `list` names those of the first `k` packages that want `p`. */
  ghost predicate Linked(wants: Wanters, p: string, list: seq<string>, order: seq<string>, k: nat) {
    && k <= |order|
    && Distinct(list)
    && forall o :: o in list <==> o in order[..k] && o in wants && p in wants[o]
  }

  lemma LinkStep(wants: Wanters, p: string, list: seq<string>, order: seq<string>, k: nat)
    requires k < |order| && order[k] in wants && Linked(wants, p, list, order, k)
    ensures Linked(wants, p, if p in wants[order[k]] then EnterOnce(list, order[k]) else list, order, k + 1)
  {
    assert order[..k + 1] == order[..k] + [order[k]];
    EnterOnceDistinct(list, order[k]);
  }

  /** Enters into package `p` the packages that want it. */
  method LinkPackage(t: Table, order: seq<string>, p: string)
    requires Filed(t) && Listed(t, order)
    requires p in t && t[p].wantedby == []
    modifies {t[p]}`wantedby
    ensures Linked(WantsOf(t), p, t[p].wantedby, order, |order|)
    ensures WantsOf(t) == old(WantsOf(t))
    ensures WantersOf(t) == old(WantersOf(t))[p := t[p].wantedby]
  {
    hide Linked;
    ghost var wants := WantsOf(t);
    LinkNone(wants, p, order);
    for k := 0 to |order|
      invariant Linked(wants, p, t[p].wantedby, order, k)
      invariant WantsOf(t) == wants
    {
      assert order[k] in Elements(order);
      LinkStep(wants, p, t[p].wantedby, order, k);
      PackageOfPrefix(order[k], "");
      assert order[k] + "" == order[k];
      if t[order[k]].References(p) {
        t[p].AddReference(order[k]);
      }
    }
  }

  lemma LinkNone(wants: Wanters, p: string, order: seq<string>)
    ensures Linked(wants, p, [], order, 0)
  {
  }

  /** Records in every package which packages want it. */
  method LinkReferences(t: Table, order: seq<string>)
    requires Filed(t) && Listed(t, order)
    requires forall p :: p in t ==> t[p].wantedby == []
    modifies t.Values`wantedby
    ensures Sound(WantersOf(t))
    ensures forall p, o :: p in t ==> (o in t[p].wantedby <==> o in t && p in t[o].wants)
  {
    hide Linked, LinkedSoFar, Sound, Distinct;
    ghost var wants := WantsOf(t);
    NoneLinked(wants, WantersOf(t), order);
    for i := 0 to |order|
      invariant LinkedSoFar(wants, WantersOf(t), order, i)
      invariant WantsOf(t) == wants
    {
      OrderKnown(wants, WantersOf(t), order, i);
      ghost var w := WantersOf(t);
      LinkPackage(t, order, order[i]);
      LinkedNext(wants, w, order, i, t[order[i]].wantedby);
    }
    AllLinked(wants, WantersOf(t), order);
    assert forall o :: o in t ==> wants[o] == t[o].wants;
  }

  /** The first `i` packages are linked; the others have no wanters yet. */
  ghost predicate LinkedSoFar(wants: Wanters, w: Wanters, order: seq<string>, i: nat) {
    && wants.Keys == w.Keys == Elements(order) && Distinct(order)
    && i <= |order|
    && (forall k :: 0 <= k < i ==> Linked(wants, order[k], w[order[k]], order, |order|))
    && forall k :: i <= k < |order| ==> w[order[k]] == []
  }

  lemma NoneLinked(wants: Wanters, w: Wanters, order: seq<string>)
    requires wants.Keys == w.Keys == Elements(order) && Distinct(order)
    requires forall p :: p in w ==> w[p] == []
    ensures LinkedSoFar(wants, w, order, 0)
  {
    assert forall k :: 0 <= k < |order| ==> order[k] in Elements(order);
  }

  lemma OrderKnown(wants: Wanters, w: Wanters, order: seq<string>, i: nat)
    requires LinkedSoFar(wants, w, order, i) && i < |order|
    ensures order[i] in w && w[order[i]] == []
  {
    assert order[i] in Elements(order);
  }

  lemma LinkedNext(wants: Wanters, w: Wanters, order: seq<string>, i: nat, list: seq<string>)
    requires LinkedSoFar(wants, w, order, i) && i < |order|
    requires Linked(wants, order[i], list, order, |order|)
    ensures LinkedSoFar(wants, w[order[i] := list], order, i + 1)
  {
    hide Linked;
    assert forall k :: 0 <= k < |order| ==> order[k] in Elements(order);
  }

  lemma AllLinked(wants: Wanters, w: Wanters, order: seq<string>)
    requires LinkedSoFar(wants, w, order, |order|)
    ensures Sound(w)
    ensures forall p, o :: p in w ==> (o in w[p] <==> o in wants && p in wants[o])
  {
    assert order[..|order|] == order;
    assert forall o :: o in order <==> o in Elements(order);
    forall p | p in w
      ensures Linked(wants, p, w[p], order, |order|)
    {
      var k :| 0 <= k < |order| && order[k] == p;
    }
  }
}
