/**
 * Culling of unwanted packages. `W[p]` lists the packages that want `p`; the root
 * always counts. What survives is the greatest set in which everything is wanted
 * by the root or by a survivor.
 */
module Cull {
  import opened Collections

  const ROOT := "__root__"

  type Wanters = map<string, seq<string>>

  ghost predicate Closed(w: Wanters) {
    forall p, o :: p in w && o in w[p] ==> o in w
  }

  ghost predicate SupportedIn(w: Wanters, x: set<string>, p: string) {
    p in w && exists o :: o in w[p] && (o == ROOT || o in x)
  }

  /** Every member is wanted by the root or by a member. */
  ghost predicate Supported(w: Wanters, x: set<string>) {
    forall p :: p in x ==> SupportedIn(w, x, p)
  }

  /** The packages that somebody still wants. */
  ghost function Live(w: Wanters): set<string> {
    set p | p in w && w[p] != []
  }

  ghost predicate Greatest(w: Wanters, x: set<string>) {
    && Supported(w, x)
    && forall y :: Supported(w, y) ==> y <= x
  }

  /** Only wanters that nobody wants have been deleted from the wanters of `p`. */
  ghost predicate Justified(w0: Wanters, w: Wanters, p: string) {
    p in w && p in w0 && forall o :: o in w0[p] ==> o in w[p] || (o != ROOT && o in w && w[o] == [])
  }

  /** `w` is what culling has left of `w0` so far. */
  ghost predicate Culling(w0: Wanters, w: Wanters) {
    && w.Keys == w0.Keys
    && (forall p, o :: p in w && o in w[p] ==> o in w0[p])
    && (forall p :: p in w ==> Justified(w0, w, p))
    && (forall x :: Supported(w0, x) ==> Supported(w, x))
  }

  /** Nothing is left to delete. */
  ghost predicate Settled(w: Wanters) {
    forall p, o :: p in w && o in w[p] ==> o == ROOT || (o in w && w[o] != [])
  }

  /** Of the wanters of `p`, exactly the root and the survivors are left. */
  ghost predicate OnlySupportLeft(w0: Wanters, w: Wanters, p: string)
    requires p in w && p in w0
  {
    forall o :: o in w[p] <==> o in w0[p] && (o == ROOT || o in Live(w))
  }

  lemma CullingStarts(w: Wanters)
    ensures Culling(w, w)
  {
  }

  /** Deleting a reference from an unwanted package takes support from no supported set. */
  lemma DeleteKeeps(w0: Wanters, w: Wanters, p: string, o: string, rest: seq<string>)
    requires Culling(w0, w)
    requires p in w && o in w[p] && o != ROOT && o in w && w[o] == []
    requires forall x :: x in rest <==> x in w[p] && x != o
    ensures Culling(w0, w[p := rest])
  {
    var w' := w[p := rest];
    assert p != o && w'[o] == [];
    assert forall q, o' :: q in w' && o' in w'[q] ==> o' in w[q];
    forall q | q in w'
      ensures Justified(w0, w', q)
    {
      assert Justified(w0, w, q);
    }
    forall x | Supported(w0, x)
      ensures Supported(w', x)
    {
      assert Supported(w, x);
      DeleteSupport(w, p, o, rest, x);
    }
  }

  lemma DeleteSupport(w: Wanters, p: string, o: string, rest: seq<string>, x: set<string>)
    requires Supported(w, x)
    requires p in w && o in w[p] && o != ROOT && o in w && w[o] == []
    requires forall x :: x in rest <==> x in w[p] && x != o
    ensures Supported(w[p := rest], x)
  {
    var w' := w[p := rest];
    assert o in x ==> SupportedIn(w, x, o);
    forall q | q in x
      ensures SupportedIn(w', x, q)
    {
      assert SupportedIn(w, x, q);
      var o' :| o' in w[q] && (o' == ROOT || o' in x);
      assert o' in w'[q];
    }
  }

  /** When culling has settled, what is left is the greatest supported set, and only support from it is left. */
  lemma SettledIsGreatest(w0: Wanters, w: Wanters)
    requires Culling(w0, w) && Settled(w)
    ensures Greatest(w0, Live(w))
    ensures forall p :: p in w ==> OnlySupportLeft(w0, w, p)
  {
    forall p | p in w
      ensures OnlySupportLeft(w0, w, p)
    {
      assert Justified(w0, w, p);
    }
    forall p | p in Live(w)
      ensures SupportedIn(w0, Live(w), p)
    {
      var o := w[p][0];
      assert o in w[p];
    }
    forall y | Supported(w0, y)
      ensures y <= Live(w)
    {
      assert Supported(w, y);
      forall p | p in y
        ensures p in Live(w)
      {
        assert SupportedIn(w, y, p);
      }
    }
  }

  /** Each element is wanted by the one before it. */
  ghost predicate WantChain(w: Wanters, path: seq<string>) {
    && path != []
    && forall i :: 0 < i < |path| ==> path[i] in w && path[i - 1] in w[path[i]]
  }

  ghost predicate ReachPath(w: Wanters, path: seq<string>, p: string) {
    && WantChain(w, path)
    && 2 <= |path|
    && path[0] == ROOT
    && path[|path| - 1] == p
  }

  ghost predicate Reached(w: Wanters, p: string) {
    exists path :: ReachPath(w, path, p)
  }

  /** Everything reachable from the root survives. */
  lemma ReachedSurvives(w: Wanters, x: set<string>, p: string)
    requires Greatest(w, x) && Reached(w, p)
    ensures p in x
  {
    var path :| ReachPath(w, path, p);
    var tail := path[1..];
    var y := Elements(tail);
    forall q | q in y
      ensures SupportedIn(w, y, q)
    {
      var i :| 0 <= i < |tail| && tail[i] == q;
      assert q == path[i + 1] && path[i] in w[q];
      if i > 0 {
        assert path[i] == tail[i - 1];
      }
    }
    assert Supported(w, y);
    assert p == tail[|tail| - 1] && p in tail;
  }

  /** Packages that want one another in a circle. */
  ghost predicate WantCycle(w: Wanters, cycle: seq<string>) {
    && WantChain(w, cycle)
    && cycle[0] in w && cycle[|cycle| - 1] in w[cycle[0]]
  }

  /** A circle of packages that the root does not reach. */
  ghost predicate StrayCycle(w: Wanters, cycle: seq<string>) {
    WantCycle(w, cycle) && forall p :: p in cycle ==> !Reached(w, p) && p != ROOT
  }

  /** A stray circle survives culling: its members keep one another wanted. */
  lemma StrayCycleSurvives(w: Wanters, x: set<string>, cycle: seq<string>)
    requires Greatest(w, x) && WantCycle(w, cycle)
    ensures Elements(cycle) <= x
  {
    var y := Elements(cycle);
    forall q | q in y
      ensures SupportedIn(w, y, q)
    {
      var i :| 0 <= i < |cycle| && cycle[i] == q;
      var o := cycle[if i == 0 then |cycle| - 1 else i - 1];
      assert o in w[q] && o in y;
    }
  }

  lemma ExtendReach(w: Wanters, o: string, p: string)
    requires p in w && o in w[p] && (o == ROOT || Reached(w, o))
    ensures Reached(w, p)
  {
    if o == ROOT {
      assert ReachPath(w, [ROOT, p], p);
    } else {
      var path :| ReachPath(w, path, o);
      var longer := path + [p];
      assert forall i :: 0 <= i < |path| ==> longer[i] == path[i];
      assert ReachPath(w, longer, p);
    }
  }

  /** Going from wanter to wanter among survivors that the root does not reach. */
  lemma {:induction false} StrayChain(w: Wanters, x: set<string>, p: string, n: nat) returns (path: seq<string>)
    requires Supported(w, x) && p in x && !Reached(w, p) && p != ROOT
    ensures WantChain(w, path) && |path| == n + 1
    ensures forall q :: q in path ==> q in x && !Reached(w, q) && q != ROOT
  {
    if n == 0 {
      path := [p];
    } else {
      var rest := StrayChain(w, x, p, n - 1);
      var head := rest[0];
      assert head in rest && SupportedIn(w, x, head);
      var o :| o in w[head] && (o == ROOT || o in x);
      if o == ROOT || Reached(w, o) {
        ExtendReach(w, o, head);
      }
      path := [o] + rest;
      assert forall i :: 0 < i < |path| ==> path[i] == rest[i - 1];
    }
  }

  /** A sequence longer than the set it is drawn from repeats an element. */
  lemma {:induction false} Repeats(s: seq<string>, x: set<string>) returns (i: nat, j: nat)
    requires forall e :: e in s ==> e in x
    requires |s| > |x|
    ensures i < j < |s| && s[i] == s[j]
  {
    var last := s[|s| - 1];
    var init := s[..|s| - 1];
    if last in init {
      i :| 0 <= i < |init| && init[i] == last;
      j := |s| - 1;
    } else {
      assert last in x;
      i, j := Repeats(init, x - {last});
    }
  }

  /** If something survives that the root does not reach, some circle of packages keeps it alive. */
  lemma StrayMeansCycle(w: Wanters, x: set<string>, p: string) returns (cycle: seq<string>)
    requires Supported(w, x) && p in x && !Reached(w, p) && p != ROOT
    ensures StrayCycle(w, cycle)
  {
    var path := StrayChain(w, x, p, |x|);
    var i, j := Repeats(path, x);
    cycle := path[i + 1..j + 1];
    assert forall k :: 0 <= k < |cycle| ==> cycle[k] == path[i + 1 + k];
    assert forall q :: q in cycle ==> q in path;
  }

  /**
   * Culling leaves exactly what the root reaches if and only if no circle of
   * packages lies outside the root's reach.
   */
  lemma CullIsReachability(w: Wanters, x: set<string>)
    requires Greatest(w, x)
    ensures (forall p :: p in x && p != ROOT ==> Reached(w, p)) <==> !exists cycle :: StrayCycle(w, cycle)
  {
    if cycle :| StrayCycle(w, cycle) {
      StrayCycleSurvives(w, x, cycle);
      assert cycle[0] in cycle && cycle[0] in Elements(cycle);
    }
    if p :| p in x && p != ROOT && !Reached(w, p) {
      var cycle := StrayMeansCycle(w, x, p);
    }
  }

  /** Without circles, the survivors are exactly the packages that the root reaches. */
  lemma AcyclicCull(w: Wanters, x: set<string>)
    requires Greatest(w, x)
    requires !exists cycle :: WantCycle(w, cycle)
    ensures forall p :: p != ROOT ==> (p in x <==> Reached(w, p))
  {
    CullIsReachability(w, x);
    forall p | Reached(w, p)
      ensures p in x
    {
      ReachedSurvives(w, x, p);
    }
  }
}
