/** Package lists and triggers for which planning does not do what its description says. */
module PlanExamples {
  import opened Collections
  import opened Names
  import opened RankedGraph
  import opened Cull
  import opened Packages
  import opened Resolve
  import opened Nodes
  import opened Plan
  import opened Planner
  import opened BuildSteps
  import opened Pipeline

  /** A package whose target step depends on the given names. */
  function Plain(name: string, wants: seq<string>): (e: Entry)
    ensures e.deps.Keys == Elements(TARGETS) && e.name == name
  {
    Entry(name, "", "global", map["bootstrap" := [], "init" := [], "host" := [], "target" := wants], [])
  }

  /** What the root declares if one package is asked for. */
  lemma RootFor(n: string)
    requires n != "" && ':' !in n
    ensures PackageOf(n) == n && TargetOf(n) == "target" && Qualify(n) == FullName(n, "target")
    ensures RootEntry([n]).deps == Plain("", [n]).deps
  {
    assert n == n + "";
    PackageOfPrefix(n, "");
    var b := [n];
    assert b[..0] == [];
    assert OfKind("host", b) == [] && OfKind("target", b) == [n];
    assert Words([n]) == [n];
  }

  lemma Colonless()
    ensures ':' !in "a" && ':' !in "p" && ':' !in "q" && ':' !in "x" && ':' !in ROOT
  {
  }

  /** What the root wants is needed. */
  lemma WantedIsNeeded(m: Catalog, needed: seq<string>, p: string)
    requires IsNeeded(m, needed) && p in m && Wants(m, ROOT, p)
    ensures p in needed
  {
    hide Wants;
    var w, x :| IsWanters(m, w) && Greatest(w, x) && Elements(needed) == x + {ROOT};
    assert ROOT in w[p];
    assert Supported(w, {p});
    assert p in Elements(needed);
  }

  // ---- A trigger with a target that does not exist ----

  function Single(): seq<Entry> {
    [Plain("a", [])]
  }

  function Request(): seq<string> {
    ["a", "a:foo"]
  }

  lemma SingleIn(n: string)
    ensures n in CatalogOf(Single()) <==> n == "a"
    ensures n == "a" ==> CatalogOf(Single())[n] == Plain("a", [])
  {
    var l := Single();
    CatalogIsEffective(l, n);
    assert l[..0] == [];
  }

  lemma RequestSplits()
    ensures PackageOf("a") == "a" && TargetOf("a") == "target" && Qualify("a") == "a:target"
    ensures TargetOf("a:foo") == "foo" && Qualify("a:foo") == "a:foo"
  {
    assert "a" == "a" + "" && "a:foo" == FullName("a", "foo");
    PackageOfPrefix("a", "");
    SplitJoin("a", "foo");
    assert ':' !in "a" && "a:foo"[1] == ':';
  }

  lemma RequestRoot()
    ensures RootEntry(Request()).deps == Plain("", ["a"]).deps
  {
    RequestSplits();
    var b := Request();
    assert b[..1] == ["a"] && b[..1][..0] == [];
    assert OfKind("host", b) == [] && OfKind("target", b) == ["a"];
    assert Words(["a"]) == ["a"];
  }

  lemma SingleOk()
    ensures InputOk(Single(), Request())
  {
    RequestSplits();
    assert "a:foo" == FullName("a", "foo");
    SplitJoin("a", "foo");
  }

  lemma SingleDecls()
    ensures DeclsIn(Rooted(Single(), Request())) == map["a" := Plain("a", []).deps, ROOT := Plain("", ["a"]).deps]
  {
    hide CatalogOf, RootEntry, Single, Request;
    var m := Rooted(Single(), Request());
    RequestRoot();
    SingleIn("a");
    forall n
      ensures n in m <==> n == "a" || n == ROOT
    {
      SingleIn(n);
    }
  }

  /** The only dependency declared anywhere is that of the root on `a`. */
  lemma SingleDeclares(d: Decls, needed: seq<string>, x: string)
    requires d == DeclsIn(Rooted(Single(), Request()))
    ensures DeclaredBy(d, needed, x) ==> x == "a"
    ensures "a" in d && ROOT in d && Declares(d, ROOT, "a")
  {
    hide DeclsIn, Rooted;
    SingleDecls();
    assert d["a"]["target"] == [] && d[ROOT]["target"] == ["a"];
  }

  lemma SingleNotRejected(needed: seq<string>)
    requires IsNeeded(Rooted(Single(), Request()), needed)
    ensures !Rejected(DeclsIn(Rooted(Single(), Request())), needed, false, false)
  {
    hide IsNeeded, DeclsIn, Rooted, InputOk, CatalogOk, Rejected;
    var m := Rooted(Single(), Request());
    var d := DeclsIn(m);
    SingleOk();
    RootedOk(Single(), Request());
    DeclsInOk(m);
    RejectedExactly(m, needed, false, false);
    RequestSplits();
    if x :| DeclaredBy(d, needed, x) && PackageOf(x) !in d {
      SingleDeclares(d, needed, x);
    }
    if k :| IsStep(d, needed, k) && PackageOf(k) in needed && TargetOf(k) !in Elements(TARGETS) {
      SingleTargets(d, needed, k);
    }
  }

  lemma SingleTargets(d: Decls, needed: seq<string>, k: string)
    requires d == DeclsIn(Rooted(Single(), Request())) && DeclsOk(d) && IsStep(d, needed, k)
    ensures TargetOf(k) in Elements(TARGETS)
  {
    if OwnStep(d, needed, k) {
      OwnTargets(d, needed, k);
    } else {
      var x :| DeclaredBy(d, needed, x) && PackageOf(x) in d && k == Qualify(x);
      SingleDeclares(d, needed, x);
      RequestSplits();
      JoinSplit("a");
      assert "target" in TARGETS;
    }
  }

  lemma OwnTargets(d: Decls, needed: seq<string>, k: string)
    requires DeclsOk(d) && OwnStep(d, needed, k)
    ensures TargetOf(k) in Elements(TARGETS)
  {
    var n, t :| n in needed && n in d && t in d[n] && d[n][t] != [] && k == FullName(n, t);
    DeclTargets(d, n);
    KnownTargets(t);
    SplitJoin(n, t);
  }

  /** Nothing depends on anything behind `a`. */
  lemma SingleEnds(e: string)
    ensures !DependsOn(Rooted(Single(), Request()), "a:target", e, false)
  {
    RequestSplits();
    JoinSplit("a");
    SingleIn("a");
  }

  lemma SingleEffect(b: string)
    ensures TakesEffect(Rooted(Single(), Request()), Request(), b) <==> b == "a"
  {
    hide CatalogOf, Single;
    RequestSplits();
    SingleIn("a");
    assert "target" in Elements(TARGETS) && "foo" !in Elements(TARGETS);
  }

  lemma SinglePlan(needed: seq<string>, g: Graph, k: string)
    requires IsNeeded(Rooted(Single(), Request()), needed)
    requires IsNodeMap(DeclsIn(Rooted(Single(), Request())), needed, g)
    ensures Triggered(g, Request(), k) <==> k == "a:target"
    ensures !CyclicTrigger(g, Request())
  {
    hide InputOk, IsNeeded, Rejected, IsNodeMap, Whole, CyclicTrigger, Triggered, Rooted, DependsOn, TakesEffect,
         PackageOf, TargetOf, Qualify;
    var m := Rooted(Single(), Request());
    SingleOk();
    SingleNotRejected(needed);
    MapIsWhole(DeclsIn(m), needed, g);
    PlanIsClosure(Single(), Request(), needed, g, k, false, false);
    CirclesAreDeclared(Single(), Request(), needed, g, false, false);
    RequestSplits();
    forall b
      ensures TakesEffect(m, Request(), b) <==> b == "a"
    {
      SingleEffect(b);
    }
    forall p, e | Leads(m, p, "a:target", e, false)
      ensures p == ["a:target"]
    {
      if |p| > 1 {
        SingleEnds(p[1]);
      }
    }
    assert Leads(m, ["a:target"], "a:target", "a:target", false);
  }

  lemma SingleNoCircles()
    ensures !RunsInCircles(Rooted(Single(), Request()), Request())
  {
    hide IsNeeded, IsNodeMap, CyclicTrigger, Triggered, Rooted;
    var m := Rooted(Single(), Request());
    if needed, g :| IsNeeded(m, needed) && IsNodeMap(DeclsIn(m), needed, g) && CyclicTrigger(g, Request()) {
      SinglePlan(needed, g, "");
    }
  }

  /** Planning succeeds and plans exactly `a:target`; the trigger `a:foo` is passed over without a word. */
  method UnknownTargetPasses() returns (r: Result<seq<Job>>)
    ensures r.Ok? && NamesOf(r.value) == {"a:target"}
  {
    hide InputOk, IsNeeded, Rejected, Refused, RunsInCircles, IsNodeMap, CyclicTrigger, Triggered, Writes, ValidPlan,
         Rooted, Plain, NamesOf;
    SingleOk();
    ghost var needed, g;
    r, needed, g := GeneratePlan(Single(), Request(), false, false);
    ghost var m := Rooted(Single(), Request());
    SingleNotRejected(needed);
    DecidedBy(m, needed, g, Request(), false, false);
    SingleNoCircles();
    forall k
      ensures k in NamesOf(r.value) <==> k == "a:target"
    {
      SinglePlan(needed, g, k);
    }
  }

  // ---- A trigger for an unknown package ----

  function Stranger(): Catalog {
    map[ROOT := RootEntry(["x"])]
  }

  lemma StrangerIs()
    ensures InputOk([], ["x"]) && Rooted([], ["x"]) == Stranger()
    ensures CatalogOk(Stranger()) && ROOT in Stranger()
    ensures DeclsIn(Stranger()) == map[ROOT := Plain("", ["x"]).deps]
    ensures PackageOf("x") == "x" && PackageOf("x") !in Stranger()
  {
    Colonless();
    RootFor("x");
    RootedOk([], ["x"]);
    assert ROOT != "x";
  }

  lemma StrangerDeclares(needed: seq<string>, x: string)
    ensures DeclaredBy(DeclsIn(Stranger()), needed, x) ==> x == "x"
    ensures Declares(DeclsIn(Stranger()), ROOT, "x")
  {
    hide DeclsIn, Stranger, PackageOf;
    StrangerIs();
    var d := DeclsIn(Stranger());
    assert d[ROOT]["target"] == ["x"];
  }

  /** The reference to the unknown package is an error, unless such references are ignored; a warning is no way out. */
  lemma StrangerRejected(needed: seq<string>, ignoreInvalid: bool, warnInvalid: bool)
    requires IsNeeded(Stranger(), needed)
    ensures Rejected(DeclsIn(Stranger()), needed, ignoreInvalid, warnInvalid) <==> !ignoreInvalid
  {
    hide IsNeeded, DeclsIn, Stranger, CatalogOk, PackageOf, Rejected, InputOk, Rooted;
    var m, d := Stranger(), DeclsIn(Stranger());
    StrangerIs();
    RejectedExactly(m, needed, ignoreInvalid, warnInvalid);
    DeclsInOk(m);
    StrangerDeclares(needed, "x");
    RootNeeded(m, needed);
    assert DeclaredBy(d, needed, "x");
    StrangerUnknown(d);
    if k :| IsStep(d, needed, k) && PackageOf(k) in needed && TargetOf(k) !in Elements(TARGETS) {
      if OwnStep(d, needed, k) {
        OwnTargets(d, needed, k);
      } else {
        var x :| DeclaredBy(d, needed, x) && PackageOf(x) in d && k == Qualify(x);
        StrangerDeclares(needed, x);
      }
    }
  }

  lemma StrangerUnknown(d: Decls)
    requires d == DeclsIn(Stranger())
    ensures PackageOf("x") !in d
  {
    StrangerIs();
  }

  lemma StrangerPlan(needed: seq<string>, g: Graph, warnInvalid: bool)
    requires IsNeeded(Stranger(), needed) && IsNodeMap(DeclsIn(Stranger()), needed, g)
    ensures forall k :: !Triggered(g, ["x"], k)
    ensures !CyclicTrigger(g, ["x"])
  {
    hide InputOk, IsNeeded, Rejected, IsNodeMap, Rooted, Stranger, PackageOf, TargetOf, Qualify;
    StrangerIs();
    StrangerRejected(needed, true, warnInvalid);
    EffectiveTriggers([], ["x"], needed, g, true, warnInvalid);
  }

  /**
   * If invalid packages are ignored, a trigger for an unknown package, with a target that exists, is passed
   * over without a message; if not, planning fails, warning or no warning.
   */
  method UnknownPackagePasses(ignoreInvalid: bool, warnInvalid: bool) returns (r: Result<seq<Job>>)
    ensures "target" in TARGETS && TargetOf("x") == "target"
    ensures r.Ok? <==> ignoreInvalid
    ensures r.Ok? ==> NamesOf(r.value) == {}
  {
    hide InputOk, IsNeeded, Rejected, Refused, IsNodeMap, CyclicTrigger, Triggered, Writes, ValidPlan, Rooted, Stranger,
         Plain, NamesOf, RunsInCircles;
    StrangerIs();
    Colonless();
    RootFor("x");
    ghost var needed, g;
    r, needed, g := GeneratePlan([], ["x"], ignoreInvalid, warnInvalid);
    DecidedBy(Stranger(), needed, g, ["x"], ignoreInvalid, warnInvalid);
    StrangerRejected(needed, ignoreInvalid, warnInvalid);
    StrangerNoCircles();
    if r.Ok? {
      StrangerPlan(needed, g, warnInvalid);
    }
  }

  lemma StrangerNoCircles()
    ensures !RunsInCircles(Stranger(), ["x"])
  {
    hide IsNeeded, IsNodeMap, CyclicTrigger, Triggered, Stranger;
    var m := Stranger();
    if needed, g :| IsNeeded(m, needed) && IsNodeMap(DeclsIn(m), needed, g) && CyclicTrigger(g, ["x"]) {
      StrangerPlan(needed, g, false);
    }
  }

  // ---- Packages that want each other ----

  /** Besides `a` there are `p` and `q`, which depend on each other; `q` also depends on an unknown package. */
  function Spoiled(): seq<Entry> {
    [Plain("a", []), Plain("p", ["q"]), Plain("q", ["p", "x"])]
  }

  lemma SpoiledIn(n: string)
    ensures n in CatalogOf(Spoiled()) <==> n == "a" || n == "p" || n == "q"
    ensures n == "a" ==> CatalogOf(Spoiled())[n] == Plain("a", [])
    ensures n == "p" ==> CatalogOf(Spoiled())[n] == Plain("p", ["q"])
    ensures n == "q" ==> CatalogOf(Spoiled())[n] == Plain("q", ["p", "x"])
  {
    var l := Spoiled();
    CatalogIsEffective(l, n);
    assert l[..2][..1] == l[..1] && l[..1][..0] == [];
    assert LastAt(l[..1], "local", n) == None && LastAt(l[..2], "local", n) == None && LastAt(l, "local", n) == None;
    assert LastAt(l[..1], "global", n) == if n == "a" then Some(l[0]) else None;
    assert LastAt(l[..2], "global", n) == if n == "p" then Some(l[1]) else LastAt(l[..1], "global", n);
  }

  lemma SpoiledDecls()
    ensures DeclsIn(Rooted(Spoiled(), ["a"])) ==
            map["a" := Plain("a", []).deps, "p" := Plain("p", ["q"]).deps, "q" := Plain("q", ["p", "x"]).deps,
                ROOT := Plain("", ["a"]).deps]
  {
    hide CatalogOf, RootEntry, Spoiled;
    var m := Rooted(Spoiled(), ["a"]);
    Colonless();
    RootFor("a");
    SpoiledIn("a");
    SpoiledIn("p");
    SpoiledIn("q");
    forall n
      ensures n in m <==> n == "a" || n == "p" || n == "q" || n == ROOT
    {
      SpoiledIn(n);
    }
  }

  lemma SpoiledWants()
    ensures var m := Rooted(Spoiled(), ["a"]);
            && "p" in m && "q" in m && Wants(m, "p", "q") && Wants(m, "q", "p")
            && (forall n :: Wants(m, ROOT, n) ==> n == "a") && forall n :: !Wants(m, "a", n)
  {
    hide Rooted, DeclsIn, Mentions, PackageOf;
    Colonless();
    RootFor("a");
    RootFor("p");
    RootFor("q");
    var m := Rooted(Spoiled(), ["a"]);
    SpoiledDeps(m);
    OnlyTarget(m, "p", ["q"]);
    OnlyTarget(m, "q", ["p", "x"]);
    OnlyTarget(m, ROOT, ["a"]);
    OnlyTarget(m, "a", []);
    assert "p" in ["p", "x"] && "q" in ["q"];
  }

  lemma OnlyTarget(m: Catalog, n: string, wants: seq<string>)
    requires n in m && m[n].deps == Plain("", wants).deps
    ensures forall p :: Mentions(m[n].deps, p) <==> exists x :: x in wants && PackageOf(x) == p
  {
    hide PackageOf;
    assert m[n].deps["target"] == wants;
  }

  lemma SpoiledDeps(m: Catalog)
    requires m == Rooted(Spoiled(), ["a"])
    ensures "a" in m && "p" in m && "q" in m && ROOT in m
    ensures m["a"].deps == Plain("a", []).deps && m["p"].deps == Plain("p", ["q"]).deps
    ensures m["q"].deps == Plain("q", ["p", "x"]).deps && m[ROOT].deps == Plain("", ["a"]).deps
  {
    hide Rooted, Plain;
    SpoiledDecls();
    var d := DeclsIn(m);
    assert "a" in d && "p" in d && "q" in d && ROOT in d;
    assert "a" in m && "p" in m && "q" in m && ROOT in m;
    assert d["a"] == m["a"].deps && d["p"] == m["p"].deps && d["q"] == m["q"].deps && d[ROOT] == m[ROOT].deps;
  }

  /** Two packages that depend on each other are needed, although the root reaches neither. */
  lemma MutualReferencesSurvive(needed: seq<string>, w: Wanters)
    requires IsNeeded(Rooted(Spoiled(), ["a"]), needed) && IsWanters(Rooted(Spoiled(), ["a"]), w)
    ensures "p" in needed && "q" in needed
    ensures !Reached(w, "p") && !Reached(w, "q")
  {
    hide Wants, Rooted, Reached, IsNeeded, IsWanters;
    SpoiledWants();
    var m := Rooted(Spoiled(), ["a"]);
    PairNeeded(m, needed);
    NotFromRoot(m, w, "p");
    NotFromRoot(m, w, "q");
  }

  lemma PairNeeded(m: Catalog, needed: seq<string>)
    requires IsNeeded(m, needed) && Wants(m, "p", "q") && Wants(m, "q", "p") && "p" in m && "q" in m
    ensures "p" in needed && "q" in needed
  {
    hide Wants, Distinct, IsWanters, Supported;
    var w, x :| IsWanters(m, w) && Greatest(w, x) && Elements(needed) == x + {ROOT};
    PairSupported(m, w);
    assert {"p", "q"} <= x;
    assert "p" in Elements(needed) && "q" in Elements(needed);
  }

  lemma PairSupported(m: Catalog, w: Wanters)
    requires IsWanters(m, w) && Wants(m, "p", "q") && Wants(m, "q", "p") && "p" in m && "q" in m
    ensures Supported(w, {"p", "q"})
  {
    hide Wants;
    assert "q" in w["p"] && "p" in w["q"];
  }

  lemma NotFromRoot(m: Catalog, w: Wanters, p: string)
    requires IsWanters(m, w) && (forall n :: Wants(m, ROOT, n) ==> n == "a") && (forall n :: !Wants(m, "a", n))
    requires p != "a"
    ensures !Reached(w, p)
  {
    hide Wants;
    if path :| ReachPath(w, path, p) {
      WantsAlong(m, w, path, 1);
      if |path| > 2 {
        WantsAlong(m, w, path, 2);
      }
    }
  }

  lemma WantsAlong(m: Catalog, w: Wanters, path: seq<string>, i: nat)
    requires IsWanters(m, w) && WantChain(w, path) && 0 < i < |path|
    ensures Wants(m, path[i - 1], path[i])
  {
    assert path[i] in w && path[i - 1] in w[path[i]];
  }

  lemma SpoiledUnknown(d: Decls)
    requires d == DeclsIn(Rooted(Spoiled(), ["a"]))
    ensures Declares(d, "q", "x") && PackageOf("x") !in d
  {
    hide Rooted, DeclsIn, PackageOf;
    SpoiledDecls();
    Colonless();
    RootFor("x");
    assert d["q"]["target"] == ["p", "x"];
    assert "x" in d["q"]["target"];
  }

  lemma SpoiledRejected(needed: seq<string>, warnInvalid: bool)
    requires IsNeeded(Rooted(Spoiled(), ["a"]), needed) && "q" in needed
    ensures Rejected(DeclsIn(Rooted(Spoiled(), ["a"])), needed, false, warnInvalid)
  {
    hide Rooted, Spoiled, DeclsIn, IsNeeded, Declares, PackageOf, IsStep;
    var d := DeclsIn(Rooted(Spoiled(), ["a"]));
    SpoiledUnknown(d);
    assert DeclaredBy(d, needed, "x");
  }

  /**
   * Asked for `a` alone, which depends on nothing, planning fails: `p` and `q` are not used, but are not
   * culled either.
   */
  method UnusedSpoils(warnInvalid: bool) returns (r: Result<seq<Job>>)
    ensures r.Raise?
  {
    hide InputOk, IsNeeded, Rejected, Refused, RunsInCircles, IsNodeMap, CyclicTrigger, Triggered, Writes, ValidPlan,
         Rooted, Plain, NamesOf;
    SpoiledOk();
    ghost var needed, g;
    r, needed, g := GeneratePlan(Spoiled(), ["a"], false, warnInvalid);
    ghost var m := Rooted(Spoiled(), ["a"]);
    SpoiledNeeds(needed);
    SpoiledRejected(needed, warnInvalid);
    DecidedBy(m, needed, g, ["a"], false, warnInvalid);
  }

  lemma SpoiledNeeds(needed: seq<string>)
    requires IsNeeded(Rooted(Spoiled(), ["a"]), needed)
    ensures "q" in needed
  {
    hide Rooted, Reached, IsWanters, Greatest;
    var w, x :| IsWanters(Rooted(Spoiled(), ["a"]), w) && Greatest(w, x);
    MutualReferencesSurvive(needed, w);
  }

  lemma SpoiledOk()
    ensures InputOk(Spoiled(), ["a"])
  {
    hide EntryOk, Plain, Token;
    Colonless();
    PlainOk("a", []);
    PlainOk("p", ["q"]);
    PlainOk("q", ["p", "x"]);
    PlainToken("a");
  }

  lemma PlainToken(x: string)
    requires ':' !in x
    ensures Token(x)
  {
  }

  lemma PlainOk(name: string, wants: seq<string>)
    requires ':' !in name && forall x :: x in wants ==> ':' !in x
    ensures EntryOk(Plain(name, wants))
  {
  }
}
