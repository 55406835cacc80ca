/** Package names. A build step is called `package:target`; everything before the first colon names the package. */
module Names {

  /** What `name.split(":")[0]` yields. */
  function PackageOf(name: string): (r: string)
    ensures ':' !in r
    ensures |r| <= |name| && r == name[..|r|]
    ensures |r| < |name| ==> name[|r|] == ':'
  {
    if name == "" || name[0] == ':' then "" else [name[0]] + PackageOf(name[1..])
  }

  /** What `name.split(":")[1]` yields; "target" when there is no colon. */
  function TargetOf(name: string): string {
    var p := PackageOf(name);
    if |p| == |name| then "target" else PackageOf(name[|p| + 1..])
  }

  function FullName(pkg: string, target: string): string {
    pkg + ":" + target
  }

  /** A dependency without a target means the package's `target` step. */
  function Qualify(dep: string): string {
    if ':' in dep then dep else FullName(dep, "target")
  }

  /** At most one colon: the form of every dependency token and build trigger. */
  predicate Token(dep: string) {
    ':' !in dep || ':' !in dep[|PackageOf(dep)| + 1..]
  }

  /** Exactly one colon: the only form that unpacks into (package, target). */
  predicate StepName(name: string) {
    ':' in name && Token(name)
  }

  lemma {:induction false} PackageOfPrefix(pkg: string, rest: string)
    requires ':' !in pkg
    requires rest == "" || rest[0] == ':'
    ensures PackageOf(pkg + rest) == pkg
  {
    if pkg == "" {
      assert pkg + rest == rest;
    } else {
      PackageOfPrefix(pkg[1..], rest);
      assert (pkg + rest)[1..] == pkg[1..] + rest;
      assert pkg == [pkg[0]] + pkg[1..];
    }
  }

  /** Splitting undoes joining, and a step name is the join of its two parts. */
  lemma SplitJoin(pkg: string, target: string)
    requires ':' !in pkg && ':' !in target
    ensures PackageOf(FullName(pkg, target)) == pkg
    ensures TargetOf(FullName(pkg, target)) == target
    ensures StepName(FullName(pkg, target))
  {
    assert pkg + ":" + target == pkg + (":" + target);
    PackageOfPrefix(pkg, ":" + target);
    var name := FullName(pkg, target);
    assert name[|pkg|] == ':';
    assert name[|pkg| + 1..] == target;
    PackageOfPrefix(target, "");
    assert target + "" == target;
  }

  lemma JoinSplit(dep: string)
    requires Token(dep)
    ensures StepName(Qualify(dep))
    ensures FullName(PackageOf(dep), TargetOf(dep)) == Qualify(dep)
    ensures PackageOf(Qualify(dep)) == PackageOf(dep)
    ensures TargetOf(Qualify(dep)) == TargetOf(dep)
    ensures ':' !in TargetOf(dep)
  {
    var p := PackageOf(dep);
    if |p| == |dep| {
      assert dep == p;
      SplitJoin(dep, "target");
    } else {
      var t := dep[|p| + 1..];
      PackageOfPrefix(t, "");
      assert t + "" == t;
      assert dep == p + ":" + t;
    }
  }

  /** Without a colon a name is that of a package, and means its target step. */
  lemma PlainName(dep: string)
    ensures ':' !in dep ==> PackageOf(dep) == dep && TargetOf(dep) == "target" && Qualify(dep) == dep + ":target"
    ensures ':' in dep ==> Qualify(dep) == dep
  {
    if ':' !in dep {
      PackageOfPrefix(dep, "");
      assert dep + "" == dep;
    }
  }
}
