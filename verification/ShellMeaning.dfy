/** What the shell text means and what the fixers do to it, piece by piece. */
module ShellMeaning {
  import opened Collections
  import opened ShellText
  import opened ShellAwk
  import opened ShellSource

  // ---- What the shell makes of a text ----

  /** A reference stands for the value of the variable, or for nothing if there is none. */
  lemma ReferenceExpands(n: string, rest: string, env: Env)
    requires Identifier(n)
    ensures Expand("${" + n + "}" + rest, env) == (if n in env then env[n] else "") + Expand(rest, env)
    ensures rest == "" || !VarChar(rest[0]) ==>
              Expand("$" + n + rest, env) == (if n in env then env[n] else "") + Expand(rest, env)
    ensures Expand("", env) == ""
  {
    hide RefLength, RefName, Identifier;
    RefBraced(n, rest);
    if rest == "" || !VarChar(rest[0]) {
      BareReference(n, rest);
    }
  }

  lemma BareReference(n: string, rest: string)
    requires Identifier(n) && (rest == "" || !VarChar(rest[0]))
    ensures RefLength("$" + n + rest) == |n| + 1 && RefName("$" + n + rest) == n
    ensures ("$" + n + rest)[|n| + 1..] == rest && "$" + n + rest != ""
  {
    var s := "$" + n + rest;
    assert s[1..] == n + rest && s[1] == n[0];
    NameAtIs(n, rest);
  }

  lemma PlainExpands(c: char, rest: string, env: Env)
    requires Plain(c)
    ensures Expand([c] + rest, env) == [c] + Expand(rest, env)
  {
    assert ([c] + rest)[1..] == rest;
  }

  /** An assignment sets its variable, with += to the old value and the text, and leaves the others alone. */
  lemma EffectIs(a: Assign, env: Env, v: string)
    ensures a.name in Effect(a, env)
    ensures Effect(a, env)[a.name] ==
            if a.append && a.name in env then env[a.name] + Expand(a.body, env) else Expand(a.body, env)
    ensures v != a.name ==> (v in Effect(a, env) <==> v in env) && (v in env ==> Effect(a, env)[v] == env[v])
  {
    assert "" + Expand(a.body, env) == Expand(a.body, env);
  }

  // ---- Appends ----

  /** The text starts with the reference `ref` to the variable, and goes on with `rest`. */
  ghost predicate StartsWith(body: string, ref: string, name: string, rest: string) {
    && body == ref + rest
    && (ref == "${" + name + "}" || (ref == "$" + name && (rest == "" || !VarChar(rest[0]))))
  }

  ghost predicate IsName(name: string) {
    name != "" && forall i :: 0 <= i < |name| ==> VarChar(name[i])
  }

  lemma StartIsFound(body: string, ref: string, name: string, rest: string)
    requires IsName(name) && StartsWith(body, ref, name, rest)
    ensures LeadingRef(body) == ref
  {
    assert VarChar(name[0]);
    if ref == "${" + name + "}" {
      assert body[..2] == "${" && body[2..] == name + ("}" + rest);
      NameAtIs(name, "}" + rest);
      assert body[|name| + 2] == '}';
    } else {
      assert body[0] == '$' && body[1] == name[0] && body[1..] == name + rest;
      assert body[..1] == "$" && body[..2] == ['$', name[0]];
      NameAtIs(name, rest);
    }
  }

  lemma FoundIsStart(body: string, name: string)
    requires IsName(name) && (LeadingRef(body) == "${" + name + "}" || LeadingRef(body) == "$" + name)
    ensures LeadingRef(body) <= body
    ensures StartsWith(body, LeadingRef(body), name, body[|LeadingRef(body)|..])
  {
    RefPrefix(body);
    var ref := LeadingRef(body);
    assert body == ref + body[|ref|..];
    if "${" <= body && |NameAt(body[2..])| + 2 < |body| && body[|NameAt(body[2..])| + 2] == '}' {
      BracedNotBare(NameAt(body[2..]), name);
    } else if "$" <= body {
      BareNotBraced(NameAt(body[1..]), name);
      var n := NameAt(body[1..]);
      assert ref[1..] == n;
      assert ("$" + name)[1..] == name;
    } else {
      assert false;
    }
  }

  /**
   * NAME="$NAME rest", with braces or without, becomes NAME+=" rest", whatever the rest is. It stays as it is exactly
   * if the text also ends with that reference, right before the closing quote at the end of the line.
   */
  lemma AppendsExactly(p: Parts, ref: string, rest: string)
    requires IsParts(p) && p.name != "" && '\\' !in Joined(p) && StartsWith(p.body, ref, p.name, rest)
    ensures Appended(Joined(p)) ==
            if p.trail == "\n" && EndsWith(p.body, ref) then Joined(p)
            else p.indent + p.name + "+=\"" + rest + "\"" + p.trail
  {
    hide AllSpace, EndsWith, LeadingRef, ReplaceAll, ParseAssign, Joined;
    Recognized(Joined(p), p);
    PartsAre(p);
    StartIsFound(p.body, ref, p.name, rest);
    LineEnd(p, ref);
    RestReplaced(p, ref, rest);
  }

  lemma RestReplaced(p: Parts, ref: string, rest: string)
    requires IsParts(p) && p.name != "" && StartsWith(p.body, ref, p.name, rest)
    ensures ReplaceAll(Joined(p), "=\"" + ref, "+=\"") == p.indent + p.name + "+=\"" + rest + "\"" + p.trail
  {
    hide ReplaceAll;
    var pre, from, tail := p.indent + p.name, "=\"" + ref, rest + "\"" + p.trail;
    assert Joined(p) == pre + from + tail;
    assert '"' !in rest;
    assert from[0] == '=' && from[1] == '"' && from[2] == ref[0] == '$';
    ReplaceFirst(pre, from, "+=\"", tail);
    ReplaceNone(rest, p.trail, from, "+=\"");
    assert pre + "+=\"" + tail == p.indent + p.name + "+=\"" + rest + "\"" + p.trail;
  }

  lemma LineEnd(p: Parts, ref: string)
    requires IsParts(p) && |ref| <= |p.body|
    ensures EndsWith(Joined(p), ref + "\"\n") <==> p.trail == "\n" && EndsWith(p.body, ref)
  {
    var t, end := Joined(p), ref + "\"\n";
    assert |end| <= |t| + 1;
    if p.trail == "\n" {
      assert t[|t| - |end|..] == p.body[|p.body| - |ref|..] + "\"\n";
      assert end[..|ref|] == ref && t[|t| - |end|..][..|ref|] == p.body[|p.body| - |ref|..];
    } else {
      assert p.trail == "" ==> t[|t| - 1] == '"';
      assert |p.trail| == 1 ==> t[|t| - 1] == p.trail[0] && p.trail == [p.trail[0]];
      assert |p.trail| > 1 ==> t[|t| - 2] == p.trail[|p.trail| - 2];
      assert |end| <= |t| ==> t[|t| - |end|..][|end| - 2] == t[|t| - 2] && t[|t| - |end|..][|end| - 1] == t[|t| - 1];
    }
  }

  /** Any other line stays as it is: no assignment of a text, a backslash in it, or no reference to start with. */
  lemma AppendsOnly(line: string)
    requires forall p, ref, rest :: IsParts(p) && line == Joined(p) && p.name != "" && '\\' !in line ==>
               !StartsWith(p.body, ref, p.name, rest)
    requires forall p :: IsParts(p) && line == Joined(p) ==> p.name != ""
    ensures Appended(line) == line
  {
    hide AllSpace, EndsWith, LeadingRef, ReplaceAll, ParseAssign, Joined, IsParts, StartsWith;
    if ParseAssign(line).Some? && '\\' !in line {
      var p := ParseAssign(line).value;
      Recognized(line, p);
      PartsAre(p);
      var ref := LeadingRef(p.body);
      if ref == "${" + p.name + "}" || ref == "$" + p.name {
        FoundIsStart(p.body, p.name);
        assert false;
      }
    }
  }

  /** So a text that begins and ends with the variable is never shortened, whatever is in between. */
  lemma BothEndsStay(p: Parts, mid: string)
    requires IsParts(p) && p.name != "" && '\\' !in Joined(p) && p.trail == "\n"
    requires p.body == "${" + p.name + "}" + mid + "${" + p.name + "}"
    ensures Appended(Joined(p)) == Joined(p)
  {
    hide Appended, Joined, IsParts;
    var ref := "${" + p.name + "}";
    assert p.body == ref + (mid + ref);
    assert StartsWith(p.body, ref, p.name, mid + ref);
    assert p.body[|p.body| - |ref|..] == ref;
    AppendsExactly(p, ref, mid + ref);
  }

  /** Which characters may be in the name of a variable, and which are white space. */
  lemma Characters()
    ensures forall c :: c in "AMZamz059_" ==> VarChar(c)
    ensures forall c :: c in "@[`{/:^-$.+\"' \n" ==> !VarChar(c)
    ensures forall c :: c in " \t\n\r\U{0B}\U{0C}" ==> Space(c)
    ensures forall c :: c in "a0_$\"'\U{00}" ==> !Space(c)
  {
  }

  // ---- Braces ----

  /** The first bare reference gets braces, what is in front of it stays, and what follows it is fixed likewise. */
  lemma BareGetsBraces(p: string, n: string, rest: string)
    requires '$' !in p && n != "" && (forall i :: 0 <= i < |n| ==> VarChar(n[i]))
    requires rest != "" && !VarChar(rest[0])
    ensures Braced(p + ("$" + (n + rest)), false) == p + ("${" + (n + ("}" + Braced(rest, false))))
    ensures Braced(p, false) == p
  {
    hide Braced;
    BracedCopies(p, "$" + (n + rest));
    BracedCopies(p, "");
    SmallNoBare('}');
    assert p + "" == p;
    assert Braced("$" + (n + rest), false) == "${" + Braced(n + rest, true) by {
      OpensBrace(n, rest);
    }
    BracedName(n, rest);
    Regroup(n, "}", Braced(rest, false));
  }

  lemma OpensBrace(n: string, rest: string)
    requires n != "" && VarChar(n[0])
    ensures Braced("$" + (n + rest), false) == "${" + Braced(n + rest, true)
  {
    var s := "$" + (n + rest);
    assert s[1..] == n + rest && s[1] == n[0] && s[0] == '$';
  }

  /** The text ends within a bare reference: variable characters only, behind a dollar sign. */
  ghost predicate EndsBare(s: string) {
    exists k :: 0 <= k < |s| - 1 && s[k] == '$' && forall i :: k < i < |s| ==> VarChar(s[i])
  }

  ghost predicate AllNames(s: string) {
    forall i :: 0 <= i < |s| ==> VarChar(s[i])
  }

  /**
   * The closing brace is added when the next character is read: without a newline, the brace of a bare reference
   * at the end of the line is never closed; any other line is fixed as it would be with one.
   */
  lemma UnclosedExactly(line: string)
    ensures Braced(line + "\n", false) == Braced(line, false) + if EndsBare(line) then "}\n" else "\n"
  {
    hide Braced, EndsBare;
    Unclosed(line, false);
  }

  /** What the end of the line adds if it is a newline. */
  ghost function Ending(s: string, invar: bool): string {
    if EndsBare(s) || (invar && AllNames(s)) then "}\n" else "\n"
  }

  lemma {:induction false} Unclosed(s: string, invar: bool)
    ensures Braced(s + "\n", invar) == Braced(s, invar) + Ending(s, invar)
    decreases |s|, invar
  {
    hide Braced, Ending, VarChar;
    if s == "" {
      UnclosedEmpty(invar);
    } else if !invar && s[0] == '$' && |s| > 1 && VarChar(s[1]) {
      Unclosed(s[1..], true);
      UnclosedStep(s, invar, "${", true);
    } else if invar && s[0] == '$' {
      Unclosed(s, false);
      UnclosedDollar(s);
    } else {
      Unclosed(s[1..], invar && VarChar(s[0]));
      UnclosedStep(s, invar, if invar && !VarChar(s[0]) then "}" + [s[0]] else [s[0]], invar && VarChar(s[0]));
    }
  }

  lemma UnclosedEmpty(invar: bool)
    ensures Braced("" + "\n", invar) == Braced("", invar) + Ending("", invar)
  {
    assert "" + "\n" == "\n" && "\n"[1..] == "" && AllNames("") && !EndsBare("");
    assert Braced("\n", false) == "\n" && Braced("\n", true) == "}\n";
  }

  lemma UnclosedDollar(s: string)
    requires s != "" && s[0] == '$'
    requires Braced(s + "\n", false) == Braced(s, false) + Ending(s, false)
    ensures Braced(s + "\n", true) == Braced(s, true) + Ending(s, true)
  {
    hide EndsBare;
    assert !AllNames(s) && (s + "\n")[0] == '$';
    assert Braced(s + "\n", true) == "}" + Braced(s + "\n", false) && Braced(s, true) == "}" + Braced(s, false);
  }

  /** One character further, when `more` is written for it. */
  lemma UnclosedStep(s: string, invar: bool, more: string, next: bool)
    requires s != "" && !(invar && s[0] == '$')
    requires if !invar && s[0] == '$' && |s| > 1 && VarChar(s[1]) then more == "${" && next
             else next == (invar && VarChar(s[0])) && more == if invar && !VarChar(s[0]) then "}" + [s[0]] else [s[0]]
    requires Braced(s[1..] + "\n", next) == Braced(s[1..], next) + Ending(s[1..], next)
    ensures Braced(s + "\n", invar) == Braced(s, invar) + Ending(s, invar)
  {
    assert (s + "\n")[1..] == s[1..] + "\n" && (s + "\n")[0] == s[0];
    assert |s| > 1 ==> (s + "\n")[1] == s[1];
    OpenAtEnd(s);
    OpenAtEnd(s[1..]);
    hide EndsBare, AllNames;
    BracedStep(s, invar, more, next);
    BracedStep(s + "\n", invar, more, next);
    Regroup(more, Braced(s[1..], next), Ending(s[1..], next));
  }

  lemma BracedStep(s: string, invar: bool, more: string, next: bool)
    requires s != "" && !(invar && s[0] == '$')
    requires if !invar && s[0] == '$' && |s| > 1 && VarChar(s[1]) then more == "${" && next
             else next == (invar && VarChar(s[0])) && more == if invar && !VarChar(s[0]) then "}" + [s[0]] else [s[0]]
    ensures Braced(s, invar) == more + Braced(s[1..], next)
  {
    Regroup("}", [s[0]], Braced(s[1..], false));
  }

  lemma OpenAtEnd(s: string)
    ensures s == "" ==> !EndsBare(s) && AllNames(s)
    ensures s != "" ==> (EndsBare(s) <==> EndsBare(s[1..]) || (s[0] == '$' && |s| > 1 && AllNames(s[1..])))
    ensures s != "" ==> (AllNames(s) <==> VarChar(s[0]) && AllNames(s[1..]))
    ensures |s| > 1 ==> (AllNames(s[1..]) ==> VarChar(s[1]))
  {
    if s != "" {
      if EndsBare(s) {
        var k :| 0 <= k < |s| - 1 && s[k] == '$' && forall i :: k < i < |s| ==> VarChar(s[i]);
        if k > 0 {
          assert s[1..][k - 1] == '$' && forall i :: k - 1 < i < |s[1..]| ==> s[1..][i] == s[i + 1];
        } else {
          assert forall i :: 0 <= i < |s[1..]| ==> s[1..][i] == s[i + 1];
        }
      }
      if EndsBare(s[1..]) {
        var k :| 0 <= k < |s[1..]| - 1 && s[1..][k] == '$' && forall i :: k < i < |s[1..]| ==> VarChar(s[1..][i]);
        assert s[k + 1] == '$' && forall i :: k + 1 < i < |s| ==> s[i] == s[1..][i - 1];
      }
      if AllNames(s[1..]) {
        assert forall i :: 1 <= i < |s| ==> s[i] == s[1..][i - 1];
      }
    }
  }

  /** There is a dollar sign at place `k` with a variable character behind it, outside the awk program. */
  ghost predicate Bare(line: string, awk: Option<(nat, nat)>, k: nat) {
    && k + 1 < |line| && line[k] == '$' && VarChar(line[k + 1])
    && (awk.Some? ==> k < awk.value.0 || k > awk.value.1)
  }

  ghost function BarePlaces(line: string, awk: Option<(nat, nat)>, c: nat): set<nat> {
    set k: nat | k < c && Bare(line, awk, k)
  }

  /** What is counted are these places. */
  lemma {:induction false} BareCountIs(line: string, awk: Option<(nat, nat)>, c: nat)
    ensures BareCount(line, awk, c) == |BarePlaces(line, awk, c)|
  {
    if c > 0 {
      BareCountIs(line, awk, c - 1);
      var before := BarePlaces(line, awk, c - 1);
      assert BarePlaces(line, awk, c) == before + (if BareAt(line, awk, c - 1) then {c - 1} else {});
    }
  }

  // ---- Awk programs ----

  /** The command, or the command with a separator of one character in quotes and a space. */
  lemma ArgumentsAre(line: string, p: Pattern, i: nat, h: nat)
    ensures Arguments(line, p, i) == Some(h) <==>
            && i < h <= |line|
            && if p == Separator then exists c :: c != '\n' && line[i..h] == "awk -F'" + [c] + "' "
               else line[i..h] == "awk"
  {
    if i < h <= |line| && p == Separator {
      if Arguments(line, p, i) == Some(h) {
        assert line[i..h] == line[i..i + 7] + [line[i + 7]] + line[i + 8..i + 10];
      }
      if c :| c != '\n' && line[i..h] == "awk -F'" + [c] + "' " {
        assert |"awk -F'" + [c] + "' "| == 10;
        assert line[i..h][..7] == line[i..i + 7] && line[i..h][7] == line[i + 7];
        assert line[i..h][8..] == line[i + 8..i + 10];
      }
    }
  }

  /** In front of the command there is text without a newline, and then white space. */
  lemma InFrontOf(line: string, i: nat)
    requires i <= |line|
    ensures SameLine(line, i) <==> exists k :: 0 <= k <= i && '\n' !in line[..k] && AllSpace(line[k..i])
  {
    hide Space;
    if SameLine(line, i) {
      var k := FirstNewline(line, i);
      assert k == i ==> line[k..i] == "";
    }
    if k :| 0 <= k <= i && '\n' !in line[..k] && AllSpace(line[k..i]) {
      NoneBefore(line, k);
      forall n | 0 <= n < i && line[n] == '\n'
        ensures AllSpace(line[n..i])
      {
        assert forall j :: 0 <= j < |line[n..i]| ==> line[n..i][j] == line[k..i][j + n - k];
      }
    }
  }

  lemma NoneBefore(line: string, k: nat)
    requires k <= |line| && '\n' !in line[..k]
    ensures forall n :: 0 <= n < k ==> line[n] != '\n'
  {
    assert forall n :: 0 <= n < k ==> line[..k][n] == line[n];
  }

  lemma {:induction false} FirstNewline(line: string, i: nat) returns (k: nat)
    requires i <= |line|
    ensures k <= i && '\n' !in line[..k] && (k < i ==> line[k] == '\n')
  {
    k := 0;
    if i > 0 {
      k := FirstNewline(line, i - 1);
      if k == i - 1 && line[k] != '\n' {
        assert line[..i] == line[..k] + [line[k]];
        k := i;
      }
    }
  }

  function Ordinary(): string {
    "awk '{ print $1 }'\n"
  }

  /** In an ordinary line without a separator the program is found. */
  lemma OrdinaryFound()
    ensures FindAwk(Ordinary()) == Some((5, 17)) && Ordinary()[5..17] == "{ print $1 }"
  {
    hide LastMatch, Matches;
    var line := Ordinary();
    assert line[0..3] == "awk" && line[0..7] == "awk '{ ";
    assert forall k :: 0 < k < |line| ==> line[k] != 'a';
    ArgumentsOnce(line);
    OrdinaryMatches(line);
    assert Rightmost(line, Single, |line|, 0, 5, 17);
    LastMatchIs(line, Separator, |line|, 0, 0);
    LastMatchIs(line, Single, |line|, 5, 17);
  }

  lemma ArgumentsOnce(line: string)
    requires |line| >= 7 && line[0..7] == "awk '{ " && forall k :: 0 < k < |line| ==> line[k] != 'a'
    ensures forall i: nat :: i > 0 ==> !MatchesAt(line, Single, i)
    ensures forall i: nat :: !MatchesAt(line, Separator, i)
  {
    assert line[0..7][3] == line[3] == ' ' && line[0..7][4] == line[4] == '\'';
    forall i: nat
      ensures Arguments(line, Separator, i) == None && (i > 0 ==> Arguments(line, Single, i) == None)
    {
      assert i + 7 <= |line| ==> line[i..i + 7][0] == line[i] && line[i..i + 7][4] == line[i + 4];
      assert i + 3 <= |line| ==> line[i..i + 3][0] == line[i];
    }
    hide Arguments;
  }

  lemma OrdinaryMatches(line: string)
    requires line == Ordinary()
    ensures Matches(line, Single, 0, 5, 17)
  {
    assert line[0..3] == "awk";
    assert line[3..4] == " " && line[5..17] == "{ print $1 }";
  }

  /** The first of the three patterns that matches decides. */
  lemma FirstPattern(line: string, start: nat, end: nat)
    ensures FindAwk(line) == Some((start, end)) <==>
            if exists i: nat :: i < |line| && MatchesAt(line, Separator, i)
            then exists i :: Rightmost(line, Separator, |line|, i, start, end)
            else if exists i: nat :: i < |line| && MatchesAt(line, Single, i)
            then exists i :: Rightmost(line, Single, |line|, i, start, end)
            else exists i :: Rightmost(line, Double, |line|, i, start, end)
  {
    hide LastMatch, MatchesAt, Rightmost;
    LastMatchIs(line, Separator, |line|, start, end);
    LastMatchIs(line, Single, |line|, start, end);
    LastMatchIs(line, Double, |line|, start, end);
  }

  /** The line whose program is missed, and what becomes of it. */
  lemma CommonBecomes()
    ensures FindAwk(Common()) == None && Fixed(Common(), None) == "awk -F':' '{ print ${1} }'\n"
  {
    hide FindAwk, Braced;
    CommonMissed();
    var p, rest := "awk -F':' '{ print ", " }'\n";
    assert Common() == p + ("$" + ("1" + rest));
    BareGetsBraces(p, "1", rest);
    BracedCopies(rest, "");
    assert rest + "" == rest;
    SmallNoBare('}');
    assert p + ("${" + ("1" + ("}" + rest))) == "awk -F':' '{ print ${1} }'\n";
  }
}
