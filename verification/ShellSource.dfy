/** Tidying shell source, line by line: appending assignments become +=, and variable references get braces. */
module ShellSource {
  import opened Collections
  import opened ShellText
  import opened ShellAwk

  // ---- Recognizing a simple assignment ----

  function SpaceAt(s: string): (n: string)
    ensures n <= s && AllSpace(n)
    ensures |n| < |s| ==> !Space(s[|n|])
  {
    if s == "" || !Space(s[0]) then "" else [s[0]] + SpaceAt(s[1..])
  }

  /** The text before the first quote. */
  function UntilQuote(s: string): (n: string)
    ensures n <= s && '"' !in n
    ensures |n| < |s| ==> s[|n|] == '"'
  {
    if s == "" || s[0] == '"' then "" else [s[0]] + UntilQuote(s[1..])
  }

  datatype Parts = Parts(indent: string, name: string, body: string, trail: string)

  /** The parts of a line that consists of NAME="text" and white space. */
  function ParseAssign(line: string): Option<Parts> {
    ParseName(SpaceAt(line), line[|SpaceAt(line)|..])
  }

  function ParseName(indent: string, l: string): Option<Parts> {
    var name := NameAt(l);
    if "=\"" <= l[|name|..] then ParseQuoted(indent, name, l[|name| + 2..]) else None
  }

  function ParseQuoted(indent: string, name: string, quoted: string): Option<Parts> {
    var body := UntilQuote(quoted);
    if |body| < |quoted| && AllSpace(quoted[|body| + 1..])
    then Some(Parts(indent, name, body, quoted[|body| + 1..])) else None
  }

  /** The reference at the start of the text, as the two patterns find it; nothing if there is no dollar sign. */
  function LeadingRef(body: string): string {
    if "${" <= body && |NameAt(body[2..])| + 2 < |body| && body[|NameAt(body[2..])| + 2] == '}'
    then "${" + NameAt(body[2..]) + "}"
    else if "$" <= body then "$" + NameAt(body[1..])
    else ""
  }

  /** What Python's str.replace does. */
  function ReplaceAll(s: string, from: string, to: string): string
    requires from != ""
  {
    if s == "" then ""
    else if from <= s then to + ReplaceAll(s[|from|..], from, to)
    else [s[0]] + ReplaceAll(s[1..], from, to)
  }

  /** The line after fixing appends. */
  function Appended(line: string): string {
    var p := ParseAssign(line);
    if p.None? || '\\' in line then line
    else
      var ref := LeadingRef(p.value.body);
      if (ref == "${" + p.value.name + "}" || ref == "$" + p.value.name) && !EndsWith(line, ref + "\"\n")
      then ReplaceAll(line, "=\"" + ref, "+=\"")
      else line
  }

  lemma {:induction false} SpaceAtIs(p: string, rest: string)
    requires AllSpace(p) && (rest == "" || !Space(rest[0]))
    ensures SpaceAt(p + rest) == p
  {
    if p != "" {
      SpaceAtIs(p[1..], rest);
      assert (p + rest)[1..] == p[1..] + rest;
      assert p == [p[0]] + p[1..];
    } else {
      assert p + rest == rest;
    }
  }

  lemma {:induction false} NameAtIs(p: string, rest: string)
    requires (forall i :: 0 <= i < |p| ==> VarChar(p[i])) && (rest == "" || !VarChar(rest[0]))
    ensures NameAt(p + rest) == p
  {
    if p != "" {
      NameAtIs(p[1..], rest);
      assert (p + rest)[1..] == p[1..] + rest;
      assert p == [p[0]] + p[1..];
    } else {
      assert p + rest == rest;
    }
  }

  lemma {:induction false} UntilQuoteIs(p: string, rest: string)
    requires '"' !in p && rest != "" && rest[0] == '"'
    ensures UntilQuote(p + rest) == p
  {
    if p != "" {
      assert p == [p[0]] + p[1..];
      UntilQuoteIs(p[1..], rest);
      assert (p + rest)[1..] == p[1..] + rest;
    } else {
      assert p + rest == rest;
    }
  }

  lemma ParseQuotedIs(indent: string, name: string, body: string, trail: string)
    requires '"' !in body && AllSpace(trail)
    ensures ParseQuoted(indent, name, body + "\"" + trail) == Some(Parts(indent, name, body, trail))
  {
    hide AllSpace;
    var quoted := body + "\"" + trail;
    assert quoted == body + ("\"" + trail);
    UntilQuoteIs(body, "\"" + trail);
    assert quoted[|body| + 1..] == trail;
  }

  lemma ParseNameIs(indent: string, name: string, op: string, tail: string)
    requires (forall i :: 0 <= i < |name| ==> VarChar(name[i])) && op in ["=\"", "+=\""]
    ensures ParseName(indent, name + (op + tail)) == if op == "=\"" then ParseQuoted(indent, name, tail) else None
  {
    hide ParseQuoted;
    var l := name + (op + tail);
    NameAtIs(name, op + tail);
    assert l[|name|..] == op + tail;
    if op == "=\"" {
      assert l[|name| + 2..] == tail;
    } else {
      assert l[|name|] == '+';
    }
  }

  /** A well-formed line is recognized if and only if it is a plain assignment, and taken apart correctly. */
  lemma ParseText(a: Assign)
    requires WellFormed(a)
    ensures ParseAssign(Text(a)) == if a.append then None else Some(Parts(a.indent, a.name, a.body, a.trail))
  {
    hide AllSpace, Simple, ParseName, ParseQuoted;
    var op := if a.append then "+=\"" else "=\"";
    var tail := a.body + "\"" + a.trail;
    var l := a.name + (op + tail);
    TextIs(a, op, l);
    assert l[0] == a.name[0] && VarChar(l[0]);
    SpaceAtIs(a.indent, l);
    assert Text(a)[|a.indent|..] == l;
    ParseNameIs(a.indent, a.name, op, tail);
    SimpleHasNoQuote(a.body);
    ParseQuotedIs(a.indent, a.name, a.body, a.trail);
  }

  lemma QuotedIs(indent: string, name: string, quoted: string)
    requires ParseQuoted(indent, name, quoted).Some?
    ensures var p := ParseQuoted(indent, name, quoted).value;
            && p.indent == indent && p.name == name && quoted == p.body + ("\"" + p.trail)
            && AllSpace(p.trail) && '"' !in p.body
  {
    hide AllSpace;
    var body := UntilQuote(quoted);
    assert quoted == body + ([quoted[|body|]] + quoted[|body| + 1..]);
  }

  lemma NamedIs(indent: string, l: string)
    requires ParseName(indent, l).Some?
    ensures var p := ParseName(indent, l).value;
            && p.indent == indent && l == p.name + ("=\"" + (p.body + ("\"" + p.trail)))
            && AllSpace(p.trail) && '"' !in p.body && forall i :: 0 <= i < |p.name| ==> VarChar(p.name[i])
  {
    hide AllSpace, VarChar, ParseQuoted;
    var name := NameAt(l);
    QuotedIs(indent, name, l[|name| + 2..]);
    assert l[|name|..][..2] == "=\"";
    assert l == name + (l[|name|..][..2] + l[|name| + 2..]);
  }

  /** White space, variable characters, text without quotes, and white space. */
  predicate IsParts(p: Parts) {
    && AllSpace(p.indent) && AllSpace(p.trail) && '"' !in p.body
    && forall i :: 0 <= i < |p.name| ==> VarChar(p.name[i])
  }

  function Joined(p: Parts): string {
    p.indent + p.name + "=\"" + p.body + "\"" + p.trail
  }

  /** Exactly the lines NAME="text" between white space are recognized, and each is taken apart into its parts. */
  lemma Recognized(line: string, p: Parts)
    ensures ParseAssign(line) == Some(p) <==> IsParts(p) && line == Joined(p)
  {
    hide AllSpace, VarChar, ParseName, ParseQuoted, IsParts;
    FiveParts(p.indent, p.name, p.body, p.trail);
    if ParseAssign(line) == Some(p) {
      var indent := SpaceAt(line);
      NamedIs(indent, line[|indent|..]);
      assert line == indent + line[|indent|..];
      PartsAre(p);
    }
    if IsParts(p) && line == Joined(p) {
      JoinedParses(p, p.name + ("=\"" + (p.body + ("\"" + p.trail))));
    }
  }

  lemma PartsAre(p: Parts)
    ensures IsParts(p) <==>
            && AllSpace(p.indent) && AllSpace(p.trail) && '"' !in p.body
            && forall i :: 0 <= i < |p.name| ==> VarChar(p.name[i])
  {
  }

  lemma JoinedParses(p: Parts, l: string)
    requires IsParts(p) && l == p.name + ("=\"" + (p.body + ("\"" + p.trail)))
    ensures ParseAssign(p.indent + l) == Some(p)
  {
    hide AllSpace, ParseName, ParseQuoted;
    var tail := p.body + ("\"" + p.trail);
    assert l[0] == if p.name == "" then '=' else p.name[0];
    SpaceAtIs(p.indent, l);
    assert (p.indent + l)[|p.indent|..] == l;
    ParseNameIs(p.indent, p.name, "=\"", tail);
    assert tail == p.body + "\"" + p.trail;
    ParseQuotedIs(p.indent, p.name, p.body, p.trail);
  }

  lemma FiveParts(indent: string, name: string, body: string, trail: string)
    ensures indent + (name + ("=\"" + (body + ("\"" + trail)))) == indent + name + "=\"" + body + "\"" + trail
  {
  }

  lemma TextIs(a: Assign, op: string, l: string)
    requires op == if a.append then "+=\"" else "=\""
    requires l == a.name + (op + (a.body + "\"" + a.trail))
    ensures Text(a) == a.indent + l
  {
  }

  // ---- Appending ----

  ghost predicate Opens(from: string) {
    |from| >= 3 && from[0] == '=' && from[1] == '"' && from[2] == '$'
  }

  lemma {:induction false} ReplaceNowhere(s: string, from: string, to: string)
    requires Opens(from) && forall i :: 0 <= i < |s| ==> s[i] != '='
    ensures ReplaceAll(s, from, to) == s
  {
    if s != "" {
      ReplaceNowhere(s[1..], from, to);
    }
  }

  /** Behind the opening quote there is only the closing one, and what follows it is white space. */
  lemma {:induction false} ReplaceNone(x: string, trail: string, from: string, to: string)
    requires Opens(from) && '"' !in x && AllSpace(trail)
    ensures ReplaceAll(x + "\"" + trail, from, to) == x + "\"" + trail
  {
    var s := x + "\"" + trail;
    if x == "" {
      ReplaceNowhere(s, from, to);
    } else {
      ReplaceNone(x[1..], trail, from, to);
      assert s[1..] == x[1..] + "\"" + trail;
      assert |x| > 1 ==> s[1] == x[1] && x[1] in x;
      assert |x| == 1 && trail != "" ==> s[2] == trail[0];
      assert !(from <= s);
    }
  }

  lemma {:induction false} ReplaceFirst(pre: string, from: string, to: string, rest: string)
    requires Opens(from) && forall i :: 0 <= i < |pre| ==> pre[i] != '='
    ensures ReplaceAll(pre + from + rest, from, to) == pre + to + ReplaceAll(rest, from, to)
  {
    var s := pre + from + rest;
    if pre == "" {
      assert s == from + rest;
      assert s[|from|..] == rest;
    } else {
      ReplaceFirst(pre[1..], from, to, rest);
      assert s[0] == pre[0] && s[1..] == pre[1..] + from + rest;
    }
  }

  /** The same assignment written with +=, if the text starts with the variable itself and goes on after it. */
  function Shortened(a: Assign): Assign {
    if !a.append && RefLength(a.body) > 0 && RefName(a.body) == a.name
       && !EndsWith(Text(a), a.body[..RefLength(a.body)] + "\"\n")
    then a.(append := true, body := a.body[RefLength(a.body)..])
    else a
  }

  lemma SameBraced(n: string, name: string)
    requires n != name
    ensures "${" + n + "}" != "${" + name + "}"
  {
    assert ("${" + n + "}")[2..|n| + 2] == n && ("${" + name + "}")[2..|name| + 2] == name;
  }

  lemma SameBare(n: string, name: string)
    requires n != name
    ensures "$" + n != "$" + name
  {
    assert ("$" + n)[1..] == n && ("$" + name)[1..] == name;
  }

  lemma BracedNotBare(n: string, name: string)
    requires name != "" && VarChar(name[0])
    ensures "${" + n + "}" != "$" + name
  {
    assert ("${" + n + "}")[1] == '{' && ("$" + name)[1] == name[0];
  }

  lemma DollarAlone(name: string)
    requires name != ""
    ensures "$" != "${" + name + "}" && "$" != "$" + name
  {
    assert |"${" + name + "}"| > 1 && |"$" + name| > 1;
  }

  lemma ClosedRef(body: string, n: string)
    requires "${" <= body && n <= body[2..] && |n| + 2 < |body| && body[|n| + 2] == '}'
    ensures body[..|n| + 3] == "${" + n + "}"
  {
    PrefixBehind(body, 2, n);
  }

  /** A reference to the variable itself, in braces. */
  lemma LeadingBraced(body: string, name: string)
    requires Identifier(name) && "${" <= body
    ensures (LeadingRef(body) == "${" + name + "}" || LeadingRef(body) == "$" + name) <==>
            RefLength(body) > 0 && RefName(body) == name
    ensures RefLength(body) > 0 && RefName(body) == name ==> LeadingRef(body) == body[..RefLength(body)]
  {
    var n := NameAt(body[2..]);
    NoName(body[1..]);
    DollarAlone(name);
    BracedNotBare(n, name);
    if |n| + 2 < |body| && body[|n| + 2] == '}' {
      ClosedRef(body, n);
      if n != name {
        SameBraced(n, name);
      }
    }
    hide Identifier, NameAt;
  }

  lemma BareStart(body: string)
    requires "$" <= body
    ensures body[0] == '$' && ("${" <= body <==> |body| > 1 && body[1] == '{')
  {
    if |body| > 1 && body[1] == '{' {
      assert body[..2] == "${";
    }
  }

  lemma BareLength(body: string)
    requires body != "" && body[0] == '$' && (|body| > 1 ==> body[1] != '{')
    ensures var n := NameAt(body[1..]);
            && RefLength(body) == (if Identifier(n) then |n| + 1 else 0)
            && (RefLength(body) > 0 ==> RefName(body) == n)
  {
    hide Identifier;
    NoEmptyName();
  }

  lemma BareRef(body: string)
    requires "$" <= body && !("${" <= body)
    ensures var n := NameAt(body[1..]); LeadingRef(body) == "$" + n == body[..|n| + 1] && (n == "" || VarChar(n[0]))
  {
    PrefixBehind(body, 1, NameAt(body[1..]));
    assert body[..1] == "$";
  }

  lemma LeadingBareIs(body: string)
    requires "$" <= body && !("${" <= body)
    ensures var n := NameAt(body[1..]);
            && LeadingRef(body) == "$" + n == body[..|n| + 1]
            && RefLength(body) == (if Identifier(n) then |n| + 1 else 0)
            && (RefLength(body) > 0 ==> RefName(body) == n)
            && (n == "" || VarChar(n[0]))
  {
    hide LeadingRef, RefLength, RefName, Identifier, VarChar, NameAt;
    BareStart(body);
    BareLength(body);
    BareRef(body);
  }

  /** A reference to the variable itself, without braces. */
  lemma LeadingBare(body: string, name: string)
    requires Identifier(name) && "$" <= body && !("${" <= body)
    ensures (LeadingRef(body) == "${" + name + "}" || LeadingRef(body) == "$" + name) <==>
            RefLength(body) > 0 && RefName(body) == name
    ensures RefLength(body) > 0 && RefName(body) == name ==> LeadingRef(body) == body[..RefLength(body)]
  {
    hide LeadingRef, RefLength, RefName, Identifier, VarChar;
    var n := NameAt(body[1..]);
    LeadingBareIs(body);
    FirstOf(name);
    BareNotBraced(n, name);
    if n != name {
      SameBare(n, name);
    }
  }

  lemma FirstOf(name: string)
    requires Identifier(name)
    ensures name != "" && VarChar(name[0])
  {
  }

  lemma BareNotBraced(n: string, name: string)
    requires name != "" && (n == "" || VarChar(n[0]))
    ensures "$" + n != "${" + name + "}"
  {
    assert ("${" + name + "}")[1] == '{' && (n != "" ==> ("$" + n)[1] == n[0]);
    assert n == "" ==> |"$" + n| == 1;
  }

  lemma NoEmptyName()
    ensures !Identifier("")
  {
  }

  /** The patterns find exactly a leading reference to the variable itself. */
  lemma LeadingRefIs(body: string, name: string)
    requires Identifier(name)
    ensures (LeadingRef(body) == "${" + name + "}" || LeadingRef(body) == "$" + name) <==>
            RefLength(body) > 0 && RefName(body) == name
    ensures RefLength(body) > 0 && RefName(body) == name ==> LeadingRef(body) == body[..RefLength(body)]
  {
    if "${" <= body {
      LeadingBraced(body, name);
    } else if "$" <= body {
      LeadingBare(body, name);
    }
  }

  /** Fixing appends turns a well-formed assignment into another one, or leaves it alone. */
  lemma AppendedText(a: Assign)
    requires WellFormed(a)
    ensures Appended(Text(a)) == Text(Shortened(a))
  {
    hide AllSpace, Simple, ParseAssign, LeadingRef, EndsWith, ReplaceAll, RefLength, RefName, Text;
    ParseText(a);
    LeadingRefIs(a.body, a.name);
    NoBackslash(a);
    if Shortened(a) != a {
      ReplaceInText(a, a.body[..RefLength(a.body)]);
    }
  }

  lemma NoBackslash(a: Assign)
    requires WellFormed(a)
    ensures '\\' !in Text(a)
  {
    SimpleHasNoQuote(a.body);
    hide Simple;
    assert forall c :: c in Text(a) ==> c in a.indent || c in a.name || c in a.body || c in a.trail || c in "+=\"";
  }

  lemma ReplaceInText(a: Assign, ref: string)
    requires WellFormed(a) && !a.append && ref <= a.body && ref != "" && ref[0] == '$'
    ensures ReplaceAll(Text(a), "=\"" + ref, "+=\"") == Text(a.(append := true, body := a.body[|ref|..]))
  {
    hide ReplaceAll, Simple, AllSpace, Text;
    var pre, end := a.indent + a.name, a.body[|ref|..];
    var rest := end + "\"" + a.trail;
    SimpleHasNoQuote(a.body);
    TextSplits(a, ref);
    NoEquals(a.indent, a.name);
    ReplaceFirst(pre, "=\"" + ref, "+=\"", rest);
    assert '"' !in end;
    ReplaceNone(end, a.trail, "=\"" + ref, "+=\"");
  }

  lemma TextSplits(a: Assign, ref: string)
    requires !a.append && ref <= a.body
    ensures Text(a) == (a.indent + a.name) + ("=\"" + ref) + (a.body[|ref|..] + "\"" + a.trail)
    ensures Text(a.(append := true, body := a.body[|ref|..]))
            == (a.indent + a.name) + "+=\"" + (a.body[|ref|..] + "\"" + a.trail)
  {
    assert a.body == ref + a.body[|ref|..];
  }

  lemma NoEquals(indent: string, name: string)
    requires AllSpace(indent) && Identifier(name)
    ensures forall i :: 0 <= i < |indent + name| ==> (indent + name)[i] != '='
  {
  }

  /** The shortened assignment does the same to the variables, whatever they are. */
  lemma ShortenedEffect(a: Assign, env: Env)
    requires WellFormed(a)
    ensures WellFormed(Shortened(a))
    ensures Effect(Shortened(a), env) == Effect(a, env)
  {
    hide AllSpace, EndsWith, Text, RefLength, RefName, Identifier;
    if Shortened(a) != a {
      assert !Plain(a.body[0]) by {
        RefStartsDollar(a.body);
      }
      assert "" + Expand(a.body, env) == Expand(a.body, env);
    }
  }

  lemma RefStartsDollar(s: string)
    requires RefLength(s) > 0
    ensures s != "" && s[0] == '$'
  {
  }

  // ---- Braces ----

  /** The line after fixing braces; `invar` inside the name of a variable. */
  function Braced(s: string, invar: bool): string
    decreases |s|, invar
  {
    if s == "" then ""
    else if !invar && s[0] == '$' && |s| > 1 && VarChar(s[1]) then "${" + Braced(s[1..], true)
    else if invar && !VarChar(s[0]) then "}" + if s[0] == '$' then Braced(s, false) else [s[0]] + Braced(s[1..], false)
    else [s[0]] + Braced(s[1..], invar)
  }

  /** The text with all its references in braces. */
  function Embraced(s: string): string {
    if s == "" then ""
    else if RefLength(s) > 0 then "${" + RefName(s) + "}" + Embraced(s[RefLength(s)..])
    else [s[0]] + Embraced(s[1..])
  }

  /** Characters up to the next dollar sign are copied. */
  lemma {:induction false} BracedCopies(p: string, rest: string)
    requires '$' !in p
    ensures Braced(p + rest, false) == p + Braced(rest, false)
  {
    if p == "" {
      assert p + rest == rest;
    } else {
      assert p == [p[0]] + p[1..];
      BracedCopies(p[1..], rest);
      assert (p + rest)[1..] == p[1..] + rest;
    }
  }

  /** Within a name, characters are copied up to its end, where a brace is added. */
  lemma {:induction false} BracedName(n: string, rest: string)
    requires (forall i :: 0 <= i < |n| ==> VarChar(n[i])) && rest != "" && !VarChar(rest[0])
    ensures Braced(n + rest, true) == n + "}" + Braced(rest, false)
  {
    hide Braced;
    if n == "" {
      assert n + rest == rest;
      NameEnds(rest);
    } else {
      var m := n[1..];
      BracedName(m, rest);
      VarCharCopied(n[0], m + rest);
      assert n + rest == [n[0]] + (m + rest) && n == [n[0]] + m;
      Regroup([n[0]], m + "}", Braced(rest, false));
      Regroup([n[0]], m, "}");
    }
  }

  lemma NameEnds(rest: string)
    requires rest != "" && !VarChar(rest[0])
    ensures Braced(rest, true) == "" + "}" + Braced(rest, false)
  {
  }

  lemma VarCharCopied(c: char, s: string)
    requires VarChar(c)
    ensures Braced([c] + s, true) == [c] + Braced(s, true)
  {
    assert ([c] + s)[1..] == s;
  }

  lemma BracedBare(n: string, rest: string)
    requires Identifier(n) && rest != "" && !VarChar(rest[0])
    ensures Braced("$" + (n + rest), false) == "${" + n + "}" + Braced(rest, false)
  {
    var s := "$" + (n + rest);
    assert s[1..] == n + rest && s[1] == n[0] && s[0] == '$';
    BracedName(n, rest);
    Regroup("${", n + "}", Braced(rest, false));
    Regroup("${", n, "}");
  }

  lemma BracedAlready(n: string, rest: string)
    requires Identifier(n)
    ensures Braced("$" + (("{" + n + "}") + rest), false) == "${" + n + "}" + Braced(rest, false)
  {
    var tail := "{" + n + "}";
    var s := "$" + (tail + rest);
    assert s[1..] == tail + rest && s[1] == '{' && s[0] == '$';
    BracedCopies(tail, rest);
    assert ['$'] + (tail + Braced(rest, false)) == "${" + n + "}" + Braced(rest, false);
  }

  lemma RefText(s: string)
    requires RefLength(s) > 0
    ensures |s| >= 2 && Identifier(RefName(s))
    ensures s[..RefLength(s)] == if s[1] == '{' then "$" + ("{" + RefName(s) + "}") else "$" + RefName(s)
  {
    var n := RefName(s);
    if s[1] == '{' {
      PrefixBehind(s, 2, n);
      Regroup("$", "{" + n, "}");
      assert s[..2] == "${" && s[..|n| + 3] == s[..|n| + 2] + "}";
    } else {
      PrefixBehind(s, 1, n);
      assert s[..1] == "$";
    }
  }

  lemma PrefixBehind(s: string, k: nat, n: string)
    requires k <= |s| && n <= s[k..]
    ensures k + |n| <= |s| && s[..k + |n|] == s[..k] + n
  {
    assert s[k..][..|n|] == n;
  }

  /** A bare reference ends where its name ends. */
  lemma BareEnds(s: string, rest: string)
    requires RefLength(s) > 0 && s[1] != '{' && rest != "" && !VarChar(rest[0])
    ensures var r := s[RefLength(s)..] + rest; r != "" && !VarChar(r[0])
  {
    var n := NameAt(s[1..]);
    if RefLength(s) < |s| {
      assert s[1..][|n|] == s[RefLength(s)];
    }
  }

  /** One reference in front of other text. */
  lemma BracedRef(s: string, rest: string)
    requires RefLength(s) > 0 && rest != "" && !VarChar(rest[0])
    ensures Braced(s + rest, false) == "${" + RefName(s) + "}" + Braced(s[RefLength(s)..] + rest, false)
  {
    hide Braced, RefLength, RefName, Identifier;
    var n, r := RefName(s), s[RefLength(s)..] + rest;
    RefText(s);
    SplitAt(s, RefLength(s), rest);
    if s[1] == '{' {
      Regroup("$", "{" + n + "}", r);
      BracedAlready(n, r);
    } else {
      BareEnds(s, rest);
      Regroup("$", n, r);
      BracedBare(n, r);
    }
  }

  lemma SplitAt(s: string, k: nat, rest: string)
    requires k <= |s|
    ensures s + rest == s[..k] + (s[k..] + rest)
  {
    assert s == s[..k] + s[k..];
  }

  /** Fixing the braces of simple text puts all its references into braces. */
  lemma {:induction false} BracedSimple(s: string, rest: string)
    requires Simple(s) && rest != "" && !VarChar(rest[0])
    ensures Braced(s + rest, false) == Embraced(s) + Braced(rest, false)
    decreases |s|
  {
    hide RefLength, RefName, Plain;
    if s == "" {
      assert s + rest == rest;
    } else if RefLength(s) > 0 {
      RefNotPlain(s);
      BracedRef(s, rest);
      BracedSimple(s[RefLength(s)..], rest);
      Regroup("${" + RefName(s) + "}", Embraced(s[RefLength(s)..]), Braced(rest, false));
    } else {
      PlainCopied(s[0], s[1..] + rest);
      assert s + rest == [s[0]] + (s[1..] + rest);
      BracedSimple(s[1..], rest);
      Regroup([s[0]], Embraced(s[1..]), Braced(rest, false));
    }
  }

  lemma RefNotPlain(s: string)
    requires RefLength(s) > 0
    ensures s != "" && !Plain(s[0])
  {
  }

  lemma PlainCopied(c: char, rest: string)
    requires Plain(c)
    ensures Braced([c] + rest, false) == [c] + Braced(rest, false)
  {
    assert ([c] + rest)[1..] == rest;
  }

  lemma RefBraced(n: string, x: string)
    requires Identifier(n)
    ensures RefLength("${" + n + "}" + x) == |n| + 3 && RefName("${" + n + "}" + x) == n
    ensures ("${" + n + "}" + x)[|n| + 3..] == x
  {
    var s := "${" + n + "}" + x;
    assert s[2..] == n + ("}" + x);
    NameAtIs(n, "}" + x);
  }

  lemma PlainIsNoRef(s: string)
    requires s != "" && Plain(s[0])
    ensures RefLength(s) == 0
  {
  }

  /** Text with its references in braces means the same. */
  lemma {:induction false} EmbracedExpands(s: string, env: Env)
    requires Simple(s)
    ensures Simple(Embraced(s)) && Expand(Embraced(s), env) == Expand(s, env)
    decreases |s|
  {
    hide RefLength, RefName, Plain;
    if s == "" {
    } else if RefLength(s) > 0 {
      RefNotPlain(s);
      RefText(s);
      EmbracedExpands(s[RefLength(s)..], env);
      RefBraced(RefName(s), Embraced(s[RefLength(s)..]));
    } else {
      EmbracedExpands(s[1..], env);
      var e := [s[0]] + Embraced(s[1..]);
      assert e[1..] == Embraced(s[1..]) && e[0] == s[0];
      PlainIsNoRef(e);
    }
  }

  // ---- Whole lines ----

  function Tidy(a: Assign): Assign {
    a.(body := Embraced(a.body))
  }

  lemma BracedText(a: Assign)
    requires WellFormed(a)
    ensures Braced(Text(a), false) == Text(Tidy(a))
  {
    hide Braced, Simple, Embraced, Text;
    var op := if a.append then "+=\"" else "=\"";
    var pre, post := a.indent + a.name + op, "\"" + a.trail;
    TextAround(a, op, a.body);
    TextAround(Tidy(a), op, Embraced(a.body));
    NoDollar(a, op);
    BracedCopies(pre, a.body + post);
    BracedSimple(a.body, post);
    var none := "";
    BracedCopies(post, none);
    BracedNothing();
    assert post + none == post && post + Braced(none, false) == post;
  }

  lemma BracedNothing()
    ensures Braced("", false) == ""
  {
  }

  lemma TextAround(a: Assign, op: string, body: string)
    requires op == (if a.append then "+=\"" else "=\"") && body == a.body
    ensures Text(a) == (a.indent + a.name + op) + (body + ("\"" + a.trail))
  {
  }

  lemma NoDollar(a: Assign, op: string)
    requires WellFormed(a) && op in ["=\"", "+=\""]
    ensures '$' !in a.indent + a.name + op && '$' !in "\"" + a.trail
  {
    hide Simple;
    assert forall c :: c in a.indent ==> Space(c);
    assert forall c :: c in a.name ==> VarChar(c);
    assert forall c :: c in a.trail ==> Space(c);
  }

  lemma ShortenedName(a: Assign)
    ensures Shortened(a).name == a.name
  {
  }

  /** A line can be taken apart in one way only, so its effect is well defined. */
  lemma TextUnique(a: Assign, b: Assign)
    requires WellFormed(a) && WellFormed(b) && Text(a) == Text(b)
    ensures a == b
  {
    hide AllSpace, Simple, Text, Identifier;
    var opA, opB := if a.append then "+=\"" else "=\"", if b.append then "+=\"" else "=\"";
    TextStages(a, opA);
    TextStages(b, opB);
    var x, y := opA + (a.body + "\"" + a.trail), opB + (b.body + "\"" + b.trail);
    assert x[0] == opA[0] && y[0] == opB[0];
    assert opA == opB;
    assert x[|opA|..] == a.body + "\"" + a.trail && y[|opB|..] == b.body + "\"" + b.trail;
    SimpleHasNoQuote(a.body);
    SimpleHasNoQuote(b.body);
    ParseQuotedIs("", "", a.body, a.trail);
    ParseQuotedIs("", "", b.body, b.trail);
  }

  lemma TextStages(a: Assign, op: string)
    requires WellFormed(a) && op == if a.append then "+=\"" else "=\""
    ensures var tail := a.body + "\"" + a.trail;
            var l := a.name + (op + tail);
            SpaceAt(Text(a)) == a.indent && Text(a)[|a.indent|..] == l && NameAt(l) == a.name
              && l[|a.name|..] == op + tail
  {
    hide AllSpace, Simple;
    var tail := a.body + "\"" + a.trail;
    var l := a.name + (op + tail);
    TextIs(a, op, l);
    assert l[0] == a.name[0] && VarChar(l[0]);
    SpaceAtIs(a.indent, l);
    NameAtIs(a.name, op + tail);
  }

  // ---- Fixing twice ----

  /** No dollar sign is directly followed by a variable character. */
  ghost predicate NoBare(s: string) {
    forall i :: 0 <= i < |s| - 1 && s[i] == '$' ==> !VarChar(s[i + 1])
  }

  lemma {:induction false} NoBareStays(s: string)
    requires NoBare(s)
    ensures Braced(s, false) == s
  {
    if s != "" {
      assert forall i :: 0 <= i < |s[1..]| ==> s[1..][i] == s[i + 1];
      NoBareStays(s[1..]);
    }
  }

  lemma NoBareJoin(p: string, q: string)
    requires NoBare(p) && NoBare(q) && (p != "" && q != "" && p[|p| - 1] == '$' ==> !VarChar(q[0]))
    ensures NoBare(p + q)
  {
  }

  lemma {:induction false} BracedLeavesNoBare(s: string, invar: bool)
    requires s != "" && !VarChar(s[|s| - 1])
    ensures NoBare(Braced(s, invar)) && Braced(s, invar) != ""
    ensures !VarChar(s[0]) ==> !VarChar(Braced(s, invar)[0])
    decreases |s|, invar
  {
    hide NoBare;
    var rest := s[1..];
    SmallNoBare(s[0]);
    if !invar && s[0] == '$' && |s| > 1 && VarChar(s[1]) {
      BracedLeavesNoBare(rest, true);
      NoBareJoin("${", Braced(rest, true));
    } else if invar && !VarChar(s[0]) {
      if s[0] == '$' {
        BracedLeavesNoBare(s, false);
        NoBareJoin("}", Braced(s, false));
      } else {
        if rest != "" {
          BracedLeavesNoBare(rest, false);
        }
        NoBareJoin([s[0]], Braced(rest, false));
        NoBareJoin("}", [s[0]] + Braced(rest, false));
      }
    } else {
      if rest != "" {
        BracedLeavesNoBare(rest, invar);
      }
      NoBareJoin([s[0]], Braced(rest, invar));
    }
  }

  lemma SmallNoBare(c: char)
    ensures NoBare("${") && NoBare("}") && NoBare([c]) && NoBare("")
    ensures Braced("", false) == "" && Braced("", true) == ""
  {
  }

  /** Fixing the braces of a complete line a second time changes nothing. */
  lemma BracedTwice(line: string)
    requires line != "" && line[|line| - 1] == '\n'
    ensures Braced(Braced(line, false), false) == Braced(line, false)
  {
    BracedLeavesNoBare(line, false);
    NoBareStays(Braced(line, false));
  }

  // ---- The fixers ----

  /** What has been written and what is still to come make up the fixed line. */
  ghost predicate Scanned(line: string, c: nat, invar: bool, newline: string) {
    c <= |line| && newline + Braced(line[c..], invar) == Braced(line, false)
  }

  lemma ScanStarts(line: string)
    ensures Scanned(line, 0, false, "")
  {
    assert line[0..] == line && "" + Braced(line, false) == Braced(line, false);
  }

  lemma ScanEnds(line: string, invar: bool, newline: string)
    requires Scanned(line, |line|, invar, newline)
    ensures newline == Braced(line, false)
  {
    assert line[|line|..] == "";
    BracedEmpty(invar);
    assert newline + "" == newline;
  }

  lemma BracedEmpty(invar: bool)
    ensures Braced("", invar) == ""
  {
  }

  /** One turn of the scan. */
  lemma ScanStep(line: string, c: nat, invar: bool, newline: string)
    requires Scanned(line, c, invar, newline) && c < |line|
    ensures !invar && line[c] == '$' && c + 1 < |line| && VarChar(line[c + 1]) ==>
            Scanned(line, c + 1, true, newline + [line[c]] + "{")
    ensures invar && !VarChar(line[c]) && line[c] == '$' ==> Scanned(line, c, false, newline + "}")
    ensures invar && !VarChar(line[c]) && line[c] != '$' ==> Scanned(line, c + 1, false, newline + "}" + [line[c]])
    ensures !(!invar && line[c] == '$' && c + 1 < |line| && VarChar(line[c + 1])) && !(invar && !VarChar(line[c])) ==>
            Scanned(line, c + 1, invar, newline + [line[c]])
  {
    var s, rest := line[c..], line[c + 1..];
    assert s[0] == line[c] && s[1..] == rest && (|s| > 1 <==> c + 1 < |line|) && (|s| > 1 ==> s[1] == line[c + 1]);
    BracedUnfolds(s, invar);
    hide Braced;
    Regroup(newline, [line[c]], Braced(rest, invar));
    Regroup(newline, "}", Braced(s, false));
    Regroup(newline + "}", [line[c]], Braced(rest, false));
    Regroup(newline, "}", [line[c]] + Braced(rest, false));
    Regroup(newline, "${", Braced(rest, true));
    Regroup(newline, ['$'], "{");
  }

  lemma BracedUnfolds(s: string, invar: bool)
    requires s != ""
    ensures Braced(s, invar) ==
            if !invar && s[0] == '$' && |s| > 1 && VarChar(s[1]) then "${" + Braced(s[1..], true)
            else if invar && !VarChar(s[0])
                    then "}" + (if s[0] == '$' then Braced(s, false) else [s[0]] + Braced(s[1..], false))
            else [s[0]] + Braced(s[1..], invar)
  {
  }

  predicate InAwk(awk: Option<(nat, nat)>, c: nat) {
    awk.Some? && awk.value.0 <= c <= awk.value.1
  }

  /** The line after fixing braces: an awk program stays as it is, and what is around it is fixed. */
  function Fixed(line: string, awk: Option<(nat, nat)>): string
    requires Quotes(line, awk)
  {
    match awk
    case None => Braced(line, false)
    case Some((start, end)) => Braced(line[..start], false) + line[start..end + 1] + Braced(line[end + 1..], false)
  }

  /** A dollar sign directly before a variable character. */
  predicate BareAt(line: string, awk: Option<(nat, nat)>, c: nat) {
    c + 1 < |line| && line[c] == '$' && VarChar(line[c + 1]) && !InAwk(awk, c)
  }

  function BareCount(line: string, awk: Option<(nat, nat)>, c: nat): nat {
    if c == 0 then 0 else BareCount(line, awk, c - 1) + if BareAt(line, awk, c - 1) then 1 else 0
  }

  lemma {:induction false} BareCounted(line: string, awk: Option<(nat, nat)>, c: nat, k: nat)
    requires k < c && BareAt(line, awk, k)
    ensures BareCount(line, awk, c) > 0
  {
    if k < c - 1 {
      BareCounted(line, awk, c - 1, k);
    }
  }

  /** The field reference of an ordinary awk program is taken for one of the shell, and changed. */
  lemma CommonChanged()
    ensures FindAwk(Common()) == None && BareCount(Common(), FindAwk(Common()), |Common()|) > 0
  {
    hide FindAwk;
    CommonMissed();
    assert Common()[19] == '$' && Common()[20] == '1';
    BareCounted(Common(), None, |Common()|, 19);
  }

  /** How far the scan has come: before, within or behind the awk program. */
  ghost predicate Progress(line: string, awk: Option<(nat, nat)>, c: nat, invar: bool, newline: string)
    requires Quotes(line, awk)
  {
    match awk
    case None => Scanned(line, c, invar, newline)
    case Some((start, end)) =>
      if c < start then Scanned(line[..start], c, invar, newline)
      else if c <= end then !invar && newline == Braced(line[..start], false) + line[start..c]
      else
        var head := Braced(line[..start], false) + line[start..end + 1];
        head <= newline && Scanned(line[end + 1..], c - end - 1, invar, newline[|head|..])
  }

  lemma ProgressStarts(line: string, awk: Option<(nat, nat)>)
    requires Quotes(line, awk)
    ensures Progress(line, awk, 0, false, "")
  {
    hide Braced, Scanned;
    ScanStarts(line);
    if awk.Some? {
      ScanStarts(line[..awk.value.0]);
    }
  }

  lemma ProgressEnds(line: string, awk: Option<(nat, nat)>, invar: bool, newline: string)
    requires Quotes(line, awk) && Progress(line, awk, |line|, invar, newline)
    ensures newline == Fixed(line, awk)
  {
    hide Braced, Scanned;
    match awk
    case None => ScanEnds(line, invar, newline);
    case Some((start, end)) =>
      var head := Braced(line[..start], false) + line[start..end + 1];
      ScanEnds(line[end + 1..], invar, newline[|head|..]);
      assert newline == head + newline[|head|..];
  }

  /** Within the program, characters are copied. */
  lemma CopyStep(line: string, awk: Option<(nat, nat)>, c: nat, invar: bool, newline: string)
    requires Quotes(line, awk) && c < |line| && InAwk(awk, c) && Progress(line, awk, c, invar, newline)
    ensures Progress(line, awk, c + 1, invar, newline + [line[c]])
  {
    hide Braced, Scanned;
    var (start, end) := awk.value;
    var before := Braced(line[..start], false);
    assert line[start..c + 1] == line[start..c] + [line[c]];
    Regroup(before, line[start..c], [line[c]]);
    if c == end {
      ScanStarts(line[end + 1..]);
      assert (newline + [line[c]])[|newline| + 1..] == "";
    }
  }

  /** One turn of the scan outside an awk program, with what it adds. */
  lemma TurnStep(line: string, awk: Option<(nat, nat)>, c: nat, invar: bool, newline: string, c': nat, invar': bool,
                 more: string)
    requires Quotes(line, awk) && c < |line| && !InAwk(awk, c) && Progress(line, awk, c, invar, newline)
    requires Turned(line, c, invar, c', invar', more)
    ensures Progress(line, awk, c', invar', newline + more)
  {
    hide Braced, Scanned, Turned;
    match awk
    case None => ScanTurn(line, c, invar, newline, c', invar', more);
    case Some((start, end)) =>
      if c < start {
        var part := line[..start];
        TurnedWithin(line, part, 0, c, invar, c', invar', more);
        ScanTurn(part, c, invar, newline, c', invar', more);
        if c' == start {
          TurnedQuote(line, c, invar, c', invar', more);
          ScanEnds(part, invar', newline + more);
          assert line[start..start] == "" && Braced(part, false) + "" == Braced(part, false);
        }
      } else {
        var head, part := Braced(line[..start], false) + line[start..end + 1], line[end + 1..];
        TurnedWithin(line, part, end + 1, c, invar, c', invar', more);
        ScanTurn(part, c - end - 1, invar, newline[|head|..], c' - end - 1, invar', more);
        TailGrows(head, newline, more);
      }
  }

  lemma TailGrows(head: string, newline: string, more: string)
    requires head <= newline
    ensures head <= newline + more && (newline + more)[|head|..] == newline[|head|..] + more
  {
  }

  /** What one turn of the scan adds, and where it goes on. */
  predicate Turned(line: string, c: nat, invar: bool, c': nat, invar': bool, more: string)
    requires c < |line|
  {
    if !invar && line[c] == '$' && c + 1 < |line| && VarChar(line[c + 1]) then c' == c + 1 && invar' && more == "${"
    else if invar && !VarChar(line[c]) then
      !invar' && if line[c] == '$' then c' == c && more == "}" else c' == c + 1 && more == "}" + [line[c]]
    else c' == c + 1 && invar' == invar && more == [line[c]]
  }

  lemma ScanTurn(line: string, c: nat, invar: bool, newline: string, c': nat, invar': bool, more: string)
    requires c < |line| && Scanned(line, c, invar, newline) && Turned(line, c, invar, c', invar', more)
    ensures c' <= |line| && Scanned(line, c', invar', newline + more)
  {
    hide Scanned, Braced;
    ScanStep(line, c, invar, newline);
    Regroup(newline, [line[c]], "{");
    Regroup(newline, "}", [line[c]]);
    assert "${" == ['$'] + "{";
  }

  /** A part of a line that ends with a quote, or with the line, is scanned as the line is. */
  lemma TurnedWithin(line: string, part: string, o: nat, c: nat, invar: bool, c': nat, invar': bool, more: string)
    requires o <= c < o + |part| <= |line| && part == line[o..o + |part|]
    requires o + |part| == |line| || part[|part| - 1] in "'\""
    requires Turned(line, c, invar, c', invar', more)
    ensures c' >= o && Turned(part, c - o, invar, c' - o, invar', more)
  {
  }

  lemma TurnedQuote(line: string, c: nat, invar: bool, c': nat, invar': bool, more: string)
    requires c < |line| && line[c] in "'\"" && Turned(line, c, invar, c', invar', more)
    ensures !invar' && c' == c + 1
  {
  }

  // ---- Assignments with an awk program in their text ----

  lemma {:induction false} NameAtCut(x: string, rest: string)
    requires rest != "" && !VarChar(rest[0])
    ensures NameAt(x + rest) == NameAt(x)
  {
    if x == "" {
      assert x + rest == rest;
    } else {
      NameAtCut(x[1..], rest);
      assert (x + rest)[1..] == x[1..] + rest;
    }
  }

  /** A reference ends before a single quote. */
  lemma RefCut(x: string, y: string)
    requires x != ""
    ensures var s := x + ("'" + y);
            RefLength(s) == RefLength(x) && (RefLength(x) > 0 ==> RefName(s) == RefName(x))
  {
    hide Identifier;
    var rest := "'" + y;
    var s := x + rest;
    if |x| == 1 {
      assert s[1..] == rest && s[1] == '\'';
      NoName(rest);
    } else if x[0] == '$' {
      assert s[1..] == x[1..] + rest && s[2..] == x[2..] + rest;
      NameAtCut(x[1..], rest);
      NameAtCut(x[2..], rest);
    }
  }

  lemma NoName(rest: string)
    requires rest != "" && !VarChar(rest[0])
    ensures NameAt(rest) == "" && !Identifier("")
  {
  }

  /** Text can be taken apart at a single quote. */
  lemma {:induction false} QuoteSplits(x: string, y: string, env: Env)
    ensures Simple(x + ("'" + y)) <==> Simple(x) && Simple(y)
    ensures Simple(x) ==> Expand(x + ("'" + y), env) == Expand(x, env) + ("'" + Expand(y, env))
    decreases |x|
  {
    hide RefLength, RefName, Plain;
    var s := x + ("'" + y);
    if x == "" {
      QuoteFirst(s, y);
      assert "" + ("'" + Expand(y, env)) == "'" + Expand(y, env);
    } else {
      RefCut(x, y);
      DollarNotPlain(x);
      QuoteSplits(x[1..], y, env);
      assert s[1..] == x[1..] + ("'" + y);
      if RefLength(x) > 0 {
        var n := RefLength(x);
        QuoteSplits(x[n..], y, env);
        assert s[n..] == x[n..] + ("'" + y);
        Regroup(Value(env, RefName(x)), Expand(x[n..], env), "'" + Expand(y, env));
      } else {
        Regroup([x[0]], Expand(x[1..], env), "'" + Expand(y, env));
      }
    }
  }

  lemma QuoteFirst(s: string, y: string)
    requires s == "" + ("'" + y)
    ensures s[0] == '\'' && s[1..] == y && RefLength(s) == 0 && Plain(s[0])
  {
  }

  lemma DollarNotPlain(x: string)
    requires x != ""
    ensures RefLength(x) > 0 ==> !Plain(x[0])
  {
  }

  /** How long the line is up to the text. */
  function BodyStart(a: Assign): nat {
    |a.indent| + |a.name| + if a.append then 3 else 2
  }

  /** Single quotes are in the text only; there are two double ones, the first of which follows an equals sign. */
  lemma QuotePlaces(a: Assign, k: nat)
    requires WellFormed(a) && k < |Text(a)|
    ensures Text(a)[k] == '\'' ==> 0 <= k - BodyStart(a) < |a.body| && a.body[k - BodyStart(a)] == '\''
    ensures Text(a)[k] == '"' ==> k == BodyStart(a) - 1 || k == BodyStart(a) + |a.body|
    ensures Text(a)[BodyStart(a) - 2] == '='
  {
    SimpleHasNoQuote(a.body);
    hide Simple;
    var o, t := BodyStart(a), Text(a);
    assert k < |a.indent| ==> t[k] == a.indent[k];
    assert |a.indent| <= k < |a.indent| + |a.name| ==> t[k] == a.name[k - |a.indent|];
    assert o <= k < o + |a.body| ==> t[k] == a.body[k - o];
    assert k > o + |a.body| ==> t[k] == a.trail[k - o - |a.body| - 1];
    assert t[o - 2] == '=' && t[o - 1] == '"' && t[o + |a.body|] == '"';
  }

  /** Where a program is found in an assignment, it is between single quotes, in the text. */
  lemma AwkInBody(a: Assign, start: nat, end: nat)
    requires WellFormed(a) && FindAwk(Text(a)) == Some((start, end))
    ensures BodyStart(a) < start <= end < BodyStart(a) + |a.body|
    ensures a.body[start - 1 - BodyStart(a)] == '\'' && a.body[end - BodyStart(a)] == '\''
  {
    hide Text, WellFormed, LastMatch, Matches;
    var line := Text(a);
    var p := if LastMatch(line, Separator, |line|).Some? then Separator
             else if LastMatch(line, Single, |line|).Some? then Single else Double;
    var i := LastMatchFound(line, p, |line|);
    FoundAt(line, p, i, start, end);
    QuotePlaces(a, start - 1);
    QuotePlaces(a, end);
  }

  lemma FoundAt(line: string, p: Pattern, i: nat, start: nat, end: nat)
    requires Matches(line, p, i, start, end)
    ensures 2 <= start <= end < |line| && line[start - 1] == line[end] == Quote(p) && Space(line[start - 2])
  {
  }

  /** The assignment with its references in braces, except those in an awk program. */
  function Tidied(a: Assign): Assign
    requires WellFormed(a)
  {
    match FindAwk(Text(a))
    case None => Tidy(a)
    case Some((start, end)) =>
      AwkInBody(a, start, end);
      var i, j := start - 1 - BodyStart(a), end - BodyStart(a);
      a.(body := Embraced(a.body[..i]) + ("'" + (a.body[i + 1..j] + ("'" + Embraced(a.body[j + 1..])))))
  }

  lemma BodyParts(body: string, i: nat, j: nat)
    requires i < j < |body| && body[i] == body[j] == '\''
    ensures body == body[..i] + ("'" + (body[i + 1..j] + ("'" + body[j + 1..])))
  {
  }

  /** Putting references into braces around a program leaves the meaning of the text. */
  lemma AroundExpands(x: string, v: string, y: string, env: Env)
    requires Simple(x + ("'" + (v + ("'" + y))))
    ensures Simple(x) && Simple(y)
    ensures var t := Embraced(x) + ("'" + (v + ("'" + Embraced(y))));
            Simple(t) && Expand(t, env) == Expand(x + ("'" + (v + ("'" + y))), env)
  {
    hide Simple, Expand, Embraced;
    QuoteSplits(x, v + ("'" + y), env);
    QuoteSplits(v, y, env);
    EmbracedExpands(x, env);
    EmbracedExpands(y, env);
    QuoteSplits(v, Embraced(y), env);
    QuoteSplits(Embraced(x), v + ("'" + Embraced(y)), env);
  }

  /** What is in front of the program, and what is behind it, as the scan leaves them. */
  lemma BracedAround(a: Assign, i: nat, j: nat)
    requires WellFormed(a) && i < j < |a.body| && Simple(a.body[..i]) && Simple(a.body[j + 1..])
    requires a.body[i] == a.body[j] == '\''
    ensures var o, t := BodyStart(a), Text(a);
            && o + |a.body| < |t|
            && Braced(t[..o + i + 1], false) == t[..o] + Embraced(a.body[..i]) + "'"
            && t[o + i + 1..o + j + 1] == a.body[i + 1..j] + "'"
            && Braced(t[o + j + 1..], false) == Embraced(a.body[j + 1..]) + "\"" + a.trail
  {
    hide Braced, Simple, Embraced, Text;
    var op := if a.append then "+=\"" else "=\"";
    var pre, post := a.indent + a.name + op, "\"" + a.trail;
    var o, t := BodyStart(a), Text(a);
    TextAround(a, op, a.body);
    NoDollar(a, op);
    assert t == pre + (a.body + post) && |pre| == o;
    assert t[..o + i + 1] == pre + (a.body[..i] + "'") && t[..o] == pre;
    BracedCopies(pre, a.body[..i] + "'");
    BracedSimple(a.body[..i], "'");
    BracedPlainEnd("'");
    Regroup(pre, Embraced(a.body[..i]), "'");
    MiddlePart(pre, a.body, post, i, j);
    BracedSimple(a.body[j + 1..], post);
    BracedPlainEnd(post);
    Regroup(Embraced(a.body[j + 1..]), "\"", a.trail);
  }

  lemma MiddlePart(pre: string, body: string, post: string, i: nat, j: nat)
    requires i < j < |body|
    ensures var o, t := |pre|, pre + (body + post);
            && t[o + i + 1..o + j + 1] == body[i + 1..j] + [body[j]]
            && t[o + j + 1..] == body[j + 1..] + post
  {
  }

  lemma BracedPlainEnd(p: string)
    requires '$' !in p
    ensures Braced(p, false) == p
  {
    BracedCopies(p, "");
    assert p + "" == p && p + Braced("", false) == p;
  }

  /** What fixing the braces of an assignment yields is the assignment tidied up. */
  lemma FixedText(a: Assign)
    requires WellFormed(a)
    ensures Quotes(Text(a), FindAwk(Text(a)))
    ensures Fixed(Text(a), FindAwk(Text(a))) == Text(Tidied(a))
  {
    hide Braced, Embraced, FindAwk, Text, WellFormed, Quotes;
    FoundQuotes(Text(a));
    match FindAwk(Text(a))
    case None => BracedText(a);
    case Some((start, end)) => FixedAround(a, start, end);
  }

  lemma FixedAround(a: Assign, start: nat, end: nat)
    requires WellFormed(a) && FindAwk(Text(a)) == Some((start, end)) && Quotes(Text(a), Some((start, end)))
    ensures Fixed(Text(a), Some((start, end))) == Text(Tidied(a))
  {
    hide Braced, Simple, Embraced, FindAwk, Text, WellFormed, Quotes, Tidied, Fixed;
    AwkInBody(a, start, end);
    SimpleBody(a);
    var i, j := start - 1 - BodyStart(a), end - BodyStart(a);
    assert Simple(a.body[..i]) && Simple(a.body[j + 1..]) by {
      BodyParts(a.body, i, j);
      AroundExpands(a.body[..i], a.body[i + 1..j], a.body[j + 1..], map[]);
    }
    BracedAround(a, i, j);
    var t, x, v, y := Text(a), Embraced(a.body[..i]), a.body[i + 1..j], Embraced(a.body[j + 1..]);
    FixedPieces(t, start, end, t[..BodyStart(a)] + x + "'", v + "'", y + "\"" + a.trail);
    TidiedIs(a, start, end);
    TidiedText(a, i, j);
  }

  lemma FixedPieces(t: string, start: nat, end: nat, before: string, program: string, after: string)
    requires Quotes(t, Some((start, end)))
    requires start <= end < |t| && Braced(t[..start], false) == before && t[start..end + 1] == program
    requires Braced(t[end + 1..], false) == after
    ensures Fixed(t, Some((start, end))) == before + program + after
  {
    hide Braced, Quotes;
  }

  lemma TidiedIs(a: Assign, start: nat, end: nat)
    requires WellFormed(a) && FindAwk(Text(a)) == Some((start, end))
    ensures BodyStart(a) < start <= end < BodyStart(a) + |a.body|
    ensures var i, j := start - 1 - BodyStart(a), end - BodyStart(a);
            Tidied(a) ==
            a.(body := Embraced(a.body[..i]) + ("'" + (a.body[i + 1..j] + ("'" + Embraced(a.body[j + 1..])))))
  {
    hide WellFormed, FindAwk, Text, Embraced;
    AwkInBody(a, start, end);
  }

  lemma SimpleBody(a: Assign)
    requires WellFormed(a)
    ensures Simple(a.body)
  {
  }

  lemma TidiedText(a: Assign, i: nat, j: nat)
    requires i < j < |a.body| && BodyStart(a) <= |Text(a)|
    ensures var x, y := Embraced(a.body[..i]), Embraced(a.body[j + 1..]);
            Text(a.(body := x + ("'" + (a.body[i + 1..j] + ("'" + y))))) ==
            (Text(a)[..BodyStart(a)] + x + "'") + (a.body[i + 1..j] + "'") + (y + "\"" + a.trail)
  {
    hide Embraced;
    var op := if a.append then "+=\"" else "=\"";
    assert Text(a)[..BodyStart(a)] == a.indent + a.name + op;
  }

  /**
   * A simple assignment on a line of its own, fixed for appends and then for braces, is again an
   * assignment to the same variable, and leaves all variables with the same values as before.
   */
  lemma FixedLineKeepsEffect(a: Assign, env: Env)
    requires WellFormed(a)
    ensures WellFormed(Shortened(a))
    ensures var line, b := Appended(Text(a)), Tidied(Shortened(a));
            && Quotes(line, FindAwk(line)) && Fixed(line, FindAwk(line)) == Text(b) && WellFormed(b)
            && b.name == a.name && Effect(b, env) == Effect(a, env)
  {
    hide AllSpace, Simple, Text, Braced, Appended, Embraced, Expand, Identifier, Shortened, Fixed,
         FindAwk, Quotes, Tidied;
    AppendedText(a);
    ShortenedEffect(a, env);
    ShortenedName(a);
    FixedText(Shortened(a));
    TidiedEffect(Shortened(a), env);
  }

  lemma TidiedEffect(a: Assign, env: Env)
    requires WellFormed(a)
    ensures WellFormed(Tidied(a)) && Tidied(a).name == a.name && Effect(Tidied(a), env) == Effect(a, env)
  {
    hide AllSpace, Simple, Text, Embraced, Expand, Identifier, FindAwk;
    match FindAwk(Text(a))
    case None => EmbracedExpands(a.body, env);
    case Some((start, end)) =>
      AwkInBody(a, start, end);
      var i, j := start - 1 - BodyStart(a), end - BodyStart(a);
      BodyParts(a.body, i, j);
      AroundExpands(a.body[..i], a.body[i + 1..j], a.body[j + 1..], env);
  }

  ghost predicate Occurs(s: string, from: string) {
    exists k :: 0 <= k <= |s| && from <= s[k..]
  }

  /** Replacing something that occurs changes the text. */
  lemma {:induction false} ReplaceDiffers(s: string, from: string, to: string)
    requires from != "" && to != "" && from[0] != to[0] && Occurs(s, from)
    ensures ReplaceAll(s, from, to) != s
  {
    if !(from <= s) {
      var k :| 0 <= k <= |s| && from <= s[k..];
      assert k > 0 && s[1..][k - 1..] == s[k..];
      ReplaceDiffers(s[1..], from, to);
      assert ([s[0]] + ReplaceAll(s[1..], from, to))[1..] == ReplaceAll(s[1..], from, to);
    } else {
      assert (to + ReplaceAll(s[|from|..], from, to))[0] == to[0];
    }
  }

  /** What is to be replaced occurs behind the name of the variable. */
  lemma RefOccurs(line: string, ref: string)
    requires ParseAssign(line).Some? && ref == LeadingRef(ParseAssign(line).value.body)
    ensures ReplaceAll(line, "=\"" + ref, "+=\"") != line
  {
    hide ParseAssign, LeadingRef, ReplaceAll, IsParts;
    var p := ParseAssign(line).value;
    Recognized(line, p);
    RefPrefix(p.body);
    RefInJoined(p, ref);
    assert ("=\"" + ref)[0] == '=';
    ReplaceDiffers(line, "=\"" + ref, "+=\"");
  }

  lemma RefInJoined(p: Parts, ref: string)
    requires ref <= p.body
    ensures Occurs(Joined(p), "=\"" + ref)
  {
    var pre, from := p.indent + p.name, "=\"" + ref;
    var rest := p.body[|ref|..] + "\"" + p.trail;
    assert p.body == ref + p.body[|ref|..];
    assert Joined(p) == pre + (from + rest);
    assert Joined(p)[|pre|..] == from + rest;
  }

  lemma RefPrefix(body: string)
    ensures LeadingRef(body) <= body
  {
    if "${" <= body {
      var n := NameAt(body[2..]);
      if |n| + 2 < |body| && body[|n| + 2] == '}' {
        assert body[..|n| + 3] == "${" + n + "}";
      }
    }
    if "$" <= body {
      assert body[..|NameAt(body[1..])| + 1] == "$" + NameAt(body[1..]);
    }
  }

  /** Counts what has been changed. */
  class Changes {
    var appends: nat
    var braces: nat
    var isdirty: bool

    constructor ()
      ensures appends == 0 && braces == 0 && !isdirty
    {
      appends, braces, isdirty := 0, 0, false;
    }

    method FixAppends(line: string) returns (newline: string)
      modifies this`appends, this`isdirty
      ensures newline == Appended(line)
      ensures appends == old(appends) + if newline != line then 1 else 0
      ensures isdirty <==> old(isdirty) || newline != line
    {
      hide ParseAssign, LeadingRef, EndsWith, ReplaceAll;
      newline := line;
      var p := ParseAssign(line);
      if p.None? || '\\' in line {
        return;
      }
      var ref := LeadingRef(p.value.body);
      var replace := ref == "${" + p.value.name + "}" || ref == "$" + p.value.name;
      if replace && EndsWith(line, ref + "\"\n") {
        replace := false;
      }
      var changes := 0;
      if replace {
        RefOccurs(line, ref);
        newline := ReplaceAll(line, "=\"" + ref, "+=\"");
        changes := changes + 1;
      }
      appends := appends + changes;
      isdirty := isdirty || changes != 0;
    }

    /** Scans the line; every bare reference outside an awk program is changed and counted. */
    method FixBraces(line: string) returns (newline: string)
      modifies this`braces, this`isdirty
      ensures Quotes(line, FindAwk(line)) && newline == Fixed(line, FindAwk(line))
      ensures braces == old(braces) + BareCount(line, FindAwk(line), |line|)
      ensures newline != line <==> BareCount(line, FindAwk(line), |line|) > 0
      ensures isdirty <==> old(isdirty) || newline != line
    {
      hide Braced, Scanned, Progress, Quotes, Fixed, FindAwk;
      var changes, invar, c := 0, false, 0;
      newline := "";
      var awk := FindAwk(line);
      FoundQuotes(line);
      ProgressStarts(line, awk);
      while c < |line|
        invariant c <= |line| && Progress(line, awk, c, invar, newline)
        invariant changes == 0 ==> newline == line[..c] && !invar
        invariant changes == BareCount(line, awk, c) && |newline| >= c + changes
        modifies {}
        decreases |line| - c, invar
      {
        var ch := line[c];
        if awk.Some? && awk.value.0 <= c <= awk.value.1 {
          CopyStep(line, awk, c, invar, newline);
          newline := newline + [ch];
          c := c + 1;
          continue;
        }
        if !invar && ch == '$' && c + 1 < |line| && VarChar(line[c + 1]) {
          TurnStep(line, awk, c, invar, newline, c + 1, true, "${");
          invar := true;
          newline := newline + "${";
          changes := changes + 1;
        } else if invar && !VarChar(ch) {
          ghost var next, more := if ch == '$' then c else c + 1, if ch == '$' then "}" else "}" + [ch];
          TurnStep(line, awk, c, invar, newline, next, false, more);
          Regroup(newline, "}", [ch]);
          invar := false;
          newline := newline + "}";
          if ch == '$' {
            continue;
          }
          newline := newline + [ch];
        } else {
          TurnStep(line, awk, c, invar, newline, c + 1, invar, [ch]);
          newline := newline + [ch];
        }
        c := c + 1;
      }
      ProgressEnds(line, awk, invar, newline);
      assert line[..|line|] == line;
      braces := braces + changes;
      isdirty := isdirty || changes != 0;
    }
  }
}
