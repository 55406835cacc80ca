/** Finding a one-line awk program, between quotes, in a shell line: what the three patterns match. */
module ShellAwk {
  import opened Collections
  import opened ShellText

  /** With a separator given as -F'.', with the program in single quotes, and with it in double quotes. */
  datatype Pattern = Separator | Single | Double

  function Quote(p: Pattern): char {
    if p.Double? then '"' else '\''
  }

  /** Where the arguments begin, if the command is at place `i`. */
  function Arguments(line: string, p: Pattern, i: nat): (h: Option<nat>)
    ensures h.Some? ==> i < h.value <= |line|
  {
    if p.Separator? then
      if i + 10 <= |line| && line[i..i + 7] == "awk -F'" && line[i + 7] != '\n' && line[i + 8..i + 10] == "' "
      then Some(i + 10) else None
    else if i + 3 <= |line| && line[i..i + 3] == "awk" then Some(i + 3) else None
  }

  /** What is in front of the command is on the same line, except for white space. */
  predicate SameLine(line: string, i: nat)
    requires i <= |line|
  {
    forall k :: 0 <= k < i && line[k] == '\n' ==> AllSpace(line[k..i])
  }

  /** The next quote from place `k` on, or the end of the line. */
  function NextQuote(line: string, k: nat, q: char): (n: nat)
    requires k <= |line|
    ensures k <= n <= |line| && q !in line[k..n] && (n < |line| ==> line[n] == q)
    decreases |line| - k
  {
    if k == |line| || line[k] == q then k
    else
      var n := NextQuote(line, k + 1, q);
      assert line[k..n] == [line[k]] + line[k + 1..n];
      n
  }

  /** The program, if the pattern matches with the command at place `i`. */
  function MatchAt(line: string, p: Pattern, i: nat): Option<(nat, nat)>
    requires i <= |line|
  {
    var h := Arguments(line, p, i);
    if h.None? || !SameLine(line, i) then None
    else
      var open := NextQuote(line, h.value, Quote(p));
      if open == |line| || open == h.value || !Space(line[open - 1]) then None
      else
        var close := NextQuote(line, open + 1, Quote(p));
        if close == |line| then None else Some((open + 1, close))
  }

  /** The rightmost match, with the command in front of place `n`. */
  function LastMatch(line: string, p: Pattern, n: nat): Option<(nat, nat)>
    requires n <= |line|
  {
    if n == 0 then None
    else
      var m := MatchAt(line, p, n - 1);
      if m.Some? then m else LastMatch(line, p, n - 1)
  }

  /** The first of the patterns that matches decides. */
  function FindAwk(line: string): Option<(nat, nat)> {
    var a, b := LastMatch(line, Separator, |line|), LastMatch(line, Single, |line|);
    if a.Some? then a else if b.Some? then b else LastMatch(line, Double, |line|)
  }

  // ---- What a match is ----

  /**
   * The command at place `i`, other arguments without a quote up to white space, and the program from `start`
   * to `end` between quotes and without one.
   */
  ghost predicate Matches(line: string, p: Pattern, i: nat, start: nat, end: nat) {
    && i <= |line| && SameLine(line, i)
    && var h := Arguments(line, p, i);
       && h.Some? && h.value + 2 <= start <= end < |line|
       && line[start - 1] == line[end] == Quote(p)
       && Space(line[start - 2])
       && Quote(p) !in line[h.value..start - 1] && Quote(p) !in line[start..end]
  }

  lemma QuoteUnique(line: string, k: nat, q: char, n: nat)
    requires k <= n < |line| && line[n] == q && q !in line[k..n]
    ensures NextQuote(line, k, q) == n
  {
    var m := NextQuote(line, k, q);
    if m < n {
      InPart(line, k, n, m);
    } else if n < m {
      InPart(line, k, m, n);
    }
  }

  lemma InPart(line: string, k: nat, n: nat, i: nat)
    requires k <= i < n <= |line|
    ensures line[i] in line[k..n]
  {
    assert line[k..n][i - k] == line[i];
  }

  lemma MatchAtIs(line: string, p: Pattern, i: nat, start: nat, end: nat)
    requires i <= |line|
    ensures MatchAt(line, p, i) == Some((start, end)) <==> Matches(line, p, i, start, end)
  {
    hide Arguments, SameLine;
    if Matches(line, p, i, start, end) {
      var h := Arguments(line, p, i).value;
      QuoteUnique(line, h, Quote(p), start - 1);
      QuoteUnique(line, start, Quote(p), end);
    }
  }

  ghost predicate MatchesAt(line: string, p: Pattern, i: nat) {
    exists start: nat, end: nat :: Matches(line, p, i, start, end)
  }

  /** The pattern matches with the command at place `i`, and nowhere between there and place `n`. */
  ghost predicate Rightmost(line: string, p: Pattern, n: nat, i: nat, start: nat, end: nat) {
    i < n && Matches(line, p, i, start, end) && forall j: nat :: i < j < n ==> !MatchesAt(line, p, j)
  }

  lemma NoMatchAt(line: string, p: Pattern, i: nat)
    requires i <= |line|
    ensures MatchAt(line, p, i) == None <==> !MatchesAt(line, p, i)
  {
    hide MatchAt, Matches;
    var m := MatchAt(line, p, i);
    if m.Some? {
      MatchAtIs(line, p, i, m.value.0, m.value.1);
    } else if start: nat, end: nat :| Matches(line, p, i, start, end) {
      MatchAtIs(line, p, i, start, end);
    }
  }

  lemma {:induction false} LastMatchFound(line: string, p: Pattern, n: nat) returns (i: nat)
    requires n <= |line|
    ensures var m := LastMatch(line, p, n);
            if m.Some? then Rightmost(line, p, n, i, m.value.0, m.value.1)
            else forall j: nat :: j < n ==> !MatchesAt(line, p, j)
  {
    hide MatchAt, Matches, MatchesAt;
    if n == 0 {
      i := 0;
    } else {
      NoMatchAt(line, p, n - 1);
      var m := MatchAt(line, p, n - 1);
      if m.Some? {
        MatchAtIs(line, p, n - 1, m.value.0, m.value.1);
        i := n - 1;
      } else {
        i := LastMatchFound(line, p, n - 1);
      }
    }
  }

  /** A program is found exactly if the pattern matches, and then it is that of the rightmost match. */
  lemma LastMatchIs(line: string, p: Pattern, n: nat, start: nat, end: nat)
    requires n <= |line|
    ensures LastMatch(line, p, n) == Some((start, end)) <==> exists i :: Rightmost(line, p, n, i, start, end)
    ensures LastMatch(line, p, n) == None <==> forall i: nat :: i < n ==> !MatchesAt(line, p, i)
  {
    hide LastMatch, Matches;
    var k := LastMatchFound(line, p, n);
    assert LastMatch(line, p, n).Some? ==> MatchesAt(line, p, k);
    if i :| Rightmost(line, p, n, i, start, end) {
      assert MatchesAt(line, p, i);
      var m := LastMatch(line, p, n);
      assert MatchesAt(line, p, k);
      MatchAtIs(line, p, i, start, end);
      MatchAtIs(line, p, k, m.value.0, m.value.1);
    }
  }

  /** Where an awk program starts and ends, between quotes, if the line has one. */
  predicate Quotes(line: string, awk: Option<(nat, nat)>) {
    awk.Some? ==>
      var (start, end) := awk.value;
      1 <= start <= end < |line| && line[start - 1] in "'\"" && line[end] in "'\""
  }

  lemma {:induction false} LastMatchQuotes(line: string, p: Pattern, n: nat)
    requires n <= |line|
    ensures Quotes(line, LastMatch(line, p, n))
  {
    hide Arguments, SameLine;
    if n > 0 {
      LastMatchQuotes(line, p, n - 1);
    }
  }

  /** What is found is between quotes. */
  lemma FoundQuotes(line: string)
    ensures Quotes(line, FindAwk(line))
  {
    hide LastMatch, Quotes;
    LastMatchQuotes(line, Separator, |line|);
    LastMatchQuotes(line, Single, |line|);
    LastMatchQuotes(line, Double, |line|);
  }

  // ---- A program that is not found ----

  /**
   * With the separator given in quotes, a program that follows after a single space is not found there, by
   * any of the patterns for single quotes: the first wants more white space than its own.
   */
  lemma SeparatorMissed(line: string, i: nat)
    requires i <= |line| && Arguments(line, Separator, i).Some?
    requires var h := Arguments(line, Separator, i).value; h < |line| && line[h] == '\''
    ensures MatchAt(line, Separator, i) == None && MatchAt(line, Single, i) == None
  {
    var h := Arguments(line, Separator, i).value;
    var head := line[i..i + 7];
    assert head[..3] == line[i..i + 3] == "awk";
    assert head[3] == line[i + 3] && head[4] == line[i + 4] && head[5] == line[i + 5] && head[6] == line[i + 6];
    QuoteUnique(line, i + 3, '\'', i + 6);
    QuoteUnique(line, h, '\'', h);
  }

  function Common(): string {
    "awk -F':' '{ print $1 }'\n"
  }

  lemma CommonPlaces(k: nat)
    requires k < |Common()|
    ensures Common()[k] == '\'' ==> k == 6 || k == 8 || k == 10 || k == 23
    ensures Common()[k] != '"' && (Common()[k] == 'a' ==> k == 0)
    ensures Common()[6] == '\'' && Common()[5] == 'F' && Common()[7] == ':' && Common()[22] == '}'
  {
  }

  /** An ordinary line on which no pattern finds the program. */
  lemma CommonMissed()
    ensures FindAwk(Common()) == None
  {
    hide LastMatch, Common;
    var line := Common();
    CommonNowhere(line, Separator);
    CommonNowhere(line, Single);
    CommonNowhere(line, Double);
    LastMatchIs(line, Separator, |line|, 0, 0);
    LastMatchIs(line, Single, |line|, 0, 0);
    LastMatchIs(line, Double, |line|, 0, 0);
  }

  lemma CommonNowhere(line: string, p: Pattern)
    requires line == Common()
    ensures forall i: nat :: !MatchesAt(line, p, i)
  {
    hide Common, Arguments, SameLine;
    forall i: nat, s: nat, e: nat
      ensures !Matches(line, p, i, s, e)
    {
      if Matches(line, p, i, s, e) {
        CommonQuote(line, p, i, s, e);
      }
    }
  }

  /** Any quote that white space precedes has another one between it and the command. */
  lemma CommonQuote(line: string, p: Pattern, i: nat, start: nat, end: nat)
    requires line == Common() && Arguments(line, p, i).Some?
    requires Arguments(line, p, i).value + 2 <= start <= end < |line|
    requires line[start - 1] == line[end] == Quote(p) && Space(line[start - 2])
    ensures Quote(p) in line[Arguments(line, p, i).value..start - 1]
  {
    hide Common;
    var h := Arguments(line, p, i).value;
    CommandFirst(line, p, i);
    CommonPlaces(i);
    CommonPlaces(start - 1);
    CommonPlaces(end);
    InPart(line, h, start - 1, 6);
  }

  lemma CommandFirst(line: string, p: Pattern, i: nat)
    requires Arguments(line, p, i).Some?
    ensures i < |line| && line[i] == 'a' && Arguments(line, p, i).value == i + if p.Separator? then 10 else 3
  {
    assert p.Separator? ==> line[i..i + 7][0] == line[i];
    assert !p.Separator? ==> line[i..i + 3][0] == line[i];
  }
}
