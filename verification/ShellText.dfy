/** Shell assignments of the form NAME="text", and what they do to the variables. */
module ShellText {

  type Env = map<string, string>

  predicate VarChar(c: char) {
    'A' <= c <= 'Z' || 'a' <= c <= 'z' || '0' <= c <= '9' || c == '_'
  }

  predicate Space(c: char) {
    c == ' ' || c == '\t' || c == '\n' || c == '\r' || c == '\U{0B}' || c == '\U{0C}'
  }

  /** The variable characters that a text starts with. */
  function NameAt(s: string): (n: string)
    ensures n <= s && (forall i :: 0 <= i < |n| ==> VarChar(n[i]))
    ensures |n| < |s| ==> !VarChar(s[|n|])
  {
    if s == "" || !VarChar(s[0]) then "" else [s[0]] + NameAt(s[1..])
  }

  predicate Identifier(n: string) {
    n != "" && !('0' <= n[0] <= '9') && forall i :: 0 <= i < |n| ==> VarChar(n[i])
  }

  /** A character that stands for itself between double quotes. */
  predicate Plain(c: char) {
    c != '"' && c != '$' && c != '`' && c != '\\' && c != '\n'
  }

  /** The length of the variable reference that a text starts with; zero if it starts with none. */
  function RefLength(s: string): (n: nat)
    ensures n <= |s|
  {
    if |s| < 2 || s[0] != '$' then 0
    else if s[1] == '{' then
      var n := NameAt(s[2..]);
      if Identifier(n) && |n| + 2 < |s| && s[|n| + 2] == '}' then |n| + 3 else 0
    else
      var n := NameAt(s[1..]);
      if Identifier(n) then |n| + 1 else 0
  }

  function RefName(s: string): string
    requires RefLength(s) > 0
  {
    if s[1] == '{' then NameAt(s[2..]) else NameAt(s[1..])
  }

  /** Text made of characters that stand for themselves and of references $NAME and ${NAME}. */
  predicate Simple(s: string) {
    s == "" || (Plain(s[0]) && Simple(s[1..])) || (RefLength(s) > 0 && Simple(s[RefLength(s)..]))
  }

  function Value(env: Env, name: string): string {
    if name in env then env[name] else ""
  }

  /** What the shell makes of the text. */
  function Expand(s: string, env: Env): string {
    if s == "" then ""
    else if RefLength(s) > 0 then Value(env, RefName(s)) + Expand(s[RefLength(s)..], env)
    else [s[0]] + Expand(s[1..], env)
  }

  /** An assignment line, taken apart; `append` for += in place of =. */
  datatype Assign = Assign(indent: string, name: string, append: bool, body: string, trail: string)

  predicate AllSpace(s: string) {
    forall i :: 0 <= i < |s| ==> Space(s[i])
  }

  function Text(a: Assign): string {
    a.indent + a.name + (if a.append then "+=\"" else "=\"") + a.body + "\"" + a.trail
  }

  predicate WellFormed(a: Assign) {
    && AllSpace(a.indent) && AllSpace(a.trail) && a.trail != "" && a.trail[|a.trail| - 1] == '\n'
    && Identifier(a.name) && Simple(a.body)
  }

  /** What the assignment does to the variables. */
  function Effect(a: Assign, env: Env): Env {
    env[a.name := (if a.append then Value(env, a.name) else "") + Expand(a.body, env)]
  }

  lemma {:induction false} SimpleHasNoQuote(s: string)
    requires Simple(s)
    ensures '"' !in s && '\\' !in s && '\n' !in s
  {
    if s != "" {
      if Plain(s[0]) {
        SimpleHasNoQuote(s[1..]);
        assert s == [s[0]] + s[1..];
      } else {
        var n := RefLength(s);
        SimpleHasNoQuote(s[n..]);
        RefHasNoQuote(s);
        assert s == s[..n] + s[n..];
      }
    }
  }

  lemma RefHasNoQuote(s: string)
    requires RefLength(s) > 0
    ensures '"' !in s[..RefLength(s)] && '\\' !in s[..RefLength(s)] && '\n' !in s[..RefLength(s)]
  {
    var n := RefName(s);
    if s[1] == '{' {
      assert s[..RefLength(s)] == "${" + n + "}";
    } else {
      assert s[..RefLength(s)] == "$" + n;
    }
  }
}
