/** Pre-parse substitution of `{{path}}` placeholders in access rules. */
module RuleTemplate {
  import opened Wrappers
  import opened FilterParser

  datatype Path = AuthId | AuthEmail | AuthWorkspace

  datatype RuleContext = RuleContext(id: Option<string>, email: Option<string>, workspace: Option<string>) {
    function Get(p: Path): Option<string> {
      match p case AuthId => id case AuthEmail => email case AuthWorkspace => workspace
    }
  }

  datatype TemplateError = Unterminated | UnknownPath(path: string)

  function PathOf(s: string): Option<Path> {
    if s == AUTH_ID then Some(AuthId)
    else if s == AUTH_EMAIL then Some(AuthEmail)
    else if s == AUTH_WORKSPACE then Some(AuthWorkspace)
    else None
  }

  const AUTH_ID := "request.auth.id"
  const AUTH_EMAIL := "request.auth.email"
  const AUTH_WORKSPACE := "request.auth.workspace"

  function TrimEnd(s: string): string {
    if s != "" && IsWhite(s[|s| - 1]) then TrimEnd(s[..|s| - 1]) else s
  }

  function Trim(s: string): string {
    if s != "" && IsWhite(s[0]) then Trim(s[1..]) else TrimEnd(s)
  }

  function HexDigit(n: int): char
    requires 0 <= n < 16
  {
    if n < 10 then ('0' as int + n) as char else ('a' as int + n - 10) as char
  }

  /** A control character written with four hexadecimal digits, the first two of them zero. */
  function ControlEscape(n: nat): (e: string)
    requires n < 0x20
    ensures |e| == 6 && e[0] == '\\'
  {
    "\\u00" + (if n < 16 then ['0', HexDigit(n)] else ['1', HexDigit(n - 16)])
  }

  /** JSON string escapes: the quote, the backslash and the control characters. */
  function EscapeChar(c: char): (e: string)
    ensures NeedsEscape(c) ==> |e| >= 2 && e[0] == '\\'
    ensures !NeedsEscape(c) ==> e == [c]
  {
    if c == '"' then "\\\"" else if c == '\\' then "\\\\"
    else if c == '\n' then "\\n" else if c == '\r' then "\\r" else if c == '\t' then "\\t"
    else if c as int == 8 then "\\b" else if c as int == 12 then "\\f"
    else if c as int < 0x20 then ControlEscape(c as int)
    else [c]
  }

  predicate NeedsEscape(c: char) { c == '"' || c == '\\' || c as int < 0x20 }

  function Escaped(s: string): string {
    if s == "" then "" else EscapeChar(s[0]) + Escaped(s[1..])
  }

  /** The text spliced in for a context value: a JSON string, or `null` if absent. */
  function ValueText(v: Option<string>): string {
    match v case None => "null" case Some(s) => "\"" + Escaped(s) + "\""
  }

  function Resolve(path: string, ctx: RuleContext): Result<string, TemplateError> {
    match PathOf(path)
    case None => Err(UnknownPath(path))
    case Some(p) => Ok(ValueText(ctx.Get(p)))
  }

  /** First position at or after `j` holding `}}`. */
  function CloseAt(t: string, j: nat): (r: Option<nat>)
    requires j <= |t|
    ensures r.Some? ==> j <= r.value && r.value + 2 <= |t|
    decreases |t| - j
  {
    if j + 1 >= |t| then None
    else if t[j] == '}' && t[j + 1] == '}' then Some(j)
    else CloseAt(t, j + 1)
  }

  function Prepend(p: string, r: Result<string, TemplateError>): Result<string, TemplateError> {
    match r case Ok(s) => Ok(p + s) case Err(e) => Err(e)
  }

  /** A resolved placeholder in front of what follows, or its error. */
  function Spliced(text: Result<string, TemplateError>, rest: Result<string, TemplateError>)
    : Result<string, TemplateError>
  {
    match text case Err(e) => Err(e) case Ok(s) => Prepend(s, rest)
  }

  /** What substitution computes, read from left to right over the template alone: spliced text is never looked at
      again. */
  function Subst(t: string, ctx: RuleContext): Result<string, TemplateError>
    decreases |t|
  {
    if t == "" then Ok("")
    else if "{{" <= t then
      match CloseAt(t, 2)
      case None => Err(Unterminated)
      case Some(k) => Spliced(Resolve(Trim(t[2..k]), ctx), Subst(t[k + 2..], ctx))
    else Prepend(t[..1], Subst(t[1..], ctx))
  }

  lemma PrependTwice(a: string, b: string, r: Result<string, TemplateError>)
    ensures Prepend(a, Prepend(b, r)) == Prepend(a + b, r)
  {
    if r.Ok? { assert a + (b + r.value) == a + b + r.value; }
  }

  lemma PrependNone(r: Result<string, TemplateError>)
    ensures Prepend("", r) == r
  {
    if r.Ok? { assert "" + r.value == r.value; }
  }

  lemma CloseAtShift(t: string, i: nat, j: nat)
    requires i <= j <= |t|
    ensures CloseAt(t[i..], j - i) ==
            match CloseAt(t, j) case None => None case Some(k) => Some(k - i)
    decreases |t| - j
  {
    if j + 1 < |t| && !(t[j] == '}' && t[j + 1] == '}') { CloseAtShift(t, i, j + 1); }
  }

  lemma OpensHole(i: string)
    ensures "{{" <= i <==> |i| >= 2 && i[0] == '{' && i[1] == '{'
  {}

  lemma HoleAt(t: string, ctx: RuleContext, i: nat)
    requires i + 1 < |t| && t[i] == '{' && t[i + 1] == '{'
    ensures match CloseAt(t, i + 2)
            case None => Subst(t[i..], ctx) == Err(Unterminated)
            case Some(j) => Subst(t[i..], ctx) == Spliced(Resolve(Trim(t[i + 2..j]), ctx), Subst(t[j + 2..], ctx))
  {
    var s := t[i..];
    HoleShift(t, i, s);
    if CloseAt(t, i + 2).Some? {
      var j := CloseAt(t, i + 2).value;
      HoleHead(s, ctx, j - i, t[i + 2..j], t[j + 2..]);
    }
  }

  lemma HoleShift(t: string, i: nat, s: string)
    requires i + 1 < |t| && t[i] == '{' && t[i + 1] == '{' && s == t[i..]
    ensures "{{" <= s
    ensures match CloseAt(t, i + 2)
            case None => CloseAt(s, 2) == None
            case Some(j) => CloseAt(s, 2) == Some(j - i) && s[2..j - i] == t[i + 2..j] && s[j - i + 2..] == t[j + 2..]
  {
    OpensHole(s);
    CloseAtShift(t, i, i + 2);
  }

  lemma HoleHead(s: string, ctx: RuleContext, k: nat, path: string, rest: string)
    requires "{{" <= s && CloseAt(s, 2) == Some(k) && s[2..k] == path && s[k + 2..] == rest
    ensures Subst(s, ctx) == Spliced(Resolve(Trim(path), ctx), Subst(rest, ctx))
  {}

  lemma CharAt(t: string, ctx: RuleContext, i: nat)
    requires i < |t| && !(i + 1 < |t| && t[i] == '{' && t[i + 1] == '{')
    ensures Subst(t[i..], ctx) == Prepend([t[i]], Subst(t[i + 1..], ctx))
  {
    OpensHole(t[i..]);
    assert t[i..][..1] == [t[i]] && t[i..][1..] == t[i + 1..];
  }

  /** Where the braces opened just before `start` close. */
  method FindClose(template: string, start: nat) returns (close: Option<nat>)
    requires start <= |template|
    ensures close == CloseAt(template, start)
  {
    var j := start;
    while j + 1 < |template| && !(template[j] == '}' && template[j + 1] == '}')
      invariant start <= j <= |template|
      invariant CloseAt(template, start) == CloseAt(template, j)
    {
      j := j + 1;
    }
    return if j + 1 >= |template| then None else Some(j);
  }

  /** The text of the placeholder at `i`, and the position after it. */
  method ReadHole(template: string, ctx: RuleContext, i: nat) returns (r: Result<(string, nat), TemplateError>)
    requires i + 1 < |template| && template[i] == '{' && template[i + 1] == '{'
    ensures r.Err? ==> Subst(template[i..], ctx) == Err(r.error)
    ensures r.Ok? ==> i < r.value.1 <= |template| &&
                      Subst(template[i..], ctx) == Prepend(r.value.0, Subst(template[r.value.1..], ctx))
  {
    var close := FindClose(template, i + 2);
    HoleAt(template, ctx, i);
    if close.None? { return Err(Unterminated); }
    var text := Resolve(Trim(template[i + 2..close.value]), ctx);
    if text.Err? { return Err(text.error); }
    return Ok((text.value, close.value + 2));
  }

  method Substitute(template: string, ctx: RuleContext) returns (r: Result<string, TemplateError>)
    ensures r == Subst(template, ctx)
  {
    var out := "";
    var i := 0;
    Start(template, ctx);
    while i < |template|
      invariant 0 <= i <= |template|
      invariant Subst(template, ctx) == Prepend(out, Subst(template[i..], ctx))
    {
      var text, next := [template[i]], i + 1;
      if i + 1 < |template| && template[i] == '{' && template[i + 1] == '{' {
        var hole := ReadHole(template, ctx, i);
        if hole.Err? { return Err(hole.error); }
        text, next := hole.value.0, hole.value.1;
      } else {
        CharAt(template, ctx, i);
      }
      PrependTwice(out, text, Subst(template[next..], ctx));
      out := out + text;
      i := next;
    }
    Finish(template, ctx, out);
    return Ok(out);
  }

  lemma Start(t: string, ctx: RuleContext)
    ensures Subst(t, ctx) == Prepend("", Subst(t[0..], ctx))
  {
    assert t[0..] == t;
    PrependNone(Subst(t, ctx));
  }

  lemma Finish(t: string, ctx: RuleContext, out: string)
    ensures Prepend(out, Subst(t[|t|..], ctx)) == Ok(out)
  {
    assert t[|t|..] == "" && out + "" == out;
  }
}
