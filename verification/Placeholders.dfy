/** What each placeholder of a rule stands for, told by its text, and what the text spliced in for it means as JSON. */
module Placeholders {
  import opened Wrappers
  import opened FilterParser
  import opened RuleTemplate

  // ---- trimming -----------------------------------------------------------------

  /** The white space that trimming removes: the 25 code points with Unicode's White_Space property. */
  lemma WhiteSpaceIs(c: char)
    ensures IsWhite(c) <==>
            c as int in {9, 10, 11, 12, 13, 32, 133, 160, 5760, 8192, 8193, 8194, 8195, 8196, 8197, 8198, 8199, 8200,
                         8201, 8202, 8232, 8233, 8239, 8287, 12288}
  {
  }

  /** `p` is `core` between white space. */
  ghost predicate Around(p: string, core: string) {
    exists a, b :: Blank(a) && Blank(b) && p == a + core + b
  }

  /** A path as trimming leaves it: no white space at either end. */
  predicate Bare(core: string) { core != "" ==> !IsWhite(core[0]) && !IsWhite(core[|core| - 1]) }

  lemma {:induction false} TrimEndSplits(s: string) returns (b: string)
    ensures Blank(b) && s == TrimEnd(s) + b
    ensures TrimEnd(s) != "" ==> !IsWhite(TrimEnd(s)[|TrimEnd(s)| - 1])
  {
    b := "";
    if s != "" && IsWhite(s[|s| - 1]) {
      b := TrimEndSplits(s[..|s| - 1]);
      b := b + [s[|s| - 1]];
    }
  }

  lemma {:induction false} TrimSplits(s: string) returns (a: string, b: string)
    ensures Blank(a) && Blank(b) && s == a + Trim(s) + b && Bare(Trim(s))
  {
    a := "";
    if s != "" && IsWhite(s[0]) {
      a, b := TrimSplits(s[1..]);
      a := [s[0]] + a;
      assert s == [s[0]] + s[1..];
    } else {
      b := TrimEndSplits(s);
      if Trim(s) != "" { assert Trim(s)[0] == s[0]; }
    }
  }

  lemma {:induction false} TrimEndCore(core: string, b: string)
    requires Bare(core) && Blank(b)
    ensures TrimEnd(core + b) == core
  {
    if b == "" {
      assert core + b == core;
    } else {
      assert (core + b)[..|core + b| - 1] == core + b[..|b| - 1] && IsWhite(b[|b| - 1]);
      TrimEndCore(core, b[..|b| - 1]);
    }
  }

  lemma {:induction false} TrimCore(a: string, core: string, b: string)
    requires Blank(a) && Blank(b) && Bare(core) && core != ""
    ensures Trim(a + core + b) == core
  {
    if a == "" {
      assert a + core + b == core + b;
      TrimEndCore(core, b);
    } else {
      assert (a + core + b)[1..] == a[1..] + core + b && IsWhite(a[0]);
      assert Blank(a[1..]) by { assert forall k | 0 <= k < |a| - 1 :: a[1..][k] == a[k + 1]; }
      TrimCore(a[1..], core, b);
    }
  }

  // ---- one placeholder ----------------------------------------------------------------

  /** The braces that follow `p` are the first closing ones. */
  predicate Closes(p: string) { forall i | 0 <= i < |p| :: !(p[i] == '}' && (p + "}")[i + 1] == '}') }

  lemma {:induction false} FirstClose(t: string, j: nat, k: nat)
    requires j <= k && k + 1 < |t| && t[k] == '}' && t[k + 1] == '}'
    requires forall i | j <= i < k :: !(t[i] == '}' && t[i + 1] == '}')
    ensures CloseAt(t, j) == Some(k)
    decreases k - j
  {
    if j < k { FirstClose(t, j + 1, k); }
  }

  lemma {:induction false} NoClose(t: string, j: nat)
    requires j <= |t| && forall i | j <= i < |t| - 1 :: !(t[i] == '}' && t[i + 1] == '}')
    ensures CloseAt(t, j) == None
    decreases |t| - j
  {
    if j + 1 < |t| { NoClose(t, j + 1); }
  }

  lemma HoleText(p: string, rest: string, ctx: RuleContext)
    requires Closes(p)
    ensures Subst("{{" + p + "}}" + rest, ctx) == Spliced(Resolve(Trim(p), ctx), Subst(rest, ctx))
  {
    var s := "{{" + p + "}}" + rest;
    forall i | 2 <= i < 2 + |p| ensures !(s[i] == '}' && s[i + 1] == '}') {
      assert s[i] == p[i - 2] && s[i + 1] == (p + "}")[i - 1];
    }
    FirstClose(s, 2, 2 + |p|);
    assert s[2..2 + |p|] == p && s[2 + |p| + 2..] == rest;
    HoleHead(s, ctx, 2 + |p|, p, rest);
  }

  /** The value of the requester's field that the path names, for each of the three paths. */
  ghost predicate Names(p: string, ctx: RuleContext, v: Option<string>) {
    || (Around(p, "request.auth.id") && v == ctx.id)
    || (Around(p, "request.auth.email") && v == ctx.email)
    || (Around(p, "request.auth.workspace") && v == ctx.workspace)
  }

  lemma PathsAreBare()
    ensures Bare("request.auth.id") && Bare("request.auth.email") && Bare("request.auth.workspace")
  {
  }

  lemma AroundIsTrim(p: string, core: string)
    requires Bare(core) && core != ""
    ensures Around(p, core) <==> Trim(p) == core
  {
    if Trim(p) == core {
      var a, b := TrimSplits(p);
    }
    forall a, b | Blank(a) && Blank(b) && p == a + core + b ensures Trim(p) == core { TrimCore(a, core, b); }
  }

  /** A placeholder stands for the requester's id, email or workspace as its path says, white space around the path
      ignored; any other path is an error that carries it, and the rest of the rule goes on as it would alone. */
  lemma PlaceholderMeans(p: string, rest: string, ctx: RuleContext)
    requires Closes(p)
    ensures var r := Subst("{{" + p + "}}" + rest, ctx);
            && (forall v | Names(p, ctx, v) :: r == Prepend(ValueText(v), Subst(rest, ctx)))
            && (!(exists v :: Names(p, ctx, v)) ==>
                  r.Err? && r.error.UnknownPath? && Around(p, r.error.path) && Bare(r.error.path))
  {
    HoleText(p, rest, ctx);
    PathsAreBare();
    AroundIsTrim(p, "request.auth.id");
    AroundIsTrim(p, "request.auth.email");
    AroundIsTrim(p, "request.auth.workspace");
    var a, b := TrimSplits(p);
    assert Around(p, Trim(p));
    assert "request.auth.id"[13] == 'i' && "request.auth.email"[13] == 'e' && "request.auth.workspace"[13] == 'w';
    if Trim(p) == "request.auth.id" { assert Names(p, ctx, ctx.id); }
    if Trim(p) == "request.auth.email" { assert Names(p, ctx, ctx.email); }
    if Trim(p) == "request.auth.workspace" { assert Names(p, ctx, ctx.workspace); }
  }

  lemma AroundItself(p: string)
    ensures Around(p, p)
  {
    assert Blank("") && p == "" + p + "";
  }

  lemma Alone(path: string, rule: string, ctx: RuleContext, v: Option<string>)
    requires Names(path, ctx, v) && Closes(path) && rule == "{{" + path + "}}"
    ensures Subst(rule, ctx) == Ok(ValueText(v))
  {
    PlaceholderMeans(path, "", ctx);
    assert rule + "" == rule && ValueText(v) + "" == ValueText(v);
  }

  /** The id is spliced in for the id, and nothing else. */
  lemma IdAlone(ctx: RuleContext)
    ensures Subst("{{request.auth.id}}", ctx) == Ok(ValueText(ctx.id))
  {
    assert "{{request.auth.id}}" == "{{" + "request.auth.id" + "}}";
    AroundItself("request.auth.id");
    Alone("request.auth.id", "{{request.auth.id}}", ctx, ctx.id);
  }

  /** The email is spliced in for the email, and nothing else. */
  lemma EmailAlone(ctx: RuleContext)
    ensures Subst("{{request.auth.email}}", ctx) == Ok(ValueText(ctx.email))
  {
    assert "{{request.auth.email}}" == "{{" + "request.auth.email" + "}}";
    AroundItself("request.auth.email");
    Alone("request.auth.email", "{{request.auth.email}}", ctx, ctx.email);
  }

  /** The workspace is spliced in for the workspace, and nothing else. */
  lemma WorkspaceAlone(ctx: RuleContext)
    ensures Subst("{{request.auth.workspace}}", ctx) == Ok(ValueText(ctx.workspace))
  {
    assert "{{request.auth.workspace}}" == "{{" + "request.auth.workspace" + "}}";
    AroundItself("request.auth.workspace");
    Alone("request.auth.workspace", "{{request.auth.workspace}}", ctx, ctx.workspace);
  }

  /** A rule in which some braces never close is an error, whatever precedes them. */
  lemma UnclosedFails(p: string, ctx: RuleContext)
    requires forall i | 0 <= i < |p| - 1 :: !(p[i] == '}' && p[i + 1] == '}')
    ensures Subst("{{" + p, ctx) == Err(Unterminated)
  {
    var s := "{{" + p;
    forall i | 2 <= i < |s| - 1 ensures !(s[i] == '}' && s[i + 1] == '}') {
      assert s[i] == p[i - 2] && s[i + 1] == p[i - 1];
    }
    NoClose(s, 2);
  }

  // ---- the spliced text -----------------------------------------------------------------

  function HexValue(c: char): Option<nat> {
    if '0' <= c <= '9' then Some(c as int - 48)
    else if 'a' <= c <= 'f' then Some(c as int - 87)
    else if 'A' <= c <= 'F' then Some(c as int - 55)
    else None
  }

  /** The character written as `\u` and four hexadecimal digits, surrogates aside. */
  function Unicode(t: string): Option<char>
    requires |t| == 4
  {
    match (HexValue(t[0]), HexValue(t[1]), HexValue(t[2]), HexValue(t[3]))
    case (Some(a), Some(b), Some(c), Some(d)) =>
      var n := 4096 * a + 256 * b + 16 * c + d;
      if 0xD800 <= n < 0xE000 || n > 0xFFFF then None else Some(n as char)
    case _ => None
  }

  /** The character of a two-character escape, by section 7 of RFC 8259. */
  function Simple(c: char): Option<char> {
    if c == '"' || c == '\\' || c == '/' then Some(c)
    else if c == 'b' then Some(8 as char) else if c == 'f' then Some(12 as char)
    else if c == 'n' then Some(10 as char) else if c == 'r' then Some(13 as char) else if c == 't' then Some(9 as char)
    else None
  }

  /** The first character written in the contents of a JSON string, and the length of its spelling. */
  function FirstChar(t: string): Option<(char, nat)>
    requires t != ""
  {
    if t[0] == '"' || t[0] as int < 0x20 then None
    else if t[0] != '\\' then Some((t[0], 1))
    else if |t| < 2 then None
    else if t[1] == 'u' then
      if |t| >= 6 && Unicode(t[2..6]).Some? then Some((Unicode(t[2..6]).value, 6)) else None
    else if Simple(t[1]).Some? then Some((Simple(t[1]).value, 2)) else None
  }

  /** The string that the contents of a JSON string stand for, by section 7 of RFC 8259. */
  function Unescaped(t: string): Option<string> {
    if t == "" then Some("")
    else match FirstChar(t)
      case None => None
      case Some((c, n)) =>
        if n > |t| || n == 0 then None
        else match Unescaped(t[n..])
          case None => None
          case Some(s) => Some([c] + s)
  }

  lemma ControlReads(n: nat)
    requires n < 0x20
    ensures Unicode(ControlEscape(n)[2..6]) == Some(n as char) && ControlEscape(n)[1] == 'u'
  {
    var e := ControlEscape(n);
    assert e[2..6] == [e[2], e[3], e[4], e[5]];
    assert e[2] == '0' && e[3] == '0' && e[4] == (if n < 16 then '0' else '1');
    assert e[5] == HexDigit(if n < 16 then n else n - 16);
  }

  lemma EscapeReads(c: char, rest: string)
    ensures FirstChar(EscapeChar(c) + rest) == Some((c, |EscapeChar(c)|))
    ensures (EscapeChar(c) + rest)[|EscapeChar(c)|..] == rest
  {
    var e := EscapeChar(c);
    var t := e + rest;
    assert t[..|e|] == e;
    if c as int < 0x20 && |e| == 6 {
      ControlReads(c as int);
      assert t[2..6] == e[2..6];
    }
  }

  /** The escape of a value is JSON for exactly that value. */
  lemma {:induction false} EscapedReadsBack(s: string)
    ensures Unescaped(Escaped(s)) == Some(s)
  {
    if s != "" {
      EscapeReads(s[0], Escaped(s[1..]));
      EscapedReadsBack(s[1..]);
      assert [s[0]] + s[1..] == s;
    }
  }

  /** A control character without a short form is written with four lower-case hexadecimal digits. */
  lemma ControlsAreLowerCase(c: char)
    requires c as int < 0x20 && c as int !in {8, 9, 10, 12, 13}
    ensures var e := EscapeChar(c);
            && |e| == 6 && e[..2] == "\\u" && Unicode(e[2..]) == Some(c)
            && forall i | 2 <= i < 6 :: '0' <= e[i] <= '9' || 'a' <= e[i] <= 'f'
  {
    ControlReads(c as int);
    var e := EscapeChar(c);
    assert e[2..] == e[2..6];
  }

  lemma SpellingLength(t: string)
    requires t != "" && FirstChar(t).Some?
    ensures var (c, n) := FirstChar(t).value; n <= |t| && n >= |EscapeChar(c)|
  {
  }

  /** No JSON spelling of the value is shorter: only what must be escaped is, and in the short form where there is
      one. */
  lemma {:induction false} EscapedIsShortest(t: string, s: string)
    requires Unescaped(t) == Some(s)
    ensures |t| >= |Escaped(s)|
  {
    if t != "" {
      var (c, n) := FirstChar(t).value;
      SpellingLength(t);
      EscapedIsShortest(t[n..], Unescaped(t[n..]).value);
      assert s[1..] == Unescaped(t[n..]).value;
    }
  }

  /** What is spliced in is `null` for an absent value, and otherwise a quoted JSON string for the value itself. */
  lemma ValueTextMeans(v: Option<string>)
    ensures v.None? ==> ValueText(v) == "null"
    ensures v.Some? ==>
              var t := ValueText(v);
              && |t| >= 2 && t[0] == '"' && t[|t| - 1] == '"' && Unescaped(t[1..|t| - 1]) == v
              && forall u | Unescaped(u) == v :: |u| + 2 >= |t|
  {
    if v.Some? {
      EscapedReadsBack(v.value);
      assert ("\"" + Escaped(v.value) + "\"")[1..|Escaped(v.value)| + 1] == Escaped(v.value);
      forall u | Unescaped(u) == v ensures |u| >= |Escaped(v.value)| { EscapedIsShortest(u, v.value); }
    }
  }
}
