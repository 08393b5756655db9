/** Media types as written in a `content-type` header value:
    `type "/" subtype *( OWS ";" OWS parameter )` (section 3.1.1.1 of RFC 7231,
    where a parameter follows every `;`),
    where a subtype may end in a structured-syntax suffix `+suffix`
    (section 4.2.8 of RFC 6838). Parameter values are tokens; quoted
    values are not modelled. */
module MediaTypes {
  import opened Wrappers
  import Http

  /** `tchar` of section 5.6.2 of RFC 9110. */
  predicate IsTokenChar(c: char) {
    || ('a' <= c <= 'z') || ('A' <= c <= 'Z') || ('0' <= c <= '9')
    || c == '!' || c == '#' || c == '$' || c == '%' || c == '&' || c == '\''
    || c == '*' || c == '+' || c == '-' || c == '.' || c == '^' || c == '_'
    || c == '`' || c == '|' || c == '~'
  }

  /** Optional whitespace, `OWS` of section 5.6.3 of RFC 9110. */
  predicate IsOwsChar(c: char) {
    c == ' ' || c == '\t'
  }

  predicate IsToken(s: string) {
    |s| > 0 && forall c | c in s :: IsTokenChar(c)
  }

  predicate IsOws(s: string) {
    forall c | c in s :: IsOwsChar(c)
  }

  /** Length of the longest prefix of `s` whose characters all satisfy `p`. */
  function Span(s: string, p: char -> bool): (n: nat)
    ensures n <= |s|
    ensures forall i :: 0 <= i < n ==> p(s[i])
    ensures n < |s| ==> !p(s[n])
  {
    if |s| == 0 || !p(s[0]) then 0 else 1 + Span(s[1..], p)
  }

  /** The span of a prefix all of whose characters satisfy `p`, followed by
      the end or by a character that does not, is exactly that prefix. */
  lemma {:induction false} SpanOfPrefix(pre: string, rest: string, p: char -> bool)
    requires forall c | c in pre :: p(c)
    requires rest == [] || !p(rest[0])
    ensures Span(pre + rest, p) == |pre|
  {
    if pre == [] {
      assert pre + rest == rest;
    } else {
      assert p(pre[0]);
      assert (pre + rest)[1..] == pre[1..] + rest;
      SpanOfPrefix(pre[1..], rest, p);
    }
  }

  /** Position of the last occurrence of `c` in `s`, if any. */
  function LastIndexOf(s: string, c: char): (r: Option<nat>)
    ensures r.None? <==> c !in s
    ensures r.Some? ==> r.value < |s| && s[r.value] == c && c !in s[r.value + 1..]
  {
    if |s| == 0 then None
    else if s[|s| - 1] == c then Some(|s| - 1)
    else
      var r := LastIndexOf(s[..|s| - 1], c);
      assert s == s[..|s| - 1] + [s[|s| - 1]];
      r
  }

  datatype Parameter = Parameter(name: string, value: string)

  /** A parsed media type. `sub` is the whole subtype token as written,
      suffix included. */
  datatype MediaType = MediaType(top: string, sub: string, params: seq<Parameter>)

  /** The subtype without its structured-syntax suffix: the part of `sub`
      before its last `+`, or all of `sub` when there is no `+`. */
  function SubtypeName(m: MediaType): (r: string)
    ensures '+' !in m.sub ==> r == m.sub
    ensures '+' in m.sub ==> r + "+" + SuffixOf(m).value == m.sub
  {
    match LastIndexOf(m.sub, '+')
    case None => m.sub
    case Some(k) => m.sub[..k]
  }

  /** The structured-syntax suffix: the part of `sub` after its last `+`. */
  function SuffixOf(m: MediaType): (r: Option<string>)
    ensures r.None? <==> '+' !in m.sub
    ensures r.Some? ==> '+' !in r.value && |r.value| < |m.sub|
    ensures r.Some? ==> m.sub[|m.sub| - |r.value| - 1..] == "+" + r.value
  {
    match LastIndexOf(m.sub, '+')
    case None => None
    case Some(k) => Some(m.sub[k + 1..])
  }

  /** The CBOR family: `application/cbor` (section 9.3 of RFC 8949) or any
      `application` subtype with the `+cbor` suffix (section 9.5 of RFC 8949). */
  predicate IsCbor(m: MediaType) {
    m.top == "application" && (SubtypeName(m) == "cbor" || SuffixOf(m) == Some("cbor"))
  }

  predicate WellFormed(m: MediaType) {
    && IsToken(m.top)
    && IsToken(m.sub)
    && TokenParams(m.params)
  }

  /** Drops leading optional whitespace. */
  function SkipOws(s: string): (r: string)
    ensures |r| <= |s|
  {
    s[Span(s, IsOwsChar)..]
  }

  /** Reads a non-empty token and the rest of the input after it. */
  function TakeToken(s: string): (r: Option<(string, string)>)
    ensures r.Some? ==> |r.value.1| < |s|
  {
    var n := Span(s, IsTokenChar);
    if n == 0 then None else Some((s[..n], s[n..]))
  }

  /** Reads a non-empty token that `delim` ends, and the rest after `delim`. */
  function TakeTokenThen(s: string, delim: char): (r: Option<(string, string)>)
    ensures r.Some? ==> |r.value.1| < |s|
  {
    match TakeToken(s)
    case None => None
    case Some((tok, rest)) =>
      if rest == [] || rest[0] != delim then None else Some((tok, rest[1..]))
  }

  /** Reads the separator `OWS ";" OWS` and returns what follows it. */
  function TakeSeparator(s: string): (r: Option<string>)
    ensures r.Some? ==> |r.value| < |s|
  {
    var a := SkipOws(s);
    if a == [] || a[0] != ';' then None else Some(SkipOws(a[1..]))
  }

  /** Reads one `OWS ";" OWS name "=" value` and the rest of the input after it. */
  function TakeParameter(s: string): (r: Option<(Parameter, string)>)
    ensures r.Some? ==> |r.value.1| < |s|
  {
    match TakeSeparator(s)
    case None => None
    case Some(a) =>
      match TakeTokenThen(a, '=')
      case None => None
      case Some((name, r1)) =>
        match TakeToken(r1)
        case None => None
        case Some((value, r2)) => Some((Parameter(name, value), r2))
  }

  /** Parses `*( OWS ";" OWS parameter )` up to the end of `s`. */
  function ParseParams(s: string): Option<seq<Parameter>>
    decreases |s|
  {
    if s == [] then Some([])
    else
      match TakeParameter(s)
      case None => None
      case Some((p, rest)) =>
        match ParseParams(rest)
        case None => None
        case Some(ps) => Some([p] + ps)
  }

  /** Parses a header value as a media type; `None` when it does not follow the grammar. */
  function Parse(s: string): Option<MediaType> {
    match TakeTokenThen(s, '/')
    case None => None
    case Some((top, r1)) =>
      match TakeToken(r1)
      case None => None
      case Some((sub, r2)) =>
        match ParseParams(r2)
        case None => None
        case Some(ps) => Some(MediaType(top, sub, ps))
  }

  lemma SkipOwsOf(ws: string, rest: string)
    requires IsOws(ws) && (rest == [] || !IsOwsChar(rest[0]))
    ensures SkipOws(ws + rest) == rest
  {
    SpanOfPrefix(ws, rest, IsOwsChar);
    assert (ws + rest)[|ws|..] == rest;
  }

  lemma TakeTokenOf(tok: string, rest: string)
    requires IsToken(tok) && (rest == [] || !IsTokenChar(rest[0]))
    ensures TakeToken(tok + rest) == Some((tok, rest))
  {
    SpanOfPrefix(tok, rest, IsTokenChar);
    assert (tok + rest)[..|tok|] == tok;
    assert (tok + rest)[|tok|..] == rest;
  }

  lemma TakeTokenThenOf(tok: string, delim: char, rest: string)
    requires IsToken(tok) && !IsTokenChar(delim)
    ensures TakeTokenThen(tok + [delim] + rest, delim) == Some((tok, rest))
  {
    assert tok + [delim] + rest == tok + ([delim] + rest);
    TakeTokenOf(tok, [delim] + rest);
    assert ([delim] + rest)[1..] == rest;
  }

  /** The whitespace written before and after one `;` separator. */
  datatype Gap = Gap(before: string, after: string)

  predicate Spaced(gaps: seq<Gap>) {
    forall i :: 0 <= i < |gaps| ==> IsOws(gaps[i].before) && IsOws(gaps[i].after)
  }

  /** Writes a media type out, with `gaps[i]` around the `;` before parameter `i`. */
  function Render(m: MediaType, gaps: seq<Gap>): string
    requires |gaps| == |m.params|
  {
    m.top + "/" + m.sub + RenderParams(m.params, gaps)
  }

  function RenderParams(ps: seq<Parameter>, gaps: seq<Gap>): string
    requires |gaps| == |ps|
  {
    if ps == [] then "" else RenderParam(gaps[0], ps[0]) + RenderParams(ps[1..], gaps[1..])
  }

  function RenderParam(g: Gap, p: Parameter): string {
    g.before + ";" + g.after + p.name + "=" + p.value
  }

  /** Rendered parameters start with whitespace or `;`, never with a token character. */
  lemma {:induction false} RenderParamsStart(ps: seq<Parameter>, gaps: seq<Gap>)
    requires |gaps| == |ps| && Spaced(gaps)
    ensures var s := RenderParams(ps, gaps); s == [] || !IsTokenChar(s[0])
  {
    if ps != [] {
      var g := gaps[0];
      var tail := ";" + g.after + ps[0].name + "=" + ps[0].value + RenderParams(ps[1..], gaps[1..]);
      assert RenderParams(ps, gaps) == g.before + tail;
      if |g.before| > 0 {
        assert IsOwsChar(g.before[0]);
      }
    }
  }

  /** The separator before a parameter is read whatever whitespace surrounds its `;`. */
  lemma TakeSeparatorOf(g: Gap, rest: string)
    requires IsOws(g.before) && IsOws(g.after)
    requires rest == [] || !IsOwsChar(rest[0])
    ensures TakeSeparator(g.before + ";" + g.after + rest) == Some(rest)
  {
    var s1 := g.after + rest;
    assert g.before + ";" + g.after + rest == g.before + ([';'] + s1);
    SkipOwsOf(g.before, [';'] + s1);
    assert ([';'] + s1)[1..] == s1;
    SkipOwsOf(g.after, rest);
  }

  /** The separator in front of a rendered parameter is read up to the parameter's name. */
  lemma TakeSeparatorOfParam(g: Gap, p: Parameter, tail: string)
    requires IsOws(g.before) && IsOws(g.after) && IsToken(p.name)
    ensures TakeSeparator(RenderParam(g, p) + tail) == Some(p.name + ['='] + (p.value + tail))
  {
    var s2 := p.name + ['='] + (p.value + tail);
    assert RenderParam(g, p) + tail == g.before + ";" + g.after + s2;
    assert IsTokenChar(s2[0]);
    TakeSeparatorOf(g, s2);
  }

  /** One step of the parameter parser: a parameter written with whitespace
      around its `;` is read, and parsing continues right after its value. */
  lemma TakeParameterOf(g: Gap, p: Parameter, tail: string)
    requires IsOws(g.before) && IsOws(g.after)
    requires IsToken(p.name) && IsToken(p.value)
    requires tail == [] || !IsTokenChar(tail[0])
    ensures TakeParameter(RenderParam(g, p) + tail) == Some((p, tail))
  {
    TakeSeparatorOfParam(g, p, tail);
    TakeTokenThenOf(p.name, '=', p.value + tail);
    TakeTokenOf(p.value, tail);
    TakeParameterSteps(RenderParam(g, p) + tail, p.name + ['='] + (p.value + tail), p.name, p.value + tail, p.value, tail);
  }

  lemma TakeParameterSteps(s: string, a: string, name: string, r1: string, value: string, r2: string)
    requires TakeSeparator(s) == Some(a)
    requires TakeTokenThen(a, '=') == Some((name, r1))
    requires TakeToken(r1) == Some((value, r2))
    ensures TakeParameter(s) == Some((Parameter(name, value), r2))
  {
  }

  lemma SpacedTail(gaps: seq<Gap>)
    requires |gaps| > 0 && Spaced(gaps)
    ensures Spaced(gaps[1..])
  {
    forall i | 0 <= i < |gaps| - 1
      ensures IsOws(gaps[1..][i].before) && IsOws(gaps[1..][i].after)
    {
      assert gaps[1..][i] == gaps[i + 1];
    }
  }

  predicate TokenParams(ps: seq<Parameter>) {
    forall i :: 0 <= i < |ps| ==> IsToken(ps[i].name) && IsToken(ps[i].value)
  }

  lemma TokenParamsTail(ps: seq<Parameter>)
    requires |ps| > 0 && TokenParams(ps)
    ensures TokenParams(ps[1..]) && IsToken(ps[0].name) && IsToken(ps[0].value)
  {
    forall i | 0 <= i < |ps| - 1
      ensures IsToken(ps[1..][i].name) && IsToken(ps[1..][i].value)
    {
      assert ps[1..][i] == ps[i + 1];
    }
  }

  /** The parameter parser reads one parameter, then parses the rest. */
  lemma ParseParamsCons(s: string, p: Parameter, rest: string)
    requires TakeParameter(s) == Some((p, rest))
    ensures ParseParams(s) == match ParseParams(rest)
                              case None => None
                              case Some(ps) => Some([p] + ps)
  {
  }

  /** One step of parsing rendered parameters: the first comes back, and
      parsing goes on with the rendering of the rest. */
  lemma ParseRenderParamsStep(ps: seq<Parameter>, gaps: seq<Gap>)
    requires ps != [] && |gaps| == |ps| && Spaced(gaps) && TokenParams(ps)
    ensures ParseParams(RenderParams(ps, gaps)) == match ParseParams(RenderParams(ps[1..], gaps[1..]))
                                                   case None => None
                                                   case Some(qs) => Some([ps[0]] + qs)
  {
    var tail := RenderParams(ps[1..], gaps[1..]);
    RenderParamsStart(ps[1..], gaps[1..]);
    TakeParameterOf(gaps[0], ps[0], tail);
    ParseParamsCons(RenderParam(gaps[0], ps[0]) + tail, ps[0], tail);
  }

  /** Parsing rendered parameters gives them back, whatever the whitespace. */
  lemma {:induction false} ParseRenderParams(ps: seq<Parameter>, gaps: seq<Gap>)
    requires |gaps| == |ps| && Spaced(gaps) && TokenParams(ps)
    ensures ParseParams(RenderParams(ps, gaps)) == Some(ps)
  {
    if ps != [] {
      ParseRenderParamsStep(ps, gaps);
      SpacedTail(gaps);
      TokenParamsTail(ps);
      ParseRenderParams(ps[1..], gaps[1..]);
      assert [ps[0]] + ps[1..] == ps;
    }
  }

  /** Parsing a rendered well-formed media type gives it back, whatever
      whitespace surrounds each `;`. */
  lemma ParseRender(m: MediaType, gaps: seq<Gap>)
    requires WellFormed(m) && |gaps| == |m.params| && Spaced(gaps)
    ensures Parse(Render(m, gaps)) == Some(m)
  {
    var tail := RenderParams(m.params, gaps);
    assert Render(m, gaps) == m.top + ['/'] + (m.sub + tail);
    TakeTokenThenOf(m.top, '/', m.sub + tail);
    RenderParamsStart(m.params, gaps);
    TakeTokenOf(m.sub, tail);
    ParseRenderParams(m.params, gaps);
  }

  lemma SkipOwsSplits(s: string) returns (ws: string)
    ensures IsOws(ws) && s == ws + SkipOws(s)
  {
    var n := Span(s, IsOwsChar);
    ws := s[..n];
    assert s == ws + s[n..];
  }

  lemma TakeTokenSplits(s: string)
    requires TakeToken(s).Some?
    ensures var (tok, rest) := TakeToken(s).value; IsToken(tok) && s == tok + rest
  {
    var n := Span(s, IsTokenChar);
    assert s == s[..n] + s[n..];
  }

  lemma TakeTokenThenSplits(s: string, delim: char)
    requires TakeTokenThen(s, delim).Some?
    ensures var (tok, rest) := TakeTokenThen(s, delim).value; IsToken(tok) && s == tok + [delim] + rest
  {
    TakeTokenSplits(s);
    var (tok, rest) := TakeToken(s).value;
    assert rest == [delim] + rest[1..];
  }

  lemma JoinSeparator(s: string, before: string, a: string, after: string, r: string)
    requires s == before + a && |a| > 0 && a[0] == ';' && a[1..] == after + r
    ensures s == before + ";" + after + r
  {
    assert a == [';'] + (after + r);
  }

  lemma TakeSeparatorSplits(s: string) returns (g: Gap)
    requires TakeSeparator(s).Some?
    ensures IsOws(g.before) && IsOws(g.after)
    ensures s == g.before + ";" + g.after + TakeSeparator(s).value
  {
    var before := SkipOwsSplits(s);
    var a := SkipOws(s);
    var after := SkipOwsSplits(a[1..]);
    g := Gap(before, after);
    JoinSeparator(s, before, a, after, TakeSeparator(s).value);
  }

  lemma TakeParameterParts(s: string) returns (a: string, r1: string)
    requires TakeParameter(s).Some?
    ensures var (p, rest) := TakeParameter(s).value;
            && TakeSeparator(s) == Some(a)
            && TakeTokenThen(a, '=') == Some((p.name, r1))
            && TakeToken(r1) == Some((p.value, rest))
  {
    a := TakeSeparator(s).value;
    r1 := TakeTokenThen(a, '=').value.1;
  }

  lemma JoinParameter(s: string, g: Gap, a: string, p: Parameter, r1: string, r2: string)
    requires s == g.before + ";" + g.after + a
    requires a == p.name + ['='] + r1 && r1 == p.value + r2
    ensures s == RenderParam(g, p) + r2
  {
  }

  lemma TakeParameterSplits(s: string) returns (g: Gap)
    requires TakeParameter(s).Some?
    ensures var (p, rest) := TakeParameter(s).value;
            && IsOws(g.before) && IsOws(g.after)
            && IsToken(p.name) && IsToken(p.value)
            && s == RenderParam(g, p) + rest
  {
    var (p, rest) := TakeParameter(s).value;
    var a, r1 := TakeParameterParts(s);
    g := TakeSeparatorSplits(s);
    TakeTokenThenSplits(a, '=');
    TakeTokenSplits(r1);
    JoinParameter(s, g, a, p, r1, rest);
  }

  /** Every parameter list the parser accepts is a rendering of what it returns. */
  lemma {:induction false} ParseParamsComplete(s: string) returns (gaps: seq<Gap>)
    requires ParseParams(s).Some?
    ensures var ps := ParseParams(s).value;
            && |gaps| == |ps| && Spaced(gaps)
            && TokenParams(ps)
            && s == RenderParams(ps, gaps)
    decreases |s|
  {
    if s == [] {
      gaps := [];
    } else {
      var g := TakeParameterSplits(s);
      var (p, rest) := TakeParameter(s).value;
      ParseParamsCons(s, p, rest);
      var more := ParseParamsComplete(rest);
      gaps := [g] + more;
      var ps := ParseParams(s).value;
      assert ps == [p] + ParseParams(rest).value;
      assert ps[1..] == ParseParams(rest).value;
      assert gaps[1..] == more;
    }
  }

  /** Every header value the parser accepts is a rendering of the media type
      it returns, with some whitespace around each `;`. */
  lemma ParseComplete(s: string) returns (gaps: seq<Gap>)
    requires Parse(s).Some?
    ensures var m := Parse(s).value;
            WellFormed(m) && |gaps| == |m.params| && Spaced(gaps) && s == Render(m, gaps)
  {
    TakeTokenThenSplits(s, '/');
    var (top, r1) := TakeTokenThen(s, '/').value;
    TakeTokenSplits(r1);
    var (sub, r2) := TakeToken(r1).value;
    gaps := ParseParamsComplete(r2);
    var m := Parse(s).value;
    assert m == MediaType(top, sub, ParseParams(r2).value);
    assert s == Render(m, gaps);
  }

  lemma TokenVisible(s: string)
    requires IsToken(s)
    ensures Http.IsVisibleText(s)
  {
    forall i | 0 <= i < |s| ensures ' ' <= s[i] <= '~' {
      assert s[i] in s;
    }
  }

  lemma OwsVisible(s: string)
    requires IsOws(s)
    ensures Http.IsVisibleText(s)
  {
    forall i | 0 <= i < |s| ensures s[i] == '\t' || s[i] == ' ' {
      assert s[i] in s;
    }
  }

  lemma {:induction false} RenderParamsVisible(ps: seq<Parameter>, gaps: seq<Gap>)
    requires |gaps| == |ps| && Spaced(gaps) && TokenParams(ps)
    ensures Http.IsVisibleText(RenderParams(ps, gaps))
  {
    if ps != [] {
      var g, p := gaps[0], ps[0];
      SpacedTail(gaps);
      TokenParamsTail(ps);
      RenderParamsVisible(ps[1..], gaps[1..]);
      OwsVisible(g.before);
      OwsVisible(g.after);
      TokenVisible(p.name);
      TokenVisible(p.value);
      Http.VisibleConcat(g.before, ";");
      Http.VisibleConcat(g.before + ";", g.after);
      Http.VisibleConcat(g.before + ";" + g.after, p.name);
      Http.VisibleConcat(g.before + ";" + g.after + p.name, "=");
      Http.VisibleConcat(g.before + ";" + g.after + p.name + "=", p.value);
      Http.VisibleConcat(RenderParam(g, p), RenderParams(ps[1..], gaps[1..]));
    }
  }

  /** A rendered media type is visible ASCII, so it can be a header value. */
  lemma RenderVisible(m: MediaType, gaps: seq<Gap>)
    requires WellFormed(m) && |gaps| == |m.params| && Spaced(gaps)
    ensures Http.IsVisibleText(Render(m, gaps))
  {
    TokenVisible(m.top);
    TokenVisible(m.sub);
    RenderParamsVisible(m.params, gaps);
    Http.VisibleConcat(m.top, "/");
    Http.VisibleConcat(m.top + "/", m.sub);
    Http.VisibleConcat(m.top + "/" + m.sub, RenderParams(m.params, gaps));
  }
}
