/**
The route table over a service's life: built at start, replaced by reloads,
while requests keep the table they took under the lock and dispatch on it later.
*/
module Reload {
  import opened Bytes
  import opened Routing

  /** A route registered in code. */
  type Signature = (string, Verb)

  datatype RouteConf = RouteConf(
    path: string, methods: Option<seq<string>>, template: Option<string>, handler: Option<string>, params: seq<string>)

  /** The verb of a configured route: that of its list if the list is one method this code knows, otherwise any. */
  function VerbOf(methods: Option<seq<string>>): Verb {
    if methods.None? || |methods.value| != 1 then Any
    else
      match methods.value[0]
      case "GET" => Get
      case "POST" => Post
      case "PUT" => Put
      case "PATCH" => Patch
      case "DELETE" => Delete
      case _ => Any
  }

  /** A configured route answers no method but those it lists if and only if it lists exactly one, of these five. */
  lemma {:induction false} ListedMethodsExactly(ms: seq<string>)
    ensures (forall m: string :: Allows(VerbOf(Some(ms)), m) ==> m in ms || (m == "HEAD" && "GET" in ms)) <==>
            |ms| == 1 && ms[0] in {"GET", "POST", "PUT", "PATCH", "DELETE"}
  {
    var v := VerbOf(Some(ms));
    if v == Any {
      var m := Unlisted(ms);
      assert Allows(v, m);
    } else {
      OneMethod(ms);
    }
  }

  /** Two methods are as good as none. */
  lemma {:induction false} TwoMethodsTakeAll()
    ensures Allows(VerbOf(Some(["GET", "POST"])), "DELETE")
  {
  }

  lemma {:induction false} OneMethod(ms: seq<string>)
    requires VerbOf(Some(ms)) != Any
    ensures |ms| == 1 && VerbKey(VerbOf(Some(ms))) == ms[0] && ms[0] in {"GET", "POST", "PUT", "PATCH", "DELETE"}
    ensures VerbOf(Some(ms)) == Get ==> ms[0] == "GET"
    ensures forall m: string :: Allows(VerbOf(Some(ms)), m) ==> m in ms || (m == "HEAD" && "GET" in ms)
  {
    assert ms[0] in ms;
  }

  lemma {:induction false} Unlisted(ms: seq<string>) returns (m: string)
    ensures m !in ms && |m| > 4
  {
    var k := LongerThan(ms);
    m := seq(k + 5, i => 'a');
  }

  lemma {:induction false} LongerThan(ms: seq<string>) returns (k: nat)
    ensures forall i :: 0 <= i < |ms| ==> |ms[i]| <= k
  {
    k := 0;
    for i := 0 to |ms|
      invariant forall j :: 0 <= j < i ==> |ms[j]| <= k
    {
      if |ms[i]| > k {
        k := |ms[i]|;
      }
    }
  }

  /** What the program registered; it never changes. */
  datatype Program = Program(code: seq<Signature>, named: set<string>)

  function CodeRoute(sig: Signature): (r: Route)
    ensures Built(r)
  {
    var segs := CompilePattern(sig.0);
    Route(sig.0, sig.1, segs, Score(segs), None, None, [])
  }

  function ConfRoute(rc: RouteConf): (r: Route)
    ensures Built(r)
  {
    var segs := CompilePattern(rc.path);
    Route(rc.path, VerbOf(rc.methods), segs, Score(segs), rc.template, rc.handler, rc.params)
  }

  function CodeRoutes(code: seq<Signature>): (rs: seq<Route>)
    ensures |rs| == |code| && forall i :: 0 <= i < |rs| ==> rs[i] == CodeRoute(code[i])
  {
    if code == [] then [] else CodeRoutes(code[..|code| - 1]) + [CodeRoute(code[|code| - 1])]
  }

  function ConfRoutes(conf: seq<RouteConf>): (rs: seq<Route>)
    ensures |rs| == |conf| && forall i :: 0 <= i < |rs| ==> rs[i] == ConfRoute(conf[i])
  {
    if conf == [] then [] else ConfRoutes(conf[..|conf| - 1]) + [ConfRoute(conf[|conf| - 1])]
  }

  /** Code routes first, then config routes. */
  function Table(p: Program, conf: seq<RouteConf>): seq<Route> { CodeRoutes(p.code) + ConfRoutes(conf) }

  lemma {:induction false} NoRoutes()
    ensures CodeRoutes([]) == [] && ConfRoutes([]) == []
  {
  }

  lemma {:induction false} CodeRoutesNext(code: seq<Signature>, i: nat)
    requires i < |code|
    ensures CodeRoutes(code[..i + 1]) == CodeRoutes(code[..i]) + [CodeRoute(code[i])]
  {
    assert code[..i + 1][..i] == code[..i];
  }

  lemma {:induction false} ConfRoutesNext(first: seq<Route>, conf: seq<RouteConf>, i: nat)
    requires i < |conf|
    ensures first + ConfRoutes(conf[..i + 1]) == first + ConfRoutes(conf[..i]) + [ConfRoute(conf[i])]
  {
    assert conf[..i + 1][..i] == conf[..i];
  }

  method BuildTable(p: Program, conf: seq<RouteConf>) returns (routes: seq<Route>)
    ensures routes == Table(p, conf)
  {
    hide CodeRoute, ConfRoute, CodeRoutes, ConfRoutes;
    NoRoutes();
    routes := [];
    var i := 0;
    while i < |p.code|
      invariant i <= |p.code| && routes == CodeRoutes(p.code[..i])
    {
      CodeRoutesNext(p.code, i);
      routes := routes + [CodeRoute(p.code[i])];
      i := i + 1;
    }
    assert p.code[..i] == p.code;
    i := 0;
    assert conf[..0] == [] && routes + [] == routes;
    while i < |conf|
      invariant i <= |conf| && routes == CodeRoutes(p.code) + ConfRoutes(conf[..i])
    {
      ConfRoutesNext(CodeRoutes(p.code), conf, i);
      routes := routes + [ConfRoute(conf[i])];
      i := i + 1;
    }
    assert conf[..i] == conf;
  }

  // ---- the check before a table is installed ----

  /** Something can answer for this route. */
  predicate Served(p: Program, r: Route) {
    match r.handler
    case Some(name) => name in p.named
    case None => r.template.Some? || exists i :: 0 <= i < |p.code| && p.code[i].0 == r.pattern
  }

  ghost predicate AllServed(p: Program, routes: seq<Route>) {
    forall i :: 0 <= i < |routes| ==> Served(p, routes[i])
  }

  /** How an unserved route is reported. */
  function Report(r: Route): (string, string) {
    (r.pattern, if r.handler.Some? then r.handler.value else "<no template, no handler>")
  }

  method UnknownHandlers(p: Program, routes: seq<Route>) returns (missing: seq<(string, string)>)
    ensures missing == [] <==> AllServed(p, routes)
    ensures forall m :: m in missing <==>
              exists i :: 0 <= i < |routes| && !Served(p, routes[i]) && m == Report(routes[i])
  {
    hide Served, Report;
    missing := [];
    var i := 0;
    while i < |routes|
      invariant i <= |routes|
      invariant missing == [] <==> forall j :: 0 <= j < i ==> Served(p, routes[j])
      invariant forall m :: m in missing <==> exists j :: 0 <= j < i && !Served(p, routes[j]) && m == Report(routes[j])
    {
      if !Served(p, routes[i]) {
        missing := missing + [Report(routes[i])];
      }
      i := i + 1;
    }
  }

  // ---- dispatch ----

  function HandlerKey(pattern: string, v: Verb): string { pattern + ":" + VerbKey(v) }

  /** The code handlers by key; of two with one key the later is kept. */
  function CodeHandlers(code: seq<Signature>): map<string, nat> {
    if code == [] then map[]
    else CodeHandlers(code[..|code| - 1])[HandlerKey(code[|code| - 1].0, code[|code| - 1].1) := |code| - 1]
  }

  datatype Answer =
    | NamedHandler(name: string)
    | CodeHandler(index: nat)
    | Template(name: string)
    | NotFound
    | HandlerMissing             // the 500 that should not happen
    | RenderFailed(name: string) // the 500 of a template the renderer does not know

  function Dispatch(p: Program, r: Route): Answer {
    match r.handler
    case Some(name) => if name in p.named then NamedHandler(name) else HandlerMissing
    case None =>
      match r.template
      case Some(t) => Template(t)
      case None =>
        var key := HandlerKey(r.pattern, r.verb);
        if key in CodeHandlers(p.code) then CodeHandler(CodeHandlers(p.code)[key]) else NotFound
  }

  lemma {:induction false} HandlerKeyInjective(a: string, v: Verb, b: string, w: Verb)
    requires HandlerKey(a, v) == HandlerKey(b, w)
    ensures a == b && v == w
  {
    KeyHasNoColon(v);
    KeyHasNoColon(w);
    LastColon(a, VerbKey(v), b, VerbKey(w));
    VerbKeyInjective(v, w);
  }

  lemma {:induction false} KeyHasNoColon(v: Verb)
    ensures ':' !in VerbKey(v)
  {
  }

  lemma {:induction false} VerbKeyInjective(v: Verb, w: Verb)
    ensures VerbKey(v) == VerbKey(w) ==> v == w
  {
    var k, l := VerbKey(v), VerbKey(w);
    assert k == l ==> k[0] == l[0] && k[1] == l[1];
  }

  /** The last colon tells where the method starts. */
  lemma {:induction false} LastColon(a: string, k: string, b: string, l: string)
    requires ':' !in k && ':' !in l && a + ":" + k == b + ":" + l
    ensures a == b && k == l
  {
    var s := a + ":" + k;
    assert s[|a|] == ':' && s[|b|] == ':';
    assert forall x :: |a| < x < |s| ==> s[x] == k[x - |a| - 1];
    assert forall x :: |b| < x < |s| ==> s[x] == l[x - |b| - 1];
    assert s[..|a|] == a && s[..|b|] == b && s[|a| + 1..] == k && s[|b| + 1..] == l;
  }

  /** A code handler is found exactly under the signatures registered, and it is the last of that signature. */
  lemma {:induction false} CodeHandlersMeaning(code: seq<Signature>, pattern: string, v: Verb)
    ensures var m, key := CodeHandlers(code), HandlerKey(pattern, v);
            && (key in m <==> exists i :: 0 <= i < |code| && code[i] == (pattern, v))
            && (key in m ==> m[key] < |code| && code[m[key]] == (pattern, v)
                             && forall i :: m[key] < i < |code| ==> code[i] != (pattern, v))
  {
    hide HandlerKey;
    if code != [] {
      var init, last := code[..|code| - 1], code[|code| - 1];
      CodeHandlersMeaning(init, pattern, v);
      if HandlerKey(last.0, last.1) == HandlerKey(pattern, v) {
        HandlerKeyInjective(last.0, last.1, pattern, v);
        assert code[|code| - 1] == (pattern, v);
      } else {
        assert forall i :: 0 <= i < |init| ==> init[i] == code[i];
        assert last != (pattern, v);
        if i :| 0 <= i < |code| && code[i] == (pattern, v) {
          assert init[i] == (pattern, v);
        }
      }
    }
  }

  /** A table as the program could have installed it. */
  ghost predicate Installed(p: Program, routes: seq<Route>) {
    AllServed(p, routes) && exists conf :: routes == Table(p, conf)
  }

  /**
  The table of a configuration: first a route per registration, then one per
  configured route, each with the pattern, the verb, the template and the
  handler it was given.
  */
  lemma {:induction false} TableExactly(p: Program, conf: seq<RouteConf>)
    ensures var routes := Table(p, conf);
            && |routes| == |p.code| + |conf|
            && (forall i :: 0 <= i < |p.code| ==>
                  && routes[i].pattern == p.code[i].0 && routes[i].verb == p.code[i].1
                  && routes[i].handler.None? && routes[i].template.None?)
            && forall j :: 0 <= j < |conf| ==>
                 var r := routes[|p.code| + j];
                 && r.pattern == conf[j].path && r.verb == VerbOf(conf[j].methods)
                 && r.template == conf[j].template && r.handler == conf[j].handler && r.params == conf[j].params
  {
    hide Score, CompilePattern, VerbOf;
  }

  /**
  A configuration passes the check if and only if every handler it names is
  registered, and every route of it with neither handler nor template has the
  pattern of a registered route.
  */
  lemma {:induction false} CheckedExactly(p: Program, conf: seq<RouteConf>)
    ensures AllServed(p, Table(p, conf)) <==>
            forall j :: 0 <= j < |conf| ==> Servable(p, conf[j])
  {
    hide Table, Served, Servable;
    TableExactly(p, conf);
    var routes := Table(p, conf);
    forall i | 0 <= i < |routes|
      ensures i < |p.code| ==> Served(p, routes[i])
      ensures i >= |p.code| ==> (Served(p, routes[i]) <==> Servable(p, conf[i - |p.code|]))
    {
      RouteServed(p, conf, i);
    }
    if AllServed(p, routes) {
      forall j | 0 <= j < |conf| ensures Servable(p, conf[j]) {
        assert Served(p, routes[|p.code| + j]);
      }
    }
  }

  ghost predicate Servable(p: Program, rc: RouteConf) {
    && (rc.handler.Some? ==> rc.handler.value in p.named)
    && (rc.handler.None? && rc.template.None? ==> exists i :: 0 <= i < |p.code| && p.code[i].0 == rc.path)
  }

  lemma {:induction false} RouteServed(p: Program, conf: seq<RouteConf>, i: nat)
    requires i < |Table(p, conf)|
    ensures i < |p.code| ==> Served(p, Table(p, conf)[i])
    ensures i >= |p.code| ==> i - |p.code| < |conf| && (Served(p, Table(p, conf)[i]) <==> Servable(p, conf[i - |p.code|]))
  {
    hide Table;
    TableExactly(p, conf);
    var r := Table(p, conf)[i];
    if i < |p.code| {
      assert p.code[i].0 == r.pattern;
    } else {
      var rc := conf[i - |p.code|];
      assert Table(p, conf)[|p.code| + (i - |p.code|)] == r;
      assert r.pattern == rc.path && r.template == rc.template && r.handler == rc.handler;
    }
  }

  lemma {:induction false} InstalledBuilt(p: Program, routes: seq<Route>)
    requires Installed(p, routes)
    ensures |p.code| <= |routes|
    ensures forall i :: 0 <= i < |routes| ==> Built(routes[i])
    ensures forall i :: 0 <= i < |p.code| ==> routes[i] == CodeRoute(p.code[i])
  {
    hide CodeRoute, ConfRoute;
    var conf :| routes == Table(p, conf);
    forall i | 0 <= i < |routes| ensures Built(routes[i]) && (i < |p.code| ==> routes[i] == CodeRoute(p.code[i])) {
      if i < |p.code| {
        assert routes[i] == CodeRoutes(p.code)[i];
      } else {
        assert routes[i] == ConfRoutes(conf)[i - |p.code|];
      }
    }
  }

  /**
  Dispatch on the winner of an installed table: a named handler is never
  missing; a code route gets the handler registered for its own pattern and
  method; and a config route with neither template nor handler, when it wins at
  all, answers 404.
  */
  lemma {:induction false} WinnerDispatches(p: Program, routes: seq<Route>, path: seq<string>, verb: string)
    requires Installed(p, routes) && Best(routes, path, verb, |routes|).Some?
    ensures var i := Best(routes, path, verb, |routes|).value;
            var a := Dispatch(p, routes[i]);
            && !a.HandlerMissing?
            && (i < |p.code| ==> a.CodeHandler? && a.index < |p.code| && p.code[a.index] == p.code[i])
            && (i >= |p.code| ==>
                  match (routes[i].handler, routes[i].template)
                  case (Some(name), _) => a == NamedHandler(name) && name in p.named
                  case (None, Some(t)) => a == Template(t)
                  case (None, None) => a == NotFound)
  {
    hide HandlerKey, CodeHandlers, MatchRoute, Allows, CompilePattern, Score;
    InstalledBuilt(p, routes);
    var i := Best(routes, path, verb, |routes|).value;
    var r := routes[i];
    assert Served(p, r);
    CodeHandlersMeaning(p.code, r.pattern, r.verb);
    if i < |p.code| {
      assert p.code[i] == (r.pattern, r.verb);
    } else {
      // A code route of the same signature would have won.
      forall j | 0 <= j < |p.code| ensures p.code[j] != (r.pattern, r.verb) {
        var rival := routes[j];
        assert rival == CodeRoute(p.code[j]) && Built(rival) && Built(r);
        assert p.code[j] == (r.pattern, r.verb) ==> Candidate(rival, path, verb);
      }
    }
  }

  // ---- configuration routes that only annotate code routes ----

  /** Neither a handler nor a template of its own. */
  predicate Bare(r: Route) { r.handler.None? && r.template.None? }

  /** A code route of this pattern takes the method. */
  ghost predicate TakenByCode(p: Program, pattern: string, verb: string) {
    exists c :: 0 <= c < |p.code| && p.code[c].0 == pattern && Allows(p.code[c].1, verb)
  }

  /** Route `k` comes before route `j` when both match. */
  predicate Ahead(routes: seq<Route>, k: nat, j: nat)
    requires k < |routes| && j < |routes|
  {
    routes[k].specificity > routes[j].specificity || (routes[k].specificity == routes[j].specificity && k < j)
  }

  lemma {:induction false} BestExactly(routes: seq<Route>, path: seq<string>, verb: string, j: nat)
    requires j < |routes|
    ensures Best(routes, path, verb, |routes|) == Some(j) <==>
            && Candidate(routes[j], path, verb)
            && forall k :: 0 <= k < |routes| && Candidate(routes[k], path, verb) ==> !Ahead(routes, k, j)
  {
    hide Candidate;
    var b := Best(routes, path, verb, |routes|);
    if b.Some? && b.value != j && Candidate(routes[j], path, verb) {
      assert Ahead(routes, b.value, j);
    }
  }

  /**
  A bare configuration route answers 404 exactly for the paths it matches and
  the methods it allows that no code route of its pattern takes, unless a route
  of another pattern, or another configuration route, is ahead of it.
  */
  lemma {:induction false} BareRouteAnswersExactly(p: Program, routes: seq<Route>, j: nat, path: seq<string>, verb: string)
    requires Installed(p, routes) && |p.code| <= j < |routes| && Bare(routes[j])
    ensures Best(routes, path, verb, |routes|) == Some(j) <==>
            && Matches(routes[j].segments, path) && Allows(routes[j].verb, verb)
            && !TakenByCode(p, routes[j].pattern, verb)
            && forall k :: 0 <= k < |routes| && Candidate(routes[k], path, verb) ==>
                 !Ahead(routes, k, j) || (k < |p.code| && routes[k].pattern == routes[j].pattern)
    ensures Best(routes, path, verb, |routes|) == Some(j) ==> Dispatch(p, routes[j]) == NotFound
  {
    hide HandlerKey, CodeHandlers, CompilePattern, Score, Matches, MatchRoute, Allows;
    InstalledBuilt(p, routes);
    MatchMeaning(routes[j].segments, path);
    BestExactly(routes, path, verb, j);
    if Best(routes, path, verb, |routes|) == Some(j) {
      WinnerDispatches(p, routes, path, verb);
    }
    assert Built(routes[j]);
    forall k | 0 <= k < |p.code| && routes[k].pattern == routes[j].pattern
      ensures Ahead(routes, k, j)
      ensures Candidate(routes[j], path, verb) && Allows(p.code[k].1, verb) ==> Candidate(routes[k], path, verb)
      ensures Candidate(routes[k], path, verb) ==> TakenByCode(p, routes[j].pattern, verb)
    {
      assert routes[k] == CodeRoute(p.code[k]) && Built(routes[k]);
    }
    if TakenByCode(p, routes[j].pattern, verb) {
      var c :| 0 <= c < |p.code| && p.code[c].0 == routes[j].pattern && Allows(p.code[c].1, verb);
      assert routes[c] == CodeRoute(p.code[c]);
    }
  }

  /** Code routes take every method of a bare route exactly when one has its method, or takes them all. */
  lemma {:induction false} TakenForEveryMethodExactly(p: Program, pattern: string, v: Verb)
    ensures (forall verb: string :: Allows(v, verb) ==> TakenByCode(p, pattern, verb)) <==>
            exists c :: 0 <= c < |p.code| && p.code[c].0 == pattern && (p.code[c].1 == v || p.code[c].1 == Any)
  {
    if c :| 0 <= c < |p.code| && p.code[c].0 == pattern && (p.code[c].1 == v || p.code[c].1 == Any) {
      forall verb: string | Allows(v, verb) ensures TakenByCode(p, pattern, verb) {
        assert Allows(p.code[c].1, verb);
      }
    }
    var sample := if v == Any then "OTHER" else VerbKey(v);
    assert Allows(v, sample);
    if TakenByCode(p, pattern, sample) {
      var c :| 0 <= c < |p.code| && p.code[c].0 == pattern && Allows(p.code[c].1, sample);
      assert p.code[c].1 == v || p.code[c].1 == Any;
    }
  }

  /** A table that passes the check and answers 404: a code route for GET, its pattern configured for any method, a POST. */
  lemma {:induction false} CheckedRouteCanAnswer404()
    ensures var p := Program([("/x", Get)], {});
            var routes := Table(p, [RouteConf("/x", None, None, None, [])]);
            && Installed(p, routes) && |routes| == 2
            && Best(routes, ["x"], "POST", 2) == Some(1) && Dispatch(p, routes[1]) == NotFound
            && Best(routes, ["x"], "GET", 2) == Some(0)
  {
    hide Score;
    var p := Program([("/x", Get)], {});
    var conf := [RouteConf("/x", None, None, None, [])];
    var routes := Table(p, conf);
    assert routes == CodeRoutes(p.code) + ConfRoutes(conf);
    assert routes[0] == CodeRoute(("/x", Get)) && routes[1] == ConfRoute(conf[0]);
    assert p.code[0].0 == "/x";
    assert AllServed(p, routes);
    SampleMatch(routes[1]);
    assert Matches(routes[1].segments, ["x"]);
    MatchMeaning(routes[0].segments, ["x"]);
    MatchMeaning(routes[1].segments, ["x"]);
    hide Matches, MatchRoute, CompilePattern;
    assert Candidate(routes[0], ["x"], "GET") && !Candidate(routes[0], ["x"], "POST");
    assert Candidate(routes[1], ["x"], "GET") && Candidate(routes[1], ["x"], "POST");
    assert routes[0].specificity == routes[1].specificity;
    WinnerDispatches(p, routes, ["x"], "POST");
  }

  lemma {:induction false} SampleMatch(r: Route)
    requires Built(r) && r.pattern == "/x"
    ensures Matches(r.segments, ["x"])
  {
    assert Segments("x") == ["x"] by {
      SegmentsOfJoin(["x"]);
      assert Join(["x"]) == "x";
    }
    assert "/x"[1..] == "x" && Segments("/x") == ["x"];
    assert CompilePattern("/x") == [Literal("x")];
  }

  // ---- the life of a service ----

  /** What a reload finds: the outcome of every check outside the model, and what it would install. */
  datatype Change = Change(
    emptyFile: bool, parses: bool, siteOk: bool, builds: bool, hookOk: bool,
    conf: seq<RouteConf>, templates: set<string>, level: string)

  datatype Outcome = Skipped | Failed | HookFailed | Reloaded(routes: nat)

  /**
  `templates` is what the current renderer knows, replaced with the table;
  `pending` is a log level installed right after them; `held` the tables
  requests have taken.
  */
  datatype State = State(
    routes: seq<Route>, templates: set<string>, level: string, pending: Option<string>, held: map<nat, seq<Route>>)

  datatype Step =
    | Arrive(request: nat)   // take the table under the read lock
    | Finish(request: nat)   // take the lock again: dispatch, render with the current renderer, answer
    | Install(c: Change)     // a reload up to the swap of the state, or its refusal
    | SetLevel               // the rest of that reload

  predicate Accepted(p: Program, c: Change) {
    !c.emptyFile && c.parses && c.siteOk && c.builds && c.hookOk
    && forall i :: 0 <= i < |Table(p, c.conf)| ==> Served(p, Table(p, c.conf)[i])
  }

  predicate Enabled(s: State, step: Step) {
    match step
    case Arrive(n) => n !in s.held
    case Finish(n) => n in s.held
    case Install(_) => s.pending.None?
    case SetLevel => s.pending.Some?
  }

  function Do(p: Program, s: State, step: Step): State
    requires Enabled(s, step)
  {
    match step
    case Arrive(n) => s.(held := s.held[n := s.routes])
    case Finish(n) => s.(held := s.held - {n})
    case Install(c) =>
      if Accepted(p, c) then s.(routes := Table(p, c.conf), templates := c.templates, pending := Some(c.level)) else s
    case SetLevel => s.(level := s.pending.value, pending := None)
  }

  predicate CanRun(p: Program, s: State, steps: seq<Step>)
    decreases |steps|
  {
    steps == [] || (Enabled(s, steps[0]) && CanRun(p, Do(p, s, steps[0]), steps[1..]))
  }

  function Exec(p: Program, s: State, steps: seq<Step>): State
    requires CanRun(p, s, steps)
    decreases |steps|
  {
    if steps == [] then s else Exec(p, Do(p, s, steps[0]), steps[1..])
  }

  class Service {
    const program: Program
    var routes: seq<Route>
    var templates: set<string>
    var level: string

    /** Startup; with anything missing the process exits instead. */
    constructor (program: Program, conf: seq<RouteConf>, templates: set<string>, level: string)
      requires AllServed(program, Table(program, conf))
      ensures this.program == program && routes == Table(program, conf)
      ensures this.templates == templates && this.level == level
      ensures Installed(program, routes)
    {
      this.program := program;
      this.routes := Table(program, conf);
      this.templates := templates;
      this.level := level;
    }

    /** The service between reloads, with the tables that requests hold. */
    ghost function View(held: map<nat, seq<Route>>): State
      reads this
    {
      State(routes, templates, level, None, held)
    }

    /** The reload closure: check everything, then the hook, then install. It is a run of the steps above. */
    method TryReload(c: Change, ghost held: map<nat, seq<Route>>) returns (r: Outcome)
      requires Installed(program, routes)
      modifies this
      ensures Installed(program, routes)
      ensures r.Reloaded? <==>
                !c.emptyFile && c.parses && c.siteOk && c.builds && AllServed(program, Table(program, c.conf)) && c.hookOk
      ensures r.HookFailed? <==>
                !c.emptyFile && c.parses && c.siteOk && c.builds && AllServed(program, Table(program, c.conf)) && !c.hookOk
      ensures r.Skipped? <==> c.emptyFile
      ensures r.Reloaded? ==> routes == Table(program, c.conf) && templates == c.templates && level == c.level
      ensures r.Reloaded? ==> r.routes == |routes|
      ensures !r.Reloaded? ==> routes == old(routes) && templates == old(templates) && level == old(level)
      ensures var steps := if r.Reloaded? then [Install(c), SetLevel] else [Install(c)];
              CanRun(program, old(View(held)), steps) && View(held) == Exec(program, old(View(held)), steps)
    {
      hide Table, Served, CanRun, Exec, Do;
      ReloadRuns(program, View(held), c);
      if c.emptyFile {
        return Skipped;
      }
      if !c.parses || !c.siteOk || !c.builds {
        return Failed;
      }
      var table := BuildTable(program, c.conf);
      var missing := UnknownHandlers(program, table);
      if missing != [] {
        return Failed;
      }
      if !c.hookOk {
        return HookFailed;
      }
      routes, templates := table, c.templates;
      level := c.level;
      return Reloaded(|table|);
    }
  }

  lemma {:induction false} ReloadRuns(p: Program, s: State, c: Change)
    requires s.pending.None?
    ensures CanRun(p, s, [Install(c)]) && (!Accepted(p, c) ==> Exec(p, s, [Install(c)]) == s)
    ensures Accepted(p, c) ==>
              && CanRun(p, s, [Install(c), SetLevel])
              && Exec(p, s, [Install(c), SetLevel]) ==
                   s.(routes := Table(p, c.conf), templates := c.templates, level := c.level)
  {
    hide Table, Accepted;
    var s1 := Do(p, s, Install(c));
    assert [Install(c)][1..] == [] && [Install(c), SetLevel][1..] == [SetLevel] && [SetLevel][1..] == [];
    assert CanRun(p, s1, []) && Exec(p, s1, []) == s1;
    if Accepted(p, c) {
      var s2 := Do(p, s1, SetLevel);
      assert CanRun(p, s2, []) && Exec(p, s2, []) == s2;
      assert CanRun(p, s1, [SetLevel]) && Exec(p, s1, [SetLevel]) == s2;
    }
  }

  ghost predicate Inv(p: Program, s: State) {
    Installed(p, s.routes) && forall n :: n in s.held ==> Installed(p, s.held[n])
  }

  lemma {:induction false} StepInv(p: Program, s: State, step: Step)
    requires Inv(p, s) && Enabled(s, step)
    ensures Inv(p, Do(p, s, step))
    ensures step.Install? && !Accepted(p, step.c) ==> Do(p, s, step) == s
  {
    hide Table, Served;
  }

  lemma {:induction false} RunInv(p: Program, s: State, steps: seq<Step>)
    requires Inv(p, s) && CanRun(p, s, steps)
    ensures Inv(p, Exec(p, s, steps))
    decreases |steps|
  {
    hide Inv, Do;
    if steps != [] {
      StepInv(p, s, steps[0]);
      RunInv(p, Do(p, s, steps[0]), steps[1..]);
    }
  }

  /** Over every run, whichever table a request still holds, its winner dispatches. */
  lemma {:induction false} EveryRequestDispatches(p: Program, conf: seq<RouteConf>, templates: set<string>,
                                                  level: string, steps: seq<Step>, n: nat, path: seq<string>, verb: string)
    requires AllServed(p, Table(p, conf))
    requires CanRun(p, State(Table(p, conf), templates, level, None, map[]), steps)
    requires n in Exec(p, State(Table(p, conf), templates, level, None, map[]), steps).held
    ensures var routes := Exec(p, State(Table(p, conf), templates, level, None, map[]), steps).held[n];
            var w := Best(routes, path, verb, |routes|);
            w.Some? ==>
              && !Dispatch(p, routes[w.value]).HandlerMissing?
              && (w.value < |p.code| ==> Dispatch(p, routes[w.value]).CodeHandler?)
  {
    hide Table, Dispatch, Best, Served;
    var s := State(Table(p, conf), templates, level, None, map[]);
    assert Installed(p, s.routes);
    RunInv(p, s, steps);
    var routes := Exec(p, s, steps).held[n];
    if Best(routes, path, verb, |routes|).Some? {
      WinnerDispatches(p, routes, path, verb);
    }
  }

  /** Runs made of refused reloads and requests leave the table and the level as they were. */
  lemma {:induction false} RefusedReloadsChangeNothing(p: Program, s: State, steps: seq<Step>)
    requires s.pending.None? && CanRun(p, s, steps)
    requires forall i :: 0 <= i < |steps| && steps[i].Install? ==> !Accepted(p, steps[i].c)
    ensures var e := Exec(p, s, steps);
            e.routes == s.routes && e.templates == s.templates && e.level == s.level && e.pending.None?
    decreases |steps|
  {
    hide Accepted;
    if steps != [] {
      assert forall i :: 0 <= i < |steps[1..]| ==> steps[1..][i] == steps[i + 1];
      RefusedReloadsChangeNothing(p, Do(p, s, steps[0]), steps[1..]);
    }
  }

  // ---- an old table and a new renderer ----

  /** Where a table sends a request. */
  function Routed(p: Program, routes: seq<Route>, path: seq<string>, verb: string): Answer {
    match Best(routes, path, verb, |routes|)
    case None => NotFound
    case Some(i) => Dispatch(p, routes[i])
  }

  function Rendered(a: Answer, templates: set<string>): Answer {
    if a.Template? && a.name !in templates then RenderFailed(a.name) else a
  }

  /** The answer to a request that finishes now: routed in the table it holds, rendered with the renderer of now. */
  function AnswerNow(p: Program, s: State, n: nat, path: seq<string>, verb: string): Answer
    requires n in s.held
  {
    Rendered(Routed(p, s.held[n], path, verb), s.templates)
  }

  /** The templates of the last reload accepted in `steps`, if any. */
  function LastTemplates(p: Program, templates: set<string>, steps: seq<Step>): set<string>
    decreases |steps|
  {
    if steps == [] then templates
    else
      var step := steps[0];
      LastTemplates(p, if step.Install? && Accepted(p, step.c) then step.c.templates else templates, steps[1..])
  }

  lemma {:induction false} HeldStays(p: Program, s: State, n: nat, steps: seq<Step>)
    requires n in s.held && CanRun(p, s, steps) && Finish(n) !in steps
    ensures var e := Exec(p, s, steps);
            n in e.held && e.held[n] == s.held[n] && e.templates == LastTemplates(p, s.templates, steps)
    decreases |steps|
  {
    hide Accepted, Table;
    if steps != [] {
      assert steps[0] in steps && forall x :: x in steps[1..] ==> x in steps;
      HeldStays(p, Do(p, s, steps[0]), n, steps[1..]);
    }
  }

  /**
  Whatever happens between a request's arrival and its answer, a winning template
  is rendered if and only if the last reload accepted in between, if there was
  one, still knows it; nothing else of the answer depends on reloads.
  */
  lemma {:induction false} HeldTemplateRendersExactly(p: Program, s: State, n: nat, steps: seq<Step>,
                                                      path: seq<string>, verb: string)
    requires Inv(p, s) && n !in s.held && CanRun(p, Do(p, s, Arrive(n)), steps) && Finish(n) !in steps
    ensures var e := Exec(p, Do(p, s, Arrive(n)), steps);
            var a, known := Routed(p, s.routes, path, verb), LastTemplates(p, s.templates, steps);
            && n in e.held && AnswerNow(p, e, n, path, verb) == Rendered(a, known)
            && (AnswerNow(p, e, n, path, verb).RenderFailed? <==> a.Template? && a.name !in known)
  {
    hide Best, LastTemplates, CodeHandlers;
    HeldStays(p, Do(p, s, Arrive(n)), n, steps);
  }

  /** The renderer knows every template of its table. */
  ghost predicate Loaded(routes: seq<Route>, templates: set<string>) {
    forall i :: 0 <= i < |routes| && routes[i].template.Some? ==> routes[i].template.value in templates
  }

  /** If every renderer knows its own table's templates, a request that no reload overtakes is never failed by it. */
  lemma {:induction false} RendersUnlessOvertaken(p: Program, s: State, n: nat, steps: seq<Step>,
                                                  path: seq<string>, verb: string)
    requires Inv(p, s) && Loaded(s.routes, s.templates)
    requires n !in s.held && CanRun(p, Do(p, s, Arrive(n)), steps) && Finish(n) !in steps
    requires forall i :: 0 <= i < |steps| && steps[i].Install? ==> !Accepted(p, steps[i].c)
    ensures n in Exec(p, Do(p, s, Arrive(n)), steps).held
    ensures !AnswerNow(p, Exec(p, Do(p, s, Arrive(n)), steps), n, path, verb).RenderFailed?
  {
    hide Accepted, Inv, Do, Loaded, Routed, LastTemplates;
    HeldTemplateRendersExactly(p, s, n, steps, path, verb);
    NoNewTemplates(p, s.templates, steps);
    RoutedLoaded(p, s, path, verb);
  }

  lemma {:induction false} RoutedLoaded(p: Program, s: State, path: seq<string>, verb: string)
    requires Loaded(s.routes, s.templates)
    ensures var a := Routed(p, s.routes, path, verb); a.Template? ==> a.name in s.templates
  {
    hide CodeHandlers;
  }

  lemma {:induction false} NoNewTemplates(p: Program, templates: set<string>, steps: seq<Step>)
    requires forall i :: 0 <= i < |steps| && steps[i].Install? ==> !Accepted(p, steps[i].c)
    ensures LastTemplates(p, templates, steps) == templates
  {
    hide Accepted;
    if steps != [] {
      assert forall i :: 0 <= i < |steps[1..]| ==> steps[1..][i] == steps[i + 1];
      NoNewTemplates(p, templates, steps[1..]);
    }
  }

  /** A run in which it is: the route and its template go between arrival and answer. */
  lemma {:induction false} ReloadCanFailARequest()
    ensures var p := Program([], {});
            var s := State(Table(p, [RouteConf("/x", None, Some("t"), None, [])]), {"t"}, "info", None, map[]);
            var c := Change(false, true, true, true, true, [], {}, "info");
            var steps := [Arrive(0), Install(c)];
            && Inv(p, s) && Loaded(s.routes, s.templates) && Accepted(p, c) && CanRun(p, s, steps)
            && var e := Exec(p, s, steps);
            0 in e.held && AnswerNow(p, e, 0, ["x"], "GET") == RenderFailed("t")
  {
    hide Best, Dispatch, Routed, Installed, Loaded;
    var p := Program([], {});
    var routes := Table(p, [RouteConf("/x", None, Some("t"), None, [])]);
    var s := State(routes, {"t"}, "info", None, map[]);
    var c := Change(false, true, true, true, true, [], {}, "info");
    OneTemplate(p, routes);
    assert Table(p, []) == [];
    var s1 := Do(p, s, Arrive(0));
    var s2 := Do(p, s1, Install(c));
    assert [Arrive(0), Install(c)][1..] == [Install(c)] && [Install(c)][1..] == [];
    assert CanRun(p, s2, []) && Exec(p, s2, []) == s2;
    assert CanRun(p, s1, [Install(c)]) && Exec(p, s1, [Install(c)]) == s2;
  }

  lemma {:induction false} OneTemplate(p: Program, routes: seq<Route>)
    requires p == Program([], {}) && routes == Table(p, [RouteConf("/x", None, Some("t"), None, [])])
    ensures Installed(p, routes) && Loaded(routes, {"t"}) && Routed(p, routes, ["x"], "GET") == Template("t")
  {
    hide Score, MatchRoute, CompilePattern, Matches;
    assert routes == ConfRoutes([RouteConf("/x", None, Some("t"), None, [])]) && |routes| == 1;
    var r := routes[0];
    assert r == ConfRoute(RouteConf("/x", None, Some("t"), None, []));
    SampleMatch(r);
    MatchMeaning(r.segments, ["x"]);
    assert Candidate(r, ["x"], "GET");
    assert Best(routes, ["x"], "GET", 0).None? && Best(routes, ["x"], "GET", 1) == Some(0);
  }
}
