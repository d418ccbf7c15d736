/**
  `updateOperation`: resolve one request (URL, method, status code) to a
  response of the document and count it. The whole call is stated here as one
  function of the document before the call; the class method in Tracker is
  proved to compute exactly this.
 */
module Recording {
  import opened Wrappers
  import opened Strings
  import opened Templates
  import opened Matching
  import opened Model

  /** Which `getPath` the caller uses: the class's disambiguating one or the first-match one of lib/utils.js. */
  datatype PathRule = Disambiguating | FirstMatching

  /** The fields `logError` prints beside its message. */
  datatype Context = Context(verb: string, code: string, url: string, server: Option<string>, relativeUrl: Option<string>)

  /** What a call writes to the error console: a bare `console.error` line or a `logError` record. */
  datatype LogEvent = ConsoleError(message: string) | LoggedError(message: string, context: Context)

  /** The object a successful call returns, with the matched path, method and response given by position. */
  datatype Match = Match(
    verb: string, code: string, url: string, server: string, relativeUrl: string,
    path: nat, operation: nat, response: nat)

  /** The document after the call, the call's result (None for `undefined`) and what it logged. */
  datatype Outcome = Outcome(doc: Document, result: Option<Match>, events: seq<LogEvent>)

  const NoServersMessage := "ERROR: No servers!!!"
  const NoServerMessage := "Error: No matching server!!!"
  const NoPathsMessage := "ERROR: No paths!!!"
  const NoMethodMessage := "Error: No matching method!!!"
  const NoResponseMessage := "Error: No matching response!!!"

  function NoPathMessage(rule: PathRule): string {
    match rule
    case Disambiguating => "Error: Ambiguous or no matching path!!!"
    case FirstMatching => "Error: No matching path!!!"
  }

  /** The path lookup of either rule; both only ever return a template that matches. */
  function FindPath(rule: PathRule, templates: seq<string>, url: string): (r: Option<nat>)
    requires AllWellFormed(templates)
    ensures r.Some? ==> r.value < |templates| && CheckPath(url, templates[r.value])
  {
    ResolvePathSound(templates, url);
    match rule
    case Disambiguating => ResolvePath(templates, url)
    case FirstMatching => FirstMatch(templates, url)
  }

  /** How a status code is resolved among a method's responses. */
  datatype Lookup = Exact(index: nat) | Default(index: nat) | Unmatched

  /** `responses[code]`, then `responses.default`, else nothing. */
  function LookupResponse(rs: seq<Response>, code: string): (r: Lookup)
    ensures r.Exact? <==> code in CodesOf(rs)
    ensures r.Exact? ==> r.index < |rs| && rs[r.index].code == code
    ensures r.Default? <==> code !in CodesOf(rs) && "default" in CodesOf(rs)
    ensures r.Default? ==> r.index < |rs| && rs[r.index].code == "default"
  {
    match FindCode(CodesOf(rs), code)
    case Some(k) => Exact(k)
    case None =>
      match FindCode(CodesOf(rs), "default")
      case Some(k) => Default(k)
      case None => Unmatched
  }

  /** A method after one hit: the hit response's position, whether it was just
      created as unexpected, and 1 when the aggregates go up, else 0. */
  datatype MethodHit = MethodHit(operation: Method, response: nat, created: bool, bump: nat)

  /**
    The response step and the counting rule on one method: an unmatched code is
    appended as `{isUnexpected: true, callCount: 0}`; the resolved response's
    count always goes up, the method's only on a declared response's first hit.
   */
  function HitMethod(m: Method, code: string): (h: MethodHit)
    ensures h.response < |h.operation.responses|
    ensures h.operation.name == m.name && h.operation.totalCalls == m.totalCalls
    ensures h.created ==> h.operation.responses == m.responses + [Response(code, 1, true)]
    ensures !h.created ==> (
      && h.response < |m.responses|
      && h.operation.responses == m.responses[h.response := m.responses[h.response].(callCount := m.responses[h.response].callCount + 1)])
    ensures h.bump == 1 <==> !h.created && m.responses[h.response].callCount == 0 && !m.responses[h.response].isUnexpected
    ensures h.bump <= 1 && h.operation.callCount == m.callCount + h.bump
  {
    var lookup := LookupResponse(m.responses, code);
    var rs := if lookup.Unmatched? then m.responses + [Response(code, 0, true)] else m.responses;
    var k := if lookup.Unmatched? then |m.responses| else lookup.index;
    var r := rs[k];
    var bump := if r.callCount == 0 && !r.isUnexpected then 1 else 0;
    MethodHit(m.(callCount := m.callCount + bump, responses := rs[k := r.(callCount := r.callCount + 1)]),
      k, lookup.Unmatched?, bump)
  }

  /** How far the lookup got: the first failure with its log line, or the matched server, relative URL, path and method. */
  datatype Resolution =
    | Unresolved(event: LogEvent)
    | Resolved(server: string, relativeUrl: string, path: nat, operation: nat)

  /**
    The lookup half of `updateOperation`, in the source's order of checks:
    servers declared, server resolved, paths declared, path resolved, method
    resolved. What it resolves is always consistent: a non-empty server that
    prefixes the URL, the relative URL left after it, a template matching that
    relative URL and a method key equal to the request method ignoring case.
   */
  function Resolve(d: Document, url: string, verb: string, code: string, fixedServer: Option<string>, rule: PathRule): (r: Resolution)
    requires Matchable(d)
    ensures r.Resolved? ==>
      && d.servers.Some? && d.paths.Some?
      && r.server != "" && StartsWith(url, r.server)
      && r.relativeUrl == RelativeUrl(url, r.server)
      && r.path < |d.paths.value|
      && CheckPath(r.relativeUrl, d.paths.value[r.path].template)
      && r.operation < |d.paths.value[r.path].methods|
      && MethodKeyMatches(d.paths.value[r.path].methods[r.operation].name, verb)
  {
    if d.servers.None? then Unresolved(ConsoleError(NoServersMessage))
    else
      ResolveServerSound(d.servers.value, url, fixedServer);
      match ResolveServer(d.servers.value, url, fixedServer)
      case None => Unresolved(LoggedError(NoServerMessage, Context(verb, code, url, None, None)))
      case Some(server) =>
        var rel := RelativeUrl(url, server);
        var ctx := Context(verb, code, url, Some(server), Some(rel));
        if d.paths.None? then Unresolved(ConsoleError(NoPathsMessage))
        else
          var ps := d.paths.value;
          match FindPath(rule, TemplatesOf(ps), rel)
          case None => Unresolved(LoggedError(NoPathMessage(rule), ctx))
          case Some(i) =>
            match FindMethod(NamesOf(ps[i].methods), verb)
            case None => Unresolved(LoggedError(NoMethodMessage, ctx))
            case Some(j) => Resolved(server, rel, i, j)
  }

  /** The counting half of `updateOperation` on the resolved path and method. */
  function CountHit(d: Document, i: nat, j: nat, code: string): (r: Document)
    requires d.paths.Some? && i < |d.paths.value| && j < |d.paths.value[i].methods|
    ensures r.servers == d.servers && r.title == d.title && r.totalCalls == d.totalCalls
    ensures r.paths.Some? && |r.paths.value| == |d.paths.value|
    ensures forall q | 0 <= q < |d.paths.value| && q != i :: r.paths.value[q] == d.paths.value[q]
    ensures r.paths.value[i].template == d.paths.value[i].template
    ensures r.paths.value[i].totalCalls == d.paths.value[i].totalCalls
    ensures |r.paths.value[i].methods| == |d.paths.value[i].methods|
    ensures forall q | 0 <= q < |d.paths.value[i].methods| && q != j ::
      r.paths.value[i].methods[q] == d.paths.value[i].methods[q]
    ensures r.paths.value[i].methods[j] == HitMethod(d.paths.value[i].methods[j], code).operation
    ensures var bump := HitMethod(d.paths.value[i].methods[j], code).bump;
      r.callCount == d.callCount + bump && r.paths.value[i].callCount == d.paths.value[i].callCount + bump
  {
    var ps := d.paths.value;
    var h := HitMethod(ps[i].methods[j], code);
    var p := ps[i].(callCount := ps[i].callCount + h.bump, methods := ps[i].methods[j := h.operation]);
    d.(callCount := d.callCount + h.bump, paths := Some(ps[i := p]))
  }

  /**
    `updateOperation(url, method, code, {serverUrl})`: every failed lookup
    returns `undefined` after one log line and leaves the document as it was;
    a resolved one counts the hit and returns the match, logging once more
    only when it had to add an unexpected response.
   */
  function Record(d: Document, url: string, verb: string, code: string, fixedServer: Option<string>, rule: PathRule): (o: Outcome)
    requires Matchable(d)
    ensures o.result.None? ==> o.doc == d && |o.events| == 1
    ensures o.result.Some? ==>
      && d.paths.Some? && o.result.value.path < |d.paths.value|
      && o.result.value.operation < |d.paths.value[o.result.value.path].methods|
      && o.doc == CountHit(d, o.result.value.path, o.result.value.operation, code)
      && |o.events| <= 1
    ensures var r := Resolve(d, url, verb, code, fixedServer, rule);
      && (o.result.None? <==> r.Unresolved?)
      && (r.Unresolved? ==> o.events == [r.event])
      && (r.Resolved? ==>
            && o.result.value.verb == verb && o.result.value.code == code && o.result.value.url == url
            && o.result.value.server == r.server && o.result.value.relativeUrl == r.relativeUrl
            && o.result.value.path == r.path && o.result.value.operation == r.operation
            && o.result.value.response == HitMethod(d.paths.value[r.path].methods[r.operation], code).response)
  {
    match Resolve(d, url, verb, code, fixedServer, rule)
    case Unresolved(e) => Outcome(d, None, [e])
    case Resolved(server, rel, i, j) =>
      var h := HitMethod(d.paths.value[i].methods[j], code);
      Outcome(
        CountHit(d, i, j, code),
        Some(Match(verb, code, url, server, rel, i, j, h.response)),
        if h.created then [LoggedError(NoResponseMessage, Context(verb, code, url, Some(server), Some(rel)))] else [])
  }

  // ---------------------------------------------------------------- failures

  /** Each way the lookup can fail, with the one line it logs. */
  lemma ResolveFailures(d: Document, url: string, verb: string, code: string, fixedServer: Option<string>, rule: PathRule)
    requires Matchable(d)
    ensures var r := Resolve(d, url, verb, code, fixedServer, rule);
      && (d.servers.None? ==> r == Unresolved(ConsoleError(NoServersMessage)))
      && (d.servers.Some? && ResolveServer(d.servers.value, url, fixedServer).None? ==>
            r == Unresolved(LoggedError(NoServerMessage, Context(verb, code, url, None, None))))
      && (d.servers.Some? && ResolveServer(d.servers.value, url, fixedServer).Some? && d.paths.None? ==>
            r == Unresolved(ConsoleError(NoPathsMessage)))
      && (d.servers.Some? && d.paths.Some? && ResolveServer(d.servers.value, url, fixedServer).Some? ==>
            var server := ResolveServer(d.servers.value, url, fixedServer).value;
            var rel := RelativeUrl(url, server);
            var ctx := Context(verb, code, url, Some(server), Some(rel));
            var found := FindPath(rule, TemplatesOf(d.paths.value), rel);
            && (found.None? ==> r == Unresolved(LoggedError(NoPathMessage(rule), ctx)))
            && (found.Some? && FindMethod(NamesOf(d.paths.value[found.value].methods), verb).None? ==>
                  r == Unresolved(LoggedError(NoMethodMessage, ctx))))
  {
  }

  /** When the server, the path and the method are all found, the lookup
      succeeds with exactly those choices, and the request goes on to be counted. */
  lemma ResolveSucceeds(d: Document, url: string, verb: string, code: string, fixedServer: Option<string>, rule: PathRule)
    requires Matchable(d) && d.servers.Some? && d.paths.Some?
    requires ResolveServer(d.servers.value, url, fixedServer).Some?
    ensures var server := ResolveServer(d.servers.value, url, fixedServer).value;
      var rel := RelativeUrl(url, server);
      var found := FindPath(rule, TemplatesOf(d.paths.value), rel);
      found.Some? && FindMethod(NamesOf(d.paths.value[found.value].methods), verb).Some? ==>
        Resolve(d, url, verb, code, fixedServer, rule)
          == Resolved(server, rel, found.value, FindMethod(NamesOf(d.paths.value[found.value].methods), verb).value)
  {
  }

  // ---------------------------------------------------------------- the counting rule

  /**
    A hit adds one to the resolved response's count; the method, path and
    document counts go up by one together exactly when that response was
    declared and still at 0. Capacities never change.
   */
  lemma CountingRule(d: Document, i: nat, j: nat, code: string)
    requires d.paths.Some? && i < |d.paths.value| && j < |d.paths.value[i].methods|
    ensures var r := CountHit(d, i, j, code);
      var h := HitMethod(d.paths.value[i].methods[j], code);
      var m0, m1 := d.paths.value[i].methods[j], r.paths.value[i].methods[j];
      var firstHit := h.response < |m0.responses| && m0.responses[h.response].callCount == 0
                      && !m0.responses[h.response].isUnexpected;
      && m1.responses[h.response].callCount ==
           (if h.response < |m0.responses| then m0.responses[h.response].callCount else 0) + 1
      && (firstHit ==> m1.callCount == m0.callCount + 1 && r.paths.value[i].callCount == d.paths.value[i].callCount + 1
                       && r.callCount == d.callCount + 1)
      && (!firstHit ==> m1.callCount == m0.callCount && r.paths.value[i].callCount == d.paths.value[i].callCount
                        && r.callCount == d.callCount)
      && m1.totalCalls == m0.totalCalls
  {
  }

  /**
    A status code with no response of its own on a method without `default`
    is added once as an unexpected entry, counted once, and adds nothing to the
    aggregates; any other code adds no entry.
   */
  lemma UnexpectedEntryCreated(m: Method, code: string)
    ensures var h := HitMethod(m, code);
      && (h.created <==> code !in CodesOf(m.responses) && "default" !in CodesOf(m.responses))
      && (h.created ==> h.operation.responses == m.responses + [Response(code, 1, true)]
                        && h.response == |m.responses| && h.bump == 0)
      && (!h.created ==> |h.operation.responses| == |m.responses|)
  {
  }

  /** After a successful call, the log says an unexpected entry was added exactly when one was. */
  lemma RecordLogsUnexpected(d: Document, url: string, verb: string, code: string, fixedServer: Option<string>, rule: PathRule)
    requires Matchable(d)
    ensures var o := Record(d, url, verb, code, fixedServer, rule);
      o.result.Some? ==>
        var m := o.result.value;
        var rs0 := d.paths.value[m.path].methods[m.operation].responses;
        && (o.events == [LoggedError(NoResponseMessage, Context(verb, code, url, Some(m.server), Some(m.relativeUrl)))] <==>
              code !in CodesOf(rs0) && "default" !in CodesOf(rs0))
        && (o.events == [] <==> code in CodesOf(rs0) || "default" in CodesOf(rs0))
  {
  }

  // ---------------------------------------------------------------- repeated requests

  /** The lookup reads only the servers, the templates and the method keys. */
  lemma ResolveReadsKeys(d1: Document, d2: Document, url: string, verb: string, code: string, fixedServer: Option<string>, rule: PathRule)
    requires Matchable(d1)
    requires d1.servers == d2.servers && d1.paths.Some? == d2.paths.Some?
    requires TemplatesOf(PathsOr(d1)) == TemplatesOf(PathsOr(d2))
    requires forall i | 0 <= i < |PathsOr(d1)| :: NamesOf(PathsOr(d1)[i].methods) == NamesOf(PathsOr(d2)[i].methods)
    ensures Matchable(d2)
    ensures Resolve(d1, url, verb, code, fixedServer, rule) == Resolve(d2, url, verb, code, fixedServer, rule)
  {
    assert Matchable(d2) by {
      if d2.paths.Some? { assert TemplatesOf(d2.paths.value) == TemplatesOf(d1.paths.value); }
    }
    if d1.servers.Some? && d1.paths.Some? {
      var server := ResolveServer(d1.servers.value, url, fixedServer);
      if server.Some? {
        var rel := RelativeUrl(url, server.value);
        var ts := TemplatesOf(d1.paths.value);
        assert ts == TemplatesOf(d2.paths.value);
        var found := FindPath(rule, ts, rel);
        assert found == FindPath(rule, TemplatesOf(d2.paths.value), rel);
        if found.Some? {
          var i := found.value;
          var names := NamesOf(d1.paths.value[i].methods);
          assert names == NamesOf(d2.paths.value[i].methods);
          assert FindMethod(names, verb) == FindMethod(NamesOf(d2.paths.value[i].methods), verb);
          var ctx := Context(verb, code, url, server, Some(rel));
          var same := match FindMethod(names, verb)
            case None => Unresolved(LoggedError(NoMethodMessage, ctx))
            case Some(j) => Resolved(server.value, rel, i, j);
          assert Resolve(d1, url, verb, code, fixedServer, rule) == same;
          assert Resolve(d2, url, verb, code, fixedServer, rule) == same;
        }
      }
    }
  }

  /** A hit changes no template and no method key. */
  lemma CountHitKeepsKeys(d: Document, i: nat, j: nat, code: string)
    requires d.paths.Some? && i < |d.paths.value| && j < |d.paths.value[i].methods|
    ensures var r := CountHit(d, i, j, code);
      && TemplatesOf(PathsOr(r)) == TemplatesOf(PathsOr(d))
      && forall q | 0 <= q < |PathsOr(d)| :: NamesOf(PathsOr(r)[q].methods) == NamesOf(PathsOr(d)[q].methods)
  {
    var r := CountHit(d, i, j, code);
    assert NamesOf(PathsOr(r)[i].methods) == NamesOf(PathsOr(d)[i].methods);
  }

  /** Once a code has been hit, looking it up again lands on the same response,
      whatever has happened to the counts since: an unexpected entry is found as
      an exact match, not created anew. */
  lemma LookupAfterHit(m: Method, code: string, rs: seq<Response>)
    requires CodesOf(rs) == CodesOf(HitMethod(m, code).operation.responses)
    ensures var l := LookupResponse(rs, code);
      !l.Unmatched? && l.index == HitMethod(m, code).response
  {
    var h := HitMethod(m, code);
    if h.created {
      assert CodesOf(rs) == CodesOf(m.responses) + [code];
      var f := FindCode(CodesOf(rs), code);
      assert f.Some? && f.value == |m.responses|;
    } else {
      assert CodesOf(rs) == CodesOf(m.responses);
    }
  }

  /** A method after `n` hits with the same status code. */
  function HitTimes(m: Method, code: string, n: nat): Method
    decreases n
  {
    if n == 0 then m else HitMethod(HitTimes(m, code, n - 1), code).operation
  }

  /**
    `n` hits with one code count `n` on the response the first hit resolved
    (an unexpected entry included, created by the first hit only); only the
    first hit can raise the method's count, and no other response changes.
   */
  lemma {:induction false} RepeatedHits(m: Method, code: string, n: nat)
    requires n >= 1
    ensures var h := HitMethod(m, code);
      var r := HitTimes(m, code, n);
      && CodesOf(r.responses) == CodesOf(h.operation.responses)
      && r.callCount == h.operation.callCount
      && r.responses[h.response].callCount == h.operation.responses[h.response].callCount + (n - 1)
      && forall q | 0 <= q < |r.responses| && q != h.response :: r.responses[q] == h.operation.responses[q]
    decreases n
  {
    var h := HitMethod(m, code);
    if n > 1 {
      RepeatedHits(m, code, n - 1);
      var prev := HitTimes(m, code, n - 1);
      HitAgain(m, prev, code);
      var r := HitTimes(m, code, n);
      assert r == HitMethod(prev, code).operation;
      var k := h.response;
      assert r.responses[k].callCount == prev.responses[k].callCount + 1;
      forall q | 0 <= q < |r.responses| && q != k ensures r.responses[q] == h.operation.responses[q] {
        assert r.responses[q] == prev.responses[q];
      }
    } else {
      assert HitTimes(m, code, 0) == m;
    }
  }

  /** A later hit with a code already hit once lands on the same, already
      counted response: it raises that count only and creates nothing. */
  lemma HitAgain(m: Method, prev: Method, code: string)
    requires CodesOf(prev.responses) == CodesOf(HitMethod(m, code).operation.responses)
    requires prev.responses[HitMethod(m, code).response].callCount >= 1
    ensures var k, h2 := HitMethod(m, code).response, HitMethod(prev, code);
      && !h2.created && h2.response == k && h2.bump == 0
      && h2.operation.callCount == prev.callCount
      && CodesOf(h2.operation.responses) == CodesOf(prev.responses)
      && h2.operation.responses == prev.responses[k := prev.responses[k].(callCount := prev.responses[k].callCount + 1)]
  {
    LookupAfterHit(m, code, prev.responses);
    var h2 := HitMethod(prev, code);
    assert CodesOf(h2.operation.responses) == CodesOf(prev.responses);
  }

  /**
    The same request a second time resolves to the same match, logs nothing,
    leaves every aggregate where it was and adds one to the response's count:
    an unexpected entry made by the first call is reused, not added again.
   */
  lemma RepeatedRequest(d: Document, url: string, verb: string, code: string, fixedServer: Option<string>, rule: PathRule)
    requires Matchable(d)
    ensures var o1 := Record(d, url, verb, code, fixedServer, rule);
      Matchable(o1.doc) &&
      var o2 := Record(o1.doc, url, verb, code, fixedServer, rule);
      o1.result.Some? ==>
        var m := o1.result.value;
        var m1, m2 := o1.doc.paths.value[m.path].methods[m.operation], o2.doc.paths.value[m.path].methods[m.operation];
        && o2.result == o1.result
        && o2.events == []
        && o2.doc.callCount == o1.doc.callCount
        && o2.doc.paths.value[m.path].callCount == o1.doc.paths.value[m.path].callCount
        && m2.callCount == m1.callCount
        && |m2.responses| == |m1.responses|
        && m2.responses[m.response].callCount == m1.responses[m.response].callCount + 1
  {
    var o1 := Record(d, url, verb, code, fixedServer, rule);
    if o1.result.Some? {
      var m := o1.result.value;
      CountHitKeepsKeys(d, m.path, m.operation, code);
      ResolveReadsKeys(d, o1.doc, url, verb, code, fixedServer, rule);
      var m0 := d.paths.value[m.path].methods[m.operation];
      LookupAfterHit(m0, code, HitMethod(m0, code).operation.responses);
    } else {
      assert o1.doc == d;
    }
  }

  // ---------------------------------------------------------------- invariant

  /** One hit keeps a method's counters consistent with its responses. */
  lemma HitMethodValid(m: Method, code: string)
    requires ValidMethod(m)
    ensures ValidMethod(HitMethod(m, code).operation)
  {
    HitKeepsCodesDistinct(m, code);
    HitCounters(m, code);
    HitKeepsUnexpectedHit(m, code);
  }

  /** A hit adds a code only when it was missing, so codes stay distinct. */
  lemma HitKeepsCodesDistinct(m: Method, code: string)
    requires DistinctCodes(m.responses)
    ensures DistinctCodes(HitMethod(m, code).operation.responses)
  {
    var h := HitMethod(m, code);
    var rs := h.operation.responses;
    if h.created {
      assert code !in CodesOf(m.responses);
      forall a, b | 0 <= a < b < |rs| ensures rs[a].code != rs[b].code {
        if b == |m.responses| {
          assert CodesOf(m.responses)[a] == rs[a].code;
        }
      }
    } else {
      forall a, b | 0 <= a < b < |rs| ensures rs[a].code != rs[b].code {
        assert rs[a].code == m.responses[a].code && rs[b].code == m.responses[b].code;
      }
    }
  }

  /** A hit keeps the capacity the number of declared responses and the count the number of those hit. */
  lemma HitCounters(m: Method, code: string)
    requires m.totalCalls == Declared(m.responses) && m.callCount == Covered(m.responses)
    ensures var o := HitMethod(m, code).operation;
      o.totalCalls == Declared(o.responses) && o.callCount == Covered(o.responses)
  {
    var h := HitMethod(m, code);
    var rs := h.operation.responses;
    var k := h.response;
    if h.created {
      var base := m.responses + [Response(code, 0, true)];
      assert rs == base[k := rs[k]];
      SumAppend(m.responses, Response(code, 0, true), DeclaredOne);
      SumAppend(m.responses, Response(code, 0, true), CoveredOne);
      SumUpdate(base, k, rs[k], DeclaredOne);
      SumUpdate(base, k, rs[k], CoveredOne);
    } else {
      SumUpdate(m.responses, k, rs[k], DeclaredOne);
      SumUpdate(m.responses, k, rs[k], CoveredOne);
    }
  }

  /** Unexpected entries stay hit, and never come to sit beside a declared `default`. */
  lemma HitKeepsUnexpectedHit(m: Method, code: string)
    requires forall k | 0 <= k < |m.responses| && m.responses[k].isUnexpected :: m.responses[k].callCount >= 1
    requires forall k, l | 0 <= k < |m.responses| && 0 <= l < |m.responses| ::
      m.responses[k].isUnexpected && m.responses[l].code == "default" ==> m.responses[l].isUnexpected
    ensures var rs := HitMethod(m, code).operation.responses;
      && (forall k | 0 <= k < |rs| && rs[k].isUnexpected :: rs[k].callCount >= 1)
      && forall k, l | 0 <= k < |rs| && 0 <= l < |rs| :: rs[k].isUnexpected && rs[l].code == "default" ==> rs[l].isUnexpected
  {
    var h := HitMethod(m, code);
    var rs := h.operation.responses;
    if h.created {
      assert "default" !in CodesOf(m.responses);
      forall l | 0 <= l < |m.responses| ensures rs[l].code != "default" {
        assert CodesOf(m.responses)[l] == m.responses[l].code;
      }
    }
    forall q | 0 <= q < |rs| && q != h.response && q < |m.responses| ensures rs[q] == m.responses[q] {
    }
  }

  /** A hit on one of its methods keeps a path valid, with its capacity unchanged. */
  lemma HitPathValid(p: PathItem, j: nat, code: string)
    requires ValidPath(p) && j < |p.methods|
    ensures var h := HitMethod(p.methods[j], code);
      var p2 := p.(callCount := p.callCount + h.bump, methods := p.methods[j := h.operation]);
      ValidPath(p2) && p2.totalCalls == p.totalCalls
  {
    var h := HitMethod(p.methods[j], code);
    var p2 := p.(callCount := p.callCount + h.bump, methods := p.methods[j := h.operation]);
    HitMethodValid(p.methods[j], code);
    SumUpdate(p.methods, j, h.operation, MethodTotal);
    SumUpdate(p.methods, j, h.operation, MethodCalls);
    forall q | 0 <= q < |p2.methods| ensures !IsReserved(p2.methods[q].name) && ValidMethod(p2.methods[q]) {
      if q != j { assert p2.methods[q] == p.methods[q]; }
    }
    forall a, b | 0 <= a < b < |p2.methods| ensures p2.methods[a].name != p2.methods[b].name {
      assert p2.methods[a].name == p.methods[a].name && p2.methods[b].name == p.methods[b].name;
    }
  }

  /** A hit keeps a valid document valid: the counters stay the counts and sums they stand for. */
  lemma CountHitValid(d: Document, i: nat, j: nat, code: string)
    requires ValidDocument(d)
    requires d.paths.Some? && i < |d.paths.value| && j < |d.paths.value[i].methods|
    ensures ValidDocument(CountHit(d, i, j, code))
  {
    var ps := d.paths.value;
    var r := CountHit(d, i, j, code);
    var h := HitMethod(ps[i].methods[j], code);
    var p := ps[i].(callCount := ps[i].callCount + h.bump, methods := ps[i].methods[j := h.operation]);
    HitPathValid(ps[i], j, code);
    assert r == d.(callCount := d.callCount + h.bump, paths := Some(ps[i := p]));
    SumUpdate(ps, i, p, PathTotal);
    SumUpdate(ps, i, p, PathCalls);
    CountHitKeepsKeys(d, i, j, code);
    forall q | 0 <= q < |PathsOr(r)| ensures ValidPath(PathsOr(r)[q]) {
      if q != i { assert PathsOr(r)[q] == ps[q]; }
    }
  }

  /** Every call keeps a valid document valid. */
  lemma RecordPreservesValid(d: Document, url: string, verb: string, code: string, fixedServer: Option<string>, rule: PathRule)
    requires ValidDocument(d)
    ensures ValidDocument(Record(d, url, verb, code, fixedServer, rule).doc)
  {
    var o := Record(d, url, verb, code, fixedServer, rule);
    if o.result.Some? {
      CountHitValid(d, o.result.value.path, o.result.value.operation, code);
    }
  }
}
