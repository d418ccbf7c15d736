/**
  The `Tracker` class: it holds the OpenAPI document (`openAPIDocument`), installs
  its counters, resolves and counts each request, and builds the coverage tree.
  Every method is proved to compute the specification functions of the other
  modules; what those functions promise is proved there.
 */
module Tracking {
  import opened Wrappers
  import opened Strings
  import opened Templates
  import opened Matching
  import opened Model
  import opened Recording
  import opened Coverage

  class Tracker {
    /** `openAPIDocument`; None before a schema is set. */
    var doc: Option<Document>
    /** Every error line written so far, in order. */
    ghost var log: seq<LogEvent>

    /** The counters of the held document are consistent. */
    ghost predicate Valid()
      reads this
    {
      doc.Some? ==> ValidDocument(doc.value)
    }

    constructor ()
      ensures doc == None && log == [] && Valid()
    {
      doc := None;
      log := [];
    }

    /** `setSchema`: hold the document and, when there is one, install its counters. */
    method SetSchema(schema: Option<Document>)
      modifies this
      ensures doc == if schema.Some? then Some(WithCallCounts(schema.value)) else None
      ensures log == old(log)
      ensures schema.Some? && Loadable(schema.value) ==> Valid()
    {
      doc := schema;
      if doc.Some? {
        AddCallCounts();
        if Loadable(schema.value) {
          LoadedIsValid(schema.value);
        }
      }
    }

    /**
      `addCallCounts`: walk paths, methods and responses, zero every count and
      add one to the method's, the path's and the document's capacity per response.
     */
    method AddCallCounts()
      requires doc.Some?
      modifies this
      ensures doc == Some(WithCallCounts(old(doc).value)) && log == old(log)
    {
      var d := doc.value;
      var ps := PathsOr(d);
      var docTotal := 0;
      var out: seq<PathItem> := [];
      var i := 0;
      while i < |ps|
        invariant 0 <= i <= |ps| && |out| == i
        invariant forall q | 0 <= q < i :: out[q] == ResetPath(ps[q])
        invariant docTotal == Sum(out, PathTotal)
        modifies {}
      {
        var reset;
        reset, docTotal := ResetPathCounts(ps[i], docTotal);
        SumAppend(out, reset, PathTotal);
        out := out + [reset];
        i := i + 1;
      }
      assert out == ResetPaths(ps);
      doc := Some(Document(d.servers, if d.paths.Some? then Some(out) else None, d.title, 0, docTotal));
    }

    /** One path of `addCallCounts`; the document's capacity goes up with the path's. */
    method ResetPathCounts(p: PathItem, docTotal: nat) returns (reset: PathItem, docTotal': nat)
      ensures reset == ResetPath(p) && docTotal' == docTotal + reset.totalCalls
    {
      var pathTotal := 0;
      var methods: seq<Method> := [];
      docTotal' := docTotal;
      var j := 0;
      while j < |p.methods|
        invariant 0 <= j <= |p.methods| && |methods| == j
        invariant forall q | 0 <= q < j :: methods[q] == ResetMethod(p.methods[q])
        invariant pathTotal == Sum(methods, MethodTotal)
        invariant docTotal' == docTotal + pathTotal
      {
        var m;
        m, pathTotal, docTotal' := ResetMethodCounts(p.methods[j], pathTotal, docTotal');
        SumAppend(methods, m, MethodTotal);
        methods := methods + [m];
        j := j + 1;
      }
      assert methods == ResetPath(p).methods;
      reset := PathItem(p.template, 0, pathTotal, methods);
    }

    /** One operation of `addCallCounts`: each response adds one to the method's, the path's and the document's capacity. */
    method ResetMethodCounts(m: Method, pathTotal: nat, docTotal: nat) returns (reset: Method, pathTotal': nat, docTotal': nat)
      ensures reset == ResetMethod(m)
      ensures pathTotal' == pathTotal + reset.totalCalls && docTotal' == docTotal + reset.totalCalls
    {
      var methodTotal := 0;
      pathTotal', docTotal' := pathTotal, docTotal;
      var responses: seq<Response> := [];
      var k := 0;
      while k < |m.responses|
        invariant 0 <= k <= |m.responses| && |responses| == k
        invariant forall q | 0 <= q < k :: responses[q] == m.responses[q].(callCount := 0)
        invariant methodTotal == k && pathTotal' == pathTotal + k && docTotal' == docTotal + k
      {
        responses := responses + [m.responses[k].(callCount := 0)];
        pathTotal' := pathTotal' + 1;
        methodTotal := methodTotal + 1;
        docTotal' := docTotal' + 1;
        k := k + 1;
      }
      reset := Method(m.name, 0, methodTotal, responses);
    }

    /** `getServer`: the first declared server URL that prefixes `url`, returned as is (even when empty). */
    method GetServer(url: string) returns (r: Option<string>)
      requires doc.Some? && doc.value.servers.Some?
      ensures var servers := doc.value.servers.value;
        var first := FirstPrefix(servers, url);
        r == if first.None? then None else Some(servers[first.value])
    {
      var servers := doc.value.servers.value;
      var i := 0;
      while i < |servers|
        invariant 0 <= i <= |servers|
        invariant forall j | 0 <= j < i :: !StartsWith(url, servers[j])
      {
        if StartsWith(url, servers[i]) {
          return Some(servers[i]);
        }
        i := i + 1;
      }
      return None;
    }

    /**
      `getPath`: filter the templates through `checkPath`; none gives nothing and
      one is returned at once; otherwise, for each URL position from 1, splice out
      every candidate whose segment there differs, stopping as soon as one or
      none is left.
     */
    method GetPath(url: string) returns (r: Option<nat>)
      requires doc.Some? && doc.value.paths.Some? && Matchable(doc.value)
      ensures r == ResolvePath(TemplatesOf(doc.value.paths.value), url)
    {
      var ts := TemplatesOf(doc.value.paths.value);
      var matches: seq<nat> := FilterMatching(ts, url);
      if |matches| == 0 {
        return None;
      } else if |matches| == 1 {
        return Some(matches[0]);
      }

      var urlParts := Split(url);
      var part := 1;
      while part < |urlParts|
        invariant 1 <= part
        invariant |matches| >= 2
        invariant forall k | 0 <= k < |matches| :: matches[k] < |ts|
        invariant Eliminate(ts, matches, urlParts, part) == ResolvePath(ts, url)
        decreases |urlParts| - part
      {
        matches := SpliceDisagreeing(ts, matches, urlParts, part);
        if |matches| == 1 {
          return Some(matches[0]);
        } else if |matches| == 0 {
          break;
        }
        part := part + 1;
      }
      return None;
    }

    /** `getMethodCaseInsensitive`: the first method key, other than a counter field, equal to `verb` ignoring case. */
    method GetMethodCaseInsensitive(path: PathItem, verb: string) returns (r: Option<nat>)
      ensures r == FindMethod(NamesOf(path.methods), verb)
    {
      var names := NamesOf(path.methods);
      var j := 0;
      while j < |names|
        invariant 0 <= j <= |names|
        invariant forall q | 0 <= q < j :: !MethodKeyMatches(names[q], verb)
      {
        if names[j] == "callCount" || names[j] == "totalCalls" {
          j := j + 1;
          continue;
        }
        if Lower(names[j]) == Lower(verb) {
          return Some(j);
        }
        j := j + 1;
      }
      return None;
    }

    /**
      The lookup half of `updateOperation`: servers declared, server resolved
      (the fixed `serverUrl` first), relative URL, paths declared, path and
      method resolved; the first failure is returned with its log line.
     */
    method ResolveRequest(url: string, verb: string, code: string, serverUrl: Option<string>) returns (res: Resolution)
      requires doc.Some? && Matchable(doc.value)
      ensures res == Resolve(doc.value, url, verb, code, serverUrl, Disambiguating)
    {
      var d := doc.value;
      if d.servers.None? {
        return Unresolved(ConsoleError(NoServersMessage));
      }

      var server: string;
      if serverUrl.Some? && serverUrl.value != "" && StartsWith(url, serverUrl.value) {
        server := serverUrl.value;
      } else {
        var found := GetServer(url);
        if found.None? || found.value == "" {
          return Unresolved(LoggedError(NoServerMessage, Context(verb, code, url, None, None)));
        }
        server := found.value;
      }
      assert ResolveServer(d.servers.value, url, serverUrl) == Some(server);

      var relativeUrl := RelativeUrl(url, server);
      var ctx := Context(verb, code, url, Some(server), Some(relativeUrl));

      if d.paths.None? {
        return Unresolved(ConsoleError(NoPathsMessage));
      }
      var ps := d.paths.value;

      var pathIndex := GetPath(relativeUrl);
      assert pathIndex == FindPath(Disambiguating, TemplatesOf(ps), relativeUrl);
      if pathIndex.None? {
        return Unresolved(LoggedError(NoPathMessage(Disambiguating), ctx));
      }
      var i := pathIndex.value;

      var methodIndex := GetMethodCaseInsensitive(ps[i], verb);
      if methodIndex.None? {
        return Unresolved(LoggedError(NoMethodMessage, ctx));
      }
      return Resolved(server, relativeUrl, i, methodIndex.value);
    }

    /**
      `updateOperation(url, method, code, {serverUrl})`: the state change and
      result are exactly those of Record with the disambiguating path rule, and
      a document whose counters were consistent stays so.
     */
    method UpdateOperation(url: string, verb: string, code: string, serverUrl: Option<string>) returns (result: Option<Match>)
      requires doc.Some? && Matchable(doc.value)
      modifies this
      ensures var o := Record(old(doc).value, url, verb, code, serverUrl, Disambiguating);
        doc == Some(o.doc) && result == o.result && log == old(log) + o.events
      ensures old(Valid()) ==> Valid()
    {
      var d := doc.value;
      var res := ResolveRequest(url, verb, code, serverUrl);
      if res.Unresolved? {
        log := log + [res.event];
        return None;
      }
      RecordResolved(d, url, verb, code, serverUrl, Disambiguating, res);
      ghost var o := Record(d, url, verb, code, serverUrl, Disambiguating);
      var hit := HitMethod(d.paths.value[res.path].methods[res.operation], code);
      var next := CountHit(d, res.path, res.operation, code);
      if hit.created {
        log := log + [LoggedError(NoResponseMessage, Context(verb, code, url, Some(res.server), Some(res.relativeUrl)))];
      } else {
        assert o.events == [];
      }
      assert log == old(log) + o.events;
      doc := Some(next);
      result := Some(Match(verb, code, url, res.server, res.relativeUrl, res.path, res.operation, hit.response));
      assert doc == Some(o.doc) && result == o.result;
      if ValidDocument(d) {
        RecordPreservesValid(d, url, verb, code, serverUrl, Disambiguating);
      }
    }

    /**
      `createCoverage`: a fresh tree of counts and percentages; the document is
      only read. A consistent tracker reports every percentage within 0..100.
     */
    method CreateCoverage() returns (c: Coverage)
      requires doc.Some?
      ensures c == Snapshot(doc.value)
      ensures Valid() ==>
        && c.callPercentage <= 100
        && (forall i | 0 <= i < |c.paths| :: c.paths[i].callPercentage <= 100)
        && forall i, j | 0 <= i < |c.paths| && 0 <= j < |c.paths[i].methods| ::
             c.paths[i].methods[j].callPercentage <= 100
    {
      var d := doc.value;
      var title := "";
      if d.title.Some? && d.title.value != "" {
        title := d.title.value;
      }
      var ps := PathsOr(d);
      var paths: seq<PathCoverage> := [];
      var i := 0;
      while i < |ps|
        invariant 0 <= i <= |ps| && |paths| == i
        invariant forall q | 0 <= q < i :: paths[q] == PathSnapshot(ps[q])
      {
        var p := ps[i];
        var methods: seq<MethodCoverage> := [];
        var j := 0;
        while j < |p.methods|
          invariant 0 <= j <= |p.methods| && |methods| == j
          invariant forall q | 0 <= q < j :: methods[q] == MethodSnapshot(p.methods[q])
        {
          var m := p.methods[j];
          var responses: seq<ResponseCoverage> := [];
          var k := 0;
          while k < |m.responses|
            invariant 0 <= k <= |m.responses| && |responses| == k
            invariant forall q | 0 <= q < k :: responses[q] == ResponseSnapshot(m.responses[q])
          {
            var r := m.responses[k];
            responses := responses + [ResponseCoverage(r.code, r.callCount, r.isUnexpected)];
            k := k + 1;
          }
          methods := methods + [MethodCoverage(m.name, m.callCount, m.totalCalls,
                                  Percentage(m.callCount, m.totalCalls), responses)];
          j := j + 1;
        }
        paths := paths + [PathCoverage(p.template, p.callCount, p.totalCalls,
                            Percentage(p.callCount, p.totalCalls), methods)];
        i := i + 1;
      }
      c := Coverage(title, d.callCount, d.totalCalls, Percentage(d.callCount, d.totalCalls), paths);
      if Valid() {
        SnapshotBounded(d);
      }
    }
  }

  /** The `filter` step of `getPath`: the positions of the templates that match `url`, in order. */
  method FilterMatching(ts: seq<string>, url: string) returns (matches: seq<nat>)
    requires AllWellFormed(ts)
    ensures matches == Candidates(ts, url)
  {
    matches := [];
    var i := 0;
    while i < |ts|
      invariant 0 <= i <= |ts|
      invariant matches == Candidates(ts[..i], url)
    {
      assert ts[..i + 1][..i] == ts[..i];
      if CheckPath(url, ts[i]) {
        matches := matches + [i];
      }
      i := i + 1;
    }
    assert ts[..|ts|] == ts;
  }

  /** One round of `getPath`'s elimination: walking the candidates backwards,
      splice out each one whose template segment at `part` is not the URL's. */
  method SpliceDisagreeing(ts: seq<string>, before: seq<nat>, urlParts: seq<string>, part: nat) returns (matches: seq<nat>)
    requires part < |urlParts|
    requires forall k | 0 <= k < |before| :: before[k] < |ts|
    ensures matches == Keep(ts, before, urlParts, part)
  {
    matches := before;
    var urlPart := urlParts[part];
    var pathNumber := |matches| - 1;
    ghost var kept: seq<nat> := [];
    assert before[pathNumber + 1..] == [];
    assert before[..pathNumber + 1] == before;
    while pathNumber >= 0
      invariant -1 <= pathNumber < |before|
      invariant kept == Keep(ts, before[pathNumber + 1..], urlParts, part)
      invariant matches == before[..pathNumber + 1] + kept
      decreases pathNumber + 1
    {
      SpliceRound(ts, before, pathNumber, urlParts, part, kept);
      assert matches[pathNumber] == before[pathNumber];
      var pathParts := Split(ts[matches[pathNumber]]);
      if !(part < |pathParts| && pathParts[part] == urlPart) {
        matches := matches[..pathNumber] + matches[pathNumber + 1..];
      } else {
        kept := [before[pathNumber]] + kept;
      }
      pathNumber := pathNumber - 1;
    }
    assert before[0..] == before;
  }

  /** One backward step of the splice loop, on the candidates from position `i` on. */
  lemma SpliceRound(ts: seq<string>, before: seq<nat>, i: nat, urlParts: seq<string>, part: nat, kept: seq<nat>)
    requires i < |before|
    requires forall k | 0 <= k < |before| :: before[k] < |ts|
    requires kept == Keep(ts, before[i + 1..], urlParts, part)
    ensures var m := before[..i + 1] + kept;
      var stays := SegmentAgrees(ts[before[i]], urlParts, part);
      && m[i] == before[i]
      && (stays ==> m == before[..i] + Keep(ts, before[i..], urlParts, part)
                    && [before[i]] + kept == Keep(ts, before[i..], urlParts, part))
      && (!stays ==> m[..i] + m[i + 1..] == before[..i] + Keep(ts, before[i..], urlParts, part)
                     && kept == Keep(ts, before[i..], urlParts, part))
  {
    var stays := SegmentAgrees(ts[before[i]], urlParts, part);
    KeepStep(ts, before, i, urlParts, part);
    SpliceStep(before, i, kept, stays);
    if !stays {
      assert [] + kept == kept;
    }
  }

  /** Splicing out position `i` of `before[..i + 1] + kept`, or leaving it, in terms of `before[..i]`. */
  lemma SpliceStep(before: seq<nat>, i: nat, kept: seq<nat>, stays: bool)
    requires i < |before|
    ensures var m := before[..i + 1] + kept;
      (if stays then m else m[..i] + m[i + 1..]) == before[..i] + (if stays then [before[i]] + kept else kept)
  {
    var m := before[..i + 1] + kept;
    assert m[..i] == before[..i];
    assert m[i + 1..] == kept;
    assert before[..i + 1] == before[..i] + [before[i]];
  }

  /** Keep on a suffix, unfolded once. */
  lemma KeepStep(ts: seq<string>, before: seq<nat>, i: nat, urlParts: seq<string>, part: nat)
    requires i < |before|
    requires forall k | 0 <= k < |before| :: before[k] < |ts|
    ensures Keep(ts, before[i..], urlParts, part)
         == (if SegmentAgrees(ts[before[i]], urlParts, part) then [before[i]] else [])
            + Keep(ts, before[i + 1..], urlParts, part)
  {
    assert before[i..][1..] == before[i + 1..];
  }

  /** Record, unfolded for a resolved lookup. */
  lemma RecordResolved(d: Document, url: string, verb: string, code: string, fixedServer: Option<string>, rule: PathRule, res: Resolution)
    requires Matchable(d)
    requires res.Resolved? && Resolve(d, url, verb, code, fixedServer, rule) == res
    ensures d.paths.Some? && res.path < |d.paths.value| && res.operation < |d.paths.value[res.path].methods|
    ensures var h := HitMethod(d.paths.value[res.path].methods[res.operation], code);
      Record(d, url, verb, code, fixedServer, rule)
        == Outcome(CountHit(d, res.path, res.operation, code),
                   Some(Match(verb, code, url, res.server, res.relativeUrl, res.path, res.operation, h.response)),
                   if h.created then [LoggedError(NoResponseMessage, Context(verb, code, url, Some(res.server), Some(res.relativeUrl)))] else [])
  { }
}
