/**
  The older free-function copy of the engine in lib/utils.js. Most of it is
  the same code as the class and shares its model (CheckPath, ResolveServer,
  FindMethod, Percentage, Snapshot, WithCallCounts); what differs is modelled
  here: the first-match `getPath`, and the counter of an unexpected response,
  which the legacy code creates without a `callCount`.
 */
module Utils {
  import opened Wrappers
  import opened Templates
  import opened Matching
  import opened Model
  import opened Recording

  // ---------------------------------------------------------------- getPath

  /** `getPath(url)`: walk the templates in declaration order and return the first that `checkPath` accepts. */
  method GetPath(paths: seq<PathItem>, url: string) returns (r: Option<nat>)
    requires AllWellFormed(TemplatesOf(paths))
    ensures r == FirstMatch(TemplatesOf(paths), url)
  {
    var templates := TemplatesOf(paths);
    var i := 0;
    while i < |paths|
      invariant 0 <= i <= |paths|
      invariant forall j | 0 <= j < i :: !CheckPath(url, templates[j])
    {
      if CheckPath(url, paths[i].template) {
        return Some(i);
      }
      i := i + 1;
    }
    return None;
  }

  /** The first-match rule picks the earliest candidate the class's filter would collect. */
  lemma FirstMatchIsFirstCandidate(templates: seq<string>, url: string)
    requires AllWellFormed(templates)
    ensures var c := Candidates(templates, url);
      FirstMatch(templates, url) == if |c| == 0 then None else Some(c[0])
  {
    var c := Candidates(templates, url);
    var r := FirstMatch(templates, url);
    if r.Some? {
      assert r.value in c;
      var k :| 0 <= k < |c| && c[k] == r.value;
      assert CheckPath(url, templates[c[0]]);
      assert c[0] <= c[k];
      assert c[0] == r.value;
    }
  }

  /** With at most one matching template the two `getPath` rules agree. */
  lemma RulesAgreeOnOneCandidate(templates: seq<string>, url: string)
    requires AllWellFormed(templates)
    requires |Candidates(templates, url)| <= 1
    ensures FirstMatch(templates, url) == ResolvePath(templates, url)
  {
    FirstMatchIsFirstCandidate(templates, url);
  }

  /**
    Where they differ: a template declared before the URL's own exact template
    that also matches it wins under first match, while the class's elimination
    picks the exact one (`/a/{x}` declared before `/a/fixed`, URL `/a/fixed`).
   */
  lemma EarlierPlaceholderShadowsExact(templates: seq<string>, url: string, i: nat, j: nat)
    requires AllWellFormed(templates) && Distinct(templates)
    requires i < |templates| && templates[i] == url
    requires j < i && CheckPath(url, templates[j])
    ensures ResolvePath(templates, url) == Some(i)
    ensures FirstMatch(templates, url).Some? && FirstMatch(templates, url).value <= j
  {
    ExactTemplateWins(templates, url, i);
  }

  // ---------------------------------------------------------------- the legacy response counter

  /** A counter as JavaScript sees it: a number, `undefined` (no such property) or `NaN`. */
  datatype JsCount = Count(n: nat) | Undefined | NaN

  /** `callCount++`: a number goes up by one; `undefined` and `NaN` become `NaN`. */
  function Increment(c: JsCount): (r: JsCount)
    ensures r.Count? <==> c.Count?
    ensures c.Count? ==> r.n == c.n + 1
  {
    match c
    case Count(n) => Count(n + 1)
    case _ => NaN
  }

  datatype LegacyResponse = LegacyResponse(code: string, callCount: JsCount, isUnexpected: bool)
  datatype LegacyMethod = LegacyMethod(name: string, callCount: nat, totalCalls: nat, responses: seq<LegacyResponse>)
  datatype LegacyHit = LegacyHit(operation: LegacyMethod, response: nat, created: bool, bump: nat)

  function LegacyCodes(rs: seq<LegacyResponse>): (r: seq<string>)
    ensures |r| == |rs| && forall k | 0 <= k < |rs| :: r[k] == rs[k].code
  {
    seq(|rs|, k requires 0 <= k < |rs| => rs[k].code)
  }

  /**
    The response step and counting rule of lib/utils.js as written: an
    unmatched code is appended as `{isUnexpected: true}` with no counter, and
    the aggregates go up when the resolved counter is exactly the number 0.
   */
  function LegacyHitMethod(m: LegacyMethod, code: string): (h: LegacyHit)
    ensures h.response < |h.operation.responses|
    ensures h.created ==> h.operation.responses == m.responses + [LegacyResponse(code, NaN, true)]
    ensures !h.created ==> h.response < |m.responses| && h.operation.responses[h.response].callCount == Increment(m.responses[h.response].callCount)
    ensures h.bump == 1 <==> !h.created && m.responses[h.response].callCount == Count(0)
    ensures h.operation.callCount == m.callCount + h.bump
  {
    var codes := LegacyCodes(m.responses);
    var found := FindCode(codes, code);
    var fallback := FindCode(codes, "default");
    var created := found.None? && fallback.None?;
    var rs := if created then m.responses + [LegacyResponse(code, Undefined, true)] else m.responses;
    var k := if found.Some? then found.value else if fallback.Some? then fallback.value else |m.responses|;
    var bump := if rs[k].callCount == Count(0) then 1 else 0;
    LegacyHit(m.(callCount := m.callCount + bump, responses := rs[k := rs[k].(callCount := Increment(rs[k].callCount))]),
      k, created, bump)
  }

  /**
    A legacy method and a class-model method that agree on everything but the
    counters of unexpected responses, which the legacy code leaves at `NaN`.
   */
  predicate Mirrors(lm: LegacyMethod, m: Method) {
    && lm.name == m.name && lm.callCount == m.callCount && lm.totalCalls == m.totalCalls
    && |lm.responses| == |m.responses|
    && forall k | 0 <= k < |m.responses| ::
         && lm.responses[k].code == m.responses[k].code
         && lm.responses[k].isUnexpected == m.responses[k].isUnexpected
         && lm.responses[k].callCount == if m.responses[k].isUnexpected then NaN else Count(m.responses[k].callCount)
  }

  /**
    Hit for hit, the legacy counting resolves the same response, creates the
    same entries and moves the method, path and document counters exactly as
    the class does; only the unexpected response's own count is lost.
   */
  lemma LegacyHitMirrors(lm: LegacyMethod, m: Method, code: string)
    requires Mirrors(lm, m)
    ensures var lh, h := LegacyHitMethod(lm, code), HitMethod(m, code);
      && lh.response == h.response && lh.created == h.created && lh.bump == h.bump
      && Mirrors(lh.operation, h.operation)
  {
    var lh, h := LegacyHitMethod(lm, code), HitMethod(m, code);
    assert LegacyCodes(lm.responses) == CodesOf(m.responses);
    var k := h.response;
    if !h.created {
      assert lm.responses[k].callCount == Count(0) <==> m.responses[k].callCount == 0 && !m.responses[k].isUnexpected;
    }
    var lrs, rs := lh.operation.responses, h.operation.responses;
    forall q | 0 <= q < |rs|
      ensures && lrs[q].code == rs[q].code && lrs[q].isUnexpected == rs[q].isUnexpected
              && lrs[q].callCount == if rs[q].isUnexpected then NaN else Count(rs[q].callCount)
    {
      if q < |m.responses| && q != k {
        assert lrs[q] == lm.responses[q] && rs[q] == m.responses[q];
      }
    }
  }

  /** A legacy method `n` hits later with the same status code. */
  function LegacyHitTimes(m: LegacyMethod, code: string, n: nat): LegacyMethod {
    if n == 0 then m else LegacyHitMethod(LegacyHitTimes(m, code, n - 1), code).operation
  }

  /**
    The finding, on the smallest input: a method with no responses, hit twice
    with status 404. The legacy counter of the unexpected entry reads `NaN`;
    the class's reads 2.
   */
  lemma UnexpectedCountIsNaN()
    ensures var lm := LegacyMethod("get", 0, 0, []);
      LegacyHitTimes(lm, "404", 2).responses == [LegacyResponse("404", NaN, true)]
    ensures var m := Method("get", 0, 0, []);
      HitTimes(m, "404", 2).responses == [Response("404", 2, true)]
  {
    var lm := LegacyMethod("get", 0, 0, []);
    var l1 := LegacyHitTimes(lm, "404", 1);
    assert LegacyHitTimes(lm, "404", 0) == lm;
    assert l1.responses == [LegacyResponse("404", NaN, true)];
    assert LegacyCodes(l1.responses) == ["404"];
    var m := Method("get", 0, 0, []);
    var m1 := HitTimes(m, "404", 1);
    assert HitTimes(m, "404", 0) == m;
    assert m1.responses == [Response("404", 1, true)];
    assert CodesOf(m1.responses) == ["404"];
  }
}
