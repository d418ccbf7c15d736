/**
  The request matcher's searches, over the declared names in declaration
  order: which server a URL belongs to (`getServer` and the fixed-server
  override), which path template it resolves to (`getPath`, in the class's
  disambiguating form and in the older first-match form), and which method
  key a request method names (`getMethodCaseInsensitive`).
 */
module Matching {
  import opened Wrappers
  import opened Strings
  import opened Templates

  // ---------------------------------------------------------------- servers

  /** The position of the first declared server URL that is a prefix of `url`. */
  function FirstPrefix(servers: seq<string>, url: string): (r: Option<nat>)
    ensures r.Some? ==> r.value < |servers| && StartsWith(url, servers[r.value])
    ensures r.Some? ==> forall j | 0 <= j < r.value :: !StartsWith(url, servers[j])
    ensures r.None? ==> forall j | 0 <= j < |servers| :: !StartsWith(url, servers[j])
    decreases |servers|
  {
    if |servers| == 0 then None
    else if StartsWith(url, servers[0]) then Some(0)
    else match FirstPrefix(servers[1..], url)
      case None => None
      case Some(i) => Some(i + 1)
  }

  /**
    The server an exchange is attributed to: a non-empty fixed server URL that
    is a prefix of the request wins; otherwise the first declared prefix. An
    empty server URL is falsy in the source and counts as no match.
   */
  function ResolveServer(servers: seq<string>, url: string, fixedServer: Option<string>): Option<string> {
    if fixedServer.Some? && fixedServer.value != "" && StartsWith(url, fixedServer.value) then
      fixedServer
    else match FirstPrefix(servers, url)
      case None => None
      case Some(i) => if servers[i] == "" then None else Some(servers[i])
  }

  /** The resolved server is always a non-empty prefix of the URL, either the
      fixed override or a declared server with no earlier declared prefix. */
  lemma ResolveServerSound(servers: seq<string>, url: string, fixedServer: Option<string>)
    ensures var r := ResolveServer(servers, url, fixedServer);
      r.Some? ==> (r.value != "" && StartsWith(url, r.value)
        && (r != fixedServer ==>
              exists i | 0 <= i < |servers| :: servers[i] == r.value
                && forall j | 0 <= j < i :: !StartsWith(url, servers[j])))
  {
    var r := ResolveServer(servers, url, fixedServer);
    if r.Some? && r != fixedServer {
      var i := FirstPrefix(servers, url).value;
      assert servers[i] == r.value;
    }
  }

  /** An applicable fixed server bypasses the declared servers entirely. */
  lemma FixedServerWins(servers: seq<string>, url: string, fixed: string)
    requires fixed != "" && StartsWith(url, fixed)
    ensures ResolveServer(servers, url, Some(fixed)) == Some(fixed)
  {
  }

  /** Without an applicable override, declaration order decides: a later
      server is never chosen over an earlier one that is also a prefix, even
      when the later one is longer. */
  lemma EarlierServerWins(servers: seq<string>, url: string, fixedServer: Option<string>, i: nat, j: nat)
    requires i < j < |servers|
    requires StartsWith(url, servers[i]) && StartsWith(url, servers[j])
    requires forall k | 0 <= k < j :: servers[k] != servers[j]
    requires !(fixedServer.Some? && fixedServer.value != "" && StartsWith(url, fixedServer.value))
    ensures ResolveServer(servers, url, fixedServer) != Some(servers[j])
  {
    var k := FirstPrefix(servers, url).value;
    assert k <= i;
  }

  /** Without an applicable override, the first declared prefix is the one
      chosen, provided it is not the empty (falsy) server URL. */
  lemma ResolveServerComplete(servers: seq<string>, url: string, fixedServer: Option<string>, i: nat)
    requires !(fixedServer.Some? && fixedServer.value != "" && StartsWith(url, fixedServer.value))
    requires i < |servers| && servers[i] != "" && StartsWith(url, servers[i])
    requires forall j | 0 <= j < i :: !StartsWith(url, servers[j])
    ensures ResolveServer(servers, url, fixedServer) == Some(servers[i])
  {
    var k := FirstPrefix(servers, url).value;
    assert k == i;
  }

  /** No declared prefix and no applicable override: no server. */
  lemma NoServerMatch(servers: seq<string>, url: string, fixedServer: Option<string>)
    requires forall j | 0 <= j < |servers| :: !StartsWith(url, servers[j])
    requires !(fixedServer.Some? && fixedServer.value != "" && StartsWith(url, fixedServer.value))
    ensures ResolveServer(servers, url, fixedServer).None?
  {
  }

  /** `url.replace(server, '')` followed by dropping one trailing '/'. */
  function RelativeUrl(url: string, server: string): string {
    var rest := RemoveFirst(url, server);
    if EndsWithChar(rest, '/') then rest[..|rest| - 1] else rest
  }

  /** For a server that prefixes the URL, the relative URL is what follows the
      server, less at most one trailing '/'. */
  lemma RelativeUrlStrips(url: string, server: string)
    requires StartsWith(url, server)
    ensures var rel := RelativeUrl(url, server);
      url == server + rel + (if EndsWithChar(url[|server|..], '/') then "/" else "")
      && (EndsWithChar(url[|server|..], '/') <==> |rel| + |server| + 1 == |url|)
  {
    RemoveFirstOfPrefix(url, server);
    var rest := url[|server|..];
    assert url == server + rest;
    if EndsWithChar(rest, '/') {
      assert rest == rest[..|rest| - 1] + "/";
    }
  }

  // ---------------------------------------------------------------- paths

  /** Every declared template is one the segment matcher models faithfully. */
  predicate AllWellFormed(templates: seq<string>) {
    forall i | 0 <= i < |templates| :: WellFormedTemplate(templates[i])
  }

  /** Positions in strictly increasing order (hence without repeats). */
  predicate Increasing(s: seq<nat>) {
    forall k, l | 0 <= k < l < |s| :: s[k] < s[l]
  }

  /** The templates matching `url`, by position, in declaration order (the source's `filter`). */
  function Candidates(templates: seq<string>, url: string): (c: seq<nat>)
    requires AllWellFormed(templates)
    ensures forall k | 0 <= k < |c| :: c[k] < |templates| && CheckPath(url, templates[c[k]])
    ensures forall i | 0 <= i < |templates| && CheckPath(url, templates[i]) :: i in c
    ensures Increasing(c)
    decreases |templates|
  {
    if |templates| == 0 then []
    else
      var n := |templates| - 1;
      var prefix := templates[..n];
      assert forall i | 0 <= i < n :: prefix[i] == templates[i];
      var c := Candidates(prefix, url);
      var last: seq<nat> := [n];
      var r := if CheckPath(url, templates[n]) then c + last else c;
      CandidatesStep(templates, prefix, url, c, r);
      r
  }

  /** One step of the filter: the candidates among all but the last template,
      extended by the last one when it matches, are the candidates of all. */
  lemma CandidatesStep(templates: seq<string>, prefix: seq<string>, url: string, c: seq<nat>, r: seq<nat>)
    requires AllWellFormed(templates) && |templates| >= 1
    requires prefix == templates[..|templates| - 1] && AllWellFormed(prefix)
    requires forall k | 0 <= k < |c| :: c[k] < |prefix| && CheckPath(url, prefix[c[k]])
    requires forall i | 0 <= i < |prefix| && CheckPath(url, prefix[i]) :: i in c
    requires Increasing(c)
    requires r == if CheckPath(url, templates[|templates| - 1]) then c + [|templates| - 1] else c
    ensures forall k | 0 <= k < |r| :: r[k] < |templates| && CheckPath(url, templates[r[k]])
    ensures forall i | 0 <= i < |templates| && CheckPath(url, templates[i]) :: i in r
    ensures Increasing(r)
  {
    var n := |templates| - 1;
    forall k | 0 <= k < |r|
      ensures r[k] < |templates| && CheckPath(url, templates[r[k]])
    {
      if k < |c| { assert r[k] == c[k] && prefix[c[k]] == templates[c[k]]; }
    }
    forall i | 0 <= i < |templates| && CheckPath(url, templates[i])
      ensures i in r
    {
      if i < n {
        assert prefix[i] == templates[i];
        var k :| 0 <= k < |c| && c[k] == i;
        assert r[k] == i;
      } else {
        assert r[|c|] == i;
      }
    }
    forall k, l | 0 <= k < l < |r|
      ensures r[k] < r[l]
    {
      assert r[k] == c[k];
      if l < |c| { assert r[l] == c[l]; }
    }
  }

  /** The template's segment at `pos` is string-equal to the URL's (`pathParts[partNumber] === urlPart`). */
  predicate SegmentAgrees(tpl: string, urlParts: seq<string>, pos: nat) {
    pos < |Split(tpl)| && pos < |urlParts| && Split(tpl)[pos] == urlParts[pos]
  }

  /** The template agrees with the URL at every position 1..pos. */
  predicate AgreesUpTo(tpl: string, urlParts: seq<string>, pos: nat) {
    forall q | 1 <= q <= pos :: SegmentAgrees(tpl, urlParts, q)
  }

  /** The candidates whose segment at `pos` is string-equal to the URL's, in order (one round of `splice`). */
  function Keep(templates: seq<string>, cands: seq<nat>, urlParts: seq<string>, pos: nat): (r: seq<nat>)
    requires forall k | 0 <= k < |cands| :: cands[k] < |templates|
    ensures |r| <= |cands|
    ensures forall k | 0 <= k < |r| :: r[k] < |templates|
    decreases |cands|
  {
    if |cands| == 0 then []
    else
      var rest := Keep(templates, cands[1..], urlParts, pos);
      if SegmentAgrees(templates[cands[0]], urlParts, pos) then [cands[0]] + rest else rest
  }

  /**
    One round keeps exactly the candidates that agree with the URL at `pos`,
    and keeps them in their order.
   */
  lemma {:induction false} KeepMembers(templates: seq<string>, cands: seq<nat>, urlParts: seq<string>, pos: nat)
    requires forall k | 0 <= k < |cands| :: cands[k] < |templates|
    ensures var r := Keep(templates, cands, urlParts, pos);
      && (forall x | x in r :: x in cands && SegmentAgrees(templates[x], urlParts, pos))
      && (forall x | x in cands && SegmentAgrees(templates[x], urlParts, pos) :: x in r)
      && (Increasing(cands) ==> Increasing(r))
    decreases |cands|
  {
    if |cands| > 0 {
      var tail := cands[1..];
      KeepMembers(templates, tail, urlParts, pos);
      var rest := Keep(templates, tail, urlParts, pos);
      TailMembers(cands, rest);
      forall x | x in cands && x != cands[0] ensures x in tail {
        var k :| 0 <= k < |cands| && cands[k] == x;
        assert tail[k - 1] == x;
      }
    }
  }

  /** What is drawn from the tail of `cands` is drawn from `cands`, and may follow its head. */
  lemma TailMembers(cands: seq<nat>, rest: seq<nat>)
    requires |cands| > 0
    requires forall x | x in rest :: x in cands[1..]
    ensures forall x | x in rest :: x in cands
    ensures Increasing(cands) ==> Increasing(cands[1..])
    ensures Increasing(cands) && Increasing(rest) ==> Increasing([cands[0]] + rest)
  {
    forall k | 0 <= k < |rest| ensures rest[k] in cands && (Increasing(cands) ==> cands[0] < rest[k]) {
      assert rest[k] in rest;
      var j :| 0 <= j < |cands[1..]| && cands[1..][j] == rest[k];
      assert cands[j + 1] == rest[k];
    }
  }

  /** Progressive elimination from URL position `pos` onward (the source's loop over `partNumber`). */
  function Eliminate(templates: seq<string>, cands: seq<nat>, urlParts: seq<string>, pos: nat): Option<nat>
    requires forall k | 0 <= k < |cands| :: cands[k] < |templates|
    decreases |urlParts| - pos
  {
    if pos >= |urlParts| then None
    else
      var rest := Keep(templates, cands, urlParts, pos);
      if |rest| == 1 then Some(rest[0])
      else if |rest| == 0 then None
      else Eliminate(templates, rest, urlParts, pos + 1)
  }

  /**
    `getPath` of the class: no candidate gives nothing, a single candidate is
    returned as is, several are narrowed position by position from 1.
   */
  function ResolvePath(templates: seq<string>, url: string): Option<nat>
    requires AllWellFormed(templates)
  {
    var c := Candidates(templates, url);
    if |c| == 0 then None
    else if |c| == 1 then Some(c[0])
    else Eliminate(templates, c, Split(url), 1)
  }

  /** `getPath` of lib/utils.js: the first template in declaration order that matches. */
  function FirstMatch(templates: seq<string>, url: string): (r: Option<nat>)
    requires AllWellFormed(templates)
    ensures r.Some? ==> r.value < |templates| && CheckPath(url, templates[r.value])
    ensures r.Some? ==> forall j | 0 <= j < r.value :: !CheckPath(url, templates[j])
    ensures r.None? ==> forall j | 0 <= j < |templates| :: !CheckPath(url, templates[j])
    decreases |templates|
  {
    if |templates| == 0 then None
    else if CheckPath(url, templates[0]) then Some(0)
    else match FirstMatch(templates[1..], url)
      case None => None
      case Some(i) => Some(i + 1)
  }

  /** Elimination only ever returns one of the candidates it started from,
      one that agreed with the URL at the first position it looked at. */
  lemma {:induction false} EliminateMember(templates: seq<string>, cands: seq<nat>, urlParts: seq<string>, pos: nat)
    requires forall k | 0 <= k < |cands| :: cands[k] < |templates|
    ensures var r := Eliminate(templates, cands, urlParts, pos);
      r.Some? ==> r.value in cands && pos < |urlParts| && r.value < |templates|
                  && SegmentAgrees(templates[r.value], urlParts, pos)
    decreases |urlParts| - pos
  {
    if pos < |urlParts| {
      var rest := Keep(templates, cands, urlParts, pos);
      KeepMembers(templates, cands, urlParts, pos);
      var r := Eliminate(templates, cands, urlParts, pos);
      if |rest| > 1 {
        assert r == Eliminate(templates, rest, urlParts, pos + 1);
        EliminateMember(templates, rest, urlParts, pos + 1);
      }
      if r.Some? {
        assert r.value in rest;
      }
    }
  }

  /** A round in which every candidate agrees keeps them all. */
  lemma {:induction false} KeepAllAgree(templates: seq<string>, cands: seq<nat>, urlParts: seq<string>, pos: nat)
    requires forall k | 0 <= k < |cands| :: cands[k] < |templates| && SegmentAgrees(templates[cands[k]], urlParts, pos)
    ensures Keep(templates, cands, urlParts, pos) == cands
    decreases |cands|
  {
    if |cands| > 0 {
      KeepAllAgree(templates, cands[1..], urlParts, pos);
      assert [cands[0]] + cands[1..] == cands;
    }
  }

  /** A round in which no candidate agrees keeps none. */
  lemma {:induction false} KeepNoneAgree(templates: seq<string>, cands: seq<nat>, urlParts: seq<string>, pos: nat)
    requires forall k | 0 <= k < |cands| :: cands[k] < |templates| && !SegmentAgrees(templates[cands[k]], urlParts, pos)
    ensures Keep(templates, cands, urlParts, pos) == []
    decreases |cands|
  {
    if |cands| > 0 {
      KeepNoneAgree(templates, cands[1..], urlParts, pos);
    }
  }

  /**
    Elimination from position `p` on gives nothing when two or more candidates
    all agree with the URL before position `pos` and all differ from it at `pos`:
    the round at `pos` drops every one of them.
   */
  lemma {:induction false} EliminateDropsAll(templates: seq<string>, cands: seq<nat>, urlParts: seq<string>, p: nat, pos: nat)
    requires forall k | 0 <= k < |cands| :: cands[k] < |templates|
    requires |cands| >= 2 && 1 <= p <= pos
    requires forall k | 0 <= k < |cands| :: AgreesUpTo(templates[cands[k]], urlParts, pos - 1)
    requires forall k | 0 <= k < |cands| :: !SegmentAgrees(templates[cands[k]], urlParts, pos)
    ensures Eliminate(templates, cands, urlParts, p).None?
    decreases pos - p
  {
    if p < |urlParts| {
      if p < pos {
        forall k | 0 <= k < |cands| ensures SegmentAgrees(templates[cands[k]], urlParts, p) {
          assert AgreesUpTo(templates[cands[k]], urlParts, pos - 1);
        }
        KeepAllAgree(templates, cands, urlParts, p);
        EliminateDropsAll(templates, cands, urlParts, p + 1, pos);
      } else {
        KeepNoneAgree(templates, cands, urlParts, p);
      }
    }
  }

  /**
    `getPath` of the class returns nothing, the source's "ambiguous or no
    matching path" case, when several templates match the URL, agree with it
    up to some position and all differ from it there.
   */
  lemma ResolvePathDropsAll(templates: seq<string>, url: string, pos: nat)
    requires AllWellFormed(templates)
    requires 1 <= pos && |Candidates(templates, url)| >= 2
    requires var c := Candidates(templates, url);
      forall k | 0 <= k < |c| ::
        AgreesUpTo(templates[c[k]], Split(url), pos - 1) && !SegmentAgrees(templates[c[k]], Split(url), pos)
    ensures ResolvePath(templates, url).None?
  {
    EliminateDropsAll(templates, Candidates(templates, url), Split(url), 1, pos);
  }

  /**
    Two matching templates of three segments that agree with the URL in the
    middle and both differ from it at the end leave the class's `getPath`
    with nothing.
   */
  lemma TwoDifferAtEnd(t1: string, t2: string, url: string)
    requires WellFormedTemplate(t1) && WellFormedTemplate(t2)
    requires CheckPath(url, t1) && CheckPath(url, t2) && |Split(url)| == 3
    requires Split(t1)[1] == Split(url)[1] && Split(t2)[1] == Split(url)[1]
    requires Split(t1)[2] != Split(url)[2] && Split(t2)[2] != Split(url)[2]
    ensures AllWellFormed([t1, t2]) && ResolvePath([t1, t2], url).None?
  {
    var ts := [t1, t2];
    var c := Candidates(ts, url);
    assert 0 in c && 1 in c;
    assert |c| >= 2;
    forall k | 0 <= k < |c|
      ensures AgreesUpTo(ts[c[k]], Split(url), 1) && !SegmentAgrees(ts[c[k]], Split(url), 2)
    {
      assert ts[c[k]] == t1 || ts[c[k]] == t2;
    }
    ResolvePathDropsAll(ts, url, 2);
  }

  /**
    Two templates that differ only in the names of their placeholders both
    match `/a/b`, agree with it at `a` and both differ from it at `b`, so the
    class's `getPath` gives nothing for them.
   */
  lemma PlaceholderTwinsAmbiguous()
    ensures AllWellFormed(["/a/{x}", "/a/{y}"])
    ensures ResolvePath(["/a/{x}", "/a/{y}"], "/a/b").None?
  {
    TwinsMatch();
    TwoDifferAtEnd("/a/{x}", "/a/{y}", "/a/b");
  }

  /** Both twins are well formed and match `/a/b`, segment by segment. */
  lemma TwinsMatch()
    ensures Split("/a/b") == ["", "a", "b"]
    ensures Split("/a/{x}") == ["", "a", "{x}"] && Split("/a/{y}") == ["", "a", "{y}"]
    ensures WellFormedTemplate("/a/{x}") && CheckPath("/a/b", "/a/{x}")
    ensures WellFormedTemplate("/a/{y}") && CheckPath("/a/b", "/a/{y}")
  {
    UnderA("/a/b", "b");
    TwinUnderA("/a/b", "/a/{x}", 'x');
    TwinUnderA("/a/b", "/a/{y}", 'y');
  }

  /** A one-letter placeholder under `/a/` splits into three segments and matches the URL. */
  lemma TwinUnderA(url: string, tpl: string, name: char)
    requires Split(url) == ["", "a", "b"]
    requires |tpl| == 6 && tpl[0] == '/' && tpl[1] == 'a' && tpl[2] == '/'
    requires tpl[3] == '{' && tpl[4] == name && tpl[5] == '}' && name !in "/{}"
    ensures Split(tpl) == ["", "a", tpl[3..]]
    ensures WellFormedTemplate(tpl) && CheckPath(url, tpl)
  {
    assert tpl == "/a/" + ['{', name, '}'];
    UnderA(tpl, ['{', name, '}']);
    PlaceholderUnderA(url, tpl);
  }

  /** The segments of `/a/` followed by a slash-free tail. */
  lemma UnderA(t: string, last: string)
    requires t == "/a/" + last && '/' !in last
    ensures Split(t) == ["", "a", last]
  {
    var segments := ["", "a", last];
    assert Join(segments[2..]) == last;
    assert Join(segments[1..]) == "a" + "/" + last;
    assert Join(segments) == t;
    SplitJoin(segments);
  }

  /** A well-formed `/a/{name}` template matches `/a/b`. */
  lemma PlaceholderUnderA(url: string, tpl: string)
    requires Split(url) == ["", "a", "b"]
    requires |tpl| == 6 && tpl[..3] == "/a/" && Split(tpl) == ["", "a", tpl[3..]]
    requires IsPlaceholder(tpl[3..])
    ensures WellFormedTemplate(tpl) && CheckPath(url, tpl)
  {
    assert IndexOfChar(tpl, '{') == 3;
  }

  /** The class's `getPath` only ever returns a template that matches the URL. */
  lemma ResolvePathSound(templates: seq<string>, url: string)
    requires AllWellFormed(templates)
    ensures var r := ResolvePath(templates, url);
      r.Some? ==> r.value < |templates| && CheckPath(url, templates[r.value])
  {
    var c := Candidates(templates, url);
    if |c| > 1 {
      EliminateMember(templates, c, Split(url), 1);
    }
  }

  /** No matching template gives no path; a single one is returned without tie-breaking. */
  lemma ResolvePathFewCandidates(templates: seq<string>, url: string)
    requires AllWellFormed(templates)
    ensures (forall i | 0 <= i < |templates| :: !CheckPath(url, templates[i])) ==> ResolvePath(templates, url).None?
    ensures forall i | 0 <= i < |templates| ::
      (CheckPath(url, templates[i]) && forall j | 0 <= j < |templates| && j != i :: !CheckPath(url, templates[j]))
        ==> ResolvePath(templates, url) == Some(i)
  {
    var c := Candidates(templates, url);
    forall i | 0 <= i < |templates| &&
      CheckPath(url, templates[i]) && forall j | 0 <= j < |templates| && j != i :: !CheckPath(url, templates[j])
      ensures ResolvePath(templates, url) == Some(i)
    {
      assert i in c;
      assert forall k | 0 <= k < |c| :: c[k] == i;
      IncreasingHeadDistinct(c);
    }
  }

  /** The first two positions of an increasing sequence differ. */
  lemma IncreasingHeadDistinct(s: seq<nat>)
    ensures Increasing(s) && |s| >= 2 ==> s[0] != s[1]
  {
  }

  /** Two well-formed templates that agree with the same URL at every position are the same template. */
  lemma FullAgreementUnique(t1: string, t2: string, urlParts: seq<string>)
    requires WellFormedTemplate(t1) && WellFormedTemplate(t2)
    requires |Split(t1)| == |urlParts| && |Split(t2)| == |urlParts|
    requires AgreesUpTo(t1, urlParts, |urlParts| - 1) && AgreesUpTo(t2, urlParts, |urlParts| - 1)
    ensures t1 == t2
  {
    SplitLeadingSlash(t1);
    SplitLeadingSlash(t2);
    var s1, s2 := Split(t1), Split(t2);
    forall q | 0 <= q < |urlParts| ensures s1[q] == s2[q] {
      if q > 0 { assert SegmentAgrees(t1, urlParts, q) && SegmentAgrees(t2, urlParts, q); }
    }
    SplitInjective(t1, t2);
  }

  /** Templates are object keys, so they are pairwise distinct. */
  predicate Distinct(templates: seq<string>) {
    forall i, j | 0 <= i < j < |templates| :: templates[i] != templates[j]
  }

  /** Elimination keeps a candidate whose template is the URL itself until it is the last one. */
  lemma {:induction false} EliminateKeepsExact(templates: seq<string>, cands: seq<nat>, url: string, pos: nat, i: nat)
    requires AllWellFormed(templates) && Distinct(templates)
    requires forall k | 0 <= k < |cands| :: cands[k] < |templates| && |Split(templates[cands[k]])| == |Split(url)|
    requires Increasing(cands) && |cands| >= 2
    requires 1 <= pos
    requires forall k | 0 <= k < |cands| :: AgreesUpTo(templates[cands[k]], Split(url), pos - 1)
    requires i in cands && templates[i] == url
    ensures Eliminate(templates, cands, Split(url), pos) == Some(i)
    decreases |Split(url)| - pos
  {
    ExactSurvivesRound(templates, cands, url, pos, i);
    var rest := Keep(templates, cands, Split(url), pos);
    if |rest| != 1 {
      EliminateKeepsExact(templates, rest, url, pos + 1, i);
    }
  }

  /** One round of `EliminateKeepsExact`: the exact template is kept, with all it needs for the next round. */
  lemma ExactSurvivesRound(templates: seq<string>, cands: seq<nat>, url: string, pos: nat, i: nat)
    requires AllWellFormed(templates) && Distinct(templates)
    requires forall k | 0 <= k < |cands| :: cands[k] < |templates| && |Split(templates[cands[k]])| == |Split(url)|
    requires Increasing(cands) && |cands| >= 2
    requires 1 <= pos
    requires forall k | 0 <= k < |cands| :: AgreesUpTo(templates[cands[k]], Split(url), pos - 1)
    requires i in cands && templates[i] == url
    ensures pos < |Split(url)|
    ensures var rest := Keep(templates, cands, Split(url), pos);
      && i in rest && Increasing(rest)
      && (|rest| == 1 ==> rest[0] == i)
      && forall k | 0 <= k < |rest| ::
           rest[k] < |templates| && |Split(templates[rest[k]])| == |Split(url)| && AgreesUpTo(templates[rest[k]], Split(url), pos)
  {
    var parts := Split(url);
    TwoCandidatesLeft(templates, cands, url, pos, i);
    var rest := Keep(templates, cands, parts, pos);
    KeepMembers(templates, cands, parts, pos);
    assert SegmentAgrees(templates[i], parts, pos);
    assert i in rest;
    KeepExtendsAgreement(templates, cands, parts, pos);
  }

  /**
    While two distinct templates are still candidates, they cannot yet agree with
    the URL everywhere, so elimination has a URL position left to look at.
   */
  lemma TwoCandidatesLeft(templates: seq<string>, cands: seq<nat>, url: string, pos: nat, i: nat)
    requires AllWellFormed(templates) && Distinct(templates)
    requires forall k | 0 <= k < |cands| :: cands[k] < |templates| && |Split(templates[cands[k]])| == |Split(url)|
    requires Increasing(cands) && |cands| >= 2 && 1 <= pos
    requires forall k | 0 <= k < |cands| :: AgreesUpTo(templates[cands[k]], Split(url), pos - 1)
    requires i in cands
    ensures pos < |Split(url)|
  {
    var parts := Split(url);
    var m :| 0 <= m < |cands| && cands[m] == i;
    var n := if m == 0 then 1 else 0;
    var j := cands[n];
    assert j != i;
    if pos >= |parts| {
      FullAgreementUnique(templates[i], templates[j], parts);
      assert false;
    }
  }

  /** The survivors of one round agree with the URL one position further than the candidates did. */
  lemma KeepExtendsAgreement(templates: seq<string>, cands: seq<nat>, parts: seq<string>, pos: nat)
    requires 1 <= pos
    requires forall k | 0 <= k < |cands| :: cands[k] < |templates| && |Split(templates[cands[k]])| == |parts|
    requires forall k | 0 <= k < |cands| :: AgreesUpTo(templates[cands[k]], parts, pos - 1)
    ensures var rest := Keep(templates, cands, parts, pos);
      forall k | 0 <= k < |rest| :: |Split(templates[rest[k]])| == |parts| && AgreesUpTo(templates[rest[k]], parts, pos)
  {
    var rest := Keep(templates, cands, parts, pos);
    KeepMembers(templates, cands, parts, pos);
    forall k | 0 <= k < |rest|
      ensures |Split(templates[rest[k]])| == |parts| && AgreesUpTo(templates[rest[k]], parts, pos)
    {
      assert rest[k] in rest;
      var m :| 0 <= m < |cands| && cands[m] == rest[k];
    }
  }

  /**
    A URL that is itself a declared template resolves to that template, however
    many other templates also match it: `/a/fixed` beats `/a/{x}` for the URL
    `/a/fixed`, whatever the declaration order.
   */
  lemma ExactTemplateWins(templates: seq<string>, url: string, i: nat)
    requires AllWellFormed(templates) && Distinct(templates)
    requires i < |templates| && templates[i] == url
    ensures ResolvePath(templates, url) == Some(i)
  {
    CheckPathReflexive(url);
    var c := Candidates(templates, url);
    assert i in c;
    if |c| == 1 {
      assert c[0] == i;
    } else {
      EliminateKeepsExact(templates, c, url, 1, i);
    }
  }

  // ---------------------------------------------------------------- methods

  /** The counter fields that share an object with the method keys. */
  predicate IsReserved(key: string) {
    key == "callCount" || key == "totalCalls"
  }

  /** A method key answers a request method when it is not a counter field and
      the two are equal ignoring case. */
  predicate MethodKeyMatches(key: string, verb: string) {
    !IsReserved(key) && Lower(key) == Lower(verb)
  }

  /** `getMethodCaseInsensitive`: the position of the first key that answers `verb`. */
  function FindMethod(keys: seq<string>, verb: string): (r: Option<nat>)
    ensures r.Some? ==> r.value < |keys| && MethodKeyMatches(keys[r.value], verb)
    ensures r.Some? ==> forall j | 0 <= j < r.value :: !MethodKeyMatches(keys[j], verb)
    ensures r.None? ==> forall j | 0 <= j < |keys| :: !MethodKeyMatches(keys[j], verb)
    decreases |keys|
  {
    if |keys| == 0 then None
    else if MethodKeyMatches(keys[0], verb) then Some(0)
    else match FindMethod(keys[1..], verb)
      case None => None
      case Some(i) => Some(i + 1)
  }

  /** Method lookup never lands on a counter field, and ignores case in both directions. */
  lemma FindMethodIgnoresCase(keys: seq<string>, verb: string)
    ensures FindMethod(keys, verb) == FindMethod(keys, Lower(verb))
    ensures forall j | 0 <= j < |keys| :: IsReserved(keys[j]) ==> FindMethod(keys, verb) != Some(j)
  {
    LowerIdempotent(verb);
    SameAnswersSameMethod(keys, verb, Lower(verb));
  }

  /** Two request methods that every key answers alike find the same key. */
  lemma {:induction false} SameAnswersSameMethod(keys: seq<string>, v1: string, v2: string)
    requires forall j | 0 <= j < |keys| :: MethodKeyMatches(keys[j], v1) == MethodKeyMatches(keys[j], v2)
    ensures FindMethod(keys, v1) == FindMethod(keys, v2)
    decreases |keys|
  {
    if |keys| > 0 {
      assert forall j | 0 <= j < |keys[1..]| :: keys[1..][j] == keys[j + 1];
      SameAnswersSameMethod(keys[1..], v1, v2);
    }
  }

  // ---------------------------------------------------------------- response codes

  /** The position of `code` among the declared response keys. */
  function FindCode(codes: seq<string>, code: string): (r: Option<nat>)
    ensures r.Some? ==> r.value < |codes| && codes[r.value] == code
    ensures r.Some? ==> forall j | 0 <= j < r.value :: codes[j] != code
    ensures r.None? ==> code !in codes
    decreases |codes|
  {
    if |codes| == 0 then None
    else if codes[0] == code then Some(0)
    else match FindCode(codes[1..], code)
      case None => None
      case Some(i) => Some(i + 1)
  }
}
