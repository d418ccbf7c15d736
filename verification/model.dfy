/**
  The tracked OpenAPI document: paths, their methods and their responses in
  declaration order, each carrying the counters `addCallCounts` installs.
  `callCount` counts hits, `totalCalls` is the fixed capacity (the number of
  declared responses below that node).
 */
module Model {
  import opened Wrappers
  import opened Templates
  import opened Matching

  /** One entry of a method's `responses` object, keyed by status code or `default`. */
  datatype Response = Response(code: string, callCount: nat, isUnexpected: bool)

  /** One operation of a path, keyed by its HTTP method name. */
  datatype Method = Method(name: string, callCount: nat, totalCalls: nat, responses: seq<Response>)

  /** One entry of `paths`, keyed by its template. */
  datatype PathItem = PathItem(template: string, callCount: nat, totalCalls: nat, methods: seq<Method>)

  /** The document: `servers`, `paths` and `info.title` may each be absent. */
  datatype Document = Document(
    servers: Option<seq<string>>,
    paths: Option<seq<PathItem>>,
    title: Option<string>,
    callCount: nat,
    totalCalls: nat)

  // ---------------------------------------------------------------- keys

  function TemplatesOf(ps: seq<PathItem>): (r: seq<string>)
    ensures |r| == |ps| && forall i | 0 <= i < |ps| :: r[i] == ps[i].template
  {
    seq(|ps|, i requires 0 <= i < |ps| => ps[i].template)
  }

  function NamesOf(ms: seq<Method>): (r: seq<string>)
    ensures |r| == |ms| && forall j | 0 <= j < |ms| :: r[j] == ms[j].name
  {
    seq(|ms|, j requires 0 <= j < |ms| => ms[j].name)
  }

  function CodesOf(rs: seq<Response>): (r: seq<string>)
    ensures |r| == |rs| && forall k | 0 <= k < |rs| :: r[k] == rs[k].code
  {
    seq(|rs|, k requires 0 <= k < |rs| => rs[k].code)
  }

  /** The paths to iterate over: `for ... in undefined` visits nothing. */
  function PathsOr(d: Document): seq<PathItem> {
    if d.paths.Some? then d.paths.value else []
  }

  // ---------------------------------------------------------------- sums

  /** The sum of `f` over a sequence. */
  function Sum<T>(s: seq<T>, f: T -> nat): nat
    decreases |s|
  {
    if |s| == 0 then 0 else Sum(s[..|s| - 1], f) + f(s[|s| - 1])
  }

  lemma SumAppend<T>(s: seq<T>, x: T, f: T -> nat)
    ensures Sum(s + [x], f) == Sum(s, f) + f(x)
  {
    assert (s + [x])[..|s|] == s;
  }

  /** Replacing one element changes the sum by the difference of its terms. */
  lemma {:induction false} SumUpdate<T>(s: seq<T>, i: nat, x: T, f: T -> nat)
    requires i < |s|
    ensures Sum(s[i := x], f) + f(s[i]) == Sum(s, f) + f(x)
    decreases |s|
  {
    var n := |s| - 1;
    if i < n {
      SumUpdate(s[..n], i, x, f);
      assert s[i := x][..n] == s[..n][i := x];
    } else {
      assert s[i := x][..n] == s[..n];
    }
  }

  /** A pointwise smaller term gives a smaller sum, equal exactly when every term is equal. */
  lemma {:induction false} SumLe<T>(s: seq<T>, f: T -> nat, g: T -> nat)
    requires forall k | 0 <= k < |s| :: f(s[k]) <= g(s[k])
    ensures Sum(s, f) <= Sum(s, g)
    ensures Sum(s, f) == Sum(s, g) <==> forall k | 0 <= k < |s| :: f(s[k]) == g(s[k])
    decreases |s|
  {
    if |s| > 0 {
      var n := |s| - 1;
      SumLe(s[..n], f, g);
      if Sum(s, f) == Sum(s, g) {
        forall k | 0 <= k < |s| ensures f(s[k]) == g(s[k]) {
          if k < n { assert s[..n][k] == s[k]; }
        }
      }
    }
  }

  /** Terms that are all zero sum to zero. */
  lemma {:induction false} SumZero<T>(s: seq<T>, f: T -> nat)
    requires forall k | 0 <= k < |s| :: f(s[k]) == 0
    ensures Sum(s, f) == 0
    decreases |s|
  {
    if |s| > 0 {
      SumZero(s[..|s| - 1], f);
    }
  }

  /** Terms that are all one sum to the length. */
  lemma {:induction false} SumOnes<T>(s: seq<T>, f: T -> nat)
    requires forall k | 0 <= k < |s| :: f(s[k]) == 1
    ensures Sum(s, f) == |s|
    decreases |s|
  {
    if |s| > 0 {
      SumOnes(s[..|s| - 1], f);
    }
  }

  // ---------------------------------------------------------------- counters

  function DeclaredOne(r: Response): nat { if r.isUnexpected then 0 else 1 }
  function CoveredOne(r: Response): nat { if !r.isUnexpected && r.callCount > 0 then 1 else 0 }
  function MethodCalls(m: Method): nat { m.callCount }
  function MethodTotal(m: Method): nat { m.totalCalls }
  function PathCalls(p: PathItem): nat { p.callCount }
  function PathTotal(p: PathItem): nat { p.totalCalls }

  /** Number of declared (not unexpected) responses. */
  function Declared(rs: seq<Response>): nat { Sum(rs, DeclaredOne) }

  /** Number of declared responses hit at least once. */
  function Covered(rs: seq<Response>): nat { Sum(rs, CoveredOne) }

  predicate DistinctCodes(rs: seq<Response>) {
    forall a, b | 0 <= a < b < |rs| :: rs[a].code != rs[b].code
  }

  /**
    A method's counters: its capacity is its number of declared responses, its
    count the number of those hit at least once. An unexpected entry has been
    hit, and never sits beside a declared `default`.
   */
  predicate ValidMethod(m: Method) {
    && DistinctCodes(m.responses)
    && m.totalCalls == Declared(m.responses)
    && m.callCount == Covered(m.responses)
    && (forall k | 0 <= k < |m.responses| && m.responses[k].isUnexpected :: m.responses[k].callCount >= 1)
    && forall k, l | 0 <= k < |m.responses| && 0 <= l < |m.responses| ::
         m.responses[k].isUnexpected && m.responses[l].code == "default" ==> m.responses[l].isUnexpected
  }

  /** A path's counters are the sums over its methods; its method keys are distinct and none is a counter field. */
  predicate ValidPath(p: PathItem) {
    && (forall a, b | 0 <= a < b < |p.methods| :: p.methods[a].name != p.methods[b].name)
    && (forall j | 0 <= j < |p.methods| :: !IsReserved(p.methods[j].name) && ValidMethod(p.methods[j]))
    && p.totalCalls == Sum(p.methods, MethodTotal)
    && p.callCount == Sum(p.methods, MethodCalls)
  }

  /** Templates the matcher can read (see WellFormedTemplate). */
  predicate Matchable(d: Document) {
    d.paths.Some? ==> AllWellFormed(TemplatesOf(d.paths.value))
  }

  /** The whole tracked document: every node valid and the document counters the sums over its paths. */
  predicate ValidDocument(d: Document) {
    && Matchable(d)
    && Distinct(TemplatesOf(PathsOr(d)))
    && (forall i | 0 <= i < |PathsOr(d)| :: ValidPath(PathsOr(d)[i]))
    && d.totalCalls == Sum(PathsOr(d), PathTotal)
    && d.callCount == Sum(PathsOr(d), PathCalls)
  }

  // ---------------------------------------------------------------- addCallCounts

  function ResetMethod(m: Method): (r: Method)
    ensures r.name == m.name && r.callCount == 0 && r.totalCalls == |m.responses|
    ensures |r.responses| == |m.responses|
    ensures forall k | 0 <= k < |m.responses| :: r.responses[k] == m.responses[k].(callCount := 0)
  {
    Method(m.name, 0, |m.responses|,
      seq(|m.responses|, k requires 0 <= k < |m.responses| => m.responses[k].(callCount := 0)))
  }

  function ResetPath(p: PathItem): (r: PathItem)
    ensures r.template == p.template && r.callCount == 0 && |r.methods| == |p.methods|
    ensures forall j | 0 <= j < |p.methods| :: r.methods[j] == ResetMethod(p.methods[j])
    ensures r.totalCalls == Sum(r.methods, MethodTotal)
  {
    var ms := seq(|p.methods|, j requires 0 <= j < |p.methods| => ResetMethod(p.methods[j]));
    PathItem(p.template, 0, Sum(ms, MethodTotal), ms)
  }

  function ResetPaths(ps: seq<PathItem>): (r: seq<PathItem>)
    ensures |r| == |ps| && forall i | 0 <= i < |ps| :: r[i] == ResetPath(ps[i])
  {
    seq(|ps|, i requires 0 <= i < |ps| => ResetPath(ps[i]))
  }

  /**
    `addCallCounts`: every counter back to 0, every method's capacity the number
    of its responses, every path's and the document's the sum below it. Keys,
    servers and title are untouched.
   */
  function WithCallCounts(d: Document): (r: Document)
    ensures r.servers == d.servers && r.title == d.title && r.paths.Some? == d.paths.Some?
    ensures r.callCount == 0 && r.totalCalls == Sum(PathsOr(r), PathTotal)
    ensures PathsOr(r) == ResetPaths(PathsOr(d))
  {
    var ps := ResetPaths(PathsOr(d));
    Document(d.servers, if d.paths.Some? then Some(ps) else None, d.title, 0, Sum(ps, PathTotal))
  }

  /** A freshly parsed document: readable templates, distinct keys, method keys
      that are not counter fields, and no unexpected entries yet. */
  predicate Loadable(d: Document) {
    && Matchable(d)
    && Distinct(TemplatesOf(PathsOr(d)))
    && forall i | 0 <= i < |PathsOr(d)| ::
         var p := PathsOr(d)[i];
         && (forall a, b | 0 <= a < b < |p.methods| :: p.methods[a].name != p.methods[b].name)
         && forall j | 0 <= j < |p.methods| ::
              && !IsReserved(p.methods[j].name)
              && DistinctCodes(p.methods[j].responses)
              && forall k | 0 <= k < |p.methods[j].responses| :: !p.methods[j].responses[k].isUnexpected
  }

  /** Resetting a method with no unexpected entries gives a valid method whose
      capacity is its number of declared responses. */
  lemma ResetMethodValid(m: Method)
    requires !IsReserved(m.name) && DistinctCodes(m.responses)
    requires forall k | 0 <= k < |m.responses| :: !m.responses[k].isUnexpected
    ensures ValidMethod(ResetMethod(m)) && ResetMethod(m).totalCalls == |m.responses|
  {
    var r := ResetMethod(m);
    SumOnes(r.responses, DeclaredOne);
    SumZero(r.responses, CoveredOne);
  }

  /** Resetting a path whose methods are as parsed gives a valid path with nothing covered. */
  lemma ResetPathValid(p: PathItem)
    requires forall a, b | 0 <= a < b < |p.methods| :: p.methods[a].name != p.methods[b].name
    requires forall j | 0 <= j < |p.methods| ::
      && !IsReserved(p.methods[j].name)
      && DistinctCodes(p.methods[j].responses)
      && forall k | 0 <= k < |p.methods[j].responses| :: !p.methods[j].responses[k].isUnexpected
    ensures ValidPath(ResetPath(p)) && ResetPath(p).callCount == 0
  {
    var r := ResetPath(p);
    forall j | 0 <= j < |p.methods| ensures ValidMethod(r.methods[j]) {
      ResetMethodValid(p.methods[j]);
    }
    SumZero(r.methods, MethodCalls);
  }

  /** `addCallCounts` on a freshly parsed document yields a valid tracked document with nothing covered. */
  lemma {:induction false} LoadedIsValid(d: Document)
    requires Loadable(d)
    ensures ValidDocument(WithCallCounts(d))
    ensures WithCallCounts(d).callCount == 0
    ensures forall i | 0 <= i < |PathsOr(d)| :: PathsOr(WithCallCounts(d))[i].callCount == 0
  {
    var r := WithCallCounts(d);
    var ps := PathsOr(r);
    assert TemplatesOf(ps) == TemplatesOf(PathsOr(d));
    forall i | 0 <= i < |ps| ensures ValidPath(ps[i]) && ps[i].callCount == 0 {
      ResetPathValid(PathsOr(d)[i]);
    }
    SumZero(ps, PathCalls);
  }

  // ---------------------------------------------------------------- bounds

  /** A method has covered no more responses than it declares. */
  lemma MethodWithinCapacity(m: Method)
    requires ValidMethod(m)
    ensures m.callCount <= m.totalCalls
    ensures m.callCount == m.totalCalls <==>
      forall k | 0 <= k < |m.responses| && !m.responses[k].isUnexpected :: m.responses[k].callCount > 0
  {
    SumLe(m.responses, CoveredOne, DeclaredOne);
  }

  /** A path has covered no more responses than it declares. */
  lemma PathWithinCapacity(p: PathItem)
    requires ValidPath(p)
    ensures p.callCount <= p.totalCalls
    ensures p.callCount == p.totalCalls <==>
      forall j | 0 <= j < |p.methods| :: p.methods[j].callCount == p.methods[j].totalCalls
  {
    forall j | 0 <= j < |p.methods| ensures MethodCalls(p.methods[j]) <= MethodTotal(p.methods[j]) {
      MethodWithinCapacity(p.methods[j]);
    }
    SumLe(p.methods, MethodCalls, MethodTotal);
  }

  /** Every counter of a valid document is at most its capacity. */
  lemma WithinCapacity(d: Document)
    requires ValidDocument(d)
    ensures d.callCount <= d.totalCalls
    ensures forall i | 0 <= i < |PathsOr(d)| :: PathsOr(d)[i].callCount <= PathsOr(d)[i].totalCalls
    ensures forall i, j | 0 <= i < |PathsOr(d)| && 0 <= j < |PathsOr(d)[i].methods| ::
      PathsOr(d)[i].methods[j].callCount <= PathsOr(d)[i].methods[j].totalCalls
  {
    var ps := PathsOr(d);
    forall i | 0 <= i < |ps| ensures PathCalls(ps[i]) <= PathTotal(ps[i]) {
      PathWithinCapacity(ps[i]);
    }
    forall i, j | 0 <= i < |ps| && 0 <= j < |ps[i].methods|
      ensures ps[i].methods[j].callCount <= ps[i].methods[j].totalCalls
    {
      MethodWithinCapacity(ps[i].methods[j]);
    }
    SumLe(ps, PathCalls, PathTotal);
  }

  /** The document is fully covered exactly when every declared response of every method has been hit. */
  lemma FullCoverage(d: Document)
    requires ValidDocument(d)
    ensures d.callCount == d.totalCalls <==>
      forall i, j, k | 0 <= i < |PathsOr(d)| && 0 <= j < |PathsOr(d)[i].methods|
                      && 0 <= k < |PathsOr(d)[i].methods[j].responses|
                      && !PathsOr(d)[i].methods[j].responses[k].isUnexpected ::
        PathsOr(d)[i].methods[j].responses[k].callCount > 0
  {
    var ps := PathsOr(d);
    forall i | 0 <= i < |ps|
      ensures PathCalls(ps[i]) <= PathTotal(ps[i])
      ensures PathCalls(ps[i]) == PathTotal(ps[i]) <==>
        forall j | 0 <= j < |ps[i].methods| :: ps[i].methods[j].callCount == ps[i].methods[j].totalCalls
    {
      PathWithinCapacity(ps[i]);
    }
    SumLe(ps, PathCalls, PathTotal);
    forall i, j | 0 <= i < |ps| && 0 <= j < |ps[i].methods|
      ensures ps[i].methods[j].callCount == ps[i].methods[j].totalCalls <==>
        forall k | 0 <= k < |ps[i].methods[j].responses| && !ps[i].methods[j].responses[k].isUnexpected ::
          ps[i].methods[j].responses[k].callCount > 0
    {
      MethodWithinCapacity(ps[i].methods[j]);
    }
  }
}
