/**
  `percentage` and the read-only coverage tree `createCoverage` builds from the
  tracked document.
 */
module Coverage {
  import opened Model

  /**
    `percentage(calls, totalCalls)`: 0 when there is nothing to cover, else
    `Math.round(100 * calls / totalCalls)`, the integer nearest to the exact
    quotient with halves rounded up.
   */
  function Percentage(calls: nat, total: nat): (p: nat)
    ensures total == 0 ==> p == 0
    ensures total > 0 ==> 2 * p * total <= 200 * calls + total < 2 * p * total + 2 * total
  {
    if total == 0 then 0 else (200 * calls + total) / (2 * total)
  }

  /** Multiplying by a natural number keeps the order. */
  lemma MulLe(a: int, b: int, t: nat)
    ensures a <= b ==> a * t <= b * t
  {
    if a <= b {
      assert b * t - a * t == (b - a) * t;
    }
  }

  /** Every declared response hit gives 100. */
  lemma PercentageFull(total: nat)
    requires total > 0
    ensures Percentage(total, total) == 100
  {
    var p := Percentage(total, total);
    MulLe(101, p, total);
    MulLe(p + 1, 100, total);
  }

  /** Nothing hit gives 0. */
  lemma PercentageNone(total: nat)
    ensures Percentage(0, total) == 0
  {
    var p := Percentage(0, total);
    MulLe(1, p, total);
  }

  /** Within capacity the percentage is at most 100. */
  lemma PercentageBounded(calls: nat, total: nat)
    requires calls <= total
    ensures Percentage(calls, total) <= 100
  {
    var p := Percentage(calls, total);
    MulLe(101, p, total);
    MulLe(calls, total, 200);
  }

  /** More hits never lower the percentage. */
  lemma PercentageMonotone(c1: nat, c2: nat, total: nat)
    requires c1 <= c2
    ensures Percentage(c1, total) <= Percentage(c2, total)
  {
    var p1, p2 := Percentage(c1, total), Percentage(c2, total);
    MulLe(p2 + 1, p1, total);
  }

  datatype ResponseCoverage = ResponseCoverage(code: string, callCount: nat, isUnexpected: bool)
  datatype MethodCoverage = MethodCoverage(
    name: string, callCount: nat, totalCalls: nat, callPercentage: nat, responses: seq<ResponseCoverage>)
  datatype PathCoverage = PathCoverage(
    template: string, callCount: nat, totalCalls: nat, callPercentage: nat, methods: seq<MethodCoverage>)
  /** The `coverage` object: the title (or ''), the document's figures and one entry per path. */
  datatype Coverage = Coverage(
    title: string, callCount: nat, totalCalls: nat, callPercentage: nat, paths: seq<PathCoverage>)

  function ResponseSnapshot(r: Response): ResponseCoverage {
    ResponseCoverage(r.code, r.callCount, r.isUnexpected)
  }

  function MethodSnapshot(m: Method): MethodCoverage {
    MethodCoverage(m.name, m.callCount, m.totalCalls, Percentage(m.callCount, m.totalCalls),
      seq(|m.responses|, k requires 0 <= k < |m.responses| => ResponseSnapshot(m.responses[k])))
  }

  function PathSnapshot(p: PathItem): PathCoverage {
    PathCoverage(p.template, p.callCount, p.totalCalls, Percentage(p.callCount, p.totalCalls),
      seq(|p.methods|, j requires 0 <= j < |p.methods| => MethodSnapshot(p.methods[j])))
  }

  /** The tree `createCoverage` returns for a document. */
  function Snapshot(d: Document): Coverage {
    var ps := PathsOr(d);
    Coverage(
      if d.title.Some? then d.title.value else "",
      d.callCount, d.totalCalls, Percentage(d.callCount, d.totalCalls),
      seq(|ps|, i requires 0 <= i < |ps| => PathSnapshot(ps[i])))
  }

  /** Of a valid document, every percentage in the snapshot lies between 0 and 100. */
  lemma SnapshotBounded(d: Document)
    requires ValidDocument(d)
    ensures var c := Snapshot(d);
      && c.callPercentage <= 100
      && (forall i | 0 <= i < |c.paths| :: c.paths[i].callPercentage <= 100)
      && forall i, j | 0 <= i < |c.paths| && 0 <= j < |c.paths[i].methods| ::
           c.paths[i].methods[j].callPercentage <= 100
  {
    var ps := PathsOr(d);
    WithinCapacity(d);
    PercentageBounded(d.callCount, d.totalCalls);
    forall i | 0 <= i < |ps| ensures PathSnapshot(ps[i]).callPercentage <= 100 {
      PercentageBounded(ps[i].callCount, ps[i].totalCalls);
    }
    forall i, j | 0 <= i < |ps| && 0 <= j < |ps[i].methods|
      ensures MethodSnapshot(ps[i].methods[j]).callPercentage <= 100
    {
      PercentageBounded(ps[i].methods[j].callCount, ps[i].methods[j].totalCalls);
    }
  }

  /** A document whose every declared response has been hit reports 100 (or 0 when it declares none). */
  lemma SnapshotFullCoverage(d: Document)
    requires ValidDocument(d)
    requires forall i, j, k | 0 <= i < |PathsOr(d)| && 0 <= j < |PathsOr(d)[i].methods|
                            && 0 <= k < |PathsOr(d)[i].methods[j].responses|
                            && !PathsOr(d)[i].methods[j].responses[k].isUnexpected ::
               PathsOr(d)[i].methods[j].responses[k].callCount > 0
    ensures Snapshot(d).callPercentage == if d.totalCalls == 0 then 0 else 100
  {
    FullCoverage(d);
    if d.totalCalls > 0 {
      PercentageFull(d.totalCalls);
    }
  }

  /** Unexpected responses appear in the snapshot, each with at least one hit. */
  lemma SnapshotUnexpectedHit(d: Document)
    requires ValidDocument(d)
    ensures var c := Snapshot(d);
      forall i, j, k | 0 <= i < |c.paths| && 0 <= j < |c.paths[i].methods|
                     && 0 <= k < |c.paths[i].methods[j].responses| && c.paths[i].methods[j].responses[k].isUnexpected ::
        c.paths[i].methods[j].responses[k].callCount >= 1
  {
    var c := Snapshot(d);
    var ps := PathsOr(d);
    forall i, j, k | 0 <= i < |c.paths| && 0 <= j < |c.paths[i].methods|
                   && 0 <= k < |c.paths[i].methods[j].responses| && c.paths[i].methods[j].responses[k].isUnexpected
      ensures c.paths[i].methods[j].responses[k].callCount >= 1
    {
      assert c.paths[i].methods[j].responses[k] == ResponseSnapshot(ps[i].methods[j].responses[k]);
      assert ValidMethod(ps[i].methods[j]);
    }
  }
}
