/**
  The JavaScript string operations the tracker relies on: `split('/')`,
  `startsWith`, `endsWith`, `replace` with a string pattern, `indexOf` and
  `toLowerCase`, written out over `seq<char>`.
 */
module Strings {
  import opened Wrappers

  /** `s.startsWith(p)` */
  predicate StartsWith(s: string, p: string) {
    |p| <= |s| && s[..|p|] == p
  }

  /** `s.endsWith(suffix)` for a one-character suffix */
  predicate EndsWithChar(s: string, c: char) {
    |s| > 0 && s[|s| - 1] == c
  }

  /** `s.indexOf(c)`: the first position of `c`, or -1 */
  function IndexOfChar(s: string, c: char): (r: int)
    ensures r == -1 <==> c !in s
    ensures r >= 0 ==> r < |s| && s[r] == c && c !in s[..r]
  {
    if |s| == 0 then -1
    else if s[0] == c then 0
    else
      var k := IndexOfChar(s[1..], c);
      assert s[1..][..(if k < 0 then 0 else k)] == s[1..1 + (if k < 0 then 0 else k)];
      if k < 0 then -1 else k + 1
  }

  /** `p` occurs in `s` at position `i` */
  predicate OccursAt(s: string, p: string, i: nat) {
    i + |p| <= |s| && s[i..i + |p|] == p
  }

  /** The first position at or after `from` where `p` occurs in `s` */
  function FindFrom(s: string, p: string, from: nat): (r: Option<nat>)
    requires from <= |s|
    ensures r.Some? ==> from <= r.value && OccursAt(s, p, r.value)
    ensures r.Some? ==> forall i: nat | from <= i < r.value :: !OccursAt(s, p, i)
    ensures r.None? ==> forall i: nat | from <= i :: !OccursAt(s, p, i)
    decreases |s| - from
  {
    if from + |p| > |s| then None
    else if s[from..from + |p|] == p then Some(from)
    else if from == |s| then None
    else FindFrom(s, p, from + 1)
  }

  /** `s.replace(p, "")` with a string pattern: only the first occurrence is removed */
  function RemoveFirst(s: string, p: string): string {
    match FindFrom(s, p, 0)
    case None => s
    case Some(i) => s[..i] + s[i + |p|..]
  }

  /** When `p` is a prefix of `s`, its first occurrence is the prefix itself, so
      `replace` strips exactly that prefix. */
  lemma RemoveFirstOfPrefix(s: string, p: string)
    requires StartsWith(s, p)
    ensures RemoveFirst(s, p) == s[|p|..]
  {
    assert OccursAt(s, p, 0);
  }

  /** ASCII `toLowerCase` of one character */
  function LowerChar(c: char): char {
    if 'A' <= c <= 'Z' then (c as int + 32) as char else c
  }

  /** `s.toLowerCase()` on ASCII letters */
  function Lower(s: string): (r: string)
    ensures |r| == |s|
    ensures forall i | 0 <= i < |s| :: r[i] == LowerChar(s[i])
  {
    seq(|s|, i requires 0 <= i < |s| => LowerChar(s[i]))
  }

  /** Lower-casing twice is lower-casing once. */
  lemma LowerIdempotent(s: string)
    ensures Lower(Lower(s)) == Lower(s)
  {
  }

  /** `s.split('/')`: the segments between slashes, always at least one */
  function Split(s: string): (r: seq<string>)
    ensures |r| >= 1
    decreases |s|
  {
    if |s| == 0 then [""]
    else
      var rest := Split(s[1..]);
      if s[0] == '/' then [""] + rest
      else [[s[0]] + rest[0]] + rest[1..]
  }

  /** `segments.join('/')` */
  function Join(segments: seq<string>): string
    requires |segments| >= 1
    decreases |segments|
  {
    if |segments| == 1 then segments[0]
    else segments[0] + "/" + Join(segments[1..])
  }

  /** Number of '/' in `s` */
  function SlashCount(s: string): nat {
    if |s| == 0 then 0 else (if s[0] == '/' then 1 else 0) + SlashCount(s[1..])
  }

  /** Splitting yields one more segment than there are slashes, and no segment holds a slash. */
  lemma {:induction false} SplitShape(s: string)
    ensures |Split(s)| == SlashCount(s) + 1
    ensures forall k | 0 <= k < |Split(s)| :: '/' !in Split(s)[k]
    decreases |s|
  {
    if |s| > 0 {
      SplitShape(s[1..]);
      var rest := Split(s[1..]);
      if s[0] != '/' {
        var r := Split(s);
        assert r[0] == [s[0]] + rest[0];
        forall k | 0 <= k < |r| ensures '/' !in r[k] {
          if k > 0 { assert r[k] == rest[k]; }
        }
      }
    }
  }

  /** `split` and `join` are inverse: a string is determined by its segments. */
  lemma {:induction false} JoinSplit(s: string)
    ensures Join(Split(s)) == s
    decreases |s|
  {
    if |s| > 0 {
      JoinSplit(s[1..]);
      var rest := Split(s[1..]);
      if s[0] == '/' {
        assert Split(s) == [""] + rest;
        assert Split(s)[1..] == rest;
        assert s == "" + "/" + s[1..];
      } else {
        var r := Split(s);
        assert r == [[s[0]] + rest[0]] + rest[1..];
        if |rest| == 1 {
          assert s == [s[0]] + s[1..];
        } else {
          assert r[1..] == rest[1..];
          assert Join(rest) == rest[0] + "/" + Join(rest[1..]);
          assert s == [s[0]] + s[1..];
        }
      }
    }
  }

  /** A string without '/' is a single segment. */
  lemma {:induction false} SplitNoSlash(s: string)
    requires '/' !in s
    ensures Split(s) == [s]
    decreases |s|
  {
    if |s| > 0 {
      assert '/' !in s[1..] by {
        forall c | c in s[1..] ensures c in s { }
      }
      SplitNoSlash(s[1..]);
      assert s == [s[0]] + s[1..];
    }
  }

  /** Splitting a string one character longer at the front. */
  lemma SplitCons(c: char, t: string)
    ensures Split([c] + t) ==
      if c == '/' then [""] + Split(t) else [[c] + Split(t)[0]] + Split(t)[1..]
  {
    assert ([c] + t)[1..] == t;
  }

  /** Splitting distributes over a '/' joint. */
  lemma {:induction false} SplitConcat(a: string, b: string)
    ensures Split(a + "/" + b) == Split(a) + Split(b)
    decreases |a|
  {
    if |a| == 0 {
      assert a + "/" + b == ['/'] + b;
      SplitCons('/', b);
    } else {
      var c, x := a[0], a[1..];
      var tail := x + "/" + b;
      assert a + "/" + b == [c] + tail && a == [c] + x;
      assert Split(tail) == Split(x) + Split(b) by { SplitConcat(x, b); }
      assert Split([c] + tail) == Split([c] + x) + Split(b) by {
        SplitCons(c, tail);
        SplitCons(c, x);
      }
    }
  }

  /** Joining segments that hold no '/' and splitting again gives the segments back. */
  lemma {:induction false} SplitJoin(segments: seq<string>)
    requires |segments| >= 1
    requires forall k | 0 <= k < |segments| :: '/' !in segments[k]
    ensures Split(Join(segments)) == segments
    decreases |segments|
  {
    if |segments| == 1 {
      SplitNoSlash(segments[0]);
    } else {
      SplitJoin(segments[1..]);
      SplitNoSlash(segments[0]);
      SplitConcat(segments[0], Join(segments[1..]));
    }
  }

  /** Two strings with the same segments are the same string. */
  lemma SplitInjective(a: string, b: string)
    requires Split(a) == Split(b)
    ensures a == b
  {
    JoinSplit(a);
    JoinSplit(b);
  }

  /** A string that starts with '/' has an empty first segment. */
  lemma {:induction false} SplitLeadingSlash(s: string)
    requires |s| > 0 && s[0] == '/'
    ensures Split(s)[0] == ""
    ensures |Split(s)| >= 2
  {
  }
}
