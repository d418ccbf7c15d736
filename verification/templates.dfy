/**
  Matching a concrete URL against one OpenAPI path template (`checkPath`).
  The source compiles a template with `{name}` placeholders into a regular
  expression; here the same test is stated segment by segment, for templates
  on which the two agree (see WellFormedTemplate).
 */
module Templates {
  import opened Strings

  /** A whole segment `{name}`; the name holds no brace (the source's `{.*?}` is lazy). */
  predicate IsPlaceholder(seg: string) {
    && |seg| >= 2
    && seg[0] == '{'
    && seg[|seg| - 1] == '}'
    && forall i | 0 < i < |seg| - 1 :: seg[i] != '{' && seg[i] != '}'
  }

  /** Characters a regular expression would not read literally. */
  predicate IsRegexSpecial(c: char) {
    c in ".*+?^$()[]\\|{}"
  }

  /** A segment the regular expression would match only by itself. */
  predicate IsPlainLiteral(seg: string) {
    forall i | 0 <= i < |seg| :: !IsRegexSpecial(seg[i])
  }

  /** The source's test `path.indexOf('{') > 0`, which picks the regular-expression branch. */
  predicate HasPlaceholders(tpl: string) {
    IndexOfChar(tpl, '{') > 0
  }

  /**
    The templates on which the segment matcher is the source's regular
    expression: the template starts with '/', and when it has placeholders,
    each segment is either a whole placeholder or a plain literal.
   */
  predicate WellFormedTemplate(tpl: string) {
    && |tpl| > 0
    && tpl[0] == '/'
    && (HasPlaceholders(tpl) ==>
          forall k | 0 <= k < |Split(tpl)| :: IsPlaceholder(Split(tpl)[k]) || IsPlainLiteral(Split(tpl)[k]))
  }

  /** One URL segment against one template segment: a placeholder takes any
      non-empty segment (`[^/]+`), anything else must be equal. */
  predicate SegmentMatches(urlSeg: string, tplSeg: string) {
    if IsPlaceholder(tplSeg) then urlSeg != "" else urlSeg == tplSeg
  }

  /** Segment lists of equal length that match position by position. */
  predicate SegmentsMatch(urlSegs: seq<string>, tplSegs: seq<string>) {
    && |urlSegs| == |tplSegs|
    && forall k | 0 <= k < |tplSegs| :: SegmentMatches(urlSegs[k], tplSegs[k])
  }

  /**
    `checkPath(url, path)`: the segment counts must agree; a template with
    placeholders is matched segment by segment, any other by string equality.
   */
  function CheckPath(url: string, tpl: string): (b: bool)
    requires WellFormedTemplate(tpl)
    ensures b ==> |Split(url)| == |Split(tpl)|
  {
    if |Split(url)| != |Split(tpl)| then false
    else if HasPlaceholders(tpl) then SegmentsMatch(Split(url), Split(tpl))
    else url == tpl
  }

  /** Every character of a segment is a character of the string. */
  lemma {:induction false} SplitChars(s: string, k: nat, c: char)
    requires k < |Split(s)| && c in Split(s)[k]
    ensures c in s
    decreases |s|
  {
    if |s| > 0 {
      var rest := Split(s[1..]);
      if s[0] == '/' {
        assert k > 0 && Split(s)[k] == rest[k - 1];
        SplitChars(s[1..], k - 1, c);
      } else if k == 0 {
        if c != s[0] {
          assert c in rest[0];
          SplitChars(s[1..], 0, c);
        }
      } else {
        assert Split(s)[k] == rest[k];
        SplitChars(s[1..], k, c);
      }
    }
  }

  /** A template without '{' has no placeholder segment. */
  lemma NoBraceNoPlaceholder(tpl: string, k: nat)
    requires '{' !in tpl && k < |Split(tpl)|
    ensures !IsPlaceholder(Split(tpl)[k])
  {
    var seg := Split(tpl)[k];
    if IsPlaceholder(seg) {
      SplitChars(tpl, k, '{');
    }
  }

  /**
    Both branches of `checkPath` are the same segment-wise rule: a template
    matches exactly when the segment counts agree, every placeholder segment
    meets a non-empty URL segment and every other segment is equal.
   */
  lemma CheckPathSegmentwise(url: string, tpl: string)
    requires WellFormedTemplate(tpl)
    ensures CheckPath(url, tpl) <==> SegmentsMatch(Split(url), Split(tpl))
  {
    var us, ts := Split(url), Split(tpl);
    if |us| == |ts| && !HasPlaceholders(tpl) {
      assert '{' !in tpl;
      forall k | 0 <= k < |ts| ensures !IsPlaceholder(ts[k]) {
        NoBraceNoPlaceholder(tpl, k);
      }
      if SegmentsMatch(us, ts) {
        assert us == ts;
        SplitInjective(url, tpl);
      }
    }
  }

  /** A template matches its own text. */
  lemma CheckPathReflexive(tpl: string)
    requires WellFormedTemplate(tpl)
    ensures CheckPath(tpl, tpl)
  {
    CheckPathSegmentwise(tpl, tpl);
  }

  /** Segment counts that differ never match, whatever the segments hold. */
  lemma CheckPathSegmentCount(url: string, tpl: string)
    requires WellFormedTemplate(tpl)
    requires SlashCount(url) != SlashCount(tpl)
    ensures !CheckPath(url, tpl)
  {
    SplitShape(url);
    SplitShape(tpl);
  }

  /** A placeholder segment accepts any non-empty URL segment: digits, dashes,
      percent escapes alike; only the empty segment is refused. */
  lemma PlaceholderAcceptsAnySegment(url: string, tpl: string, k: nat)
    requires WellFormedTemplate(tpl)
    requires |Split(url)| == |Split(tpl)| && k < |Split(tpl)|
    requires IsPlaceholder(Split(tpl)[k])
    requires forall j | 0 <= j < |Split(tpl)| && j != k :: SegmentMatches(Split(url)[j], Split(tpl)[j])
    ensures CheckPath(url, tpl) <==> Split(url)[k] != ""
  {
    CheckPathSegmentwise(url, tpl);
  }
}
