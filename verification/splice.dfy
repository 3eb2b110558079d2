/** The two `re.sub` calls the scripts use to splice the rendered block into the
    README. Both patterns have the shape `OPEN.*?CLOSE` under `re.DOTALL`, and
    `re.sub` with its default count rewrites every leftmost-shortest,
    non-overlapping match while scanning from left to right:
    - `<!-- BLOG-POST-LIST:START -->.*?<!-- BLOG-POST-LIST:END -->`, whose
      match is replaced by the block;
    - `(## Latest Blog Posts.*?)\n`, whose match is kept (group 1 plus the
      newline) and followed by the block. */
module Splice {
  import opened Wrappers
  import opened Text

  const StartMarker: string := "<!-- BLOG-POST-LIST:START -->"
  const EndMarker: string := "<!-- BLOG-POST-LIST:END -->"
  const Heading: string := "## Latest Blog Posts"

  /** What a match turns into: a literal text, or the matched text followed by
      a literal text. */
  datatype Replacement =
    | Literal(text: string)
    | KeepThenAppend(text: string)

  function Replace(repl: Replacement, matched: string): string {
    match repl
    case Literal(t) => t
    case KeepThenAppend(t) => matched + t
  }

  /** The length of the leftmost-shortest match of `open.*?close` that begins
      at index 0 of `s`: `open`, then the first `close` that starts after it. */
  function MatchLength(s: string, open: string, close: string): (r: Option<nat>)
    ensures r.Some? <==> OccursAt(s, 0, open) && exists q :: |open| <= q && OccursAt(s, q, close)
    ensures r.Some? ==> |open| + |close| <= r.value <= |s|
    ensures r.Some? ==> OccursAt(s, r.value - |close|, close)
    ensures r.Some? ==> forall q :: |open| <= q < r.value - |close| ==> !OccursAt(s, q, close)
  {
    if OccursAt(s, 0, open) then
      match FindFrom(s, close, |open|)
      case Some(q) => Some(q + |close|)
      case None => None
    else None
  }

  /** The scan finds a match beginning at index `p` of `s`. */
  predicate MatchAt(s: string, p: int, open: string, close: string) {
    0 <= p <= |s| && MatchLength(s[p..], open, close).Some?
  }

  /** `re.sub(open.*?close, repl, s, flags=re.DOTALL)`, with `repl` taken
      literally: at each index, a match is rewritten and the scan resumes
      after it; otherwise the character is copied. */
  function Sub(s: string, open: string, close: string, repl: Replacement): string
    requires |open| > 0
    decreases |s|
  {
    if |s| == 0 then []
    else match MatchLength(s, open, close)
      case Some(n) => Replace(repl, s[..n]) + Sub(s[n..], open, close, repl)
      case None => [s[0]] + Sub(s[1..], open, close, repl)
  }

  /** The marker substitution of both scripts. */
  function SubMarkers(s: string, block: string): string {
    Sub(s, StartMarker, EndMarker, Literal(block))
  }

  /** The heading substitution of `update_blog_posts.py`: the first newline after
      each heading becomes a blank line, the block and a newline. */
  function SubHeading(s: string, block: string): string {
    Sub(s, Heading, "\n", KeepThenAppend("\n" + block + "\n"))
  }

  /** The START...END region the scan finds first, if any. */
  function FirstMatchFrom(s: string, i: nat, open: string, close: string): (r: Option<nat>)
    requires i <= |s|
    decreases |s| - i
    ensures r.Some? ==> i <= r.value < |s| && MatchAt(s, r.value, open, close)
    ensures r.Some? ==> forall p :: i <= p < r.value ==> !MatchAt(s, p, open, close)
    ensures r.None? ==> forall p :: i <= p < |s| ==> !MatchAt(s, p, open, close)
  {
    if i == |s| then None
    else if MatchAt(s, i, open, close) then Some(i)
    else FirstMatchFrom(s, i + 1, open, close)
  }

  /** A suffix has a match at `p` exactly when the whole string has one at `k + p`. */
  lemma MatchAtSuffix(s: string, k: nat, p: nat, open: string, close: string)
    requires k <= |s|
    ensures MatchAt(s[k..], p, open, close) <==> MatchAt(s, k + p, open, close)
  {
    if p <= |s| - k {
      assert s[k..][p..] == s[k + p..];
    }
  }

  /** Where the scan finds nothing, it leaves the text alone. */
  lemma {:induction false} SubNoMatch(s: string, open: string, close: string, repl: Replacement)
    requires |open| > 0
    requires forall p :: 0 <= p < |s| ==> !MatchAt(s, p, open, close)
    ensures Sub(s, open, close, repl) == s
    decreases |s|
  {
    if |s| > 0 {
      assert s[0..] == s;
      assert !MatchAt(s, 0, open, close);
      forall p | 0 <= p < |s[1..]| ensures !MatchAt(s[1..], p, open, close) {
        MatchAtSuffix(s, 1, p, open, close);
      }
      SubNoMatch(s[1..], open, close, repl);
      assert s == [s[0]] + s[1..];
    }
  }

  /** The text before the first match is copied unchanged. */
  lemma {:induction false} SubPrefix(s: string, m: nat, open: string, close: string, repl: Replacement)
    requires |open| > 0
    requires m <= |s|
    requires forall p :: 0 <= p < m ==> !MatchAt(s, p, open, close)
    ensures Sub(s, open, close, repl) == s[..m] + Sub(s[m..], open, close, repl)
    decreases m
  {
    if m > 0 {
      assert s[0..] == s;
      assert !MatchAt(s, 0, open, close);
      forall p | 0 <= p < m - 1 ensures !MatchAt(s[1..], p, open, close) {
        MatchAtSuffix(s, 1, p, open, close);
      }
      var t := s[1..];
      assert Sub(s, open, close, repl) == [s[0]] + Sub(t, open, close, repl);
      SubPrefix(t, m - 1, open, close, repl);
      assert t[m - 1..] == s[m..];
      assert s[..m] == [s[0]] + t[..m - 1];
      AppendAssoc([s[0]], t[..m - 1], Sub(s[m..], open, close, repl));
    }
  }

  /** The scan rewrites the leftmost match, copies what precedes it, and goes
      on after it: text outside the matches is never changed. */
  lemma FirstRegion(s: string, m: nat, n: nat, open: string, close: string, repl: Replacement)
    requires |open| > 0
    requires m <= |s| && MatchLength(s[m..], open, close) == Some(n)
    requires forall p :: 0 <= p < m ==> !MatchAt(s, p, open, close)
    ensures m + n <= |s|
    ensures Sub(s, open, close, repl) == s[..m] + (Replace(repl, s[m..m + n]) + Sub(s[m + n..], open, close, repl))
  {
    SubPrefix(s, m, open, close, repl);
    var t := s[m..];
    assert t[..n] == s[m..m + n];
    assert t[n..] == s[m + n..];
  }

  /** A rendered block in the shape the splice needs: it opens with the start
      marker, closes with the end marker, and no end marker starts earlier. */
  predicate WellFormedBlock(b: string) {
    && |StartMarker| + |EndMarker| <= |b|
    && OccursAt(b, 0, StartMarker)
    && OccursAt(b, |b| - |EndMarker|, EndMarker)
    && forall q :: |StartMarker| <= q < |b| - |EndMarker| ==> !OccursAt(b, q, EndMarker)
  }

  /** `<` appears in the start marker only as its first character. */
  lemma StartMarkerOpensOnce()
    ensures StartMarker[0] == '<'
    ensures forall k :: 0 < k < |StartMarker| ==> StartMarker[k] != '<'
  {
  }

  /** A well-formed block at the head of a text is matched exactly. */
  lemma BlockMatchesItself(b: string, z: string)
    requires WellFormedBlock(b)
    ensures MatchLength(b + z, StartMarker, EndMarker) == Some(|b|)
  {
    var w := b + z;
    var e := |b| - |EndMarker|;
    assert w[..|b|] == b;
    forall q | 0 <= q && q + |EndMarker| <= |b| ensures OccursAt(w, q, EndMarker) == OccursAt(b, q, EndMarker) {
      assert w[q..q + |EndMarker|] == w[..|b|][q..q + |EndMarker|];
    }
    assert w[..|StartMarker|] == w[..|b|][..|StartMarker|];
    assert OccursAt(w, 0, StartMarker);
    assert OccursAt(w, e, EndMarker);
    var f := FindFrom(w, EndMarker, |StartMarker|);
    assert f == Some(e);
  }

  /** A text that starts with a region has that region replaced by the block,
      and the scan goes on right after it. */
  lemma SubAfterRegion(region: string, z: string, b: string)
    requires WellFormedBlock(region)
    ensures SubMarkers(region + z, b) == b + SubMarkers(z, b)
  {
    BlockMatchesItself(region, z);
    assert (region + z)[..|region|] == region;
    assert (region + z)[|region|..] == z;
  }

  /** The splice on a README with one region: the text before and after the
      region is kept as it is, and the region becomes the block. */
  lemma SpliceSingleRegion(x: string, region: string, y: string, b: string)
    requires WellFormedBlock(region)
    requires forall p :: 0 <= p < |x| ==> !MatchAt(x + (region + y), p, StartMarker, EndMarker)
    requires forall p :: 0 <= p < |y| ==> !MatchAt(y, p, StartMarker, EndMarker)
    ensures SubMarkers(x + (region + y), b) == x + (b + y)
  {
    SubPrefixConcat(x, region + y, StartMarker, EndMarker, Literal(b));
    SubAfterRegion(region, y, b);
    SubNoMatch(y, StartMarker, EndMarker, Literal(b));
  }

  /** The block itself is a region the scan finds. */
  lemma BlockIsRegion(x: string, b: string, y: string)
    requires WellFormedBlock(b)
    ensures MatchAt(x + b + y, |x|, StartMarker, EndMarker)
  {
    assert (x + b + y)[|x|..] == b + y;
    BlockMatchesItself(b, y);
  }

  /** The marker splice is idempotent: rerunning it with the same well-formed
      block leaves the text as the first run left it. */
  lemma {:induction false} SubMarkersIdempotent(s: string, b: string)
    requires WellFormedBlock(b)
    ensures SubMarkers(SubMarkers(s, b), b) == SubMarkers(s, b)
    decreases |s|
  {
    if FirstMatchFrom(s, 0, StartMarker, EndMarker).None? {
      SubNoMatch(s, StartMarker, EndMarker, Literal(b));
    } else {
      var m, rest := FirstSplit(s, b);
      var z := SubMarkers(rest, b);
      ResubstituteAfterPrefix(s, m, |s| - |rest| - |EndMarker|, b, z);
      SubMarkersIdempotent(rest, b);
    }
  }

  /** Where the scan finds a first region, at `m`, the text splits into what
      precedes the region, which is copied, the region, which becomes the
      block, and the `rest` after it, which is scanned on its own. */
  lemma FirstSplit(s: string, b: string) returns (m: nat, rest: string)
    requires FirstMatchFrom(s, 0, StartMarker, EndMarker).Some?
    ensures m + |StartMarker| + |EndMarker| + |rest| <= |s|
    ensures forall p :: 0 <= p < m ==> !MatchAt(s, p, StartMarker, EndMarker)
    ensures OccursAt(s, |s| - |rest| - |EndMarker|, EndMarker)
    ensures SubMarkers(s, b) == s[..m] + (b + SubMarkers(rest, b))
  {
    m := FirstMatchFrom(s, 0, StartMarker, EndMarker).value;
    var n := MatchLength(s[m..], StartMarker, EndMarker).value;
    FirstRegion(s, m, n, StartMarker, EndMarker, Literal(b));
    rest := s[m + n..];
    OccursAtSuffix(s, m, n - |EndMarker|, EndMarker);
  }

  /** Substituting again into `s[..m] + b + z` copies `s[..m]`, keeps the
      block and goes on with `z`, when the scan found no region in `s` before
      `m` and `s` has an end marker after `m`. */
  lemma ResubstituteAfterPrefix(s: string, m: nat, q: nat, b: string, z: string)
    requires m <= |s|
    requires WellFormedBlock(b)
    requires forall p :: 0 <= p < m ==> !MatchAt(s, p, StartMarker, EndMarker)
    requires OccursAt(s, q, EndMarker) && q >= m + |StartMarker|
    ensures SubMarkers(s[..m] + (b + z), b) == s[..m] + (b + SubMarkers(z, b))
  {
    NoRegionBeforeBlock(s, m, q, b, z);
    PrefixThenBlock(s[..m], b, z);
  }

  lemma PrefixThenBlock(x: string, b: string, z: string)
    requires WellFormedBlock(b)
    requires forall p :: 0 <= p < |x| ==> !MatchAt(x + (b + z), p, StartMarker, EndMarker)
    ensures SubMarkers(x + (b + z), b) == x + (b + SubMarkers(z, b))
  {
    SubPrefixConcat(x, b + z, StartMarker, EndMarker, Literal(b));
    SubAfterRegion(b, z, b);
  }

  lemma SubPrefixConcat(x: string, y: string, open: string, close: string, repl: Replacement)
    requires |open| > 0
    requires forall p :: 0 <= p < |x| ==> !MatchAt(x + y, p, open, close)
    ensures Sub(x + y, open, close, repl) == x + Sub(y, open, close, repl)
  {
    var w := x + y;
    SubPrefix(w, |x|, open, close, repl);
    assert w[..|x|] == x;
    assert w[|x|..] == y;
  }

  lemma NoRegionBeforeBlock(s: string, m: nat, q: nat, b: string, z: string)
    requires m <= |s|
    requires WellFormedBlock(b)
    requires forall p :: 0 <= p < m ==> !MatchAt(s, p, StartMarker, EndMarker)
    requires OccursAt(s, q, EndMarker) && q >= m + |StartMarker|
    ensures forall p :: 0 <= p < m ==> !MatchAt(s[..m] + (b + z), p, StartMarker, EndMarker)
  {
    forall p | 0 <= p < m ensures !MatchAt(s[..m] + (b + z), p, StartMarker, EndMarker) {
      NoEarlierRegion(s, m, q, b, z, p);
    }
  }

  /** In `s[..m] + b + z`, no region starts before `m` when none did in `s`
      and `s` has an end marker after `m`: such a start marker would lie in
      `s[..m]` or would overlap the `<` that opens the block. */
  lemma NoEarlierRegion(s: string, m: nat, q: nat, b: string, z: string, p: nat)
    requires m <= |s| && p < m
    requires WellFormedBlock(b)
    requires OccursAt(s, q, EndMarker) && q >= m + |StartMarker|
    requires !MatchAt(s, p, StartMarker, EndMarker)
    ensures !MatchAt(s[..m] + (b + z), p, StartMarker, EndMarker)
  {
    var w := s[..m] + (b + z);
    var k := |StartMarker|;
    if p + k <= m {
      OccursAtSuffix(s, p, q - p, EndMarker);
      assert !OccursAt(s[p..], 0, StartMarker);
      assert s[p..][..k] == s[p..p + k] == w[p..p + k] == w[p..][..k];
      assert !OccursAt(w[p..], 0, StartMarker);
    } else if p + k <= |w| {
      StartMarkerOpensOnce();
      assert w[m] == b[0];
      assert w[p..][..k][m - p] == w[m];
      assert w[p..][..k] != StartMarker;
      assert !OccursAt(w[p..], 0, StartMarker);
    }
  }

  /** Appending after each match never shortens the text, and lengthens it
      whenever there is a match. */
  lemma {:induction false} SubKeepLength(s: string, open: string, close: string, t: string)
    requires |open| > 0
    ensures |Sub(s, open, close, KeepThenAppend(t))| >= |s|
    ensures (exists p :: 0 <= p < |s| && MatchAt(s, p, open, close)) ==>
      |Sub(s, open, close, KeepThenAppend(t))| >= |s| + |t|
    decreases |s|
  {
    if |s| > 0 {
      assert s[0..] == s;
      match MatchLength(s, open, close)
      case Some(n) =>
        SubKeepLength(s[n..], open, close, t);
      case None =>
        SubKeepLength(s[1..], open, close, t);
        if exists p :: 0 <= p < |s| && MatchAt(s, p, open, close) {
          var p :| 0 <= p < |s| && MatchAt(s, p, open, close);
          assert p != 0;
          MatchAtSuffix(s, 1, p - 1, open, close);
        }
    }
  }
}
