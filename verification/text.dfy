/** The optional value used wherever the scripts test for a missing element,
    attribute or parse result. */
module Wrappers {
  datatype Option<+T> = None | Some(value: T)
}

/** The handful of Python `str` operations the two scripts rely on, stated over
    `seq<char>`: `isspace`, `strip`, substring search, `find`,
    `replace(pat, '')`, and the slice `s[:k]`. */
module Text {
  import opened Wrappers

  /** Python's `str.isspace()` for one code point: the ASCII controls 9-13 and
      28-31, the space, and the Unicode separators Python counts as white. */
  predicate IsSpace(c: char) {
    || c == ' '
    || ('\t' <= c <= '\r')
    || ('\U{001C}' <= c <= '\U{001F}')
    || c == '\U{0085}' || c == '\U{00A0}' || c == '\U{1680}'
    || ('\U{2000}' <= c <= '\U{200A}')
    || c == '\U{2028}' || c == '\U{2029}' || c == '\U{202F}'
    || c == '\U{205F}' || c == '\U{3000}'
  }

  /** True of a string that `strip()` leaves alone. */
  predicate Trimmed(s: string) {
    s == [] || (!IsSpace(s[0]) && !IsSpace(s[|s| - 1]))
  }

  /** Index of the first non-space character at or after `i` (or `|s|`). */
  function LeadingEnd(s: string, i: nat): (a: nat)
    requires i <= |s|
    decreases |s| - i
    ensures i <= a <= |s|
    ensures forall k :: i <= k < a ==> IsSpace(s[k])
    ensures a < |s| ==> !IsSpace(s[a])
  {
    if i == |s| || !IsSpace(s[i]) then i else LeadingEnd(s, i + 1)
  }

  /** Index just past the last non-space character of `s[a..j]` (or `a`). */
  function TrailingStart(s: string, a: nat, j: nat): (b: nat)
    requires a <= j <= |s|
    decreases j - a
    ensures a <= b <= j
    ensures forall k :: b <= k < j ==> IsSpace(s[k])
    ensures b > a ==> !IsSpace(s[b - 1])
  {
    if j == a || !IsSpace(s[j - 1]) then j else TrailingStart(s, a, j - 1)
  }

  /** Python's `s.strip()`: drop leading and trailing white space. */
  function Trim(s: string): (r: string)
    ensures |r| <= |s|
    ensures Trimmed(r)
    ensures forall c :: c in r ==> c in s
  {
    var a := LeadingEnd(s, 0);
    var b := TrailingStart(s, a, |s|);
    assert forall c :: c in s[a..b] ==> c in s by {
      forall c | c in s[a..b] ensures c in s {
        var k :| 0 <= k < b - a && s[a..b][k] == c;
        assert s[a + k] == c;
      }
    }
    s[a..b]
  }

  /** `strip()` removes exactly a white prefix and a white suffix: any split of
      `s` into white space, a trimmed middle and white space gives `Trim(s)`. */
  lemma {:induction false} TrimUnique(s: string, a: nat, b: nat)
    requires a <= b <= |s|
    requires forall k :: 0 <= k < a ==> IsSpace(s[k])
    requires forall k :: b <= k < |s| ==> IsSpace(s[k])
    requires Trimmed(s[a..b])
    ensures Trim(s) == s[a..b]
  {
    var a' := LeadingEnd(s, 0);
    if a < b {
      assert !IsSpace(s[a]) && !IsSpace(s[b - 1]);
      assert a' == a;
      var b' := TrailingStart(s, a', |s|);
      assert b' == b;
    } else {
      assert a' == |s|;
      assert TrailingStart(s, a', |s|) == |s|;
    }
  }

  /** `strip()` is idempotent. */
  lemma TrimIdempotent(s: string)
    ensures Trim(Trim(s)) == Trim(s)
  {
    var r := Trim(s);
    TrimUnique(r, 0, |r|);
  }

  /** Python's `s[:k]`: a prefix of `s`, `k` long when `0 <= k <= |s|`; a
      negative `k` counts back from the end. */
  function PySliceTo<T>(s: seq<T>, k: int): (r: seq<T>)
    ensures |r| <= |s| && r == s[..|r|]
    ensures 0 <= k ==> |r| == if k < |s| then k else |s|
    ensures k < 0 ==> |r| == if |s| + k > 0 then |s| + k else 0
  {
    if 0 <= k then (if k < |s| then s[..k] else s)
    else if |s| + k > 0 then s[..|s| + k]
    else []
  }

  /** Concatenation regroups freely; stating it for opaque parts spares the
      solver from reasoning about their contents. */
  lemma AppendAssoc(a: string, b: string, c: string)
    ensures (a + b) + c == a + (b + c)
  {
  }

  /** The three parts of `h + body + e` are recovered by slicing. */
  lemma ThreeParts(h: string, body: string, e: string)
    ensures var b := h + body + e;
      && b[..|h|] == h
      && b[|h|..|b| - |e|] == body
      && b[|b| - |e|..] == e
  {
    var b := h + body + e;
    assert b[..|h|] == h;
    assert b[|h|..|b| - |e|] == body;
  }

  /** `pat` occurs in `s` at index `p`. */
  predicate OccursAt(s: string, p: int, pat: string) {
    0 <= p && p + |pat| <= |s| && s[p..p + |pat|] == pat
  }

  /** An occurrence in a suffix is an occurrence in the whole string. */
  lemma OccursAtSuffix(s: string, k: nat, p: int, pat: string)
    requires k <= |s|
    ensures OccursAt(s[k..], p, pat) <==> (p >= 0 && OccursAt(s, k + p, pat))
  {
    if 0 <= p && p + |pat| <= |s| - k {
      assert s[k..][p..p + |pat|] == s[k + p..k + p + |pat|];
    }
  }

  /** The first occurrence of `pat` in `s` at or after index `from`. */
  function FindFrom(s: string, pat: string, from: nat): (r: Option<nat>)
    decreases |s| - from
    ensures r.Some? ==> from <= r.value && OccursAt(s, r.value, pat)
    ensures r.Some? ==> forall q :: from <= q < r.value ==> !OccursAt(s, q, pat)
    ensures r.None? ==> forall q :: from <= q ==> !OccursAt(s, q, pat)
  {
    if from + |pat| > |s| then None
    else if s[from..from + |pat|] == pat then Some(from)
    else FindFrom(s, pat, from + 1)
  }

  /** Python's `pat in s`. */
  predicate Contains(s: string, pat: string) {
    FindFrom(s, pat, 0).Some?
  }

  /** The first index of `c` at or after `from`, or `|s|` when `c` is absent.
      `s[..IndexOf(s, '+', 0)]` is Python's `s.split('+')[0]`, the time-zone
      cut of `update_blog.py`. */
  function IndexOf(s: string, c: char, from: nat): (k: nat)
    requires from <= |s|
    decreases |s| - from
    ensures from <= k <= |s|
    ensures forall j :: from <= j < k ==> s[j] != c
    ensures k < |s| ==> s[k] == c
  {
    if from == |s| || s[from] == c then from else IndexOf(s, c, from + 1)
  }

  /** Python's `s.replace(pat, '')`: remove, from left to right, every
      non-overlapping occurrence of `pat`. The result may contain `pat` again
      where removal joined two pieces; Python does not rescan, and neither
      does this. */
  function RemoveAll(s: string, pat: string): (r: string)
    requires |pat| > 0
    decreases |s|
    ensures |r| <= |s|
    ensures forall c :: c in r ==> c in s
    ensures (forall p :: !OccursAt(s, p, pat)) ==> r == s
    ensures (exists p :: OccursAt(s, p, pat)) ==> |r| < |s|
  {
    if |s| == 0 then []
    else if OccursAt(s, 0, pat) then
      var rest := RemoveAll(s[|pat|..], pat);
      assert forall c :: c in rest ==> c in s by {
        forall c | c in rest ensures c in s {
          var k :| 0 <= k < |s[|pat|..]| && s[|pat|..][k] == c;
          assert s[|pat| + k] == c;
        }
      }
      rest
    else
      var rest := RemoveAll(s[1..], pat);
      assert forall p :: OccursAt(s[1..], p, pat) <==> (p >= 0 && OccursAt(s, 1 + p, pat)) by {
        forall p ensures OccursAt(s[1..], p, pat) <==> (p >= 0 && OccursAt(s, 1 + p, pat)) {
          OccursAtSuffix(s, 1, p, pat);
        }
      }
      assert (exists p :: OccursAt(s, p, pat)) ==> exists p :: OccursAt(s[1..], p, pat) by {
        if exists p :: OccursAt(s, p, pat) {
          var p :| OccursAt(s, p, pat);
          assert OccursAt(s[1..], p - 1, pat);
        }
      }
      assert s == [s[0]] + s[1..];
      [s[0]] + rest
  }

  /** Text before the first occurrence of `pat` is kept as it is. */
  lemma {:induction false} RemoveAllPrefix(s: string, k: nat, pat: string)
    requires |pat| > 0
    requires k <= |s|
    requires forall p :: 0 <= p < k ==> !OccursAt(s, p, pat)
    ensures RemoveAll(s, pat) == s[..k] + RemoveAll(s[k..], pat)
    decreases k
  {
    if k > 0 {
      var t := s[1..];
      RemoveAllSkip(s, pat);
      forall p | 0 <= p < k - 1 ensures !OccursAt(t, p, pat) {
        OccursAtSuffix(s, 1, p, pat);
      }
      RemoveAllPrefix(t, k - 1, pat);
      assert t[k - 1..] == s[k..];
      assert s[..k] == [s[0]] + t[..k - 1];
      AppendAssoc([s[0]], t[..k - 1], RemoveAll(s[k..], pat));
    } else {
      assert s[0..] == s;
    }
  }

  /** Where `pat` does not occur at the head, the first character is kept. */
  lemma RemoveAllSkip(w: string, pat: string)
    requires |pat| > 0
    requires |w| > 0 && !OccursAt(w, 0, pat)
    ensures RemoveAll(w, pat) == [w[0]] + RemoveAll(w[1..], pat)
  {
  }

  /** An occurrence at the head is dropped, and the removal goes on after it. */
  lemma RemoveAllHead(w: string, pat: string)
    requires |pat| > 0
    requires OccursAt(w, 0, pat)
    ensures RemoveAll(w, pat) == RemoveAll(w[|pat|..], pat)
  {
  }

  /** `replace(pat, '')` keeps what precedes the first occurrence, drops that
      occurrence, and goes on with the rest. */
  lemma RemoveAllFirst(x: string, y: string, pat: string)
    requires |pat| > 0
    requires forall p :: 0 <= p < |x| ==> !OccursAt(x + pat + y, p, pat)
    ensures RemoveAll(x + pat + y, pat) == x + RemoveAll(y, pat)
  {
    var s := x + pat + y;
    var w := s[|x|..];
    assert s[..|x|] == x;
    assert w[..|pat|] == pat;
    assert w[|pat|..] == y;
    RemoveAllPrefix(s, |x|, pat);
    RemoveAllHead(w, pat);
  }
}
