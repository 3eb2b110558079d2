/** Summary cleaning, shared by both scripts:
    `re.sub(r'<[^>]+>', '', s)`, then `.replace('\n', ' ').strip()`, then
    truncation to 150 characters followed by `"..."`. */
module Summary {
  import opened Text

  const MaxSummaryLength: nat := 150
  const Ellipsis: string := "..."

  /** The regex `<[^>]+>` matches at the start of `s`: a `<`, at least one
      character other than `>`, and then the first `>`. */
  predicate OpensTag(s: string) {
    |s| >= 3 && s[0] == '<' && s[1] != '>' && IndexOf(s, '>', 2) < |s|
  }

  /** No `>` comes after index `i` of `s`. */
  predicate NoGtAfter(s: string, i: nat) {
    forall k :: i < k < |s| ==> s[k] != '>'
  }

  /** No `<` in `s` could start a match of `<[^>]+>`: every `<` is directly
      followed by `>`, or no `>` comes after it at all. */
  predicate TagFree(s: string) {
    forall i :: 0 <= i < |s| && s[i] == '<' ==>
      (i + 1 < |s| && s[i + 1] == '>') || NoGtAfter(s, i)
  }

  /** `re.sub(r'<[^>]+>', '', s)` as a left-to-right scan: where a tag opens,
      skip through its first `>`; otherwise keep the character. The result is
      tag free, so the scan never leaves a tag behind (pieces left on both
      sides of a removed tag cannot join into a new one). */
  function StripTags(s: string): (r: string)
    decreases |s|
    ensures |r| <= |s|
    ensures forall c :: c in r ==> c in s
    ensures TagFree(r)
  {
    if |s| == 0 then []
    else if OpensTag(s) then
      var j := IndexOf(s, '>', 2);
      SuffixChars(s, j + 1);
      StripTags(s[j + 1..])
    else
      var tail := StripTags(s[1..]);
      SuffixChars(s, 1);
      KeptCharacterTagFree(s, tail);
      [s[0]] + tail
  }

  /** Every character of a suffix is a character of the whole. */
  lemma SuffixChars(s: string, k: nat)
    requires k <= |s|
    ensures forall c :: c in s[k..] ==> c in s
  {
    forall c | c in s[k..] ensures c in s {
      var i :| 0 <= i < |s[k..]| && s[k..][i] == c;
      assert s[k + i] == c;
    }
  }

  /** Keeping the first character of a text that opens no tag, in front of a
      tag-free rest drawn from the text's tail, gives a tag-free result. */
  lemma KeptCharacterTagFree(s: string, tail: string)
    requires |s| > 0 && !OpensTag(s)
    requires TagFree(tail)
    requires forall c :: c in tail ==> c in s[1..]
    requires |s| >= 2 && s[1] == '>' ==> |tail| > 0 && tail[0] == '>'
    ensures TagFree([s[0]] + tail)
  {
    var r := [s[0]] + tail;
    forall i | 0 <= i < |r| && r[i] == '<'
      ensures (i + 1 < |r| && r[i + 1] == '>') || NoGtAfter(r, i)
    {
      if i == 0 {
        if !(|s| >= 2 && s[1] == '>') {
          assert '>' !in s[1..] by {
            if |s| >= 3 {
              assert IndexOf(s, '>', 2) == |s|;
            }
          }
          forall k | 0 < k < |r| ensures r[k] != '>' {
            assert r[k] in tail;
          }
        }
      } else {
        assert tail[i - 1] == '<';
      }
    }
  }

  /** On tag-free text the scan is the identity. */
  lemma {:induction false} StripTagsTagFree(s: string)
    requires TagFree(s)
    ensures StripTags(s) == s
    decreases |s|
  {
    if |s| > 0 {
      assert !OpensTag(s) by {
        if |s| >= 3 && s[0] == '<' && s[1] != '>' {
          assert NoGtAfter(s, 0);
        }
      }
      assert TagFree(s[1..]) by {
        forall i | 0 <= i < |s[1..]| && s[1..][i] == '<'
          ensures (i + 1 < |s[1..]| && s[1..][i + 1] == '>') || NoGtAfter(s[1..], i)
        {
          assert s[i + 1] == '<';
          if !(i + 1 < |s[1..]| && s[1..][i + 1] == '>') {
            assert NoGtAfter(s, i + 1);
            forall k | i < k < |s[1..]| ensures s[1..][k] != '>' {
              assert s[1..][k] == s[k + 1];
            }
          }
        }
      }
      StripTagsTagFree(s[1..]);
      assert s == [s[0]] + s[1..];
    }
  }

  /** Removing tags a second time changes nothing. */
  lemma StripTagsIdempotent(s: string)
    ensures StripTags(StripTags(s)) == StripTags(s)
  {
    StripTagsTagFree(StripTags(s));
  }

  /** Text before the first `<` is kept as it is. */
  lemma {:induction false} StripTagsKeepsPlain(x: string, y: string)
    requires '<' !in x
    ensures StripTags(x + y) == x + StripTags(y)
    decreases |x|
  {
    if x == [] {
      assert x + y == y;
    } else {
      var s := x + y;
      assert s[0] == x[0];
      assert !OpensTag(s);
      assert s[1..] == x[1..] + y;
      assert StripTags(s) == [s[0]] + StripTags(s[1..]);
      assert '<' !in x[1..] by {
        assert forall k :: 0 <= k < |x[1..]| ==> x[1..][k] == x[k + 1];
      }
      StripTagsKeepsPlain(x[1..], y);
      assert x == [x[0]] + x[1..];
      AppendAssoc([x[0]], x[1..], StripTags(y));
    }
  }

  /** A tag (a `<`, at least one character other than `>`, then `>`) is
      dropped, and the scan goes on right after it. */
  lemma StripTagsDropsTag(u: string, y: string)
    requires u != [] && '>' !in u
    ensures StripTags("<" + u + ">" + y) == StripTags(y)
  {
    var s := "<" + u + ">" + y;
    var j := |u| + 1;
    assert s[j] == '>';
    forall k | 2 <= k < j ensures s[k] != '>' {
      assert s[k] == u[k - 1];
    }
    assert IndexOf(s, '>', 2) == j by {
      if |u| == 1 {
        assert j == 2;
      }
    }
    assert s[1] == u[0];
    assert OpensTag(s);
    assert s[j + 1..] == y;
  }

  /** A `<` that opens no tag is kept. */
  lemma StripTagsKeepsLoneAngle(y: string)
    requires !OpensTag("<" + y)
    ensures StripTags("<" + y) == "<" + StripTags(y)
  {
    var s := "<" + y;
    assert s[1..] == y;
  }

  /** For instance, the markup of a paragraph goes and its text stays. */
  lemma StripTagsParagraph()
    ensures StripTags("<p>Hello</p>") == "Hello"
  {
    OpeningParagraphTag();
    ParagraphText();
    ClosingParagraphTag();
  }

  lemma OpeningParagraphTag()
    ensures StripTags("<p>Hello</p>") == StripTags("Hello</p>")
  {
    assert "<p>Hello</p>" == "<" + "p" + ">" + "Hello</p>";
    StripTagsDropsTag("p", "Hello</p>");
  }

  lemma ParagraphText()
    ensures StripTags("Hello</p>") == "Hello" + StripTags("</p>")
  {
    assert "Hello</p>" == "Hello" + "</p>";
    StripTagsKeepsPlain("Hello", "</p>");
  }

  lemma ClosingParagraphTag()
    ensures StripTags("</p>") == []
  {
    var e: string := [];
    assert "</p>" == "<" + "/p" + ">" + e;
    StripTagsDropsTag("/p", e);
  }

  /** `.replace('\n', ' ')`. */
  function ReplaceNewlines(s: string): (r: string)
    ensures |r| == |s|
    ensures '\n' !in r
    ensures forall i :: 0 <= i < |s| && s[i] != '\n' ==> r[i] == s[i]
    ensures forall i :: 0 <= i < |s| && s[i] == '\n' ==> r[i] == ' '
  {
    seq(|s|, i requires 0 <= i < |s| => if s[i] == '\n' then ' ' else s[i])
  }

  /** `s[:150] + "..."` when `s` is longer than 150 characters. */
  function Truncate(s: string): (r: string)
    ensures |r| <= MaxSummaryLength + |Ellipsis|
    ensures |s| <= MaxSummaryLength ==> r == s
    ensures |s| > MaxSummaryLength ==> |r| == MaxSummaryLength + |Ellipsis| && r[..MaxSummaryLength] == s[..MaxSummaryLength] && r[MaxSummaryLength..] == Ellipsis
  {
    if |s| > MaxSummaryLength then s[..MaxSummaryLength] + Ellipsis else s
  }

  /** Tag freedom survives taking a slice. */
  lemma TagFreeSlice(s: string, a: nat, b: nat)
    requires a <= b <= |s|
    requires TagFree(s)
    ensures TagFree(s[a..b])
  {
    var t := s[a..b];
    forall i | 0 <= i < |t| && t[i] == '<'
      ensures (i + 1 < |t| && t[i + 1] == '>') || NoGtAfter(t, i)
    {
      assert s[a + i] == '<';
      if i + 1 < |t| {
        assert t[i + 1] == s[a + i + 1];
        if t[i + 1] != '>' {
          assert NoGtAfter(s, a + i);
          forall k | i < k < |t| ensures t[k] != '>' {
            assert t[k] == s[a + k];
          }
        }
      }
    }
  }

  /** The cleaning both scripts apply once a summary is non-empty. The result
      has no newline, no tag, no surrounding white space, and at most 153
      characters. */
  function CleanSummary(s: string): (r: string)
    ensures '\n' !in r
    ensures TagFree(r)
    ensures Trimmed(r)
    ensures |r| <= MaxSummaryLength + |Ellipsis|
  {
    var flat := ReplaceNewlines(StripTags(s));
    var t := Trim(flat);
    FlattenTagFree(StripTags(s));
    TagFreeTrim(flat);
    TruncateKeepsClean(t);
    Truncate(t)
  }

  /** Turning newlines into spaces keeps a text tag free. */
  lemma FlattenTagFree(s: string)
    requires TagFree(s)
    ensures TagFree(ReplaceNewlines(s))
  {
    var f := ReplaceNewlines(s);
    forall i | 0 <= i < |f| && f[i] == '<'
      ensures (i + 1 < |f| && f[i + 1] == '>') || NoGtAfter(f, i)
    {
      assert s[i] == '<';
      forall k | i < k < |f| && s[k] != '>' ensures f[k] != '>' { }
    }
  }

  /** Truncation keeps a trimmed, tag-free, newline-free text so. */
  lemma TruncateKeepsClean(t: string)
    requires '\n' !in t && TagFree(t) && Trimmed(t)
    ensures var r := Truncate(t); '\n' !in r && TagFree(r) && Trimmed(r)
  {
    if |t| > MaxSummaryLength {
      var r := Truncate(t);
      assert '\n' !in t[..MaxSummaryLength];
      TagFreeSlice(t, 0, MaxSummaryLength);
      TagFreeEllipsis(t[..MaxSummaryLength]);
      assert r == t[..MaxSummaryLength] + Ellipsis;
      assert r[0] == t[0];
    }
  }

  /** Tag freedom survives `strip()`. */
  lemma TagFreeTrim(s: string)
    requires TagFree(s)
    ensures TagFree(Trim(s))
  {
    var a := LeadingEnd(s, 0);
    TagFreeSlice(s, a, TrailingStart(s, a, |s|));
  }

  /** Appending the ellipsis keeps a text tag free. */
  lemma TagFreeEllipsis(s: string)
    requires TagFree(s)
    ensures TagFree(s + Ellipsis)
  {
    var t := s + Ellipsis;
    forall i | 0 <= i < |t| && t[i] == '<'
      ensures (i + 1 < |t| && t[i + 1] == '>') || NoGtAfter(t, i)
    {
      assert i < |s|;
      assert s[i] == '<';
    }
  }

  /** A cleaned summary cleans to itself. */
  lemma {:induction false} CleanSummaryIdempotent(s: string)
    ensures CleanSummary(CleanSummary(s)) == CleanSummary(s)
  {
    var r := CleanSummary(s);
    StripTagsTagFree(r);
    assert ReplaceNewlines(r) == r;
    TrimUnique(r, 0, |r|);
    assert Trim(ReplaceNewlines(StripTags(r))) == r;
    var t := Trim(ReplaceNewlines(StripTags(s)));
    if |t| > MaxSummaryLength {
      assert r == t[..MaxSummaryLength] + Ellipsis;
      assert r[..MaxSummaryLength] == t[..MaxSummaryLength];
    }
  }
}
