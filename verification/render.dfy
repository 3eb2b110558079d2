/** The Markdown block both scripts build from the posts, between the two
    markers the splice looks for. */
module Render {
  import opened Text
  import opened Splice

  /** One post as both scripts hold it: the four keys of the post dictionary. */
  datatype Post = Post(title: string, link: string, summary: string, published: string)

  const NoPostsLine: string := "- No blog posts available at the moment.\n"

  /** The quoted summary line, present only when the summary is not blank. */
  function SummaryLine(summary: string): string {
    if Trim(summary) != "" then "  > " + Trim(summary) + "\n" else ""
  }

  /** The Markdown link line of a post, with its date in italics. */
  function LinkLine(p: Post): string {
    "- [" + p.title + "](" + p.link + ") - *" + p.published + "*\n"
  }

  /** The lines one post contributes: the link line, the optional summary
      line, and a blank line. */
  function Entry(p: Post): string {
    LinkLine(p) + SummaryLine(p.summary) + "\n"
  }

  /** The texts `f` gives for each of `posts`, one after the other. */
  function ConcatMap(posts: seq<Post>, f: Post -> string): string {
    if posts == [] then [] else ConcatMap(posts[..|posts| - 1], f) + f(posts[|posts| - 1])
  }

  /** The entries of `posts`, in order. */
  function Entries(posts: seq<Post>): string {
    ConcatMap(posts, Entry)
  }

  /** The block written between (and including) the markers. */
  function RenderBlock(posts: seq<Post>): string {
    StartMarker + "\n" + (if posts == [] then NoPostsLine else Entries(posts)) + EndMarker
  }

  /** How both scripts build `blog_section`: the start marker, the entries of
      the posts (or a fixed line when there are none), the end marker. */
  method BuildBlock(posts: seq<Post>) returns (section: string)
    ensures section == RenderBlock(posts)
  {
    if |posts| > 0 {
      section := StartMarker + "\n";
      section := AppendEntries(section, posts);
      section := section + EndMarker;
    } else {
      section := StartMarker + "\n";
      section := section + NoPostsLine;
      section := section + EndMarker;
    }
  }

  /** The loop over the posts, appending each post's lines in turn. */
  method AppendEntries(section: string, posts: seq<Post>) returns (grown: string)
    ensures grown == section + Entries(posts)
  {
    grown := section;
    for i := 0 to |posts|
      invariant grown == section + Entries(posts[..i])
    {
      EntriesSnoc(posts, i);
      AppendAssoc(section, Entries(posts[..i]), Entry(posts[i]));
      grown := AppendEntry(grown, posts[i]);
    }
    assert posts[..|posts|] == posts;
  }

  /** One turn of the `blog_section` loop: append the link line, then the
      summary line when the summary is not blank, then a blank line. */
  method AppendEntry(section: string, post: Post) returns (grown: string)
    ensures grown == section + Entry(post)
  {
    grown := section + LinkLine(post);
    if Trim(post.summary) != "" {
      grown := grown + ("  > " + Trim(post.summary) + "\n");
    }
    grown := grown + "\n";
  }

  /** The entries of the first `i + 1` posts extend those of the first `i`. */
  lemma EntriesSnoc(posts: seq<Post>, i: nat)
    requires i < |posts|
    ensures Entries(posts[..i + 1]) == Entries(posts[..i]) + Entry(posts[i])
  {
    assert posts[..i + 1][..i] == posts[..i];
  }

  /** The texts of two lists of posts, one after the other. */
  lemma {:induction false} ConcatMapAppend(xs: seq<Post>, ys: seq<Post>, f: Post -> string)
    ensures ConcatMap(xs + ys, f) == ConcatMap(xs, f) + ConcatMap(ys, f)
    decreases |ys|
  {
    if ys == [] {
      assert xs + ys == xs;
    } else {
      var zs := ys[..|ys| - 1];
      assert (xs + ys)[..|xs + ys| - 1] == xs + zs;
      ConcatMapAppend(xs, zs, f);
    }
  }

  lemma ConcatMapCons(p: Post, ps: seq<Post>, f: Post -> string)
    ensures ConcatMap([p] + ps, f) == f(p) + ConcatMap(ps, f)
  {
    ConcatMapAppend([p], ps, f);
    assert [p][..0] == [];
    assert ConcatMap([p], f) == ConcatMap([], f) + f(p);
  }

  /** The entries of two lists of posts, one after the other. */
  lemma EntriesAppend(xs: seq<Post>, ys: seq<Post>)
    ensures Entries(xs + ys) == Entries(xs) + Entries(ys)
  {
    ConcatMapAppend(xs, ys, Entry);
  }

  /** Every post contributes exactly its own lines, so the entries of a list
      are those of its first post followed by those of the rest. */
  lemma EntriesCons(p: Post, ps: seq<Post>)
    ensures Entries([p] + ps) == Entry(p) + Entries(ps)
  {
    ConcatMapCons(p, ps, Entry);
  }

  /** The block opens with the start marker and a newline, closes with the end
      marker and no trailing newline, and holds the fixed line exactly when
      there are no posts. */
  lemma RenderBlockShape(posts: seq<Post>)
    ensures var b := RenderBlock(posts);
      && |StartMarker| + 1 + |EndMarker| <= |b|
      && b[..|StartMarker| + 1] == StartMarker + "\n"
      && b[|b| - |EndMarker|..] == EndMarker
      && b[|StartMarker| + 1..|b| - |EndMarker|] == (if posts == [] then NoPostsLine else Entries(posts))
  {
    var body := if posts == [] then NoPostsLine else Entries(posts);
    ThreeParts(StartMarker + "\n", body, EndMarker);
  }

  /** No `<` in any field of any post. */
  predicate NoAngleInFields(posts: seq<Post>) {
    forall i :: 0 <= i < |posts| ==>
      '<' !in posts[i].title && '<' !in posts[i].link && '<' !in posts[i].summary && '<' !in posts[i].published
  }

  /** With no `<` in the posts' fields, no `<` appears between the markers. */
  lemma {:induction false} EntriesNoAngle(posts: seq<Post>)
    requires NoAngleInFields(posts)
    ensures '<' !in Entries(posts)
    decreases |posts|
  {
    if posts != [] {
      var init := posts[..|posts| - 1];
      assert NoAngleInFields(init) by {
        forall i | 0 <= i < |init| ensures '<' !in init[i].title && '<' !in init[i].link
          && '<' !in init[i].summary && '<' !in init[i].published {
          assert init[i] == posts[i];
        }
      }
      EntriesNoAngle(init);
      var p := posts[|posts| - 1];
      assert '<' !in Trim(p.summary);
    }
  }

  /** The rendered block is a single region for the splice: it starts with the
      start marker, ends with the end marker, and no end marker starts in
      between, as long as no field holds a `<`. */
  lemma RenderBlockWellFormed(posts: seq<Post>)
    requires NoAngleInFields(posts)
    ensures WellFormedBlock(RenderBlock(posts))
  {
    var body := if posts == [] then NoPostsLine else Entries(posts);
    BodyNoAngle(posts);
    AppendAssoc(StartMarker, "\n", body);
    NoAngleRegion(StartMarker, "\n", body, EndMarker);
  }

  /** Between the start marker's line and the end marker, the block holds no
      `<`: neither the fixed line nor the entries. */
  lemma BodyNoAngle(posts: seq<Post>)
    requires NoAngleInFields(posts)
    ensures '<' !in (if posts == [] then NoPostsLine else Entries(posts))
  {
    if posts != [] {
      EntriesNoAngle(posts);
    } else {
      NoPostsLineNoAngle();
    }
  }

  lemma NoPostsLineNoAngle()
    ensures '<' !in NoPostsLine
  {
  }

  /** A start marker and an end marker around a text without `<` make a region.
      The markers are parameters, pinned by `requires`, so that the proof
      reasons about their lengths and first characters without unfolding the
      literals. */
  lemma NoAngleRegion(h: string, nl: string, body: string, e: string)
    requires h == StartMarker && e == EndMarker && nl == "\n"
    requires '<' !in body
    ensures WellFormedBlock(h + (nl + body) + e)
  {
    var mid := nl + body;
    assert '<' !in mid by {
      assert forall k :: 0 <= k < |mid| ==> mid[k] == '\n' || mid[k] in body;
    }
    var b := h + mid + e;
    ThreeParts(h, mid, e);
    forall q | |h| <= q < |b| - |e| ensures !OccursAt(b, q, e) {
      assert b[q] == mid[q - |h|];
      assert b[q..q + |e|][0] == b[q];
    }
  }
}
