/** `update_blog_posts.py`: feed entries become posts (all of them, or none
    when one lacks a title or link), and the posts' block replaces every
    START...END region of the README; when that leaves the README unchanged,
    the block is inserted after the `## Latest Blog Posts` heading or appended
    under a new heading. */
module UpdateBlogPosts {
  import opened Wrappers
  import opened Text
  import opened Summary
  import opened Dates
  import opened Splice
  import opened Render

  /** One feed entry as `feedparser` hands it over: each attribute may be
      missing (`published_parsed` also when it is empty). */
  datatype FeedEntry = FeedEntry(
    title: Option<string>,
    link: Option<string>,
    publishedParsed: Option<Date>,
    published: Option<string>,
    summary: Option<string>,
    description: Option<string>)

  /** The summary text: `summary` when the entry has one, even an empty one;
      else `description`; else empty. */
  function SelectedSummary(e: FeedEntry): string {
    match e.summary
    case Some(s) => s
    case None => if e.description.Some? then e.description.value else ""
  }

  /** The selected summary, cleaned when it is not empty (no stripping before
      the tag removal, unlike `update_blog.py`). */
  function EntrySummary(e: FeedEntry): (r: string)
    ensures '\n' !in r && TagFree(r) && Trimmed(r)
    ensures |r| <= MaxSummaryLength + |Ellipsis|
    ensures SelectedSummary(e) == "" ==> r == ""
    ensures SelectedSummary(e) != "" ==> r == CleanSummary(SelectedSummary(e))
  {
    var s := SelectedSummary(e);
    if s != "" then CleanSummary(s) else ""
  }

  /** The post an entry yields, or `None` when it lacks a title or a link
      (reading `entry.title` or `entry.link` raises). Title and link are kept
      verbatim. */
  function PostOfEntry(e: FeedEntry, dateutil: string -> Option<Date>): (r: Option<Post>)
    ensures r.None? <==> e.title.None? || e.link.None?
    ensures r.Some? ==> r.value.title == e.title.value && r.value.link == e.link.value
    ensures r.Some? ==> r.value.summary == EntrySummary(e)
    ensures r.Some? ==> r.value.published == PublishedFromEntry(e.publishedParsed, e.published, dateutil)
  {
    if e.title.None? || e.link.None? then None
    else Some(Post(e.title.value, e.link.value, EntrySummary(e),
                   PublishedFromEntry(e.publishedParsed, e.published, dateutil)))
  }

  /** The posts `f` gives for `es`, in order, or `None` as soon as it gives
      none for one of them. */
  function AllOrNone(es: seq<FeedEntry>, f: FeedEntry -> Option<Post>): Option<seq<Post>> {
    if es == [] then Some([])
    else
      match AllOrNone(es[..|es| - 1], f)
      case None => None
      case Some(ps) =>
        match f(es[|es| - 1])
        case None => None
        case Some(p) => Some(ps + [p])
  }

  /** The posts of the entries, in order, or `None` as soon as one entry has no
      post: the exception discards the posts built so far. */
  function PostsOrFailure(es: seq<FeedEntry>, dateutil: string -> Option<Date>): Option<seq<Post>> {
    AllOrNone(es, e => PostOfEntry(e, dateutil))
  }

  /** What the fetch returns for the taken entries: their posts, or nothing. */
  function FeedPosts(es: seq<FeedEntry>, dateutil: string -> Option<Date>): seq<Post> {
    match PostsOrFailure(es, dateutil)
    case Some(ps) => ps
    case None => []
  }

  /** `fetch_latest_blog_posts` after the feed is parsed: walk the first
      `maxPosts` entries, one post per entry; an entry without a title or link
      ends the walk and the fetch returns no posts at all. */
  method FetchLatestBlogPosts(entries: seq<FeedEntry>, maxPosts: int, dateutil: string -> Option<Date>)
    returns (posts: seq<Post>)
    ensures posts == FeedPosts(PySliceTo(entries, maxPosts), dateutil)
    ensures |posts| <= |entries|
    ensures 0 <= maxPosts ==> |posts| <= maxPosts
  {
    posts := [];
    if |entries| == 0 {
      return;
    }
    var taken := PySliceTo(entries, maxPosts);
    for i := 0 to |taken|
      invariant PostsOrFailure(taken[..i], dateutil) == Some(posts)
    {
      var entry := taken[i];
      var published := PublishedFromEntry(entry.publishedParsed, entry.published, dateutil);
      var summary := EntrySummary(entry);
      if entry.title.None? || entry.link.None? {
        // Building the post dictionary raises; the handler returns [].
        PostsOrFailureStep(taken, i, dateutil);
        PostsOrFailurePrefix(taken, i + 1, dateutil);
        return [];
      }
      PostsOrFailureStep(taken, i, dateutil);
      posts := posts + [Post(entry.title.value, entry.link.value, summary, published)];
    }
    assert taken[..|taken|] == taken;
    PostsOrFailureAllOrNothing(taken, dateutil);
  }

  /** One more entry: its post is added, or the whole walk fails. */
  lemma PostsOrFailureStep(es: seq<FeedEntry>, i: nat, dateutil: string -> Option<Date>)
    requires i < |es|
    ensures PostsOrFailure(es[..i + 1], dateutil) ==
      match PostsOrFailure(es[..i], dateutil)
      case None => None
      case Some(ps) =>
        match PostOfEntry(es[i], dateutil)
        case None => None
        case Some(p) => Some(ps + [p])
  {
    assert es[..i + 1][..i] == es[..i];
  }

  /** Once a prefix of the entries fails, all of them do. */
  lemma PostsOrFailurePrefix(es: seq<FeedEntry>, k: nat, dateutil: string -> Option<Date>)
    requires k <= |es|
    requires PostsOrFailure(es[..k], dateutil) == None
    ensures PostsOrFailure(es, dateutil) == None
  {
    AllOrNonePrefix(es, k, e => PostOfEntry(e, dateutil));
  }

  lemma {:induction false} AllOrNonePrefix(es: seq<FeedEntry>, k: nat, f: FeedEntry -> Option<Post>)
    requires k <= |es|
    requires AllOrNone(es[..k], f) == None
    ensures AllOrNone(es, f) == None
    decreases |es| - k
  {
    if k < |es| {
      assert es[..k + 1][..k] == es[..k];
      AllOrNonePrefix(es, k + 1, f);
    } else {
      assert es[..k] == es;
    }
  }

  /** All or nothing: the entries have posts exactly when every one of them
      has a title and a link, and then post `i` is the post of entry `i`. */
  lemma PostsOrFailureAllOrNothing(es: seq<FeedEntry>, dateutil: string -> Option<Date>)
    ensures PostsOrFailure(es, dateutil).Some? <==>
      forall i :: 0 <= i < |es| ==> es[i].title.Some? && es[i].link.Some?
    ensures PostsOrFailure(es, dateutil).Some? ==>
      |PostsOrFailure(es, dateutil).value| == |es| &&
      forall i :: 0 <= i < |es| ==> PostOfEntry(es[i], dateutil) == Some(PostsOrFailure(es, dateutil).value[i])
  {
    var f := e => PostOfEntry(e, dateutil);
    AllOrNoneSome(es, f);
    AllOrNoneOrder(es, f);
  }

  lemma {:induction false} AllOrNoneSome(es: seq<FeedEntry>, f: FeedEntry -> Option<Post>)
    ensures AllOrNone(es, f).Some? <==> forall i :: 0 <= i < |es| ==> f(es[i]).Some?
    decreases |es|
  {
    if es != [] {
      var init := es[..|es| - 1];
      AllOrNoneSome(init, f);
      assert forall i :: 0 <= i < |init| ==> es[i] == init[i];
    }
  }

  lemma {:induction false} AllOrNoneOrder(es: seq<FeedEntry>, f: FeedEntry -> Option<Post>)
    ensures AllOrNone(es, f).Some? ==>
      |AllOrNone(es, f).value| == |es| &&
      forall i :: 0 <= i < |es| ==> f(es[i]) == Some(AllOrNone(es, f).value[i])
    decreases |es|
  {
    if es != [] && AllOrNone(es, f).Some? {
      var init := es[..|es| - 1];
      AllOrNoneOrder(init, f);
      var ps := AllOrNone(init, f).value;
      var r := AllOrNone(es, f).value;
      assert r == ps + [f(es[|es| - 1]).value];
      forall i | 0 <= i < |es| ensures f(es[i]) == Some(r[i]) {
        if i < |init| {
          assert es[i] == init[i];
        }
      }
    }
  }

  /** The text appended when the README has no heading to insert after. */
  function AppendedSection(block: string): string {
    "\n\n" + Heading + "\n\n" + block + "\n"
  }

  /** `update_readme_with_blog_posts` as written, on the README text `content`
      and the rendered `block`: the text it writes. The fallback runs whenever
      the marker substitution leaves the text unchanged. */
  function UpdateReadmeAsWritten(block: string, content: string): (r: string)
    requires '\\' !in block
    ensures SubMarkers(content, block) != content ==> r == SubMarkers(content, block)
    ensures SubMarkers(content, block) == content && Contains(content, Heading) ==> r == SubHeading(content, block)
    ensures SubMarkers(content, block) == content && !Contains(content, Heading) ==> r == content + AppendedSection(block)
  {
    var updated := SubMarkers(content, block);
    if content == updated then
      if Contains(content, Heading) then SubHeading(content, block)
      else content + AppendedSection(block)
    else updated
  }

  /** The script's steps: build the block with its loop, substitute, and fall
      back when nothing changed. */
  method UpdateReadmeWithBlogPosts(posts: seq<Post>, content: string) returns (written: string)
    requires '\\' !in RenderBlock(posts)
    ensures written == UpdateReadmeAsWritten(RenderBlock(posts), content)
  {
    var section := BuildBlock(posts);
    written := SubMarkers(content, section);
    if content == written {
      if Contains(content, Heading) {
        written := SubHeading(content, section);
      } else {
        written := content + AppendedSection(section);
      }
    }
  }

  /** Whenever the fallback runs and has somewhere to put the block (no
      heading, or a heading followed by a newline), the README grows by at
      least the block. */
  lemma FallbackGrows(block: string, content: string)
    requires '\\' !in block
    requires SubMarkers(content, block) == content
    requires !Contains(content, Heading) || exists p :: 0 <= p < |content| && MatchAt(content, p, Heading, "\n")
    ensures |UpdateReadmeAsWritten(block, content)| >= |content| + |block| + 2
  {
    if Contains(content, Heading) {
      SubKeepLength(content, Heading, "\n", "\n" + block + "\n");
    }
  }

  /** The duplication: a README whose region already holds the block (for
      instance the one the previous run wrote, with an unchanged feed) still
      takes the fallback, and gains a second copy of the block. */
  lemma UpToDateReadmeGrows(block: string, content: string)
    requires '\\' !in block
    requires WellFormedBlock(block)
    requires SubMarkers(content, block) != content
    requires var c := SubMarkers(content, block);
      !Contains(c, Heading) || exists p :: 0 <= p < |c| && MatchAt(c, p, Heading, "\n")
    ensures var c := UpdateReadmeAsWritten(block, content);
      |UpdateReadmeAsWritten(block, c)| >= |c| + |block| + 2
  {
    SubMarkersIdempotent(content, block);
    FallbackGrows(block, SubMarkers(content, block));
  }

  /** A README made of the heading line and an up-to-date block gets the
      block a second time, right after the heading. */
  lemma UpToDateAfterHeading(b: string)
    requires '\\' !in b && '#' !in b
    requires WellFormedBlock(b)
    ensures UpdateReadmeAsWritten(b, Heading + "\n" + b) == Heading + "\n" + ("\n" + b + "\n") + b
  {
    var x := Heading + "\n";
    BlockAfterHeadingLine(x, b);
    assert (x + b)[..|Heading|] == Heading;
    assert OccursAt(x + b, 0, Heading);
    HeadingAtStart(b);
  }

  /** The heading line followed by a well-formed block: the region is the
      block itself, so the marker substitution leaves the text as it is. */
  lemma BlockAfterHeadingLine(x: string, b: string)
    requires x == Heading + "\n"
    requires WellFormedBlock(b)
    ensures SubMarkers(x + b, b) == x + b
  {
    var e: string := [];
    assert '<' !in x;
    forall p | 0 <= p < |x| ensures !MatchAt(x + (b + e), p, StartMarker, EndMarker) {
      assert (x + (b + e))[p..][0] == x[p];
    }
    SpliceSingleRegion(x, b, e, b);
    assert x + (b + e) == x + b;
  }

  /** A concrete README that shows it: the heading, a newline and the block
      for an empty feed. The rerun inserts the block a second time. */
  lemma UpToDateExample()
    ensures var b := RenderBlock([]);
      && '\\' !in b
      && UpdateReadmeAsWritten(b, Heading + "\n" + b) == Heading + "\n" + ("\n" + b + "\n") + b
  {
    var b := RenderBlock([]);
    EmptyBlockPlain();
    RenderBlockWellFormed([]);
    UpToDateAfterHeading(b);
  }

  /** The block for an empty feed holds neither a backslash nor a `#`. */
  lemma EmptyBlockPlain()
    ensures '\\' !in RenderBlock([]) && '#' !in RenderBlock([])
  {
    var empty: seq<Post> := [];
    assert RenderBlock(empty) == StartMarker + "\n" + NoPostsLine + EndMarker;
    MarkerCharacters();
    NoPostsLineCharacters();
  }

  lemma MarkerCharacters()
    ensures '\\' !in StartMarker && '#' !in StartMarker
    ensures '\\' !in EndMarker && '#' !in EndMarker
  {
    NoneOf(StartMarker, '\\', '#');
    NoneOf(EndMarker, '\\', '#');
  }

  lemma NoPostsLineCharacters()
    ensures '\\' !in NoPostsLine && '#' !in NoPostsLine
  {
    NoneOf(NoPostsLine, '\\', '#');
  }

  /** A text whose characters are all letters, blanks or the few punctuation
      marks of the fixed lines holds neither `c` nor `d`. The two characters
      are parameters, pinned by `requires`, so that the solver checks each
      long literal against `Plain` once rather than against each character. */
  lemma NoneOf(s: string, c: char, d: char)
    requires c == '\\' && d == '#'
    requires forall i :: 0 <= i < |s| ==> Plain(s[i])
    ensures c !in s && d !in s
  {
  }

  predicate Plain(ch: char) {
    'a' <= ch <= 'z' || 'A' <= ch <= 'Z' || ch in " -.!<>:\n"
  }

  /** The heading substitution on `Heading + "\n" + b`, for a `b` without `#`. */
  lemma HeadingAtStart(b: string)
    requires '#' !in b
    ensures SubHeading(Heading + "\n" + b, b) == Heading + "\n" + ("\n" + b + "\n") + b
  {
    var c := Heading + "\n" + b;
    var n := |Heading| + 1;
    assert c[..|Heading|] == Heading;
    assert OccursAt(c, 0, Heading);
    assert c[|Heading|] == '\n';
    assert OccursAt(c, |Heading|, "\n");
    assert FindFrom(c, "\n", |Heading|) == Some(|Heading|);
    assert MatchLength(c, Heading, "\n") == Some(n);
    assert c[..n] == Heading + "\n";
    assert c[n..] == b;
    NoHashNoHeading(b, "\n" + b + "\n");
  }

  /** A text without `#` holds no heading match, so the heading substitution
      leaves it alone. */
  lemma NoHashNoHeading(s: string, t: string)
    requires '#' !in s
    ensures Sub(s, Heading, "\n", KeepThenAppend(t)) == s
  {
    forall p | 0 <= p < |s| ensures !MatchAt(s, p, Heading, "\n") {
      assert s[p..][0] == s[p];
    }
    SubNoMatch(s, Heading, "\n", KeepThenAppend(t));
  }

  /** The README has a START...END region the substitution finds. */
  predicate HasRegion(content: string) {
    FirstMatchFrom(content, 0, StartMarker, EndMarker).Some?
  }

  /** The intended behaviour: fall back to the heading or to appending only
      when the README has no START...END region at all. */
  function UpdateReadme(block: string, content: string): (r: string)
    requires '\\' !in block
    ensures HasRegion(content) ==> r == SubMarkers(content, block)
    ensures !HasRegion(content) && Contains(content, Heading) ==> r == SubHeading(content, block)
    ensures !HasRegion(content) && !Contains(content, Heading) ==> r == content + AppendedSection(block)
  {
    if HasRegion(content) then SubMarkers(content, block)
    else if Contains(content, Heading) then SubHeading(content, block)
    else content + AppendedSection(block)
  }

  /** A text `x + b + y` around a well-formed block has a region. */
  lemma BlockGivesRegion(x: string, b: string, y: string)
    requires WellFormedBlock(b)
    ensures HasRegion(x + b + y)
  {
    BlockIsRegion(x, b, y);
  }

  /** Once the README has a region, rerunning the intended update with the
      same block changes nothing. */
  lemma UpdateReadmeIdempotent(block: string, content: string)
    requires '\\' !in block
    requires WellFormedBlock(block)
    requires HasRegion(content)
    ensures UpdateReadme(block, UpdateReadme(block, content)) == UpdateReadme(block, content)
  {
    var m, rest := FirstSplit(content, block);
    var z := SubMarkers(rest, block);
    AppendAssoc(content[..m], block, z);
    BlockGivesRegion(content[..m], block, z);
    SubMarkersIdempotent(content, block);
  }

  /** The intended update settles: from the second run on, the README no
      longer changes. */
  lemma UpdateReadmeSettles(block: string, content: string)
    requires '\\' !in block
    requires WellFormedBlock(block)
    ensures var once := UpdateReadme(block, content);
      UpdateReadme(block, UpdateReadme(block, once)) == UpdateReadme(block, once)
  {
    if HasRegion(content) {
      UpdateReadmeIdempotent(block, content);
    } else if Contains(content, Heading) {
      SettlesAfterHeading(block, content);
    } else {
      SettlesAfterAppend(block, content);
    }
  }

  /** The heading fallback either changes nothing or leaves a region. */
  lemma SettlesAfterHeading(block: string, content: string)
    requires '\\' !in block
    requires WellFormedBlock(block)
    requires !HasRegion(content) && Contains(content, Heading)
    ensures var once := UpdateReadme(block, content);
      UpdateReadme(block, UpdateReadme(block, once)) == UpdateReadme(block, once)
  {
    var once := UpdateReadme(block, content);
    assert once == SubHeading(content, block);
    var first := FirstMatchFrom(content, 0, Heading, "\n");
    if first.None? {
      SubNoMatch(content, Heading, "\n", KeepThenAppend("\n" + block + "\n"));
    } else {
      HeadingInsertsBlock(block, content, first.value);
      UpdateReadmeIdempotent(block, once);
    }
  }

  /** The appending fallback leaves a region. */
  lemma SettlesAfterAppend(block: string, content: string)
    requires '\\' !in block
    requires WellFormedBlock(block)
    requires !HasRegion(content) && !Contains(content, Heading)
    ensures var once := UpdateReadme(block, content);
      UpdateReadme(block, UpdateReadme(block, once)) == UpdateReadme(block, once)
  {
    var once := UpdateReadme(block, content);
    var h := "\n\n" + Heading + "\n\n";
    assert once == content + (h + block + "\n");
    AppendRegroup(content, h, block, "\n");
    BlockGivesRegion(content + h, block, "\n");
    UpdateReadmeIdempotent(block, once);
  }

  lemma AppendRegroup(c: string, h: string, b: string, nl: string)
    ensures c + (h + b + nl) == c + h + b + nl
  {
  }

  /** The heading substitution, when it finds a heading line, puts the block
      into the README. */
  lemma HeadingInsertsBlock(block: string, content: string, m: nat)
    requires WellFormedBlock(block)
    requires FirstMatchFrom(content, 0, Heading, "\n") == Some(m)
    ensures HasRegion(SubHeading(content, block))
  {
    var n := MatchLength(content[m..], Heading, "\n").value;
    var t := "\n" + block + "\n";
    FirstRegion(content, m, n, Heading, "\n", KeepThenAppend(t));
    var x := content[..m];
    var mid := content[m..m + n];
    var rest := Sub(content[m + n..], Heading, "\n", KeepThenAppend(t));
    assert SubHeading(content, block) == x + ((mid + t) + rest);
    Regroup(x, mid, "\n", block, rest);
    BlockGivesRegion(x + mid + "\n", block, "\n" + rest);
  }

  /** Moving the parentheses of `x + ((mid + (nl + block + nl)) + rest)` so the
      block stands on its own. */
  lemma Regroup(x: string, mid: string, nl: string, block: string, rest: string)
    ensures x + ((mid + (nl + block + nl)) + rest) == (x + mid + nl) + block + (nl + rest)
  {
  }
}
