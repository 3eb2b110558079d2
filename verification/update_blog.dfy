/** `update_blog.py`: RSS `<item>` elements become posts, and the posts'
    block replaces every START...END region of the README; an unchanged README
    counts as failure. */
module UpdateBlog {
  import opened Wrappers
  import opened Text
  import opened Summary
  import opened Dates
  import opened Splice
  import opened Render

  /** A child element found by `item.find(tag)`; its `.text` may be missing. */
  datatype Element = Element(text: Option<string>)

  /** One RSS `<item>`: each child element may be missing. */
  datatype Item = Item(title: Option<Element>, link: Option<Element>, pubDate: Option<Element>, description: Option<Element>)

  /** The element's text is truthy: present and not empty. */
  predicate HasText(e: Element) {
    e.text.Some? && e.text.value != ""
  }

  /** The stripped text of an element, or `default` when it has none. */
  function StrippedOr(e: Element, default: string): string {
    if HasText(e) then Trim(e.text.value) else default
  }

  /** The text of the `pubDate` element, if there is one. */
  function PubDateText(item: Item): Option<string> {
    if item.pubDate.None? then None else item.pubDate.value.text
  }

  /** The cleaned description: stripped, then cleaned; empty without text. */
  function DescriptionSummary(item: Item): string {
    if item.description.Some? && HasText(item.description.value)
    then CleanSummary(Trim(item.description.value.text.value))
    else ""
  }

  /** The post one item yields, or `None` when its `title` or `link`
      element is missing. */
  function PostOf(item: Item, strptime: (string, DateFormat) -> Option<Date>): (r: Option<Post>)
    ensures r.None? <==> item.title.None? || item.link.None?
    ensures r.Some? ==> Trimmed(r.value.title) && Trimmed(r.value.link)
    ensures r.Some? && HasText(item.title.value) ==> r.value.title == Trim(item.title.value.text.value)
    ensures r.Some? && !HasText(item.title.value) ==> r.value.title == "No Title"
    ensures r.Some? && HasText(item.link.value) ==> r.value.link == Trim(item.link.value.text.value)
    ensures r.Some? && !HasText(item.link.value) ==> r.value.link == ""
    ensures r.Some? ==> '\n' !in r.value.summary && TagFree(r.value.summary) && Trimmed(r.value.summary)
    ensures r.Some? ==> |r.value.summary| <= MaxSummaryLength + |Ellipsis|
    ensures r.Some? && (item.description.None? || !HasText(item.description.value)) ==> r.value.summary == ""
    ensures r.Some? && item.description.Some? && HasText(item.description.value) ==>
      r.value.summary == CleanSummary(Trim(item.description.value.text.value))
    ensures r.Some? ==> r.value.published == PublishedFromPubDate(PubDateText(item), strptime)
  {
    if item.title.None? || item.link.None? then None
    else
      var title := StrippedOr(item.title.value, "No Title");
      var link := StrippedOr(item.link.value, "");
      assert Trimmed("No Title") && Trimmed("");
      Some(Post(title, link, DescriptionSummary(item), PublishedFromPubDate(PubDateText(item), strptime)))
  }

  /** The posts `f` gives for `items`, in order, skipping the items it gives
      none for. */
  function Kept(items: seq<Item>, f: Item -> Option<Post>): seq<Post> {
    if items == [] then []
    else
      var init := Kept(items[..|items| - 1], f);
      match f(items[|items| - 1])
      case Some(p) => init + [p]
      case None => init
  }

  /** The posts the items yield, in document order, skipping items without a
      title or link element. */
  function PostsFrom(items: seq<Item>, strptime: (string, DateFormat) -> Option<Date>): seq<Post> {
    Kept(items, item => PostOf(item, strptime))
  }

  /** One turn of the item loop: the post for one item, built step by step as
      the script does (title, link, the date loop, then the summary cleaning). */
  method ConvertItem(item: Item, strptime: (string, DateFormat) -> Option<Date>) returns (post: Option<Post>)
    ensures post == PostOf(item, strptime)
  {
    if item.title.None? || item.link.None? {
      return None;
    }
    var title := if HasText(item.title.value) then Trim(item.title.value.text.value) else "No Title";
    var link := if HasText(item.link.value) then Trim(item.link.value.text.value) else "";
    var published := PublishedDate(PubDateText(item), strptime);
    var summary := "";
    if item.description.Some? && HasText(item.description.value) {
      summary := Trim(item.description.value.text.value);
      summary := StripTags(summary);
      summary := Trim(ReplaceNewlines(summary));
      if |summary| > MaxSummaryLength {
        summary := summary[..MaxSummaryLength] + Ellipsis;
      }
    }
    post := Some(Post(title, link, summary, published));
  }

  /** `fetch_latest_blog_posts` after the feed is parsed: walk the first
      `maxPosts` items and collect the post of each item that has a title and a
      link element. */
  method FetchLatestBlogPosts(items: seq<Item>, maxPosts: int, strptime: (string, DateFormat) -> Option<Date>)
    returns (posts: seq<Post>)
    ensures posts == PostsFrom(PySliceTo(items, maxPosts), strptime)
    ensures |posts| <= |items|
    ensures 0 <= maxPosts ==> |posts| <= maxPosts
  {
    posts := [];
    if |items| == 0 {
      return;
    }
    var taken := PySliceTo(items, maxPosts);
    for i := 0 to |taken|
      invariant posts == PostsFrom(taken[..i], strptime)
    {
      var post := ConvertItem(taken[i], strptime);
      assert taken[..i + 1][..i] == taken[..i];
      if post.Some? {
        posts := posts + [post.value];
      }
    }
    assert taken[..|taken|] == taken;
    PostsFromLength(taken, strptime);
  }

  /** At most one post per item. */
  lemma PostsFromLength(items: seq<Item>, strptime: (string, DateFormat) -> Option<Date>)
    ensures |PostsFrom(items, strptime)| <= |items|
  {
    KeptLength(items, item => PostOf(item, strptime));
  }

  lemma {:induction false} KeptLength(items: seq<Item>, f: Item -> Option<Post>)
    ensures |Kept(items, f)| <= |items|
    decreases |items|
  {
    if items != [] {
      KeptLength(items[..|items| - 1], f);
    }
  }

  /** Items are handled one at a time and in order: the posts of two runs of
      items are the posts of each, one after the other. */
  lemma PostsFromAppend(xs: seq<Item>, ys: seq<Item>, strptime: (string, DateFormat) -> Option<Date>)
    ensures PostsFrom(xs + ys, strptime) == PostsFrom(xs, strptime) + PostsFrom(ys, strptime)
  {
    KeptAppend(xs, ys, item => PostOf(item, strptime));
  }

  lemma {:induction false} KeptAppend(xs: seq<Item>, ys: seq<Item>, f: Item -> Option<Post>)
    ensures Kept(xs + ys, f) == Kept(xs, f) + Kept(ys, f)
    decreases |ys|
  {
    if ys == [] {
      assert xs + ys == xs;
    } else {
      var zs := ys[..|ys| - 1];
      assert (xs + ys)[..|xs + ys| - 1] == xs + zs;
      KeptAppend(xs, zs, f);
    }
  }

  /** When every item has a title and a link element, there is one post per
      item, in the same order. */
  lemma PostsFromComplete(items: seq<Item>, strptime: (string, DateFormat) -> Option<Date>)
    requires forall i :: 0 <= i < |items| ==> items[i].title.Some? && items[i].link.Some?
    ensures |PostsFrom(items, strptime)| == |items|
    ensures forall i :: 0 <= i < |items| ==> PostOf(items[i], strptime) == Some(PostsFrom(items, strptime)[i])
  {
    KeptComplete(items, item => PostOf(item, strptime));
  }

  lemma {:induction false} KeptComplete(items: seq<Item>, f: Item -> Option<Post>)
    requires forall i :: 0 <= i < |items| ==> f(items[i]).Some?
    ensures |Kept(items, f)| == |items|
    ensures forall i :: 0 <= i < |items| ==> f(items[i]) == Some(Kept(items, f)[i])
    decreases |items|
  {
    if items != [] {
      var init := items[..|items| - 1];
      var last := items[|items| - 1];
      assert forall i :: 0 <= i < |init| ==> init[i] == items[i];
      KeptComplete(init, f);
      var r := Kept(items, f);
      assert r == Kept(init, f) + [f(last).value];
      forall i | 0 <= i < |items| ensures f(items[i]) == Some(r[i]) {
        if i < |init| {
          assert items[i] == init[i];
        }
      }
    }
  }

  /** Every post comes from an item that has a title and a link element. */
  lemma PostsFromOrigin(items: seq<Item>, strptime: (string, DateFormat) -> Option<Date>, p: Post)
    requires p in PostsFrom(items, strptime)
    ensures exists i :: 0 <= i < |items| && PostOf(items[i], strptime) == Some(p)
  {
    KeptOrigin(items, item => PostOf(item, strptime), p);
  }

  lemma {:induction false} KeptOrigin(items: seq<Item>, f: Item -> Option<Post>, p: Post)
    requires p in Kept(items, f)
    ensures exists i :: 0 <= i < |items| && f(items[i]) == Some(p)
    decreases |items|
  {
    var init := items[..|items| - 1];
    if p in Kept(init, f) {
      KeptOrigin(init, f, p);
      var i :| 0 <= i < |init| && f(init[i]) == Some(p);
      assert items[i] == init[i];
    } else {
      assert f(items[|items| - 1]) == Some(p);
    }
  }

  /** `update_readme_with_blog_posts` on the README text `content`, with the
      rendered `block`: the new text to write, or `None` when the splice
      changed nothing and the script reports failure without writing. */
  function UpdateReadme(block: string, content: string): (r: Option<string>)
    requires '\\' !in block
    ensures r.Some? ==> r.value != content
    ensures r.Some? ==> r.value == SubMarkers(content, block)
    ensures r.None? ==> SubMarkers(content, block) == content
  {
    var updated := SubMarkers(content, block);
    if updated == content then None else Some(updated)
  }

  /** The script's steps: build the block with its loop, then splice. */
  method UpdateReadmeWithBlogPosts(posts: seq<Post>, content: string) returns (written: Option<string>)
    requires '\\' !in RenderBlock(posts)
    ensures written == UpdateReadme(RenderBlock(posts), content)
  {
    var section := BuildBlock(posts);
    var updated := SubMarkers(content, section);
    if content == updated {
      return None;
    }
    written := Some(updated);
  }

  /** A README without any START...END region is reported as a failure. */
  lemma UpdateReadmeWithoutMarkers(block: string, content: string)
    requires '\\' !in block
    requires forall p :: 0 <= p < |content| ==> !MatchAt(content, p, StartMarker, EndMarker)
    ensures UpdateReadme(block, content) == None
  {
    SubNoMatch(content, StartMarker, EndMarker, Literal(block));
  }

  /** A README with one region: the text around it is kept, and the region
      becomes the block (a failure only when it already was the block). */
  lemma UpdateReadmeSingleRegion(block: string, x: string, region: string, y: string)
    requires '\\' !in block
    requires WellFormedBlock(region)
    requires forall p :: 0 <= p < |x| ==> !MatchAt(x + (region + y), p, StartMarker, EndMarker)
    requires forall p :: 0 <= p < |y| ==> !MatchAt(y, p, StartMarker, EndMarker)
    ensures region != block ==> UpdateReadme(block, x + (region + y)) == Some(x + (block + y))
    ensures region == block ==> UpdateReadme(block, x + (region + y)) == None
  {
    SpliceSingleRegion(x, region, y, block);
    if region != block {
      DifferentMiddle(x, region, block, y);
    }
  }

  /** Texts that differ only in their middle part differ. */
  lemma DifferentMiddle(x: string, u: string, v: string, y: string)
    requires u != v
    ensures x + (u + y) != x + (v + y)
  {
    if |u| == |v| {
      assert (x + (u + y))[|x|..|x| + |u|] == u;
      assert (x + (v + y))[|x|..|x| + |v|] == v;
    } else {
      assert |x + (u + y)| != |x + (v + y)|;
    }
  }

  /** Running the script again on the README it just wrote, with the same
      well-formed block, changes nothing and is reported as a failure. */
  lemma UpdateReadmeRerun(block: string, content: string)
    requires '\\' !in block
    requires WellFormedBlock(block)
    requires UpdateReadme(block, content).Some?
    ensures UpdateReadme(block, UpdateReadme(block, content).value) == None
  {
    SubMarkersIdempotent(content, block);
  }
}
