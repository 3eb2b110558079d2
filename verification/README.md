# Blog posts in a profile README, modelled in Dafny

Two Python scripts keep the "latest blog posts" section of a GitHub profile
README up to date. Each does the same four things:

- read the items of an RSS feed;
- turn the first few of them into posts (title, link, cleaned summary,
  displayed date);
- render the posts as a Markdown block between
  `<!-- BLOG-POST-LIST:START -->` and `<!-- BLOG-POST-LIST:END -->`;
- splice that block into the README text.

`update_blog.py` parses the XML itself. It skips items without a title or link
element, normalises `pubDate` through a time-zone pre-strip and three
`strptime` formats, and reports failure when the splice changes nothing.

`update_blog_posts.py` takes `feedparser` entries. Any entry without a title or
link makes the whole fetch return no posts. It prefers the feed's parsed date,
then `dateutil`. When the splice changes nothing, it inserts the block after a
`## Latest Blog Posts` heading, or appends a new heading and the block.

The project models the string pipeline of both scripts:

- `text.dfy` (`Wrappers`, `Text`): the Python `str` operations the scripts use
  (`isspace`, `strip`, `in`, `replace(pat, '')`, `s[:k]`, and
  `split('+')[0]`, the text before the first `+`, written
  `s[..IndexOf(s, '+', 0)]`).
- `summary.dfy` (`Summary`): the summary cleaner. The `<[^>]+>` removal is a
  left-to-right scan, followed by newline flattening, stripping and truncation
  to 150 characters plus `"..."`.
- `dates.dfy` (`Dates`): the `"%B %d, %Y"` display form and a parser that
  inverts it, the time-zone pre-strip, the ordered format chain, and both date
  precedences. `strptime`, `dateutil` and `feedparser`'s parsed date are
  inputs.
- `render.dfy` (`Render`): the block, both as a function and as the `+=` loop
  that builds it.
- `splice.dfy` (`Splice`): `re.sub` for a pattern `OPEN.*?CLOSE` under
  `re.DOTALL`. It rewrites every leftmost-shortest match and copies everything
  else. This covers both the marker pattern and the heading pattern.
- `update_blog.dfy` (`UpdateBlog`) and `update_blog_posts.dfy`
  (`UpdateBlogPosts`): the item loop and the README update of each script.

The network, the XML and feed parsers, the date parsers and file I/O are not
modelled. The items or entries, the date parsers and the README text are
parameters.

## Model

| member | source | states |
|---|---|---|
| Text.Trim | update_blog.py:41-42 | `strip()` returns a text with no white space at either end, no longer than its input, made of the input's characters |
| Text.TrimUnique | update_blog.py:41-42 | `strip()` removes exactly the leading and trailing white space: any slice with only white space outside it and none at its own ends is the result |
| Text.TrimIdempotent | update_blog.py:119-120 | stripping an already stripped summary again changes nothing |
| Text.PySliceTo | update_blog.py:33 | `items[:max_posts]` is a prefix of length `min(k, len)` for `k >= 0`, and of length `max(len + k, 0)` for negative `k` |
| Text.IsSpace | update_blog.py:41 | the characters `str.isspace()` accepts: ASCII 9-13 and 28-31, the space, and the Unicode separators Python counts as white space |
| Text.IndexOf | update_blog.py:52 | the first index of a character at or after `from`, or the length when it does not occur: nothing before it is that character |
| Text.Contains | update_blog.py:51-55 | Python's `pat in s`: `pat` occurs somewhere in `s` (defined through the first occurrence `FindFrom` finds) |
| Text.RemoveAll | update_blog.py:54 | `replace(' GMT', '')` never lengthens the text and keeps only its characters; it shortens the text exactly when the pattern occurs and leaves it as it is otherwise |
| Text.RemoveAllPrefix | update_blog.py:54 | text before the first occurrence of the pattern is kept unchanged |
| Text.RemoveAllHead | update_blog.py:54 | an occurrence at the head is dropped and the removal goes on right after it |
| Text.RemoveAllFirst | update_blog.py:54 | `replace(pat, '')` on `x + pat + y`, with no occurrence starting inside `x`, keeps `x`, drops that occurrence and goes on with `y`; together with the lemmas above this fixes the exact result |
| Splice.Sub | update_blog.py:130 | `re.sub` for `OPEN.*?CLOSE`: at each index a match is rewritten and the scan resumes after it, otherwise the character is copied; its lemmas below state what is kept and what is replaced |
| Splice.SubMarkers | update_blog.py:129-130 | the marker substitution, with the block as a literal replacement; `SubMarkersIdempotent` and `SpliceSingleRegion` state its effect |
| Splice.SubHeading | update_blog_posts.py:119-124 | the heading substitution: each `## Latest Blog Posts...` match up to its first newline is kept and followed by a blank line, the block and a newline; `SubKeepLength` and `HeadingAtStart` state its effect |
| Splice.MatchLength | update_blog.py:129-130 | a match of `OPEN.*?CLOSE` at the head of a text exists iff OPEN is there and a CLOSE starts after it; it ends with the first such CLOSE |
| Splice.FirstMatchFrom | update_blog.py:130 | the first index at which a match starts, with no match before it, or `None` when there is no match at all |
| Splice.SubNoMatch | update_blog.py:130-133 | with no match anywhere, the substitution returns the text unchanged |
| Splice.SubPrefix | update_blog.py:130 | text before the first match is copied unchanged |
| Splice.FirstRegion | update_blog.py:130 | the first match is replaced, the text before it kept, and the scan resumes right after it |
| Splice.FirstSplit | update_blog.py:129-130 | a README with a region splits into the text before the first region (kept), that region (replaced by the block) and the rest (substituted on its own) |
| Splice.BlockMatchesItself | update_blog.py:129-130 | a well-formed block at the head of a text is matched as exactly itself |
| Splice.SubAfterRegion | update_blog.py:129-130 | a text that starts with a region becomes the block followed by the substituted rest |
| Splice.SpliceSingleRegion | update_blog.py:129-130 | on a README with a single region, the text around it is kept and the region becomes the block |
| Splice.BlockIsRegion | update_blog.py:129 | a well-formed block inside any text is a match for the marker pattern |
| Splice.SubMarkersIdempotent | update_blog.py:129-130 | substituting the same well-formed block a second time leaves the text as the first substitution left it |
| Splice.ResubstituteAfterPrefix | update_blog.py:129-130 | substituting again into `prefix + block + rest` keeps the prefix and the block, because no new match straddles the prefix |
| Splice.NoEarlierRegion | update_blog.py:129 | inserting the block cannot create a match before it: a start marker there would have to overlap the block's opening `<` |
| Splice.SubKeepLength | update_blog_posts.py:119-124 | the heading substitution, which keeps each match and appends text after it, never shortens the README and lengthens it by at least the appended text when a heading line exists |
| Summary.StripTags | update_blog.py:79 | the tag removal never lengthens the text, keeps only its characters, and leaves no `<[^>]+>` match behind |
| Summary.StripTagsKeepsPlain | update_blog.py:79 | text before the first `<` is kept as it is |
| Summary.StripTagsDropsTag | update_blog.py:79 | a tag (`<`, at least one character other than `>`, then `>`) is dropped and the scan goes on right after it |
| Summary.StripTagsKeepsLoneAngle | update_blog.py:79 | a `<` that opens no tag is kept |
| Summary.StripTagsParagraph | update_blog_posts.py:60 | for instance `"<p>Hello</p>"` becomes `"Hello"` |
| Summary.StripTagsTagFree | update_blog.py:79 | on text with no tag the removal is the identity |
| Summary.StripTagsIdempotent | update_blog.py:79 | removing tags twice is removing them once |
| Summary.ReplaceNewlines | update_blog.py:80 | `replace('\n', ' ')` keeps the length and every other character, turns each newline into a space, and leaves no newline |
| Summary.Truncate | update_blog.py:81-82 | up to 150 characters the summary is kept; above, it is its first 150 characters followed by `"..."` (153 in all) |
| Summary.CleanSummary | update_blog.py:79-82 | a cleaned summary has no newline, no tag and no surrounding white space, and at most 153 characters |
| Summary.FlattenTagFree | update_blog.py:79-80 | flattening newlines cannot create a tag |
| Summary.TruncateKeepsClean | update_blog.py:81-82 | truncation keeps a summary free of tags, newlines and surrounding white space |
| Summary.CleanSummaryIdempotent | update_blog.py:79-82 | cleaning an already cleaned summary changes nothing |
| Dates.MonthOf | update_blog.py:62 | a recognised month name is the `%B` name of the month it gives |
| Dates.MonthNameRoundTrip | update_blog.py:62 | every `%B` month name is recognised as its own month, holds no space and has 3 to 9 letters |
| Dates.TwoDigits | update_blog.py:62 | `%d` prints two digits whose value is the day |
| Dates.FourDigits | update_blog.py:62 | `%Y` prints four digits, the first not `0`, whose value is the year |
| Dates.FormatDate | update_blog.py:62 | the display form is the month name plus nine characters and never equals `"Unknown date"`, so the sentinel test cannot mistake a parsed date for a failure |
| Dates.DayYearRoundTrip | update_blog.py:62 | the `"dd, yyyy"` tail of the display form reads back as its day and year |
| Dates.DayYearFormats | update_blog.py:62 | a tail that reads as a day and a year is exactly their printed form |
| Dates.FormatDateRoundTrip | update_blog.py:62 | `"%B %d, %Y"` loses nothing: reading the display form back gives the same date |
| Dates.ParseDisplayedFormats | update_blog_posts.py:42 | every text that reads as a date is that date's display form |
| Dates.StripTimezone | update_blog.py:51-56 | at most one rule applies, in priority order: with a `+`, the text before the first `+`, stripped; else, with `" GMT"`, the text with every `" GMT"` removed, stripped; else the same for `" UTC"`; else the text unchanged. The result has no `+`, is never longer, stays stripped, and is shorter exactly when a rule applies |
| Dates.StripTimezoneOffsetFirst | update_blog.py:51-52 | the `+` rule comes first: a stripped date followed by `" +"` and an offset comes back as it was, whatever `" GMT"` it holds |
| Dates.StripTimezoneTrailingGmt | update_blog.py:53-54 | a date without `+` that ends in its only `" GMT"` loses that suffix and is stripped |
| Dates.FirstParse | update_blog.py:59-65 | the chain gives a date iff some format parses, and then it is the date of the first format that does |
| Dates.PublishedFromPubDate | update_blog.py:45-72 | without `pubDate` text, `"Unknown date"`; else the display form of the first format's date parsed from the time-zone-stripped text, which reads back as that date; failing all formats, the stripped original text |
| Dates.PublishedDate | update_blog.py:45-69 | the loop with the `"Unknown date"` sentinel and `break` computes exactly that precedence |
| Dates.PublishedFromEntry | update_blog_posts.py:40-49 | the feed's parsed date is displayed first; else a `published` string `dateutil` parses is displayed as that date, and one it cannot parse is kept verbatim; else `"Unknown date"` |
| Render.Entry | update_blog.py:118-121 | one post's lines: the link line with the date in italics, the quoted summary line only when the stripped summary is not blank, and a blank line |
| Render.Entries | update_blog.py:117-121 | the entries of the posts, one after the other, in order (`EntriesAppend`, `EntriesCons`) |
| Render.RenderBlock | update_blog.py:115-126 | the start marker and a newline, the entries or the fixed no-posts line, the end marker (`RenderBlockShape`, `BuildBlock`) |
| Render.BuildBlock | update_blog.py:115-126 | the `blog_section` builder produces exactly the block: start marker and newline, the entries (or the fixed line for no posts), end marker |
| Render.AppendEntries | update_blog.py:117-121 | the loop over posts appends the entries of all posts, in order |
| Render.AppendEntry | update_blog.py:118-121 | one turn appends the link line, the quoted summary line when the summary is not blank, and a blank line |
| Render.EntriesAppend | update_blog.py:117-121 | the entries of two lists of posts are those of each, one after the other |
| Render.EntriesCons | update_blog.py:117-121 | each post contributes exactly its own lines, first post first |
| Render.RenderBlockShape | update_blog.py:115-126 | the block starts with the start marker and a newline, ends with the end marker (no trailing newline), and between them holds exactly the fixed line when there are no posts, and the entries otherwise |
| Render.EntriesNoAngle | update_blog.py:117-121 | without a `<` in the posts' fields, the entries hold no `<` |
| Render.RenderBlockWellFormed | update_blog.py:115-130 | without a `<` in the posts' fields, the block is a single region for the marker pattern |
| UpdateBlog.DescriptionSummary | update_blog.py:74-82 | the description text, stripped and then cleaned, or empty when the element or its text is missing |
| UpdateBlog.PostOf | update_blog.py:34-90 | an item without a title or link element gives no post; otherwise title and link are stripped, or `"No Title"` and `""` when their text is empty; the summary is cleaned (empty without description text); the date follows the pubDate precedence |
| UpdateBlog.ConvertItem | update_blog.py:34-90 | the step-by-step loop body builds exactly that post |
| UpdateBlog.FetchLatestBlogPosts | update_blog.py:26-92 | the posts are those of `items[:max_posts]`, skipping items without title or link, in document order; at most `len(items)` and at most `max_posts` of them |
| UpdateBlog.PostsFrom | update_blog.py:33-90 | the posts of the items, in order, skipping items without title or link; its lemmas below state length, order and origin |
| UpdateBlog.PostsFromLength | update_blog.py:33-39 | at most one post per item |
| UpdateBlog.PostsFromAppend | update_blog.py:33-90 | items are handled one at a time, in order |
| UpdateBlog.PostsFromComplete | update_blog.py:33-90 | when every item has title and link elements, post `i` is the post of item `i` |
| UpdateBlog.PostsFromOrigin | update_blog.py:39 | every post comes from an item with title and link elements |
| UpdateBlog.UpdateReadme | update_blog.py:129-135 | a written README differs from the old one and is the marker substitution; no write means the substitution changed nothing |
| UpdateBlog.UpdateReadmeWithBlogPosts | update_blog.py:105-142 | building the block, substituting and comparing gives that result |
| UpdateBlog.UpdateReadmeWithoutMarkers | update_blog.py:133-135 | a README without a region is reported as a failure |
| UpdateBlog.UpdateReadmeSingleRegion | update_blog.py:129-135 | with one region, the README around it is kept and the region becomes the block; it is a failure exactly when the region already was the block |
| UpdateBlog.UpdateReadmeRerun | update_blog.py:129-135 | rerunning on the README just written, with the same block, writes nothing |
| UpdateBlogPosts.SelectedSummary | update_blog_posts.py:52-56 | `summary` when the entry has one, even empty; else `description`; else the empty text |
| UpdateBlogPosts.EntrySummary | update_blog_posts.py:51-63 | `summary` is preferred to `description`; a non-empty one is cleaned (no stripping first), an empty one stays empty |
| UpdateBlogPosts.PostOfEntry | update_blog_posts.py:65-70 | an entry without title or link has no post; otherwise title and link are kept verbatim, with the cleaned summary and the entry's date |
| UpdateBlogPosts.FetchLatestBlogPosts | update_blog_posts.py:33-80 | the posts are those of `entries[:max_posts]`, one per entry in feed order, or none at all when one of them lacks title or link; at most `len(entries)` and `max_posts` of them |
| UpdateBlogPosts.PostsOrFailure | update_blog_posts.py:37-80 | the posts of all entries, in order, or nothing as soon as one entry lacks title or link (`PostsOrFailureAllOrNothing`) |
| UpdateBlogPosts.FeedPosts | update_blog_posts.py:37-80 | what the fetch returns: those posts, or the empty list when the walk failed |
| UpdateBlogPosts.PostsOrFailureStep | update_blog_posts.py:38-71 | each turn either appends the entry's post or makes the whole walk fail |
| UpdateBlogPosts.PostsOrFailurePrefix | update_blog_posts.py:65-80 | once an entry fails, the whole fetch fails |
| UpdateBlogPosts.PostsOrFailureAllOrNothing | update_blog_posts.py:38-80 | the fetch has posts iff every taken entry has title and link, and then post `i` is the post of entry `i` |
| UpdateBlogPosts.AppendedSection | update_blog_posts.py:127 | the text appended without a heading: a blank line, the heading, a blank line, the block and a newline |
| UpdateBlogPosts.UpdateReadmeAsWritten | update_blog_posts.py:110-127 | when the substitution changes the text, that is written; when it does not, the block goes after each heading line, or a heading and the block are appended |
| UpdateBlogPosts.UpdateReadmeWithBlogPosts | update_blog_posts.py:96-131 | building the block, substituting and falling back gives that text |
| UpdateBlogPosts.FallbackGrows | update_blog_posts.py:115-127 | whenever the fallback runs with no heading, or with a heading followed by a newline, the README grows by at least the block plus two characters |
| UpdateBlogPosts.UpToDateReadmeGrows | update_blog_posts.py:115-127 | rerunning on the README just written, with the same block, grows it again by at least the block |
| UpdateBlogPosts.UpToDateAfterHeading | update_blog_posts.py:115-124 | a README holding the heading line and the current block gets a second copy of the block right after the heading |
| UpdateBlogPosts.UpToDateExample | update_blog_posts.py:115-124 | a concrete instance: the heading, a newline and the empty-feed block |
| UpdateBlogPosts.EmptyBlockPlain | update_blog_posts.py:105-108 | the empty-feed block holds no backslash and no `#` |
| UpdateBlogPosts.HeadingAtStart | update_blog_posts.py:119-124 | on `heading + "\n" + b`, the heading substitution turns that newline into a blank line, the block and a newline |
| UpdateBlogPosts.NoHashNoHeading | update_blog_posts.py:119-124 | text without `#` has no heading match and is left unchanged |
| UpdateBlogPosts.UpdateReadme | update_blog_posts.py:111-127 | the corrected update: substitute when the README has a region, and fall back to the heading or to appending only when it has none |
| UpdateBlogPosts.BlockGivesRegion | update_blog_posts.py:111-112 | a README containing a well-formed block has a region |
| UpdateBlogPosts.UpdateReadmeIdempotent | update_blog_posts.py:111-127 | once the README has a region, rerunning the corrected update changes nothing |
| UpdateBlogPosts.UpdateReadmeSettles | update_blog_posts.py:111-127 | for any README, the corrected update changes nothing from its second run on |
| UpdateBlogPosts.SettlesAfterHeading | update_blog_posts.py:118-124 | after the heading fallback the corrected update is settled |
| UpdateBlogPosts.SettlesAfterAppend | update_blog_posts.py:125-127 | after the appending fallback the corrected update is settled |
| UpdateBlogPosts.HeadingInsertsBlock | update_blog_posts.py:119-124 | when the heading substitution finds a heading line, the result has a region |

## Left out

- HTTP fetching, XML parsing and `feedparser`: the items or entries are an input sequence whose fields are optional. An empty sequence gives no posts, as in the scripts.
- `datetime.strptime`, `dateutil.parser.parse` and `feedparser`'s `published_parsed` are inputs returning an optional date. Their leniency, and any exception they raise, is folded into `None`.
- File reading and writing, `print`, both `main` functions, and the handlers for a missing README or another I/O error.
- The `except Exception` around the date parsing of `update_blog.py` (lines 71-72) is not modelled. Stripping a present, non-empty text cannot raise, and `strptime` raises only `ValueError`, which the inner handler takes.
- Dates.Date: years are limited to 1000..9999, so `%Y` prints four digits. The time of day is dropped because the display form does not show it.
- UpdateBlog.UpdateReadme: requires a block without a backslash. `re.sub` reads its replacement as a template, and that is modelled literally. The same requirement is on `UpdateBlogPosts.UpdateReadmeAsWritten` and `UpdateBlogPosts.UpdateReadme`.
- Render.RenderBlockWellFormed: requires that no field holds a `<`. This is a simpler sufficient condition than "no end marker inside the block".
- `update_blog.py` also reports failure when the region already holds the new block (a rerun with an unchanged feed). Nothing is written, so the README is unaffected. `UpdateBlog.UpdateReadmeRerun` states this.
- `UpdateBlogPosts.UpdateReadmeWithBlogPosts` follows the script as written. The corrected behaviour is `UpdateBlogPosts.UpdateReadme`.

## Findings

| source | as written | input that shows it | evidently intended | confidence | as-written member | corrected member |
|---|---|---|---|---|---|---|
| update_blog_posts.py:115 | the fallback (insert after the heading, or append) runs whenever the marker substitution leaves the README unchanged, including when its region already holds the current block | a README consisting of `## Latest Blog Posts`, a newline and the block for an empty feed: the rerun inserts a second copy of the block after the heading, and every later rerun adds another | fall back only when the README has no START...END region, as the message "Blog post markers not found" says | not executed | UpdateBlogPosts.UpToDateExample | UpdateBlogPosts.UpdateReadmeSettles |
