/** The corpus scraper of scrape.py: `filter_topics` keeps the topics created
    inside a fixed date window and turns each into a corpus record, and
    `scrape_all` collects the kept topics of successive topic-list pages until
    a page comes back empty. */
module Scrape {
  import opened Wrappers
  import opened Decimal
  import opened Corpus

  const Base: string := "https://discourse.onlinedegree.iitm.ac.in"

  /** The window bounds are the strings of scrape.py:13, which replace the
      date objects of scrape.py:7-8; they are compared as strings. */
  const Start: string := "2025-01-01"
  const End: string := "2025-04-14"

  /** `str(date)`: four digits of year, two of month, two of day. */
  predicate IsIsoDate(s: string) {
    |s| == 10 && s[4] == '-' && s[7] == '-' &&
    forall i :: 0 <= i < 10 && i != 4 && i != 7 ==> IsDigit(s[i])
  }

  type IsoDate = s: string | IsIsoDate(s) witness "2025-01-01"

  /** A topic of the forum's topic list, with the keys `filter_topics` reads;
      None is a missing key. */
  datatype Topic = Topic(createdAt: Option<string>, id: Option<int>, title: Option<string>, slug: Option<string>)

  /** Python's `a <= b` on strings: code point by code point, a prefix first. */
  predicate LexLe(a: string, b: string) {
    a == [] || (b != [] && (a[0] < b[0] || (a[0] == b[0] && LexLe(a[1..], b[1..]))))
  }

  lemma {:induction false} LexLeReflexive(s: string)
    ensures LexLe(s, s)
    decreases |s|
  {
    if s != [] {
      LexLeReflexive(s[1..]);
    }
  }

  /** The two bounds agree up to the month, where '1' < '4'. */
  lemma StartBeforeEnd()
    ensures LexLe(Start, End)
  {
    assert LexLe(Start[6..], End[6..]);
    assert LexLe(Start[5..], End[5..]) by { assert Start[5..][1..] == Start[6..] && End[5..][1..] == End[6..]; }
    assert LexLe(Start[4..], End[4..]) by { assert Start[4..][1..] == Start[5..] && End[4..][1..] == End[5..]; }
    assert LexLe(Start[3..], End[3..]) by { assert Start[3..][1..] == Start[4..] && End[3..][1..] == End[4..]; }
    assert LexLe(Start[2..], End[2..]) by { assert Start[2..][1..] == Start[3..] && End[2..][1..] == End[3..]; }
    assert LexLe(Start[1..], End[1..]) by { assert Start[1..][1..] == Start[2..] && End[1..][1..] == End[2..]; }
  }

  /** `START <= str(dt) <= END` (scrape.py:41): both bounds are inside. */
  predicate InWindow(d: string): (inside: bool)
    ensures d == Start || d == End ==> inside
  {
    LexLeReflexive(d);
    StartBeforeEnd();
    LexLe(Start, d) && LexLe(d, End)
  }

  /** `f"{BASE}/t/{t['slug']}/{t['id']}"` (scrape.py:46): its last segment
      reads back as the id. */
  function PostUrl(slug: string, id: int): (url: string)
    ensures LastSegment(url) == IntToString(id) && ParseInt(LastSegment(url)) == id
  {
    IdFromUrl(Base + "/t/" + slug, id);
    Base + "/t/" + slug + "/" + IntToString(id)
  }

  /** What the body of the `try` (scrape.py:40-47) makes of one topic; None
      when it appends nothing, because the topic lies outside the window or
      because a missing key or a failed `parse` raised and was skipped.
      `parse` stands for `str(parse(s).date())`, None where `parse` raises. */
  function Keep(t: Topic, parse: string -> Option<IsoDate>): (r: Option<Post>)
    ensures r.Some? ==> t.id == Some(r.value.id) && t.title == Some(r.value.title)
    ensures r.Some? ==> t.createdAt.Some? && parse(t.createdAt.value) == Some(r.value.createdAt)
    ensures r.Some? ==> InWindow(r.value.createdAt)
  {
    if t.createdAt.None? then None
    else match parse(t.createdAt.value)
      case None => None
      case Some(d) =>
        if !InWindow(d) then None
        else if t.id.None? || t.title.None? || t.slug.None? then None
        else Some(Post(t.id.value, t.title.value, d, PostUrl(t.slug.value, t.id.value)))
  }

  /** What `filter_topics(topics)` returns. */
  function Filtered(topics: seq<Topic>, parse: string -> Option<IsoDate>): (posts: seq<Post>) {
    if topics == [] then []
    else
      var last := Keep(topics[|topics| - 1], parse);
      Filtered(topics[..|topics| - 1], parse) + (if last.Some? then [last.value] else [])
  }

  /** The positions whose flag is set, in increasing order. */
  function Positions(flags: seq<bool>): (o: seq<nat>)
    ensures forall k :: 0 <= k < |o| ==> o[k] < |flags|
    ensures forall k, m :: 0 <= k < m < |o| ==> o[k] < o[m]
  {
    if flags == [] then []
    else
      var n := |flags| - 1;
      Positions(flags[..n]) + (if flags[n] then [n] else [])
  }

  /** Every set position is listed, and every listed position is set. */
  lemma {:induction false} PositionsComplete(flags: seq<bool>)
    ensures forall i :: 0 <= i < |flags| ==> (i in Positions(flags) <==> flags[i])
  {
    if flags != [] {
      var n := |flags| - 1;
      var init := flags[..n];
      PositionsComplete(init);
      var o0 := Positions(init);
      var o := Positions(flags);
      assert o == o0 + (if flags[n] then [n] else []);
      forall i | 0 <= i < |flags| && flags[i]
        ensures i in o
      {
        if i < n {
          assert init[i] == flags[i];
          var k :| 0 <= k < |o0| && o0[k] == i;
          assert o[k] == i;
        } else {
          assert o[|o0|] == n;
        }
      }
      forall i | 0 <= i < |flags| && i in o
        ensures flags[i]
      {
        var k :| 0 <= k < |o| && o[k] == i;
        if k < |o0| {
          assert o0[k] == i;
          assert init[i] == flags[i];
        }
      }
    }
  }

  /** Which topics `filter_topics` keeps, position by position. */
  function KeptFlags(topics: seq<Topic>, parse: string -> Option<IsoDate>): (flags: seq<bool>)
    ensures |flags| == |topics|
    ensures forall i :: 0 <= i < |topics| ==> flags[i] == Keep(topics[i], parse).Some?
  {
    seq(|topics|, i requires 0 <= i < |topics| => Keep(topics[i], parse).Some?)
  }

  /** The positions of the topics that `filter_topics` keeps: increasing
      positions of the input. */
  function Origins(topics: seq<Topic>, parse: string -> Option<IsoDate>): (o: seq<nat>)
    ensures forall k :: 0 <= k < |o| ==> o[k] < |topics|
    ensures forall k, m :: 0 <= k < m < |o| ==> o[k] < o[m]
  {
    Positions(KeptFlags(topics, parse))
  }

  /** Every kept position is an origin, and every origin is kept. */
  lemma OriginsComplete(topics: seq<Topic>, parse: string -> Option<IsoDate>)
    ensures forall i :: 0 <= i < |topics| ==> (i in Origins(topics, parse) <==> Keep(topics[i], parse).Some?)
  {
    PositionsComplete(KeptFlags(topics, parse));
  }

  /** `filter_topics` (scrape.py:34-50): a topic that raises is skipped and
      the loop goes on with the next one. */
  method FilterTopics(topics: seq<Topic>, parse: string -> Option<IsoDate>) returns (filtered: seq<Post>)
    ensures filtered == Filtered(topics, parse)
  {
    filtered := [];
    for i := 0 to |topics|
      invariant filtered == Filtered(topics[..i], parse)
    {
      assert topics[..i + 1][..i] == topics[..i];
      var t := topics[i];
      if t.createdAt.None? {
        continue;
      }
      var dt := parse(t.createdAt.value);
      if dt.None? {
        continue;
      }
      if LexLe(Start, dt.value) && LexLe(dt.value, End) {
        if t.id.None? || t.title.None? || t.slug.None? {
          continue;
        }
        filtered := filtered + [Post(t.id.value, t.title.value, dt.value, PostUrl(t.slug.value, t.id.value))];
      }
    }
    assert topics[..|topics|] == topics;
  }

  /** A kept topic gives a record dated inside the window, with the topic's
      id and title unchanged and a URL made of the base, the slug and the id,
      whose last segment reads back as the id. */
  lemma KeptRecord(t: Topic, parse: string -> Option<IsoDate>)
    requires Keep(t, parse).Some?
    ensures var p := Keep(t, parse).value;
      && IsIsoDate(p.createdAt) && InWindow(p.createdAt)
      && t.createdAt.Some? && parse(t.createdAt.value) == Some(p.createdAt)
      && p.id == t.id.value && p.title == t.title.value
      && p.url == Base + "/t/" + t.slug.value + "/" + IntToString(p.id)
      && LastSegment(p.url) == IntToString(p.id) && ParseInt(LastSegment(p.url)) == p.id
  {
    var p := Keep(t, parse).value;
    assert p.url == (Base + "/t/" + t.slug.value) + "/" + IntToString(p.id);
    IdFromUrl(Base + "/t/" + t.slug.value, p.id);
  }

  /** A topic is kept exactly when its date parses into the window and it
      has an id, a title and a slug; a missing date or a failed parse skips it. */
  lemma KeepExactly(t: Topic, parse: string -> Option<IsoDate>)
    ensures Keep(t, parse).Some? <==>
      t.createdAt.Some? && parse(t.createdAt.value).Some? && InWindow(parse(t.createdAt.value).value) &&
      t.id.Some? && t.title.Some? && t.slug.Some?
  {
  }

  /** `filter_topics` returns exactly the records of the kept topics, in
      input order: record k is built from the topic at the k-th origin, and
      the origins are all the kept positions, in increasing order. */
  lemma {:induction false} FilteredOrigins(topics: seq<Topic>, parse: string -> Option<IsoDate>)
    ensures |Origins(topics, parse)| == |Filtered(topics, parse)| <= |topics|
    ensures forall k :: 0 <= k < |Origins(topics, parse)| ==>
      Keep(topics[Origins(topics, parse)[k]], parse) == Some(Filtered(topics, parse)[k])
    ensures forall i :: 0 <= i < |topics| ==> (i in Origins(topics, parse) <==> Keep(topics[i], parse).Some?)
  {
    OriginsComplete(topics, parse);
    if topics != [] {
      var n := |topics| - 1;
      var init := topics[..n];
      FilteredOrigins(init, parse);
      var o0, f0 := Origins(init, parse), Filtered(init, parse);
      var kept := Keep(topics[n], parse);
      var o, f := Origins(topics, parse), Filtered(topics, parse);
      assert KeptFlags(topics, parse)[..n] == KeptFlags(init, parse);
      assert o == o0 + (if kept.Some? then [n] else []);
      assert f == f0 + (if kept.Some? then [kept.value] else []);
      forall k | 0 <= k < |o|
        ensures Keep(topics[o[k]], parse) == Some(f[k])
      {
        if k < |o0| {
          assert o[k] == o0[k] && f[k] == f0[k] && topics[o0[k]] == init[o0[k]];
        }
      }
    }
  }

  /** Every record `filter_topics` returns is dated inside the window and
      names its topic's id in its URL. */
  lemma FilteredInWindow(topics: seq<Topic>, parse: string -> Option<IsoDate>)
    ensures forall p :: p in Filtered(topics, parse) ==>
      IsIsoDate(p.createdAt) && InWindow(p.createdAt) &&
      LastSegment(p.url) == IntToString(p.id) && ParseInt(LastSegment(p.url)) == p.id
  {
    FilteredOrigins(topics, parse);
    var f := Filtered(topics, parse);
    var o := Origins(topics, parse);
    forall p | p in f
      ensures IsIsoDate(p.createdAt) && InWindow(p.createdAt)
      ensures LastSegment(p.url) == IntToString(p.id) && ParseInt(LastSegment(p.url)) == p.id
    {
      var k :| 0 <= k < |f| && f[k] == p;
      KeptRecord(topics[o[k]], parse);
    }
  }

  /** `fetch_topic_page(page)` over a finite page source: pages past the end,
      like a failed request, come back empty. */
  function FetchPage(pages: seq<seq<Topic>>, page: nat): (topics: seq<Topic>) {
    if page < |pages| then pages[page] else []
  }

  /** The first page that comes back empty. */
  function FirstEmpty(pages: seq<seq<Topic>>): (n: nat)
    ensures n <= |pages|
    ensures forall p :: 0 <= p < n ==> pages[p] != []
    ensures n < |pages| ==> pages[n] == []
  {
    if pages == [] || pages[0] == [] then 0 else 1 + FirstEmpty(pages[1..])
  }

  /** The batches of the given pages, concatenated in page order. */
  function Gathered(pages: seq<seq<Topic>>, parse: string -> Option<IsoDate>): (posts: seq<Post>) {
    if pages == [] then []
    else Gathered(pages[..|pages| - 1], parse) + Filtered(pages[|pages| - 1], parse)
  }

  /** What `scrape_all` returns: the batches of the pages before the first
      empty one. */
  function Scraped(pages: seq<seq<Topic>>, parse: string -> Option<IsoDate>): (posts: seq<Post>) {
    Gathered(pages[..FirstEmpty(pages)], parse)
  }

  /** `scrape_all` (scrape.py:52-65): fetch page after page, stop at the
      first empty one, and extend the result with each page's batch. */
  method ScrapeAll(pages: seq<seq<Topic>>, parse: string -> Option<IsoDate>) returns (allPosts: seq<Post>)
    ensures allPosts == Scraped(pages, parse)
  {
    var page := 0;
    allPosts := [];
    while true
      invariant page <= |pages|
      invariant forall p :: 0 <= p < page ==> pages[p] != []
      invariant allPosts == Gathered(pages[..page], parse)
      decreases |pages| - page
    {
      var topics := FetchPage(pages, page);
      if topics == [] {
        break;
      }
      var batch := FilterTopics(topics, parse);
      assert pages[..page + 1][..page] == pages[..page];
      allPosts := allPosts + batch;
      page := page + 1;
    }
    assert page == FirstEmpty(pages);
  }

  lemma {:induction false} GatheredAppend(a: seq<seq<Topic>>, b: seq<seq<Topic>>, parse: string -> Option<IsoDate>)
    ensures Gathered(a + b, parse) == Gathered(a, parse) + Gathered(b, parse)
    decreases |b|
  {
    if b == [] {
      assert a + b == a;
    } else {
      var b' := b[..|b| - 1];
      assert (a + b)[..|a + b| - 1] == a + b';
      GatheredAppend(a, b', parse);
    }
  }

  /** The loop read page by page: nothing when the first page is empty,
      otherwise the first page's batch followed by what the rest gives. A
      page whose batch is empty but which holds topics does not stop it. */
  lemma ScrapedUnfold(pages: seq<seq<Topic>>, parse: string -> Option<IsoDate>)
    ensures pages == [] || pages[0] == [] ==> Scraped(pages, parse) == []
    ensures pages != [] && pages[0] != [] ==>
      Scraped(pages, parse) == Filtered(pages[0], parse) + Scraped(pages[1..], parse)
    ensures pages != [] && pages[0] != [] && Filtered(pages[0], parse) == [] ==>
      Scraped(pages, parse) == Scraped(pages[1..], parse)
  {
    if pages != [] && pages[0] != [] {
      var n := FirstEmpty(pages[1..]);
      assert pages[..FirstEmpty(pages)] == [pages[0]] + pages[1..][..n];
      GatheredAppend([pages[0]], pages[1..][..n], parse);
      assert Gathered([pages[0]], parse) == Filtered(pages[0], parse);
    }
  }

  /** Pages after an empty page are never read. */
  lemma StopsAtEmptyPage(pages: seq<seq<Topic>>, p: nat, parse: string -> Option<IsoDate>)
    requires p < |pages| && pages[p] == []
    ensures Scraped(pages, parse) == Scraped(pages[..p], parse)
  {
    var n := FirstEmpty(pages);
    assert n <= p;
    assert FirstEmpty(pages[..p]) == n;
    assert pages[..p][..n] == pages[..n];
  }

  lemma {:induction false} GatheredInWindow(pages: seq<seq<Topic>>, parse: string -> Option<IsoDate>)
    ensures forall p :: p in Gathered(pages, parse) ==> IsIsoDate(p.createdAt) && InWindow(p.createdAt)
  {
    if pages != [] {
      GatheredInWindow(pages[..|pages| - 1], parse);
      FilteredInWindow(pages[|pages| - 1], parse);
    }
  }

  /** Every post `scrape_all` collects is dated inside the window. */
  lemma ScrapedInWindow(pages: seq<seq<Topic>>, parse: string -> Option<IsoDate>)
    ensures forall p :: p in Scraped(pages, parse) ==> IsIsoDate(p.createdAt) && InWindow(p.createdAt)
  {
    GatheredInWindow(pages[..FirstEmpty(pages)], parse);
  }
}
