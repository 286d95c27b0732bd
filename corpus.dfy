/** The corpus of forum topics that the scraper writes and the service loads
    (app.py:21-25): one record per topic, and the `titles` and `urls` lists
    that the service derives from it, position by position. */
module Corpus {
  import opened Decimal

  /** A record of the corpus file, as `filter_topics` builds it. */
  datatype Post = Post(id: int, title: string, createdAt: string, url: string)

  /** The service links to a topic by id alone (app.py:25). */
  const TopicLinkPrefix: string := "https://discourse.onlinedegree.iitm.ac.in/t/"

  function TopicLink(id: int): (link: string) {
    TopicLinkPrefix + IntToString(id)
  }

  /** `titles = [p["title"] for p in posts]`: position i holds the title of
      record i. */
  function Titles(posts: seq<Post>): (titles: seq<string>)
    ensures |titles| == |posts|
    ensures forall i :: 0 <= i < |posts| ==> titles[i] == posts[i].title
  {
    seq(|posts|, i requires 0 <= i < |posts| => posts[i].title)
  }

  /** `urls = [f".../t/{p['id']}" for p in posts]`: position i holds the
      link to record i's topic, so `urls` and `titles` stay aligned. */
  function Urls(posts: seq<Post>): (urls: seq<string>)
    ensures |urls| == |posts|
    ensures forall i :: 0 <= i < |posts| ==> urls[i] == TopicLink(posts[i].id)
  {
    seq(|posts|, i requires 0 <= i < |posts| => TopicLink(posts[i].id))
  }

  /** The text after the last `/` of a URL (all of it when there is none). */
  function LastSegment(s: string): (t: string)
    ensures '/' !in t
  {
    if s == [] || s[|s| - 1] == '/' then [] else LastSegment(s[..|s| - 1]) + [s[|s| - 1]]
  }

  lemma {:induction false} LastSegmentAfterSlash(p: string, t: string)
    requires '/' !in t
    ensures LastSegment(p + "/" + t) == t
    decreases |t|
  {
    var s := p + "/" + t;
    if t == [] {
      assert s[|s| - 1] == '/';
    } else {
      var t' := t[..|t| - 1];
      assert s[..|s| - 1] == p + "/" + t';
      assert s[|s| - 1] == t[|t| - 1];
      assert '/' !in t' by {
        forall i | 0 <= i < |t'| ensures t'[i] != '/' { assert t'[i] == t[i]; }
      }
      LastSegmentAfterSlash(p, t');
      assert t == t' + [t[|t| - 1]];
    }
  }

  /** Whatever precedes it, a URL that ends in `/` and the decimal id names
      that id: its last segment reads back as the id. */
  lemma IdFromUrl(p: string, id: int)
    ensures LastSegment(p + "/" + IntToString(id)) == IntToString(id)
    ensures ParseInt(LastSegment(p + "/" + IntToString(id))) == id
  {
    LastSegmentAfterSlash(p, IntToString(id));
    IntStringRoundTrip(id);
  }

  /** The service's link for a topic names the topic's id; as distinct ids
      have distinct decimal texts, topics with different ids get different
      links. */
  lemma TopicLinkNamesId(id: int, other: int)
    ensures LastSegment(TopicLink(id)) == IntToString(id)
    ensures ParseInt(LastSegment(TopicLink(id))) == id
    ensures TopicLink(id) == TopicLink(other) ==> id == other
  {
    var p := TopicLinkPrefix[..|TopicLinkPrefix| - 1];
    assert TopicLink(id) == p + "/" + IntToString(id);
    assert TopicLink(other) == p + "/" + IntToString(other);
    IdFromUrl(p, id);
    IdFromUrl(p, other);
    if TopicLink(id) == TopicLink(other) {
      IntToStringInjective(id, other);
    }
  }
}
