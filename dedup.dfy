/** `get_movie_details`: the links of a movie, with one entry per address. The dictionary
    comprehension keyed by `link['url']` is modelled as an insertion-ordered dictionary: a key
    keeps the position of its first insertion, and every later insertion under the same key
    replaces its value. */
module LinkDedup {
  import opened Json
  import opened Text
  import opened Scraper

  /** A Python `dict` from addresses to links: its keys in insertion order and its entries. */
  datatype UrlDict = UrlDict(keys: seq<string>, entries: map<string, Link>)

  /** The keys are listed once each and are exactly the keys of the entries. */
  predicate Valid(d: UrlDict)
  {
    && (forall i, j :: 0 <= i < j < |d.keys| ==> d.keys[i] != d.keys[j])
    && (forall k :: k in d.entries ==> k in d.keys)
    && (forall k :: k in d.keys ==> k in d.entries)
  }

  /** `d[k] = v`: a new key goes last, an existing key keeps its place and takes the new
      value. */
  function Put(d: UrlDict, k: string, v: Link): (r: UrlDict)
    requires Valid(d)
    ensures Valid(r)
    ensures r.entries == d.entries[k := v]
    ensures k in d.entries ==> r.keys == d.keys
    ensures k !in d.entries ==> r.keys == d.keys + [k]
  {
    if k in d.entries then UrlDict(d.keys, d.entries[k := v])
    else UrlDict(d.keys + [k], d.entries[k := v])
  }

  /** The addresses of the links, in order. */
  function Urls(links: seq<Link>): (us: seq<string>)
    ensures |us| == |links|
    ensures forall i :: 0 <= i < |links| ==> us[i] == links[i].url
  {
    seq(|links|, i requires 0 <= i < |links| => links[i].url)
  }

  /** The addresses of a non-empty list are those of all links but the last, then the last
      one's. */
  lemma {:induction false} UrlsSnoc(links: seq<Link>)
    requires links != []
    ensures Urls(links) == Urls(links[..|links| - 1]) + [links[|links| - 1].url]
  {
  }

  /** The position of the first link with address `u`, or the length of `links` when there
      is none. */
  function FirstIndex(links: seq<Link>, u: string): (i: nat)
    ensures i <= |links|
    ensures i < |links| ==> links[i].url == u
    ensures forall j :: 0 <= j < i ==> links[j].url != u
  {
    if links == [] then 0
    else if links[0].url == u then 0
    else 1 + FirstIndex(links[1..], u)
  }

  /** The position of the last link with address `u`. */
  function LastIndex(links: seq<Link>, u: string): (i: nat)
    requires u in Urls(links)
    ensures i < |links| && links[i].url == u
    ensures forall j :: i < j < |links| ==> links[j].url != u
  {
    var n := |links| - 1;
    if links[n].url == u then n
    else
      UrlsSnoc(links);
      LastIndex(links[..n], u)
  }

  /** `{link['url']: link for link in links}`, one insertion per link from the first on. It
      has an entry for exactly the addresses that occur, each entry is a link with its key as
      address, and there are no more keys than links. */
  function FromLinks(links: seq<Link>): (d: UrlDict)
    ensures Valid(d)
    ensures forall u :: u in d.entries <==> u in Urls(links)
    ensures forall u :: u in d.entries ==> d.entries[u].url == u
    ensures |d.keys| <= |links|
  {
    if links == [] then UrlDict([], map[])
    else
      var n := |links| - 1;
      UrlsSnoc(links);
      Put(FromLinks(links[..n]), links[n].url, links[n])
  }

  /** `list(d.values())`: the values in key order. */
  function Values(d: UrlDict): (vs: seq<Link>)
    requires Valid(d)
    ensures |vs| == |d.keys|
    ensures forall i :: 0 <= i < |d.keys| ==> vs[i] == d.entries[d.keys[i]]
  {
    seq(|d.keys|, i requires 0 <= i < |d.keys| && Valid(d) => d.entries[d.keys[i]])
  }

  /** The links returned for a movie: one per distinct address. An empty list stays empty
      and a non-empty list stays non-empty. */
  function Dedup(links: seq<Link>): (r: seq<Link>)
    ensures |r| <= |links|
    ensures r == [] <==> links == []
  {
    var d := FromLinks(links);
    assert links != [] ==> Urls(links)[0] in Urls(links) && links[0].url in d.keys;
    Values(d)
  }

  /** `keys` lists addresses in the order in which they first occur in `links`. */
  predicate InFirstOrder(links: seq<Link>, keys: seq<string>)
  {
    forall p, q :: 0 <= p < q < |keys| ==> FirstIndex(links, keys[p]) < FirstIndex(links, keys[q])
  }

  /** The key order: an address comes before another exactly when its first link does. */
  lemma {:induction false} FromLinksOrder(links: seq<Link>)
    ensures InFirstOrder(links, FromLinks(links).keys)
  {
    if links != [] {
      var n := |links| - 1;
      var pre, last := links[..n], links[n];
      assert links == pre + [last];
      FromLinksOrder(pre);
      var before := FromLinks(pre);
      forall p | 0 <= p < |before.keys|
        ensures FirstIndex(pre, before.keys[p]) < |pre|
      {
        OccursAtFirstIndex(pre, before.keys[p]);
      }
      OrderStep(pre, last, before.keys);
      if last.url !in before.entries {
        OccursAtFirstIndex(pre, last.url);
      }
    }
  }

  /** An address occurs exactly when its first position lies inside the list. */
  lemma {:induction false} OccursAtFirstIndex(links: seq<Link>, u: string)
    ensures u in Urls(links) <==> FirstIndex(links, u) < |links|
  {
    if u in Urls(links) {
      var i :| 0 <= i < |links| && Urls(links)[i] == u;
    }
    if FirstIndex(links, u) < |links| {
      assert Urls(links)[FirstIndex(links, u)] == u;
    }
  }

  /** Where an address first occurs once a link is appended. */
  lemma {:induction false} FirstIndexAppend(pre: seq<Link>, last: Link, u: string)
    ensures FirstIndex(pre + [last], u) ==
      if FirstIndex(pre, u) < |pre| then FirstIndex(pre, u)
      else if last.url == u then |pre| else |pre| + 1
  {
    if pre != [] {
      assert (pre + [last])[1..] == pre[1..] + [last];
      FirstIndexAppend(pre[1..], last, u);
    }
  }

  /** Appending a link moves none of the keys already present. */
  lemma {:induction false} OrderKept(pre: seq<Link>, last: Link, keys: seq<string>)
    requires forall p :: 0 <= p < |keys| ==> FirstIndex(pre, keys[p]) < |pre|
    ensures forall p :: 0 <= p < |keys| ==> FirstIndex(pre + [last], keys[p]) == FirstIndex(pre, keys[p])
  {
    forall p | 0 <= p < |keys|
      ensures FirstIndex(pre + [last], keys[p]) == FirstIndex(pre, keys[p])
    {
      FirstIndexAppend(pre, last, keys[p]);
    }
  }

  /** Appending a link keeps the order of the keys present and puts a new address last. */
  lemma {:induction false} OrderStep(pre: seq<Link>, last: Link, keys: seq<string>)
    requires InFirstOrder(pre, keys)
    requires forall p :: 0 <= p < |keys| ==> FirstIndex(pre, keys[p]) < |pre|
    ensures InFirstOrder(pre + [last], keys)
    ensures FirstIndex(pre, last.url) == |pre| ==> InFirstOrder(pre + [last], keys + [last.url])
  {
    OrderKept(pre, last, keys);
    if FirstIndex(pre, last.url) == |pre| {
      FirstIndexAppend(pre, last, last.url);
      OrderNew(pre + [last], keys, last.url, |pre|);
    }
  }

  /** An address whose first link comes after those of all keys can be listed last. */
  lemma {:induction false} OrderNew(links: seq<Link>, keys: seq<string>, u: string, n: nat)
    requires InFirstOrder(links, keys)
    requires forall p :: 0 <= p < |keys| ==> FirstIndex(links, keys[p]) < n
    requires FirstIndex(links, u) == n
    ensures InFirstOrder(links, keys + [u])
  {
    var ks := keys + [u];
    forall p, q | 0 <= p < q < |ks|
      ensures FirstIndex(links, ks[p]) < FirstIndex(links, ks[q])
    {
      assert ks[p] == keys[p];
      if q < |keys| {
        assert ks[q] == keys[q];
      }
    }
  }

  /** Each entry holds the last link with its address. */
  lemma {:induction false} FromLinksEntries(links: seq<Link>)
    ensures var d := FromLinks(links);
      forall u :: u in d.entries ==> d.entries[u] == links[LastIndex(links, u)]
  {
    if links != [] {
      var n := |links| - 1;
      var pre := links[..n];
      FromLinksEntries(pre);
      var d := FromLinks(links);
      UrlsSnoc(links);
      var before := FromLinks(pre);
      assert d == Put(before, links[n].url, links[n]);
      forall u | u in d.entries
        ensures d.entries[u] == links[LastIndex(links, u)]
      {
        if u == links[n].url {
          assert LastIndex(links, u) == n;
        } else {
          var j := LastIndex(pre, u);
          assert LastIndex(links, u) == j;
          assert d.entries[u] == before.entries[u] == pre[j] == links[j];
        }
      }
    }
  }

  /** The addresses in the result are distinct, each comes from some link, every address of
      the input is there, and every entry is the last input link with its address. */
  lemma {:induction false} DedupContents(links: seq<Link>)
    ensures var r := Dedup(links);
      && (forall p, q :: 0 <= p < q < |r| ==> r[p].url != r[q].url)
      && (forall u :: u in Urls(r) <==> u in Urls(links))
      && (forall p :: 0 <= p < |r| ==> r[p] == links[LastIndex(links, r[p].url)])
  {
    var d := FromLinks(links);
    var r := Dedup(links);
    DedupKeys(links);
    FromLinksEntries(links);
    assert r == Values(d);
    forall p | 0 <= p < |r|
      ensures r[p].url == d.keys[p] && r[p] == d.entries[d.keys[p]]
    {
      assert Urls(r)[p] == r[p].url;
    }
  }

  /** The addresses of the result are the keys of the dictionary. */
  lemma {:induction false} DedupKeys(links: seq<Link>)
    ensures Urls(Dedup(links)) == FromLinks(links).keys
  {
    var d := FromLinks(links);
    var r := Dedup(links);
    assert |Urls(r)| == |d.keys|;
    forall p | 0 <= p < |d.keys|
      ensures Urls(r)[p] == d.keys[p]
    {
      assert r[p] == d.entries[d.keys[p]];
    }
  }

  /** The result lists the addresses in the order of their first occurrence. */
  lemma {:induction false} DedupOrder(links: seq<Link>)
    ensures InFirstOrder(links, Urls(Dedup(links)))
  {
    FromLinksOrder(links);
    DedupKeys(links);
  }

  predicate DistinctUrls(links: seq<Link>)
  {
    forall i, j :: 0 <= i < j < |links| ==> links[i].url != links[j].url
  }

  /** Dropping the last of links with distinct addresses leaves distinct addresses, none of
      which is the last one's. */
  lemma {:induction false} DistinctPrefix(links: seq<Link>)
    requires links != [] && DistinctUrls(links)
    ensures DistinctUrls(links[..|links| - 1])
    ensures links[|links| - 1].url !in Urls(links[..|links| - 1])
  {
    var n := |links| - 1;
    var pre := links[..n];
    assert forall i :: 0 <= i < |pre| ==> pre[i] == links[i];
  }

  /** Without repeated addresses the keys are the addresses in order. */
  lemma {:induction false} FromDistinctLinks(links: seq<Link>)
    requires DistinctUrls(links)
    ensures FromLinks(links).keys == Urls(links)
  {
    if links != [] {
      var n := |links| - 1;
      var pre := links[..n];
      DistinctPrefix(links);
      FromDistinctLinks(pre);
      UrlsSnoc(links);
      var before := FromLinks(pre);
      assert FromLinks(links) == Put(before, links[n].url, links[n]);
    }
  }

  /** Links whose addresses are distinct come back unchanged. */
  lemma {:induction false} DedupDistinct(links: seq<Link>)
    requires DistinctUrls(links)
    ensures Dedup(links) == links
  {
    FromDistinctLinks(links);
    FromLinksEntries(links);
    var r := Dedup(links);
    forall p | 0 <= p < |links|
      ensures r[p] == links[p]
    {
      assert LastIndex(links, links[p].url) == p;
    }
  }

  /** Removing duplicates twice is removing them once. */
  lemma {:induction false} DedupIdempotent(links: seq<Link>)
    ensures Dedup(Dedup(links)) == Dedup(links)
  {
    DedupContents(links);
    DedupDistinct(Dedup(links));
  }

  /** The answer of the movie route. */
  datatype MovieReply = NoLinksFound | MovieLinks(links: seq<Link>)

  /** `get_movie_details`: the movie scraper's links without repeated addresses, or the "no
      streaming links" error when the scraper found none. The links found are `Dedup` of the
      scraped ones and have the same addresses. `season` and `episode` do not take
      part in a movie's address. */
  function MovieDetails(tmdbId: int, page: string -> PageReply, api: string -> ApiReply,
                        join: string -> string): (r: MovieReply)
    ensures r.NoLinksFound? <==> Scrape("movie", IntToString(tmdbId), "None", "None", page, api, join).links == []
    ensures r.MovieLinks? ==> r.links != [] && DistinctUrls(r.links)
    ensures r.MovieLinks? ==>
      var allLinks := Scrape("movie", IntToString(tmdbId), "None", "None", page, api, join).links;
      && r.links == Dedup(allLinks)
      && (forall u :: u in Urls(r.links) <==> u in Urls(allLinks))
  {
    var allLinks := Scrape("movie", IntToString(tmdbId), "None", "None", page, api, join).links;
    if allLinks == [] then NoLinksFound
    else
      DedupContents(allLinks);
      MovieLinks(Dedup(allLinks))
  }

  /** Links for a movie exist only when its embed page answered with status 200. */
  lemma {:induction false} MovieNeedsPage(tmdbId: int, page: string -> PageReply, api: string -> ApiReply,
                       join: string -> string)
    requires MovieDetails(tmdbId, page, api, join).MovieLinks?
    ensures var reply := page(EmbedBase + "/movie/" + IntToString(tmdbId));
      reply.Page? && reply.status == 200
  {
    ScrapeNeedsPage("movie", IntToString(tmdbId), "None", "None", page, api, join);
  }
}
