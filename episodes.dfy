/** `get_episodes`: the links scraped for the first episode of a season are copied once per
    episode of the season, with the episode number written into the end of each address by
    two substitutions: `e(\d+)$` becomes `e<number>`, then `episode=(\d+)$` becomes
    `episode=<number>`. Both patterns are anchored at the end, so each of them matches at
    most once, and only right before the trailing run of digits. */
module Episodes {
  import opened Json
  import opened Text
  import opened Scraper

  /** `re.sub(r'e(\d+)$', 'e' + rep, u)`. */
  function SubTrailingE(u: string, rep: string): string
  {
    var n := TrailingDigits(u);
    if 0 < n < |u| && u[|u| - n - 1] == 'e' then u[..|u| - n - 1] + "e" + rep else u
  }

  /** `re.sub(r'episode=(\d+)$', 'episode=' + rep, u)`. */
  function SubTrailingEpisode(u: string, rep: string): string
  {
    var n := TrailingDigits(u);
    var k := |u| - n;
    if n > 0 && k >= 8 && u[k - 8..k] == "episode=" then u[..k - 8] + "episode=" + rep else u
  }

  /** The address of a link rewritten for episode `epNum`: both substitutions in turn. */
  function RewriteUrl(u: string, epNum: int): string
  {
    var rep := IntToString(epNum);
    SubTrailingEpisode(SubTrailingE(u, rep), rep)
  }

  /** `u` has a match of `e(\d+)$`. */
  ghost predicate EndsWithEDigits(u: string)
  {
    exists i :: OccursAt("e", u, i) && i + 1 < |u| && AllDigits(u[i + 1..])
  }

  /** `u` has a match of `episode=(\d+)$`. */
  ghost predicate EndsWithEpisodeParam(u: string)
  {
    exists i :: OccursAt("episode=", u, i) && i + 8 < |u| && AllDigits(u[i + 8..])
  }

  /** The first substitution leaves alone an address whose last non-digit is not an `e`. */
  lemma {:induction false} SubEAfterOther(x: string, c: char, d: string, rep: string)
    requires c != 'e' && !IsDigit(c) && AllDigits(d)
    ensures SubTrailingE(x + [c] + d, rep) == x + [c] + d
  {
    TrailingDigitsAfter(x, c, d);
    assert (x + [c] + d)[|x|] == c;
  }

  /** The second substitution leaves alone an address whose last non-digit is not an `=`. */
  lemma {:induction false} SubEpisodeAfterOther(x: string, c: char, d: string, rep: string)
    requires c != '=' && !IsDigit(c) && AllDigits(d)
    ensures SubTrailingEpisode(x + [c] + d, rep) == x + [c] + d
  {
    TrailingDigitsAfter(x, c, d);
    var u := x + [c] + d;
    var k := |u| - |d|;
    assert u[k - 1] == c;
    if k >= 8 {
      assert u[k - 8..k][7] == c;
    }
  }

  /** What the first substitution writes ends in an `e` or a `-` before the digits of the
      number, so the second substitution leaves it alone. */
  lemma {:induction false} SecondSubAfterFirst(prefix: string, epNum: int)
    ensures var t := prefix + "e" + IntToString(epNum); SubTrailingEpisode(t, IntToString(epNum)) == t
  {
    var rep := IntToString(epNum);
    if epNum >= 0 {
      SubEpisodeAfterOther(prefix, 'e', rep, rep);
      assert prefix + "e" + rep == prefix + ['e'] + rep;
    } else {
      var digits := NatToString(-epNum);
      SubEpisodeAfterOther(prefix + "e", '-', digits, rep);
      assert prefix + "e" + rep == (prefix + "e") + ['-'] + digits;
    }
  }

  /** An address ending in `e` and digits gets the episode number in place of those digits. */
  lemma {:induction false} RewriteE(prefix: string, d: string, epNum: int)
    requires d != [] && AllDigits(d)
    ensures RewriteUrl(prefix + "e" + d, epNum) == prefix + "e" + IntToString(epNum)
  {
    var u := prefix + "e" + d;
    assert u == prefix + ['e'] + d;
    TrailingDigitsAfter(prefix, 'e', d);
    assert u[|prefix|] == 'e';
    assert u[..|prefix|] == prefix;
    SecondSubAfterFirst(prefix, epNum);
  }

  /** An address ending in `episode=` and digits gets the episode number after the `=`. */
  lemma {:induction false} RewriteEpisode(prefix: string, d: string, epNum: int)
    requires d != [] && AllDigits(d)
    ensures RewriteUrl(prefix + "episode=" + d, epNum) == prefix + "episode=" + IntToString(epNum)
  {
    var u := prefix + "episode=" + d;
    assert u == (prefix + "episode") + ['='] + d;
    SubEAfterOther(prefix + "episode", '=', d, IntToString(epNum));
    TrailingDigitsAfter(prefix + "episode", '=', d);
    var k := |u| - |d|;
    assert u[k - 8..k] == "episode=";
    assert u[..k - 8] == prefix;
  }

  /** An `e` followed by nothing but digits, at least one, is a match of `e(\d+)$`. */
  lemma {:induction false} EDigitsMatch(u: string, i: int)
    requires 0 <= i < |u| - 1 && u[i] == 'e'
    requires forall j :: i < j < |u| ==> IsDigit(u[j])
    ensures EndsWithEDigits(u)
  {
    assert AllDigits(u[i + 1..]) by {
      var d := u[i + 1..];
      forall j | 0 <= j < |d|
        ensures IsDigit(d[j])
      {
        assert d[j] == u[i + 1 + j];
      }
    }
    assert OccursAt("e", u, i) by {
      var e := u[i..i + 1];
      assert |e| == 1 && e[0] == 'e';
      assert e == "e";
    }
  }

  /** `episode=` followed by nothing but digits, at least one, is a match of
      `episode=(\d+)$`. */
  lemma {:induction false} EpisodeDigitsMatch(u: string, i: int)
    requires 0 <= i && i + 8 < |u| && u[i..i + 8] == "episode="
    requires forall j :: i + 8 <= j < |u| ==> IsDigit(u[j])
    ensures EndsWithEpisodeParam(u)
  {
    assert AllDigits(u[i + 8..]) by {
      var d := u[i + 8..];
      forall j | 0 <= j < |d|
        ensures IsDigit(d[j])
      {
        assert d[j] == u[i + 8 + j];
      }
    }
    assert OccursAt("episode=", u, i);
  }

  /** The first substitution changes only an address with a match of `e(\d+)$`. */
  lemma {:induction false} SubENoMatch(u: string, rep: string)
    ensures EndsWithEDigits(u) || SubTrailingE(u, rep) == u
  {
    var n := TrailingDigits(u);
    if 0 < n < |u| && u[|u| - n - 1] == 'e' {
      EDigitsMatch(u, |u| - n - 1);
    }
  }

  /** The second substitution changes only an address with a match of `episode=(\d+)$`. */
  lemma {:induction false} SubEpisodeNoMatch(u: string, rep: string)
    ensures EndsWithEpisodeParam(u) || SubTrailingEpisode(u, rep) == u
  {
    var n := TrailingDigits(u);
    var k := |u| - n;
    if n > 0 && k >= 8 && u[k - 8..k] == "episode=" {
      EpisodeDigitsMatch(u, k - 8);
    }
  }

  /** An address that matches neither pattern is left as it is. */
  lemma {:induction false} RewriteOther(u: string, epNum: int)
    requires !EndsWithEDigits(u) && !EndsWithEpisodeParam(u)
    ensures RewriteUrl(u, epNum) == u
  {
    var rep := IntToString(epNum);
    SubENoMatch(u, rep);
    SubEpisodeNoMatch(u, rep);
  }

  /** Rewriting for one episode and then for another is rewriting for the second; the first
      number must be non-negative, since a minus sign ends the trailing digits. */
  lemma {:induction false} RewriteTwice(u: string, m: int, n: int)
    requires m >= 0
    ensures RewriteUrl(RewriteUrl(u, m), n) == RewriteUrl(u, n)
  {
    if EndsWithEDigits(u) {
      var i :| OccursAt("e", u, i) && i + 1 < |u| && AllDigits(u[i + 1..]);
      RewriteTwiceAt(u, i, "e", m, n);
    } else if EndsWithEpisodeParam(u) {
      var i :| OccursAt("episode=", u, i) && i + 8 < |u| && AllDigits(u[i + 8..]);
      RewriteTwiceAt(u, i, "episode=", m, n);
    } else {
      RewriteOther(u, m);
      RewriteOther(u, n);
    }
  }

  /** `RewriteTwice` for an address with a match of either pattern at `i`. */
  lemma {:induction false} RewriteTwiceAt(u: string, i: int, p: string, m: int, n: int)
    requires m >= 0 && (p == "e" || p == "episode=")
    requires OccursAt(p, u, i) && i + |p| < |u| && AllDigits(u[i + |p|..])
    ensures RewriteUrl(RewriteUrl(u, m), n) == RewriteUrl(u, n)
  {
    var prefix, d := u[..i], u[i + |p|..];
    assert u == prefix + p + d;
    if p == "e" {
      RewriteE(prefix, d, m);
      RewriteE(prefix, d, n);
      RewriteE(prefix, IntToString(m), n);
    } else {
      RewriteEpisode(prefix, d, m);
      RewriteEpisode(prefix, d, n);
      RewriteEpisode(prefix, IntToString(m), n);
    }
  }

  /** Different episodes get different addresses from a link whose address ends in `e` and
      digits. */
  lemma {:induction false} RewriteDistinct(prefix: string, d: string, m: int, n: int)
    requires d != [] && AllDigits(d)
    requires RewriteUrl(prefix + "e" + d, m) == RewriteUrl(prefix + "e" + d, n)
    ensures m == n
  {
    RewriteE(prefix, d, m);
    RewriteE(prefix, d, n);
    var k := |prefix| + 1;
    assert (prefix + "e" + IntToString(m))[k..] == IntToString(m);
    assert (prefix + "e" + IntToString(n))[k..] == IntToString(n);
    IntToStringInjective(m, n);
  }

  /** A member of `season_data["episodes"]`: its (integer) episode number and its name. */
  datatype EpisodeInfo = EpisodeInfo(number: int, name: Field<string>)

  /** `episode.get('name', f"Episode {ep_num}")`: a null name stays null. */
  function EpisodeTitle(e: EpisodeInfo): (t: Option<string>)
    ensures e.name.Missing? ==> t == Some("Episode " + IntToString(e.number))
    ensures e.name.Null? ==> t.None?
    ensures e.name.Present? ==> t == Some(e.name.value)
  {
    GetOr(e.name, "Episode " + IntToString(e.number))
  }

  /** An entry of `episode_links_list`. */
  datatype EpisodeEntry = EpisodeEntry(episode: int, title: Option<string>, links: seq<Link>)

  /** `links` is the copy of `allLinks` for episode `epNum`: the same links, in order, each
      with its address alone rewritten for that episode. */
  predicate IsEpisodeCopy(links: seq<Link>, allLinks: seq<Link>, epNum: int)
  {
    && |links| == |allLinks|
    && forall j :: 0 <= j < |allLinks| ==>
         links[j] == allLinks[j].(url := RewriteUrl(allLinks[j].url, epNum))
  }

  /** `entry` is the entry for episode `e`: its number, its title and its copy of the links. */
  predicate IsEntryFor(entry: EpisodeEntry, e: EpisodeInfo, allLinks: seq<Link>)
  {
    && entry.episode == e.number
    && entry.title == EpisodeTitle(e)
    && IsEpisodeCopy(entry.links, allLinks, e.number)
  }

  /** The nested loops of `get_episodes`: one entry per episode, in order, each holding a copy
      of every scraped link, in order, whose address alone is rewritten for that episode. */
  method BuildEpisodeLinks(episodes: seq<EpisodeInfo>, allLinks: seq<Link>)
    returns (episodeLinksList: seq<EpisodeEntry>)
    ensures |episodeLinksList| == |episodes|
    ensures forall i :: 0 <= i < |episodes| ==> IsEntryFor(episodeLinksList[i], episodes[i], allLinks)
  {
    episodeLinksList := [];
    for i := 0 to |episodes|
      invariant |episodeLinksList| == i
      invariant forall i' :: 0 <= i' < i ==> IsEntryFor(episodeLinksList[i'], episodes[i'], allLinks)
    {
      var epNum := episodes[i].number;
      var currentEpisodeLinks: seq<Link> := [];
      for j := 0 to |allLinks|
        invariant |currentEpisodeLinks| == j
        invariant forall j' :: 0 <= j' < j ==>
          currentEpisodeLinks[j'] == allLinks[j'].(url := RewriteUrl(allLinks[j'].url, epNum))
      {
        var newLink := allLinks[j];
        var rep := IntToString(epNum);
        newLink := newLink.(url := SubTrailingE(newLink.url, rep));
        newLink := newLink.(url := SubTrailingEpisode(newLink.url, rep));
        currentEpisodeLinks := currentEpisodeLinks + [newLink];
      }
      var entry := EpisodeEntry(epNum, EpisodeTitle(episodes[i]), currentEpisodeLinks);
      assert IsEntryFor(entry, episodes[i], allLinks);
      episodeLinksList := episodeLinksList + [entry];
    }
  }

  /** The season data: `season_data.get('episodes')`. None is data that could not be fetched
      or that is an empty object. */
  datatype SeasonData = SeasonData(episodes: Field<seq<EpisodeInfo>>)

  datatype EpisodesReply =
    | EpisodesBadRequest
    | EpisodesNotFound
    | EpisodesFound(season: string, episodes: seq<EpisodeEntry>)

  /** `get_episodes`: both query arguments are required; the links are scraped for episode
      "1" of the season, and the season must list at least one episode. */
  method GetEpisodes(tmdbId: string, seasonNum: string, page: string -> PageReply,
                     api: string -> ApiReply, join: string -> string, seasonData: Option<SeasonData>)
    returns (reply: EpisodesReply)
    ensures reply.EpisodesBadRequest? <==> tmdbId == "" || seasonNum == ""
    ensures reply.EpisodesNotFound? <==> (tmdbId != "" && seasonNum != "" &&
      (seasonData.None? || !seasonData.value.episodes.Present? || seasonData.value.episodes.value == []))
    ensures reply.EpisodesFound? ==>
      var allLinks := Scrape("tv", tmdbId, seasonNum, "1", page, api, join).links;
      var episodes := seasonData.value.episodes.value;
      && reply.season == seasonNum
      && |reply.episodes| == |episodes|
      && forall i :: 0 <= i < |episodes| ==> IsEntryFor(reply.episodes[i], episodes[i], allLinks)
  {
    if tmdbId == "" || seasonNum == "" {
      return EpisodesBadRequest;
    }
    var allLinks, calls := ScrapeVidsrcPro("tv", tmdbId, seasonNum, "1", page, api, join);
    if seasonData.None? || !seasonData.value.episodes.Present? || seasonData.value.episodes.value == [] {
      return EpisodesNotFound;
    }
    var episodeLinksList := BuildEpisodeLinks(seasonData.value.episodes.value, allLinks);
    return EpisodesFound(seasonNum, episodeLinksList);
  }
}
