/** `scrape_vidsrc_pro`: builds the embed page address for a title, reads the server tabs of
    that page and asks the provider's source API for one link per tab.

    The two HTTP exchanges are inputs: `page` answers the embed page request and `api` the
    source API request, each as a function of the requested address. `join` stands for
    `urljoin("https:", ·)`. Besides the links, the scraper reports the addresses it requested,
    in order, so that "no request is made" can be stated. */
module Scraper {
  import opened Json
  import opened Text

  const EmbedBase := "https://vidsrc.pro/embed"
  const SourceApiBase := "https://vidsrc.pro/rcp/"

  /** The embed page address for a media type, or None for a type other than "movie" and
      "tv". The identifiers are the decimal or textual forms the route handlers pass. */
  function EmbedUrl(mediaType: string, tmdbId: string, season: string, episode: string): Option<string>
  {
    if mediaType == "movie" then Some(EmbedBase + "/movie/" + tmdbId)
    else if mediaType == "tv" then Some(EmbedBase + "/tv/" + tmdbId + "/" + season + "-" + episode)
    else None
  }

  /** An address is built for exactly the two known media types, every address lies under
      the embed base, and the media type decides which branch of it. */
  lemma {:induction false} EmbedUrlShape(mediaType: string, tmdbId: string, season: string, episode: string)
    ensures EmbedUrl(mediaType, tmdbId, season, episode).Some? <==> mediaType in ["movie", "tv"]
    ensures EmbedUrl(mediaType, tmdbId, season, episode).Some? ==>
      var u := EmbedUrl(mediaType, tmdbId, season, episode).value;
      StartsWith(u, EmbedBase + "/" + mediaType + "/") && u[|EmbedBase| + |mediaType| + 2..] ==
        (if mediaType == "movie" then tmdbId else tmdbId + "/" + season + "-" + episode)
  {
    var u := EmbedUrl(mediaType, tmdbId, season, episode);
    if mediaType == "movie" {
      assert u.value == (EmbedBase + "/movie/") + tmdbId;
    } else if mediaType == "tv" {
      assert u.value == (EmbedBase + "/tv/") + (tmdbId + "/" + season + "-" + episode);
    }
  }

  /** Different requests give different addresses, provided the season and episode of a
      "tv" request are written in decimal digits. */
  lemma {:induction false} EmbedUrlInjective(m1: string, id1: string, s1: string, e1: string,
                          m2: string, id2: string, s2: string, e2: string)
    requires m1 == "tv" ==> AllDigits(s1) && AllDigits(e1)
    requires m2 == "tv" ==> AllDigits(s2) && AllDigits(e2)
    requires EmbedUrl(m1, id1, s1, e1).Some?
    requires EmbedUrl(m1, id1, s1, e1) == EmbedUrl(m2, id2, s2, e2)
    ensures m1 == m2 && id1 == id2
    ensures m1 == "tv" ==> s1 == s2 && e1 == e2
  {
    var u := EmbedUrl(m1, id1, s1, e1).value;
    var n := |EmbedBase|;
    assert u[n + 1] == m1[0] by { EmbedUrlShape(m1, id1, s1, e1); }
    assert u[n + 1] == m2[0] by { EmbedUrlShape(m2, id2, s2, e2); }
    if m1 == "movie" {
      assert (EmbedBase + "/movie/") + id1 == (EmbedBase + "/movie/") + id2;
      assert id1 == u[n + 7..] == id2;
    } else {
      var p1 := EmbedBase + "/tv/" + id1;
      var p2 := EmbedBase + "/tv/" + id2;
      assert (p1 + "/" + s1) + ['-'] + e1 == (p2 + "/" + s2) + ['-'] + e2;
      SplitBeforeDigits(p1 + "/" + s1, '-', e1, p2 + "/" + s2, e2);
      assert p1 + ['/'] + s1 == p2 + ['/'] + s2;
      SplitBeforeDigits(p1, '/', s1, p2, s2);
      assert id1 == p1[n + 4..] && id2 == p2[n + 4..];
    }
  }

  /** The `lang` label of a link. */
  datatype Lang = Hindi | Dubbed | Original | Unknown

  /** The priority classifier on a server tab's name: "hindi" anywhere in the lower-cased
      name, then "dub" anywhere in it, then the two exact names of the original servers. */
  function LangLabel(serverName: string): Lang
  {
    if Contains(Lower(serverName), "hindi") then Hindi
    else if Contains(Lower(serverName), "dub") then Dubbed
    else if serverName in ["VidSrc", "2Embed"] then Original
    else Unknown
  }

  /** The label in terms of where the words occur: "hindi" anywhere in the lower-cased name
      wins over "dub" anywhere in it, which wins over the exact original server names. */
  lemma {:induction false} LangLabelSpec(serverName: string)
    ensures LangLabel(serverName) == Hindi <==> OccursIn("hindi", Lower(serverName))
    ensures LangLabel(serverName) == Dubbed <==>
      !OccursIn("hindi", Lower(serverName)) && OccursIn("dub", Lower(serverName))
    ensures LangLabel(serverName) == Original <==>
      !OccursIn("hindi", Lower(serverName)) && !OccursIn("dub", Lower(serverName))
      && serverName in ["VidSrc", "2Embed"]
  {
    ContainsOccurs(Lower(serverName), "hindi");
    ContainsOccurs(Lower(serverName), "dub");
  }

  /** The two original servers are labelled Original: neither of their names contains one
      of the words that take precedence. */
  lemma {:induction false} OriginalServers()
    ensures LangLabel("VidSrc") == Original
    ensures LangLabel("2Embed") == Original
  {
    VidSrcIsOriginal();
    TwoEmbedIsOriginal();
  }

  lemma {:induction false} VidSrcIsOriginal()
    ensures LangLabel("VidSrc") == Original
  {
    OriginalName("VidSrc");
  }

  lemma {:induction false} TwoEmbedIsOriginal()
    ensures LangLabel("2Embed") == Original
  {
    OriginalName("2Embed");
  }

  /** A name of an original server without the letters h and u in either case. */
  lemma {:induction false} OriginalName(name: string)
    requires name in ["VidSrc", "2Embed"]
    requires forall j :: 0 <= j < |name| ==> name[j] !in "hHuU"
    ensures LangLabel(name) == Original
  {
    var low := Lower(name);
    LowerAvoids(name, 'h');
    LowerAvoids(name, 'u');
    ContainsOccurs(low, "hindi");
    ContainsOccurs(low, "dub");
    NoOccurrence(low, "hindi", 'h');
    NoOccurrence(low, "dub", 'u');
  }

  /** A pattern holding a character the text lacks does not occur in it. */
  lemma {:induction false} NoOccurrence(s: string, p: string, c: char)
    requires c in p && c !in s
    ensures !OccursIn(p, s)
  {
    var k :| 0 <= k < |p| && p[k] == c;
    forall i | 0 <= i <= |s| - |p|
      ensures !OccursAt(p, s, i)
    {
      assert s[i..i + |p|][k] == s[i + k];
    }
  }

  /** A `div.server` tab: its text and its `data-hash` attribute (None when absent). */
  datatype Tab = Tab(text: string, hash: Option<string>)

  /** The answer to the embed page request. `PageUnreachable` is a request that raised. */
  datatype PageReply = PageUnreachable | Page(status: int, tabs: seq<Tab>)

  /** The decoded body of a source API answer. `Malformed` is a body whose decoding or whose
      `.get('result', {}).get('url')` raised; otherwise `url` is that member, None when it
      is absent or null. A url member that is neither a string nor null is not modelled. */
  datatype ApiBody = Malformed | Body(url: Option<string>)

  /** The answer to a source API request. `ApiUnreachable` is a request that raised. */
  datatype ApiReply = ApiUnreachable | ApiResponse(status: int, body: ApiBody)

  /** One entry of `found_links`. */
  datatype Link = Link(url: string, source: string, lang: Lang)

  /** What one tab contributes: nothing, a link, or an exception that ends the loop. */
  datatype TabStep = Skip | Emit(link: Link) | Abort

  /** The source API address of a tab's hash. */
  function SourceApiUrl(hash: string): string
  {
    SourceApiBase + hash
  }

  /** The source API request a tab causes: one exactly when it has a non-empty hash. */
  function TabRequests(tab: Tab): seq<string>
  {
    if tab.hash.Some? && tab.hash.value != "" then [SourceApiUrl(tab.hash.value)] else []
  }

  /** One iteration of the `for tab in server_tabs` loop. A tab without a non-empty hash, a
      source answer other than 200, and a 200 answer without a non-empty url are skipped; the
      request raising, or the body of a 200 answer failing to decode, ends the loop; any other
      tab emits the joined url with the tab's stripped name and its label. */
  function TabStepOf(tab: Tab, api: string -> ApiReply, join: string -> string): (step: TabStep)
    ensures tab.hash.None? || tab.hash == Some("") ==> step == Skip
    ensures tab.hash.Some? && tab.hash.value != "" ==>
      var reply := api(SourceApiUrl(tab.hash.value));
      && (step.Abort? <==> reply.ApiUnreachable? || (reply.status == 200 && reply.body.Malformed?))
      && (reply.ApiResponse? && reply.status != 200 ==> step == Skip)
      && ((reply.ApiResponse? && reply.status == 200 && reply.body.Body? &&
           (reply.body.url.None? || reply.body.url.value == "")) ==> step == Skip)
      && ((reply.ApiResponse? && reply.status == 200 && reply.body.Body? &&
           reply.body.url.Some? && reply.body.url.value != "") ==> step.Emit?)
    ensures step.Emit? ==> FromTab(step.link, tab, api, join)
    ensures !step.Skip? ==> TabRequests(tab) == [SourceApiUrl(tab.hash.value)]
  {
    var serverName := Strip(tab.text);
    match tab.hash
    case None => Skip
    case Some(hash) =>
      if hash == "" then Skip
      else
        match api(SourceApiUrl(hash))
        case ApiUnreachable => Abort
        case ApiResponse(status, body) =>
          if status != 200 then Skip
          else
            match body
            case Malformed => Abort
            case Body(iframeUrl) =>
              if iframeUrl.None? || iframeUrl.value == "" then Skip
              else Emit(Link(join(iframeUrl.value), serverName, LangLabel(serverName)))
  }

  /** The handling of one tab, as a function of the tab. */
  function TabHandler(api: string -> ApiReply, join: string -> string): Tab -> TabStep
  {
    tab => TabStepOf(tab, api, join)
  }

  /** The links gathered and the addresses requested. */
  datatype Harvest = Harvest(links: seq<Link>, calls: seq<string>)

  /** The loop over the tabs, for any way `stepOf` of handling one tab: links in tab order;
      an exception stops the loop and the links gathered before it are what the scraper
      returns. */
  function HarvestTabs(tabs: seq<Tab>, stepOf: Tab -> TabStep): Harvest
  {
    if tabs == [] then Harvest([], [])
    else
      var calls := TabRequests(tabs[0]);
      match stepOf(tabs[0])
      case Abort => Harvest([], calls)
      case Skip =>
        var rest := HarvestTabs(tabs[1..], stepOf);
        Harvest(rest.links, calls + rest.calls)
      case Emit(link) =>
        var rest := HarvestTabs(tabs[1..], stepOf);
        Harvest([link] + rest.links, calls + rest.calls)
  }

  /** The whole scraper: an unknown media type makes no request; a failed embed page request
      or a status other than 200 gives no links. */
  function Scrape(mediaType: string, tmdbId: string, season: string, episode: string,
                  page: string -> PageReply, api: string -> ApiReply, join: string -> string): Harvest
  {
    match EmbedUrl(mediaType, tmdbId, season, episode)
    case None => Harvest([], [])
    case Some(embedUrl) =>
      match page(embedUrl)
      case PageUnreachable => Harvest([], [embedUrl])
      case Page(status, tabs) =>
        if status != 200 then Harvest([], [embedUrl])
        else
          var h := HarvestTabs(tabs, TabHandler(api, join));
          Harvest(h.links, [embedUrl] + h.calls)
  }

  /** `scrape_vidsrc_pro` itself: it appends to `found_links` in a loop over the tabs,
      skipping a tab with `continue` and leaving the loop on an exception. */
  method ScrapeVidsrcPro(mediaType: string, tmdbId: string, season: string, episode: string,
                         page: string -> PageReply, api: string -> ApiReply, join: string -> string)
    returns (foundLinks: seq<Link>, calls: seq<string>)
    ensures Harvest(foundLinks, calls) == Scrape(mediaType, tmdbId, season, episode, page, api, join)
    ensures mediaType !in ["movie", "tv"] ==> foundLinks == [] && calls == []
  {
    foundLinks, calls := [], [];
    var embed := EmbedUrl(mediaType, tmdbId, season, episode);
    if embed.None? {
      return;
    }
    var embedUrl := embed.value;
    calls := [embedUrl];
    var response := page(embedUrl);
    if response.PageUnreachable? || response.status != 200 {
      return;
    }
    var serverTabs := response.tabs;
    ghost var stepOf := TabHandler(api, join);
    ghost var whole := HarvestTabs(serverTabs, stepOf);
    assert Scrape(mediaType, tmdbId, season, episode, page, api, join) == Harvest(whole.links, [embedUrl] + whole.calls);
    assert serverTabs[0..] == serverTabs;
    for i := 0 to |serverTabs|
      invariant var rest := HarvestTabs(serverTabs[i..], stepOf);
        && whole.links == foundLinks + rest.links
        && [embedUrl] + whole.calls == calls + rest.calls
    {
      var tab := serverTabs[i];
      HarvestAt(serverTabs, stepOf, i);
      ghost var rest := HarvestTabs(serverTabs[i + 1..], stepOf);
      var serverName := Strip(tab.text);
      var dataHash := tab.hash;
      if dataHash.None? || dataHash.value == "" {
        assert stepOf(tab) == Skip && TabRequests(tab) == [];
        Neutral(rest.calls);
        continue;
      }
      var apiUrl := SourceApiUrl(dataHash.value);
      assert TabRequests(tab) == [apiUrl];
      Assoc(calls, [apiUrl], rest.calls);
      calls := calls + [apiUrl];
      var sourceResponse := api(apiUrl);
      if sourceResponse.ApiUnreachable? {
        assert stepOf(tab) == Abort;
        Neutral(foundLinks);
        return;
      }
      if sourceResponse.status != 200 {
        assert stepOf(tab) == Skip;
        continue;
      }
      if sourceResponse.body.Malformed? {
        assert stepOf(tab) == Abort;
        Neutral(foundLinks);
        return;
      }
      var iframeUrl := sourceResponse.body.url;
      if iframeUrl.Some? && iframeUrl.value != "" {
        var finalUrl := join(iframeUrl.value);
        var lang := LangLabel(serverName);
        assert stepOf(tab) == Emit(Link(finalUrl, serverName, lang));
        Assoc(foundLinks, [Link(finalUrl, serverName, lang)], rest.links);
        foundLinks := foundLinks + [Link(finalUrl, serverName, lang)];
      } else {
        assert stepOf(tab) == Skip;
      }
    }
    assert serverTabs[|serverTabs|..] == [];
    Neutral(foundLinks);
    Neutral(calls);
  }

  lemma {:induction false} Neutral<T>(a: seq<T>)
    ensures [] + a == a && a + [] == a
  {
  }

  lemma {:induction false} Assoc<T>(a: seq<T>, b: seq<T>, c: seq<T>)
    ensures (a + b) + c == a + (b + c)
  {
  }

  /** One step of the harvest, at position `i`. */
  lemma {:induction false} HarvestAt(tabs: seq<Tab>, stepOf: Tab -> TabStep, i: nat)
    requires i < |tabs|
    ensures var rest := HarvestTabs(tabs[i + 1..], stepOf);
      && (stepOf(tabs[i]).Abort? ==> HarvestTabs(tabs[i..], stepOf) == Harvest([], TabRequests(tabs[i])))
      && (stepOf(tabs[i]).Skip? ==> HarvestTabs(tabs[i..], stepOf) == Harvest(rest.links, TabRequests(tabs[i]) + rest.calls))
      && (stepOf(tabs[i]).Emit? ==>
            HarvestTabs(tabs[i..], stepOf) == Harvest([stepOf(tabs[i]).link] + rest.links, TabRequests(tabs[i]) + rest.calls))
  {
    HarvestUnfold(tabs[i..], stepOf);
    assert tabs[i..][1..] == tabs[i + 1..];
  }

  /** One step of the harvest. */
  lemma {:induction false} HarvestUnfold(tabs: seq<Tab>, stepOf: Tab -> TabStep)
    requires tabs != []
    ensures var rest := HarvestTabs(tabs[1..], stepOf);
      && (stepOf(tabs[0]).Abort? ==> HarvestTabs(tabs, stepOf) == Harvest([], TabRequests(tabs[0])))
      && (stepOf(tabs[0]).Skip? ==> HarvestTabs(tabs, stepOf) == Harvest(rest.links, TabRequests(tabs[0]) + rest.calls))
      && (stepOf(tabs[0]).Emit? ==>
            HarvestTabs(tabs, stepOf) == Harvest([stepOf(tabs[0]).link] + rest.links, TabRequests(tabs[0]) + rest.calls))
  {
  }

  /** Each tab yields at most one link and causes at most one source API request. */
  lemma {:induction false} HarvestBounds(tabs: seq<Tab>, stepOf: Tab -> TabStep)
    ensures |HarvestTabs(tabs, stepOf).links| <= |tabs|
    ensures |HarvestTabs(tabs, stepOf).calls| <= |tabs|
  {
    if tabs != [] {
      HarvestBounds(tabs[1..], stepOf);
    }
  }

  /** Every link gathered is the one some tab emits, so it carries that tab's stripped name
      as its source and the label of that name. */
  lemma {:induction false} HarvestFromTabs(tabs: seq<Tab>, stepOf: Tab -> TabStep, k: nat)
    requires k < |HarvestTabs(tabs, stepOf).links|
    ensures exists j :: 0 <= j < |tabs| && stepOf(tabs[j]) == Emit(HarvestTabs(tabs, stepOf).links[k])
  {
    var step := stepOf(tabs[0]);
    var rest := HarvestTabs(tabs[1..], stepOf);
    if step.Emit? && k == 0 {
      assert stepOf(tabs[0]) == Emit(HarvestTabs(tabs, stepOf).links[0]);
    } else {
      var k' := if step.Emit? then k - 1 else k;
      HarvestFromTabs(tabs[1..], stepOf, k');
      var j :| 0 <= j < |tabs[1..]| && stepOf(tabs[1..][j]) == Emit(rest.links[k']);
      assert tabs[1..][j] == tabs[j + 1];
    }
  }

  /** Every link the scraper returns comes from a server tab of the embed page that has a
      hash whose source API request answered with status 200 and a non-empty url; the link
      carries the joined url, that tab's stripped text as its source and the label of that
      text. */
  lemma {:induction false} ScrapedLinkFromTab(mediaType: string, tmdbId: string, season: string, episode: string,
                           page: string -> PageReply, api: string -> ApiReply, join: string -> string,
                           k: nat)
    requires k < |Scrape(mediaType, tmdbId, season, episode, page, api, join).links|
    ensures var link := Scrape(mediaType, tmdbId, season, episode, page, api, join).links[k];
      var reply := page(EmbedUrl(mediaType, tmdbId, season, episode).value);
      && reply.Page?
      && exists j :: 0 <= j < |reply.tabs| && FromTab(link, reply.tabs[j], api, join)
  {
    var h := Scrape(mediaType, tmdbId, season, episode, page, api, join);
    var embedUrl := EmbedUrl(mediaType, tmdbId, season, episode);
    assert embedUrl.Some?;
    var reply := page(embedUrl.value);
    assert reply.Page? && reply.status == 200;
    var stepOf := TabHandler(api, join);
    assert h.links == HarvestTabs(reply.tabs, stepOf).links;
    var link := h.links[k];
    HarvestFromTabs(reply.tabs, stepOf, k);
    var j :| 0 <= j < |reply.tabs| && stepOf(reply.tabs[j]) == Emit(link);
    assert TabStepOf(reply.tabs[j], api, join) == Emit(link);
  }

  /** `link` is what tab `tab` emits: the tab has a non-empty hash, the source API answered
      it with status 200 and a non-empty url, the link's url is that url joined, and its
      source and label come from the tab's text. */
  predicate FromTab(link: Link, tab: Tab, api: string -> ApiReply, join: string -> string)
  {
    && tab.hash.Some?
    && tab.hash.value != ""
    && var reply := api(SourceApiUrl(tab.hash.value));
    && reply.ApiResponse?
    && reply.status == 200
    && reply.body.Body?
    && reply.body.url.Some?
    && reply.body.url.value != ""
    && link.url == join(reply.body.url.value)
    && link.source == Strip(tab.text)
    && link.lang == LangLabel(Strip(tab.text))
  }

  /** Tab order is kept: when no tab of `a` raises, the tabs of `a` contribute their links and
      requests before those of `b`. */
  lemma {:induction false} HarvestAppend(a: seq<Tab>, b: seq<Tab>, stepOf: Tab -> TabStep)
    requires forall j :: 0 <= j < |a| ==> !stepOf(a[j]).Abort?
    ensures HarvestTabs(a + b, stepOf).links == HarvestTabs(a, stepOf).links + HarvestTabs(b, stepOf).links
    ensures HarvestTabs(a + b, stepOf).calls == HarvestTabs(a, stepOf).calls + HarvestTabs(b, stepOf).calls
  {
    if a == [] {
      assert a + b == b;
    } else {
      var ab := a + b;
      assert ab[0] == a[0];
      assert ab[1..] == a[1..] + b;
      assert forall j :: 0 <= j < |a[1..]| ==> a[1..][j] == a[j + 1];
      HarvestAppend(a[1..], b, stepOf);
      HarvestUnfold(ab, stepOf);
      HarvestUnfold(a, stepOf);
      var x := HarvestTabs(a[1..], stepOf);
      var y := HarvestTabs(b, stepOf);
      Assoc(TabRequests(a[0]), x.calls, y.calls);
      if stepOf(a[0]).Emit? {
        Assoc([stepOf(a[0]).link], x.links, y.links);
      }
    }
  }

  /** A tab that raises ends the harvest: what was gathered from the tabs before it is the
      result, and no tab after it is asked for. */
  lemma {:induction false} HarvestStopsAtAbort(tabs: seq<Tab>, stepOf: Tab -> TabStep, j: nat)
    requires j < |tabs| && stepOf(tabs[j]).Abort?
    requires forall i :: 0 <= i < j ==> !stepOf(tabs[i]).Abort?
    ensures HarvestTabs(tabs, stepOf).links == HarvestTabs(tabs[..j], stepOf).links
    ensures HarvestTabs(tabs, stepOf).calls == HarvestTabs(tabs[..j], stepOf).calls + TabRequests(tabs[j])
  {
    assert tabs == tabs[..j] + tabs[j..];
    assert forall i :: 0 <= i < j ==> tabs[..j][i] == tabs[i];
    HarvestAppend(tabs[..j], tabs[j..], stepOf);
    assert tabs[j..][0] == tabs[j];
  }

  /** Tabs without a usable hash make no request and yield nothing. */
  lemma {:induction false} HarvestWithoutHashes(tabs: seq<Tab>, api: string -> ApiReply, join: string -> string)
    requires forall j :: 0 <= j < |tabs| ==> tabs[j].hash.None? || tabs[j].hash == Some("")
    ensures HarvestTabs(tabs, TabHandler(api, join)) == Harvest([], [])
  {
    if tabs != [] {
      HarvestWithoutHashes(tabs[1..], api, join);
    }
  }

  /** Links come only out of an embed page that answered with status 200, and the first
      request is always that page. */
  lemma {:induction false} ScrapeNeedsPage(mediaType: string, tmdbId: string, season: string, episode: string,
                        page: string -> PageReply, api: string -> ApiReply, join: string -> string)
    ensures var h := Scrape(mediaType, tmdbId, season, episode, page, api, join);
      && (h.calls == [] <==> mediaType !in ["movie", "tv"])
      && (h.calls != [] ==> h.calls[0] == EmbedUrl(mediaType, tmdbId, season, episode).value)
      && (h.links != [] ==> var reply := page(h.calls[0]); reply.Page? && reply.status == 200)
  {
    EmbedUrlShape(mediaType, tmdbId, season, episode);
  }
}
