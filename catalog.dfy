/** The two catalogue projections of the backend: the `search` route's list of movies and
    shows, built from the items of a TMDB multi-search answer, and the `get_tv_details`
    route's season list. JSON members are `Field`s, so that an absent member, a null member
    and a present one are told apart the way `dict.get` tells them apart. An expression that
    raises a `TypeError` in the source (slicing None, comparing None with 0, iterating None)
    makes the whole answer fail; that is `None` here. */
module Catalog {
  import opened Json

  /** An item of `data["results"]`. */
  datatype SearchItem = SearchItem(
    mediaType: Field<string>, id: Field<int>, title: Field<string>, name: Field<string>,
    releaseDate: Field<string>, firstAirDate: Field<string>, posterPath: Field<string>)

  /** An entry of the `search` answer. */
  datatype SearchResult = SearchResult(
    id: Option<int>, kind: string, title: Option<string>, year: string, posterPath: Option<string>)

  /** `media_type in ["movie", "tv"]`. */
  predicate KnownKind(mediaType: Field<string>)
  {
    mediaType == Present("movie") || mediaType == Present("tv")
  }

  /** Python truthiness of an optional string: present and non-empty. */
  predicate Truthy(s: Option<string>)
  {
    s.Some? && s.value != ""
  }

  /** `item.get("title") or item.get("name")`. */
  function TitleOf(item: SearchItem): (t: Option<string>)
    ensures Truthy(Get(item.title)) ==> t == Get(item.title)
    ensures !Truthy(Get(item.title)) ==> t == Get(item.name)
  {
    var title := Get(item.title);
    if Truthy(title) then title else Get(item.name)
  }

  /** `p` is what `s[0:4]` gives: the first four characters of `s`, or all of them. */
  predicate IsYearPrefix(p: string, s: string)
  {
    |p| == (if |s| < 4 then |s| else 4) && s[..|p|] == p
  }

  /** `(item.get("release_date", "") or item.get("first_air_date", ""))[0:4]`. A release date
      that is absent, null or empty hands over to the first air date; a null first air date
      is then sliced, which raises (None). */
  function YearOf(item: SearchItem): (y: Option<string>)
    ensures Truthy(GetOr(item.releaseDate, "")) ==> y.Some? && IsYearPrefix(y.value, item.releaseDate.value)
    ensures !Truthy(GetOr(item.releaseDate, "")) ==>
      && (item.firstAirDate.Present? ==> y.Some? && IsYearPrefix(y.value, item.firstAirDate.value))
      && (item.firstAirDate.Missing? ==> y == Some(""))
      && (item.firstAirDate.Null? <==> y.None?)
  {
    var release := GetOr(item.releaseDate, "");
    var date := if Truthy(release) then release else GetOr(item.firstAirDate, "");
    match date
    case None => None
    case Some(s) => Some(if |s| < 4 then s else s[..4])
  }

  /** What one iteration of the loop over the results does with an item. */
  datatype Projected = Dropped | Kept(result: SearchResult) | Fails

  /** The body of the loop of `search` for one item: items of another media type are not
      appended; for a movie or a show, building the entry raises exactly when its year does. */
  function ProjectItem(item: SearchItem): (r: Projected)
    ensures r.Dropped? <==> !KnownKind(item.mediaType)
    ensures r.Fails? <==> KnownKind(item.mediaType) && YearOf(item).None?
    ensures r.Kept? ==>
      && Present(r.result.kind) == item.mediaType
      && r.result.id == Get(item.id)
      && r.result.title == TitleOf(item)
      && Some(r.result.year) == YearOf(item)
      && r.result.posterPath == Get(item.posterPath)
  {
    if !KnownKind(item.mediaType) then Dropped
    else
      match YearOf(item)
      case None => Fails
      case Some(year) =>
        Kept(SearchResult(Get(item.id), item.mediaType.value, TitleOf(item), year, Get(item.posterPath)))
  }

  /** `Some(acc + xs)` for a result `Some(xs)`; a failure stays a failure. */
  function Prepend<T>(acc: seq<T>, r: Option<seq<T>>): (p: Option<seq<T>>)
    ensures p.Some? <==> r.Some?
    ensures p.Some? ==> |p.value| == |acc| + |r.value| && p.value[..|acc|] == acc && p.value[|acc|..] == r.value
  {
    match r
    case None => None
    case Some(xs) => Some(acc + xs)
  }

  /** The list `search` answers with, item after item; None when some item raises. */
  function SearchResults(items: seq<SearchItem>): (r: Option<seq<SearchResult>>)
    ensures r.Some? ==> |r.value| <= |items|
    ensures r.Some? ==> forall k :: 0 <= k < |r.value| ==> r.value[k].kind in ["movie", "tv"]
  {
    if items == [] then Some([])
    else
      match ProjectItem(items[0])
      case Fails => None
      case Dropped => SearchResults(items[1..])
      case Kept(x) => Prepend([x], SearchResults(items[1..]))
  }

  /** The loop of `search`: appends the entry of every movie and show, in order. An item
      that raises ends the route (None). */
  method Search(items: seq<SearchItem>) returns (results: Option<seq<SearchResult>>)
    ensures results == SearchResults(items)
  {
    var acc: seq<SearchResult> := [];
    assert items[0..] == items;
    for i := 0 to |items|
      invariant SearchResults(items) == Prepend(acc, SearchResults(items[i..]))
    {
      var item := items[i];
      assert items[i..][1..] == items[i + 1..];
      var mediaType := Get(item.mediaType);
      if mediaType == Some("movie") || mediaType == Some("tv") {
        var year := YearOf(item);
        if year.None? {
          return None;
        }
        var entry := SearchResult(Get(item.id), mediaType.value, TitleOf(item), year.value, Get(item.posterPath));
        PrependTwice(acc, [entry], SearchResults(items[i + 1..]));
        acc := acc + [entry];
      }
    }
    assert items[|items|..] == [];
    assert acc + [] == acc;
    return Some(acc);
  }

  lemma {:induction false} PrependTwice<T>(a: seq<T>, b: seq<T>, r: Option<seq<T>>)
    ensures Prepend(a, Prepend(b, r)) == Prepend(a + b, r)
  {
    if r.Some? {
      assert a + (b + r.value) == (a + b) + r.value;
    }
  }

  /** The answer fails exactly when some item of a known media type has no year. */
  lemma {:induction false} SearchFailsIff(items: seq<SearchItem>)
    ensures SearchResults(items).None? <==> exists i :: 0 <= i < |items| && ProjectItem(items[i]).Fails?
  {
    if items != [] {
      SearchFailsIff(items[1..]);
      if exists i :: 0 <= i < |items[1..]| && ProjectItem(items[1..][i]).Fails? {
        var i :| 0 <= i < |items[1..]| && ProjectItem(items[1..][i]).Fails?;
        assert ProjectItem(items[i + 1]).Fails?;
      }
      if exists i :: 0 <= i < |items| && ProjectItem(items[i]).Fails? {
        var i :| 0 <= i < |items| && ProjectItem(items[i]).Fails?;
        if i > 0 {
          assert ProjectItem(items[1..][i - 1]).Fails?;
        }
      }
    }
  }

  /** The entries of a concatenation are those of its parts, in order. */
  lemma {:induction false} SearchAppend(a: seq<SearchItem>, b: seq<SearchItem>)
    ensures SearchResults(a + b) ==
      (if SearchResults(a).Some? then Prepend(SearchResults(a).value, SearchResults(b)) else None)
  {
    if a == [] {
      assert a + b == b;
    } else {
      assert (a + b)[0] == a[0];
      assert (a + b)[1..] == a[1..] + b;
      SearchAppend(a[1..], b);
      var rest := SearchResults(a[1..]);
      match ProjectItem(a[0])
      case Fails =>
      case Dropped =>
      case Kept(x) =>
        if rest.Some? {
          PrependTwice([x], rest.value, SearchResults(b));
        }
    }
  }

  /** A single item gives its own entry, nothing, or a failure. */
  lemma {:induction false} SearchOne(item: SearchItem)
    ensures SearchResults([item]) ==
      match ProjectItem(item)
      case Fails => None
      case Dropped => Some([])
      case Kept(x) => Some([x])
  {
    assert [item][1..] == [];
    if ProjectItem(item).Kept? {
      assert [ProjectItem(item).result] + [] == [ProjectItem(item).result];
    }
  }

  /** When the answer is built, its entries are exactly the entries of the kept items. */
  lemma {:induction false} SearchMembers(items: seq<SearchItem>)
    requires SearchResults(items).Some?
    ensures forall x :: x in SearchResults(items).value <==>
      exists i :: 0 <= i < |items| && ProjectItem(items[i]) == Kept(x)
  {
    if items != [] {
      var rest := SearchResults(items[1..]);
      assert rest.Some?;
      SearchMembers(items[1..]);
      forall x
        ensures x in SearchResults(items).value <==>
          exists i :: 0 <= i < |items| && ProjectItem(items[i]) == Kept(x)
      {
        if x in rest.value {
          var i :| 0 <= i < |items[1..]| && ProjectItem(items[1..][i]) == Kept(x);
          assert items[1..][i] == items[i + 1];
        }
        if exists i :: 0 <= i < |items| && ProjectItem(items[i]) == Kept(x) {
          var i :| 0 <= i < |items| && ProjectItem(items[i]) == Kept(x);
          if i > 0 {
            assert items[1..][i - 1] == items[i];
          }
        }
      }
    }
  }

  /** The search data: `data.get("results")`. None is an answer that could not be fetched
      or that is an empty object. */
  datatype SearchData = SearchData(results: Field<seq<SearchItem>>)

  /** The answer of the `search` route once the TMDB data is in hand. */
  datatype SearchReply = SearchNotFound | SearchFailed | SearchFound(results: seq<SearchResult>)

  /** "Could not find" when there is no data or no non-empty results list; otherwise the
      projected entries, or a failure when an item raises. */
  function SearchRoute(data: Option<SearchData>): (r: SearchReply)
    ensures r.SearchNotFound? <==>
      data.None? || data.value.results.Missing? || data.value.results.Null? || data.value.results == Present([])
    ensures r.SearchFound? ==> Some(r.results) == SearchResults(data.value.results.value)
    ensures r.SearchFailed? ==> SearchResults(data.value.results.value).None?
  {
    match data
    case None => SearchNotFound
    case Some(d) =>
      match d.results
      case Missing => SearchNotFound
      case Null => SearchNotFound
      case Present(items) =>
        if items == [] then SearchNotFound
        else
          match SearchResults(items)
          case None => SearchFailed
          case Some(results) => SearchFound(results)
  }

  /** A member of `details_data["seasons"]`. */
  datatype SeasonInfo = SeasonInfo(number: Field<int>, name: Field<string>, episodeCount: Field<int>)

  /** An entry of the season list. */
  datatype SeasonSummary = SeasonSummary(number: int, name: Option<string>, episodeCount: Option<int>)

  /** The season list comprehension: seasons whose number, 0 when absent, is positive, in
      order; a null number is compared with 0 and raises (None). */
  function SeasonList(seasons: seq<SeasonInfo>): (r: Option<seq<SeasonSummary>>)
    ensures r.Some? ==> |r.value| <= |seasons|
    ensures r.Some? ==> forall k :: 0 <= k < |r.value| ==> r.value[k].number > 0
  {
    if seasons == [] then Some([])
    else
      var s := seasons[0];
      match s.number
      case Null => None
      case Missing => SeasonList(seasons[1..])
      case Present(n) =>
        if n > 0 then Prepend([SeasonSummary(n, Get(s.name), Get(s.episodeCount))], SeasonList(seasons[1..]))
        else SeasonList(seasons[1..])
  }

  /** The entry a kept season gives. */
  function Summary(s: SeasonInfo): SeasonSummary
    requires s.number.Present?
  {
    SeasonSummary(s.number.value, Get(s.name), Get(s.episodeCount))
  }

  predicate IsKeptSeason(s: SeasonInfo)
  {
    s.number.Present? && s.number.value > 0
  }

  /** The list fails exactly when some season number is null. */
  lemma {:induction false} SeasonListFailsIff(seasons: seq<SeasonInfo>)
    ensures SeasonList(seasons).None? <==> exists i :: 0 <= i < |seasons| && seasons[i].number.Null?
  {
    if seasons != [] {
      SeasonListFailsIff(seasons[1..]);
      if exists i :: 0 <= i < |seasons[1..]| && seasons[1..][i].number.Null? {
        var i :| 0 <= i < |seasons[1..]| && seasons[1..][i].number.Null?;
        assert seasons[i + 1].number.Null?;
      }
      if exists i :: 0 <= i < |seasons| && seasons[i].number.Null? {
        var i :| 0 <= i < |seasons| && seasons[i].number.Null?;
        if i > 0 {
          assert seasons[1..][i - 1].number.Null?;
        }
      }
    }
  }

  /** When the list is built, its entries are exactly the summaries of the kept seasons. */
  lemma {:induction false} SeasonListMembers(seasons: seq<SeasonInfo>)
    requires SeasonList(seasons).Some?
    ensures forall e :: e in SeasonList(seasons).value <==>
      exists i :: 0 <= i < |seasons| && IsKeptSeason(seasons[i]) && e == Summary(seasons[i])
  {
    if seasons != [] {
      var s := seasons[0];
      var rest := SeasonList(seasons[1..]);
      assert rest.Some?;
      SeasonListMembers(seasons[1..]);
      forall e
        ensures e in SeasonList(seasons).value <==>
          exists i :: 0 <= i < |seasons| && IsKeptSeason(seasons[i]) && e == Summary(seasons[i])
      {
        if e in rest.value {
          var i :| 0 <= i < |seasons[1..]| && IsKeptSeason(seasons[1..][i]) && e == Summary(seasons[1..][i]);
          assert seasons[1..][i] == seasons[i + 1];
        }
        if exists i :: 0 <= i < |seasons| && IsKeptSeason(seasons[i]) && e == Summary(seasons[i]) {
          var i :| 0 <= i < |seasons| && IsKeptSeason(seasons[i]) && e == Summary(seasons[i]);
          if i > 0 {
            assert seasons[1..][i - 1] == seasons[i];
          }
        }
      }
    }
  }

  /** The season list of a concatenation is that of its parts, in order. */
  lemma {:induction false} SeasonListAppend(a: seq<SeasonInfo>, b: seq<SeasonInfo>)
    ensures SeasonList(a + b) ==
      (if SeasonList(a).Some? then Prepend(SeasonList(a).value, SeasonList(b)) else None)
  {
    if a == [] {
      assert a + b == b;
    } else {
      assert (a + b)[0] == a[0];
      assert (a + b)[1..] == a[1..] + b;
      SeasonListAppend(a[1..], b);
      var rest := SeasonList(a[1..]);
      if IsKeptSeason(a[0]) && rest.Some? {
        PrependTwice([Summary(a[0])], rest.value, SeasonList(b));
      }
    }
  }

  /** The TV details: `details_data.get("name")` and `details_data.get("seasons", [])`. None
      is details that could not be fetched or that are an empty object. */
  datatype TvData = TvData(name: Field<string>, seasons: Field<seq<SeasonInfo>>)

  datatype TvReply = TvNotFound | TvFailed | TvDetails(title: Option<string>, seasons: seq<SeasonSummary>)

  /** The answer of `get_tv_details` once the TMDB data is in hand: absent seasons give an
      empty list, null seasons are iterated and raise. */
  function TvRoute(details: Option<TvData>): (r: TvReply)
    ensures r.TvNotFound? <==> details.None?
    ensures r.TvFailed? <==> (details.Some? &&
      (details.value.seasons.Null? || (details.value.seasons.Present? && SeasonList(details.value.seasons.value).None?)))
    ensures r.TvDetails? ==> r.title == Get(details.value.name)
    ensures r.TvDetails? && details.value.seasons.Missing? ==> r.seasons == []
    ensures r.TvDetails? && details.value.seasons.Present? ==> Some(r.seasons) == SeasonList(details.value.seasons.value)
  {
    match details
    case None => TvNotFound
    case Some(d) =>
      match GetOr(d.seasons, [])
      case None => TvFailed
      case Some(seasons) =>
        match SeasonList(seasons)
        case None => TvFailed
        case Some(list) => TvDetails(Get(d.name), list)
  }
}
