/** The interpretation of upstream video-site answers (`src/lib/downstream.ts`):
    a list record becomes a search result, a keyword search reads its first
    page and then a bounded number of further pages, and a detail request is
    answered either from the JSON detail endpoint or, for sources that name a
    detail site, from that site's HTML page.

    Every network exchange is a parameter: `net(query, page)` is the upstream's
    answer to page `page` of a keyword search, `fetchJson(url)` and
    `fetchPage(url)` are the answers to a detail request. */
module Downstream {
  import opened Outcomes
  import opened JsString
  import opened Patterns
  import opened Links
  import Seqs

  /** A configured upstream source (`ApiSite`): `detail` is the base address of
      its HTML detail site, when it has one. */
  datatype Site = Site(key: string, name: string, api: string, detail: Option<string>)

  /** One record of an upstream list. Fields the upstream may leave out are
      options; `vodName` is one of them because a record without it is what
      makes the search interpretation throw. */
  datatype ApiItem = ApiItem(
    vodId: string,
    vodName: Option<string>,
    vodPic: Option<string>,
    vodRemarks: Option<string>,
    vodPlayUrl: Option<string>,
    vodClass: Option<string>,
    vodYear: Option<string>,
    vodContent: Option<string>,
    vodDoubanId: Option<int>,
    typeName: Option<string>,
    vodArea: Option<string>,
    vodDirector: Option<string>,
    vodActor: Option<string>)

  /** A decoded list answer: `list` is `None` when the body is `null`, has no
      `list`, or its `list` is not an array. */
  datatype Envelope = Envelope(list: Option<seq<ApiItem>>, pageCount: Option<int>)

  /** What a request produced: the request itself rejected (network failure or
      the timeout abort), or a response with its `ok` flag and status. A body
      that cannot be read or parsed is `None`. */
  datatype Fetch<B> = Rejected | Responded(ok: bool, status: int, body: Option<B>)

  /** A description: text produced by the HTML tag cleaner (which is not part of
      this model) from the recorded input, or text used as it is. */
  datatype Desc = Cleaned(input: Option<string>) | Plain(text: string)

  datatype SearchResult = SearchResult(
    id: string,
    title: string,
    poster: Option<string>,
    episodes: seq<string>,
    source: string,
    sourceName: string,
    className: Option<string>,
    year: string,
    desc: Desc,
    typeName: Option<string>,
    doubanId: Option<int>)

  datatype VideoInfo = VideoInfo(
    title: Option<string>,
    cover: Option<string>,
    desc: Desc,
    typeName: Option<string>,
    year: Option<string>,
    area: Option<string>,
    director: Option<string>,
    actor: Option<string>,
    remarks: Option<string>,
    sourceName: string,
    source: string,
    id: string)

  datatype VideoDetail = VideoDetail(code: int, episodes: seq<string>, detailUrl: string, info: VideoInfo)

  /** Why a detail request failed: the JSON endpoint answered with a failure
      status or an unusable list, the HTML page answered with a failure status,
      the request was rejected, or the body could not be read. */
  datatype DetailError =
    | DetailRequestFailed(status: int)
    | InvalidDetailContent
    | DetailPageRequestFailed(status: int)
    | RequestRejected
    | UnreadableBody

  /** The answer of a keyword search on one site, page by page: `pages[i]` is
      what page `i + 1` contributed. */
  datatype SearchRun = SearchRun(pages: seq<seq<SearchResult>>) {

    /** The results in page order. */
    function Results(): seq<SearchResult> {
      Seqs.Flatten(pages)
    }
  }

  const SuccessCode: int := 200

  /** `name.trim().replace(/\s+/g, ' ')`: the display form of a title. */
  function NormalizeTitle(name: string): (t: string)
    ensures NonSpace(t) == NonSpace(name)
    ensures t == [] <==> forall i :: 0 <= i < |name| ==> IsSpace(name[i])
    ensures t != [] ==> !IsSpace(t[0]) && !IsSpace(t[|t| - 1])
    ensures NoAdjacentSpaces(t)
    ensures forall i :: 0 <= i < |t| && IsSpace(t[i]) ==> t[i] == ' '
  {
    TrimKeepsText(name);
    CollapseKeepsText(Trim(name));
    CollapseWhitespace(Trim(name))
  }

  /** Normalizing a normalized title changes nothing. */
  lemma NormalizeTitleIdempotent(name: string)
    ensures NormalizeTitle(NormalizeTitle(name)) == NormalizeTitle(name)
  {
    var t := NormalizeTitle(name);
    TrimOfTrimmed(t);
    CollapseOfCollapsed(t);
  }

  /** Two words of a title separated by any whitespace run come out separated
      by exactly one space. */
  lemma NormalizeTitleJoins(x: string, w: string, y: string)
    requires x != [] && IsCollapsed(x) && !IsSpace(x[0]) && !IsSpace(x[|x| - 1])
    requires y != [] && IsCollapsed(y) && !IsSpace(y[0]) && !IsSpace(y[|y| - 1])
    requires w != [] && forall k :: 0 <= k < |w| ==> IsSpace(w[k])
    ensures NormalizeTitle(x + w + y) == x + " " + y
  {
    var s := x + w + y;
    assert s[0] == x[0] && s[|s| - 1] == y[|y| - 1];
    TrimOfTrimmed(s);
    CollapseAround(x, w, y);
    CollapseOfCollapsed(x);
    CollapseOfCollapsed(y);
  }

  /** Whitespace around an already normal title is removed, and nothing else. */
  lemma NormalizeTitleStrips(v: string, x: string, w: string)
    requires forall k :: 0 <= k < |v| ==> IsSpace(v[k])
    requires forall k :: 0 <= k < |w| ==> IsSpace(w[k])
    requires IsCollapsed(x) && (x != [] ==> !IsSpace(x[0]) && !IsSpace(x[|x| - 1]))
    ensures NormalizeTitle(v + x + w) == x
  {
    TrimAround(v, x, w);
    CollapseOfCollapsed(x);
  }

  /** `y ? y.match(/\d{4}/)?.[0] || '' : ''`: the first four-digit run of the
      year field, or `''`. */
  function ItemYear(year: Option<string>): (r: string)
    ensures year.None? ==> r == []
    ensures r == [] || (|r| == 4 && forall k :: 0 <= k < 4 ==> IsAsciiDigit(r[k]))
    ensures year.Some? && r != [] ==>
              exists i: nat :: && FourDigitsAt(year.value, i) && year.value[i..i + 4] == r
                               && forall j :: 0 <= j < i ==> !FourDigitsAt(year.value, j)
    ensures year.Some? && (exists i: nat :: FourDigitsAt(year.value, i)) ==> r != []
  {
    if year.None? || year.value == [] then [] else FirstFourDigits(year.value)
  }

  /** `mapApiItemToSearchResult`: `None` when the record has no name, since
      trimming it throws. */
  function MapItem(item: ApiItem, site: Site): (r: Option<SearchResult>)
    ensures r.None? <==> item.vodName.None?
    ensures r.Some? ==> r.value.source == site.key && r.value.sourceName == site.name
    ensures r.Some? ==> r.value.id == item.vodId
    ensures r.Some? ==> NonSpace(r.value.title) == NonSpace(item.vodName.value)
    ensures r.Some? ==> forall e :: e in r.value.episodes ==> IsEpisodeUrl(e)
    ensures r.Some? ==> r.value.title == NormalizeTitle(item.vodName.value)
    ensures r.Some? ==> r.value.episodes == ExtractEpisodes(item.vodPlayUrl)
    ensures r.Some? ==> r.value.year == ItemYear(item.vodYear)
    ensures r.Some? ==> r.value.desc == Cleaned(Some(item.vodContent.GetOr([])))
    ensures r.Some? ==> r.value.poster == item.vodPic && r.value.className == item.vodClass
                        && r.value.typeName == item.typeName && r.value.doubanId == item.vodDoubanId
  {
    match item.vodName
    case None => None
    case Some(name) =>
      Some(SearchResult(
        id := item.vodId,
        title := NormalizeTitle(name),
        poster := item.vodPic,
        episodes := ExtractEpisodes(item.vodPlayUrl),
        source := site.key,
        sourceName := site.name,
        className := item.vodClass,
        year := ItemYear(item.vodYear),
        desc := Cleaned(Some(item.vodContent.GetOr([]))),
        typeName := item.typeName,
        doubanId := item.vodDoubanId))
  }

  /** Mapping is stable: a record renamed to its own mapped title maps to the
      same result, since the title is already trimmed and collapsed. */
  lemma MapItemRemap(item: ApiItem, site: Site)
    requires MapItem(item, site).Some?
    ensures MapItem(item.(vodName := Some(MapItem(item, site).value.title)), site) == MapItem(item, site)
  {
    NormalizeTitleIdempotent(item.vodName.value);
  }

  /** `list.map(mapApiItemToSearchResult)`: every record mapped, in order, or
      `None` when one of them throws. */
  function MapPage(items: seq<ApiItem>, site: Site): (r: Option<seq<SearchResult>>)
    ensures r.None? <==> exists k :: 0 <= k < |items| && items[k].vodName.None?
    ensures r.Some? ==> |r.value| == |items|
    ensures r.Some? ==> forall k :: 0 <= k < |items| ==> MapItem(items[k], site) == Some(r.value[k])
  {
    if exists k :: 0 <= k < |items| && items[k].vodName.None? then None
    else Some(seq(|items|, k requires 0 <= k < |items| => MapItem(items[k], site).value))
  }

  /** `Number(setting) || 5`: the configured page limit, where `None` stands for
      an absent or non-numeric setting; zero also falls back to 5. */
  function MaxSearchPages(setting: Option<int>): (r: int)
    ensures r != 0
    ensures setting.Some? && setting.value != 0 ==> r == setting.value
    ensures setting.None? || setting.value == 0 ==> r == 5
  {
    if setting.None? || setting.value == 0 then 5 else setting.value
  }

  /** `pagecount || 1`. */
  function PageCount(pageCount: Option<int>): (r: int)
    ensures r != 0
    ensures pageCount.Some? && pageCount.value != 0 ==> r == pageCount.value
    ensures pageCount.None? || pageCount.value == 0 ==> r == 1
  {
    if pageCount.None? || pageCount.value == 0 then 1 else pageCount.value
  }

  function Min(a: int, b: int): int {
    if a <= b then a else b
  }

  /** The further pages requested after page 1: 2, 3, … up to the page count
      and the page limit, in ascending order. */
  function ExtraPages(pageCount: int, maxPages: int): (pages: seq<int>)
    ensures forall i :: 0 <= i < |pages| ==> pages[i] == i + 2
    ensures forall n :: n in pages <==> 2 <= n <= pageCount && n <= maxPages
  {
    var extra := Min(pageCount - 1, maxPages - 1);
    if extra > 0 then
      var pages := seq(extra, i requires 0 <= i < extra => i + 2);
      assert forall n :: 2 <= n <= pageCount && n <= maxPages ==> n in pages by {
        forall n | 2 <= n <= pageCount && n <= maxPages ensures n in pages {
          assert pages[n - 2] == n;
        }
      }
      pages
    else []
  }

  /** A list answer is usable when it came back `ok` with a non-empty list: the
      condition on the first page of a search and on a JSON detail answer. */
  predicate ListUsable(f: Fetch<Envelope>) {
    && f.Responded? && f.ok && f.body.Some?
    && f.body.value.list.Some? && f.body.value.list.value != []
  }

  /** What a further page contributes: its mapped records, or nothing when the
      request fails, the list is missing or a record throws. */
  function PageContribution(f: Fetch<Envelope>, site: Site): (r: seq<SearchResult>)
    ensures f.Rejected? || !f.ok ==> r == []
    ensures r != [] ==> f.Responded? && f.body.Some? && f.body.value.list.Some?
                        && MapPage(f.body.value.list.value, site) == Some(r)
    ensures (&& f.Responded? && f.ok && f.body.Some? && f.body.value.list.Some?
             && MapPage(f.body.value.list.value, site).Some?)
            ==> r == MapPage(f.body.value.list.value, site).value
    ensures (&& f.Responded? && f.body.Some? && f.body.value.list.Some?
             && MapPage(f.body.value.list.value, site).None?)
            ==> r == []
  {
    if !f.Responded? || !f.ok || f.body.None? || f.body.value.list.None? then []
    else MapPage(f.body.value.list.value, site).GetOr([])
  }

  /** `searchFromApi`: page 1 of the keyword search, then the further pages,
      concatenated in page order. Anything thrown on page 1 ends the search
      with no results; a further page that fails contributes nothing. */
  function SearchFromApi(site: Site, query: string, maxPages: int,
                         net: (string, int) -> Fetch<Envelope>): (run: SearchRun)
    ensures |run.pages| >= 1
    ensures !ListUsable(net(query, 1)) ==> run.pages == [[]]
    ensures ListUsable(net(query, 1)) && MapPage(net(query, 1).body.value.list.value, site).None?
            ==> run.pages == [[]]
  {
    var first := net(query, 1);
    if !ListUsable(first) then SearchRun([[]])
    else
      match MapPage(first.body.value.list.value, site)
      case None => SearchRun([[]])
      case Some(results) =>
        var pages := ExtraPages(PageCount(first.body.value.pageCount), maxPages);
        SearchRun([results] + PageContributions(site, query, net, pages))
  }

  /** The contributions of the further pages, requested concurrently and
      collected in request order. */
  function PageContributions(site: Site, query: string, net: (string, int) -> Fetch<Envelope>,
                             pages: seq<int>): (r: seq<seq<SearchResult>>)
    ensures |r| == |pages|
    ensures forall i :: 0 <= i < |pages| ==> r[i] == PageContribution(net(query, pages[i]), site)
  {
    Seqs.Map((n: int) => PageContribution(net(query, n), site), pages)
  }

  /** The number of pages a search consults: only page 1 when it is unusable,
      otherwise the page count capped by the page limit (at least 1). */
  lemma SearchPageBudget(site: Site, query: string, maxPages: int, net: (string, int) -> Fetch<Envelope>)
    ensures var run := SearchFromApi(site, query, maxPages, net);
            var first := net(query, 1);
            && |run.pages| >= 1
            && (|run.pages| > 1 ==> ListUsable(first)
                                    && |run.pages| == Min(PageCount(first.body.value.pageCount), maxPages))
            && |run.pages| <= if maxPages < 1 then 1 else maxPages
  {
    var run := SearchFromApi(site, query, maxPages, net);
    var first := net(query, 1);
    if |run.pages| > 1 {
      assert ListUsable(first) && MapPage(first.body.value.list.value, site).Some?;
      SearchFromUsable(site, query, maxPages, net);
      var pages := ExtraPages(PageCount(first.body.value.pageCount), maxPages);
      assert |run.pages| == 1 + |pages|;
      if |pages| > 0 {
        assert pages[|pages| - 1] == |pages| + 1;
        assert pages[|pages| - 1] in pages;
      }
      assert |pages| + 2 !in pages;
    }
  }

  /** A usable first page comes first, then page `k + 1` fills slot `k`, for
      every page from 2 up to the capped page count. */
  lemma SearchPagesInOrder(site: Site, query: string, maxPages: int, net: (string, int) -> Fetch<Envelope>)
    requires ListUsable(net(query, 1))
    requires MapPage(net(query, 1).body.value.list.value, site).Some?
    ensures var run := SearchFromApi(site, query, maxPages, net);
            var first := net(query, 1);
            && run.pages[0] == MapPage(first.body.value.list.value, site).value
            && |run.pages| == 1 + |ExtraPages(PageCount(first.body.value.pageCount), maxPages)|
            && forall k :: 1 <= k < |run.pages| ==> run.pages[k] == PageContribution(net(query, k + 1), site)
  {
    var first := net(query, 1);
    var pages := ExtraPages(PageCount(first.body.value.pageCount), maxPages);
    var rest := PageContributions(site, query, net, pages);
    SearchFromUsable(site, query, maxPages, net);
    ContributionSlots(site, query, net, pages);
    SlotsAfterFirst(SearchFromApi(site, query, maxPages, net).pages,
                    MapPage(first.body.value.list.value, site).value, rest);
  }

  /** Slot `k` of the further pages' contributions is page `k + 2`'s. */
  lemma ContributionSlots(site: Site, query: string, net: (string, int) -> Fetch<Envelope>, pages: seq<int>)
    requires forall i :: 0 <= i < |pages| ==> pages[i] == i + 2
    ensures var rest := PageContributions(site, query, net, pages);
            forall k :: 0 <= k < |rest| ==> rest[k] == PageContribution(net(query, k + 2), site)
  {
  }

  lemma SlotsAfterFirst<T>(all: seq<T>, first: T, rest: seq<T>)
    requires all == [first] + rest
    ensures |all| == 1 + |rest| && all[0] == first
    ensures forall k :: 1 <= k < |all| ==> all[k] == rest[k - 1]
  {
  }

  lemma SearchFromUsable(site: Site, query: string, maxPages: int, net: (string, int) -> Fetch<Envelope>)
    requires ListUsable(net(query, 1))
    requires MapPage(net(query, 1).body.value.list.value, site).Some?
    ensures var first := net(query, 1);
            SearchFromApi(site, query, maxPages, net).pages
            == [MapPage(first.body.value.list.value, site).value]
               + PageContributions(site, query, net, ExtraPages(PageCount(first.body.value.pageCount), maxPages))
  {
  }

  /** A page count of 7 with the default limit of 5 requests pages 2 to 5. */
  lemma SevenPagesCappedAtFive()
    ensures ExtraPages(PageCount(Some(7)), MaxSearchPages(None)) == [2, 3, 4, 5]
  {
  }

  /** Every search result names the site it came from. */
  lemma {:induction false} SearchResultsAttributed(site: Site, query: string, maxPages: int,
                                                   net: (string, int) -> Fetch<Envelope>)
    ensures forall r :: r in SearchFromApi(site, query, maxPages, net).Results() ==>
              r.source == site.key && r.sourceName == site.name
  {
    var run := SearchFromApi(site, query, maxPages, net);
    forall r | r in run.Results() ensures r.source == site.key && r.sourceName == site.name {
      Seqs.FlattenMembership(run.pages, r);
      var k :| 0 <= k < |run.pages| && r in run.pages[k];
      var i :| 0 <= i < |run.pages[k]| && run.pages[k][i] == r;
      PageRecordsAttributed(run, site, query, maxPages, net, k, i);
    }
  }

  lemma PageRecordsAttributed(run: SearchRun, site: Site, query: string, maxPages: int,
                              net: (string, int) -> Fetch<Envelope>, k: nat, i: nat)
    requires run == SearchFromApi(site, query, maxPages, net)
    requires k < |run.pages| && i < |run.pages[k]|
    ensures run.pages[k][i].source == site.key && run.pages[k][i].sourceName == site.name
  {
    var first := net(query, 1);
    if ListUsable(first) && MapPage(first.body.value.list.value, site).Some? {
      var results := MapPage(first.body.value.list.value, site).value;
      var pages := ExtraPages(PageCount(first.body.value.pageCount), maxPages);
      var rest := PageContributions(site, query, net, pages);
      SearchFromUsable(site, query, maxPages, net);
      SlotsAfterFirst(run.pages, results, rest);
      if k == 0 {
        MapPageAttributed(first.body.value.list.value, site, results, i);
      } else {
        ContributionAttributed(net(query, pages[k - 1]), site, i);
      }
    }
  }

  lemma MapPageAttributed(items: seq<ApiItem>, site: Site, results: seq<SearchResult>, i: nat)
    requires MapPage(items, site) == Some(results) && i < |results|
    ensures results[i].source == site.key && results[i].sourceName == site.name
  {
    assert MapItem(items[i], site) == Some(results[i]);
  }

  lemma ContributionAttributed(f: Fetch<Envelope>, site: Site, i: nat)
    requires i < |PageContribution(f, site)|
    ensures PageContribution(f, site)[i].source == site.key
    ensures PageContribution(f, site)[i].sourceName == site.name
  {
    MapPageAttributed(f.body.value.list.value, site, PageContribution(f, site), i);
  }

  /** A further page that fails empties its own slot and leaves every other
      page's contribution as it was: `net2` answers like `net` except on page
      `n`, where it contributes nothing. */
  lemma FailedPageIsolated(site: Site, query: string, maxPages: int,
                           net: (string, int) -> Fetch<Envelope>,
                           net2: (string, int) -> Fetch<Envelope>, n: int)
    requires 2 <= n
    requires forall m :: m != n ==> net2(query, m) == net(query, m)
    requires PageContribution(net2(query, n), site) == []
    ensures var before := SearchFromApi(site, query, maxPages, net).pages;
            var after := SearchFromApi(site, query, maxPages, net2).pages;
            && |after| == |before|
            && forall k :: 0 <= k < |before| ==> after[k] == (if k == n - 1 then [] else before[k])
  {
    var first := net(query, 1);
    assert net2(query, 1) == first;
    if ListUsable(first) && MapPage(first.body.value.list.value, site).Some? {
      var pages := ExtraPages(PageCount(first.body.value.pageCount), maxPages);
      var c1 := PageContributions(site, query, net, pages);
      var c2 := PageContributions(site, query, net2, pages);
      forall i | 0 <= i < |pages| ensures c2[i] == (if i == n - 2 then [] else c1[i]) {
        assert pages[i] == i + 2;
      }
    }
  }

  /** The detail site named by a source, as the template literal renders it. */
  function DetailBase(detail: Option<string>): string {
    detail.GetOr("undefined")
  }

  /** The detail page address of `id` on a source's detail site. */
  function DetailPageUrl(detail: Option<string>, id: string): (url: string)
    ensures StartsWith(url, DetailBase(detail) + DetailPath)
    ensures EndsWith(url, id + ".html")
    ensures |url| == |DetailBase(detail) + DetailPath| + |id| + 5
  {
    var url := DetailBase(detail) + DetailPath + id + ".html";
    assert url[..|DetailBase(detail) + DetailPath|] == DetailBase(detail) + DetailPath;
    assert url[|url| - |id + ".html"|..] == id + ".html";
    url
  }

  /** The path between the detail site and the id in a detail page address. */
  const DetailPath: string := "/index.php/vod/detail/id/"

  /** The id can be read back off a detail page address, so distinct ids on one
      detail site get distinct addresses. */
  lemma DetailPageUrlId(detail: Option<string>, id: string, other: string)
    ensures var url := DetailPageUrl(detail, id);
            url[|DetailBase(detail) + DetailPath|..|url| - 5] == id
    ensures DetailPageUrl(detail, id) == DetailPageUrl(detail, other) ==> id == other
  {
    var url := DetailPageUrl(detail, id);
    var n := |DetailBase(detail) + DetailPath|;
    assert url[n..|url| - 5] == id;
    var url2 := DetailPageUrl(detail, other);
    assert url2[n..|url2| - 5] == other;
  }

  /** The title of a detail page: the first level-1 heading, trimmed, or `''`. */
  function PageTitle(html: string): (t: string)
    ensures (forall i :: 0 <= i <= |html| ==> GroupAt(H1Heading, html, i).None?) ==> t == []
    ensures t != [] ==> !IsSpace(t[0]) && !IsSpace(t[|t| - 1]) && '<' !in t
    ensures forall i :: && 0 <= i <= |html| && GroupAt(H1Heading, html, i).Some?
                        && (forall j :: 0 <= j < i ==> GroupAt(H1Heading, html, j).None?)
                        ==> t == Trim(GroupAt(H1Heading, html, i).value)
  {
    FirstGroupIsLeftmost(H1Heading, html);
    match FirstGroup(H1Heading, html, 0)
    case None => []
    case Some(g) =>
      TrimKeepsOut(g, '<');
      Trim(g)
  }

  /** The cover of a detail page: the first bare `.jpg` address, or `''`. */
  function PageCover(html: string): (c: string)
    ensures c == [] <==> NoMatchFrom(BareJpg, html, 0)
    ensures c != [] ==> IsLink(BareJpg, c)
    ensures forall i: nat, e: nat :: && MatchEnd(BareJpg, html, i) == Some(e)
                                     && (forall j :: 0 <= j < i ==> MatchEnd(BareJpg, html, j).None?)
                                     ==> c == html[i..e]
  {
    forall i: nat, e: nat | && MatchEnd(BareJpg, html, i) == Some(e)
                            && (forall j :: 0 <= j < i ==> MatchEnd(BareJpg, html, j).None?)
      ensures Scan(BareJpg, html, 0)[0] == html[i..e]
    {
      ScanLeftmost(BareJpg, html, 0, i, e);
    }
    var ms := Scan(BareJpg, html, 0);
    if ms == [] then []
    else
      var c := ms[0];
      TrimOfTrimmed(c);
      Trim(c)
  }

  /** The description of a detail page: the cleaned content of the first sketch
      block, or `''`. */
  function PageDesc(html: string): (d: Desc)
    ensures d.Plain? <==> forall i :: 0 <= i <= |html| ==> GroupAt(SketchDiv, html, i).None?
    ensures d.Plain? ==> d.text == []
    ensures d.Cleaned? ==> d.input.Some? && !Contains(d.input.value, "</div>")
    ensures forall i :: && 0 <= i <= |html| && GroupAt(SketchDiv, html, i).Some?
                        && (forall j :: 0 <= j < i ==> GroupAt(SketchDiv, html, j).None?)
                        ==> d == Cleaned(GroupAt(SketchDiv, html, i))
  {
    FirstGroupIsLeftmost(SketchDiv, html);
    match FirstGroup(SketchDiv, html, 0)
    case None => Plain([])
    case Some(g) => Cleaned(Some(g))
  }

  /** `handleSpecialSourceDetail`: the detail read off the source's HTML page. */
  function HandleSpecialSourceDetail(id: string, site: Site,
                                     fetchPage: string -> Fetch<string>): (r: Result<VideoDetail, DetailError>)
    ensures fetchPage(DetailPageUrl(site.detail, id)).Rejected? ==> r == Err(RequestRejected)
    ensures var f := fetchPage(DetailPageUrl(site.detail, id));
            f.Responded? && !f.ok ==> r == Err(DetailPageRequestFailed(f.status))
    ensures var f := fetchPage(DetailPageUrl(site.detail, id));
            f.Responded? && f.ok && f.body.None? ==> r == Err(UnreadableBody)
    ensures var f := fetchPage(DetailPageUrl(site.detail, id));
            r.Ok? <==> f.Responded? && f.ok && f.body.Some?
    ensures r.Ok? ==> && r.value.code == SuccessCode
                      && r.value.detailUrl == DetailPageUrl(site.detail, id)
                      && r.value.info.source == site.key && r.value.info.sourceName == site.name
                      && r.value.info.id == id
                      && forall e :: e in r.value.episodes ==> IsEpisodeUrl(e)
  {
    var url := DetailPageUrl(site.detail, id);
    match fetchPage(url)
    case Rejected => Err(RequestRejected)
    case Responded(ok, status, body) =>
      if !ok then Err(DetailPageRequestFailed(status))
      else if body.None? then Err(UnreadableBody)
      else
        var html := body.value;
        Ok(VideoDetail(
          code := SuccessCode,
          episodes := PageEpisodes(html, site.key),
          detailUrl := url,
          info := VideoInfo(
            title := Some(PageTitle(html)),
            cover := Some(PageCover(html)),
            desc := PageDesc(html),
            typeName := None,
            year := None,
            area := None,
            director := None,
            actor := None,
            remarks := None,
            sourceName := site.name,
            source := site.key,
            id := id)))
  }

  /** A detail page that answers `ok` with a readable body gives a detail whose
      episodes, title, cover and description are read off that page. */
  lemma SpecialDetailFromPage(id: string, site: Site, fetchPage: string -> Fetch<string>)
    requires var f := fetchPage(DetailPageUrl(site.detail, id)); f.Responded? && f.ok && f.body.Some?
    ensures var r := HandleSpecialSourceDetail(id, site, fetchPage);
            var html := fetchPage(DetailPageUrl(site.detail, id)).body.value;
            && r.Ok?
            && r.value.episodes == PageEpisodes(html, site.key)
            && r.value.info.title == Some(PageTitle(html))
            && r.value.info.cover == Some(PageCover(html))
            && r.value.info.desc == PageDesc(html)
  {
  }

  /** A truthy `detail` field. */
  predicate HasDetailSite(site: Site) {
    site.detail.Some? && site.detail.value != []
  }

  /** `getDetailFromApi`: sources with a detail site are read from its HTML
      page; the others from the JSON detail endpoint at
      `api + detailPath + id`, whose first record is used. */
  function GetDetailFromApi(site: Site, id: string, detailPath: string,
                            fetchJson: string -> Fetch<Envelope>,
                            fetchPage: string -> Fetch<string>): (r: Result<VideoDetail, DetailError>)
    ensures r.Ok? ==> && r.value.code == SuccessCode
                      && r.value.info.source == site.key && r.value.info.sourceName == site.name
                      && r.value.info.id == id
                      && forall e :: e in r.value.episodes ==> StartsWithScheme(e)
  {
    if HasDetailSite(site) then
      var r := HandleSpecialSourceDetail(id, site, fetchPage);
      assert r.Ok? ==> forall e :: e in r.value.episodes ==> StartsWithScheme(e);
      r
    else JsonDetail(site, id, site.api + detailPath + id, fetchJson)
  }

  /** The detail read from the JSON detail endpoint at `url`: its first record. */
  function JsonDetail(site: Site, id: string, url: string,
                      fetchJson: string -> Fetch<Envelope>): (r: Result<VideoDetail, DetailError>)
    ensures r.Ok? ==> && r.value.code == SuccessCode
                      && r.value.info.source == site.key && r.value.info.sourceName == site.name
                      && r.value.info.id == id
                      && forall e :: e in r.value.episodes ==> StartsWithScheme(e)
    ensures r.Err? <==> !ListUsable(fetchJson(url))
    ensures fetchJson(url).Rejected? ==> r == Err(RequestRejected)
    ensures fetchJson(url).Responded? && !fetchJson(url).ok ==> r == Err(DetailRequestFailed(fetchJson(url).status))
    ensures fetchJson(url).Responded? && fetchJson(url).ok && fetchJson(url).body.None? ==> r == Err(UnreadableBody)
    ensures fetchJson(url).Responded? && fetchJson(url).ok && fetchJson(url).body.Some? && !ListUsable(fetchJson(url)) ==>
              r == Err(InvalidDetailContent)
    ensures ListUsable(fetchJson(url)) ==>
              var item := fetchJson(url).body.value.list.value[0];
              && r.Ok?
              && r.value.detailUrl == url
              && r.value.episodes == DetailEpisodes(item.vodPlayUrl, item.vodContent)
              && r.value.info.title == item.vodName
              && r.value.info.cover == item.vodPic
              && r.value.info.desc == Cleaned(item.vodContent)
              && r.value.info.typeName == item.typeName
              && r.value.info.year == Some(ItemYear(item.vodYear))
              && r.value.info.area == item.vodArea
              && r.value.info.director == item.vodDirector
              && r.value.info.actor == item.vodActor
              && r.value.info.remarks == item.vodRemarks
  {
    match fetchJson(url)
    case Rejected => Err(RequestRejected)
    case Responded(ok, status, body) =>
      if !ok then Err(DetailRequestFailed(status))
      else if body.None? then Err(UnreadableBody)
      else if body.value.list.None? || body.value.list.value == [] then Err(InvalidDetailContent)
      else
        var item := body.value.list.value[0];
        Ok(VideoDetail(
          code := SuccessCode,
          episodes := DetailEpisodes(item.vodPlayUrl, item.vodContent),
          detailUrl := url,
          info := VideoInfo(
            title := item.vodName,
            cover := item.vodPic,
            desc := Cleaned(item.vodContent),
            typeName := item.typeName,
            year := Some(ItemYear(item.vodYear)),
            area := item.vodArea,
            director := item.vodDirector,
            actor := item.vodActor,
            remarks := item.vodRemarks,
            sourceName := site.name,
            source := site.key,
            id := id)))
  }

  /** A source with a detail site never consults the JSON endpoint, and one
      without never consults an HTML page. */
  lemma DetailRouting(site: Site, id: string, detailPath: string,
                      fetchJson: string -> Fetch<Envelope>, otherJson: string -> Fetch<Envelope>,
                      fetchPage: string -> Fetch<string>, otherPage: string -> Fetch<string>)
    ensures HasDetailSite(site) ==>
              GetDetailFromApi(site, id, detailPath, fetchJson, fetchPage)
              == GetDetailFromApi(site, id, detailPath, otherJson, fetchPage)
              == HandleSpecialSourceDetail(id, site, fetchPage)
    ensures !HasDetailSite(site) ==>
              GetDetailFromApi(site, id, detailPath, fetchJson, fetchPage)
              == GetDetailFromApi(site, id, detailPath, fetchJson, otherPage)
  {
  }

  /** The JSON detail request fails exactly when the endpoint's answer is
      unusable, with the error naming why. */
  lemma DetailErrors(site: Site, id: string, detailPath: string,
                     fetchJson: string -> Fetch<Envelope>, fetchPage: string -> Fetch<string>)
    requires !HasDetailSite(site)
    ensures var r := GetDetailFromApi(site, id, detailPath, fetchJson, fetchPage);
            var f := fetchJson(site.api + detailPath + id);
            && (r.Err? <==> !ListUsable(f))
            && (f.Rejected? ==> r == Err(RequestRejected))
            && (f.Responded? && !f.ok ==> r == Err(DetailRequestFailed(f.status)))
            && (f.Responded? && f.ok && f.body.None? ==> r == Err(UnreadableBody))
            && (f.Responded? && f.ok && f.body.Some? && !ListUsable(f) ==> r == Err(InvalidDetailContent))
  {
    var url := site.api + detailPath + id;
    assert GetDetailFromApi(site, id, detailPath, fetchJson, fetchPage) == JsonDetail(site, id, url, fetchJson);
  }

  /** On success the JSON detail reports the first record of the answer: its
      episodes follow the play sources (falling back to the description), its
      year is the four-digit year, its description is the cleaned content,
      every other field is the record's own, and the address is the endpoint's. */
  lemma DetailFromFirstRecord(site: Site, id: string, detailPath: string,
                              fetchJson: string -> Fetch<Envelope>, fetchPage: string -> Fetch<string>)
    requires !HasDetailSite(site)
    requires ListUsable(fetchJson(site.api + detailPath + id))
    ensures var r := GetDetailFromApi(site, id, detailPath, fetchJson, fetchPage);
            var item := fetchJson(site.api + detailPath + id).body.value.list.value[0];
            && r.Ok?
            && r.value.detailUrl == site.api + detailPath + id
            && r.value.episodes == DetailEpisodes(item.vodPlayUrl, item.vodContent)
            && r.value.info.title == item.vodName
            && r.value.info.cover == item.vodPic
            && r.value.info.desc == Cleaned(item.vodContent)
            && r.value.info.typeName == item.typeName
            && r.value.info.year == Some(ItemYear(item.vodYear))
            && r.value.info.area == item.vodArea
            && r.value.info.director == item.vodDirector
            && r.value.info.actor == item.vodActor
            && r.value.info.remarks == item.vodRemarks
  {
    var url := site.api + detailPath + id;
    assert GetDetailFromApi(site, id, detailPath, fetchJson, fetchPage) == JsonDetail(site, id, url, fetchJson);
  }
}
