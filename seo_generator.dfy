/**
 * The selection rules of the static-page generator's `main`
 * (scripts/generate-seo-pages.mjs): the API base address, which sports get
 * a page, which sport counts as football, the country lookup behind the
 * football pages of four countries, the page definitions and footer
 * links collected in two loops, and the list of sitemap addresses.
 */
module SeoGenerator {
  import opened Wrappers
  import opened JsText
  import opened JsValues
  import opened SeoText
  import ApiClient

  const SiteUrl := "https://whereismatch.com"
  const MissingApiUrl := "Missing API_URL. Provide API_URL as an env var during generation."

  // The fixed text of the generated pages, around the sport or country name.
  const WatchPrefix := "/watch/"
  const SportTitleTail := " On TV - Where Is Match"
  const FindWhere := "Find where to watch "
  const SportDescriptionTail := " live. Browse matches and broadcasters with fast filters."
  const SportHeadingTail := " On TV"
  const BrowseHead := "Browse "
  const SportIntroTail := " fixtures and find the broadcaster showing each match."
  const LinkTail := " on TV"
  const FootballTitleTail := " Football On TV - Where Is Match"
  const FootballDescriptionMiddle := " football. Filter fixtures and broadcasters for "
  const FootballLinkTail := " football on TV"
  const FootballIntroHead := "Browse football fixtures for "
  const FootballIntroTail := " and find which broadcaster is showing each match."

  // ---------------------------------------------------------------------
  // The API address

  /**
   * `API_URL` (or `""` when unset) trimmed and without one trailing `/`;
   * generation stops with an error when nothing is left.
   */
  function GeneratorApiUrl(raw: Option<string>): (r: Result<string>)
    ensures r.Err? <==> ApiClient.StripTrailingSlash(Trim(raw.GetOr(""))) == ""
    ensures r.Ok? ==> r.value == ApiClient.StripTrailingSlash(Trim(raw.GetOr("")))
    ensures r.Ok? ==> r.value != [] && (r.value == Trim(raw.GetOr("")) || r.value + "/" == Trim(raw.GetOr("")))
    ensures r.Err? ==> r.message == MissingApiUrl && (Trim(raw.GetOr("")) == "" || Trim(raw.GetOr("")) == "/")
  {
    var trimmed := Trim(raw.GetOr(""));
    var apiUrl := ApiClient.StripTrailingSlash(trimmed);
    if apiUrl == "" then Err(MissingApiUrl) else Ok(apiUrl)
  }

  /** `fetchJson(apiPath)` requests the base address followed by the path. */
  function GeneratorFetchUrl(apiUrl: string, apiPath: string): (url: string)
    ensures |url| == |apiUrl| + |apiPath|
    ensures url[..|apiUrl|] == apiUrl && url[|apiUrl|..] == apiPath
  {
    apiUrl + apiPath
  }

  /**
   * A configured address with one trailing `/` loses it, so the request
   * address has no `//` where the base meets a path.
   */
  lemma GeneratorFetchUrlDropsSlash(base: string, apiPath: string)
    requires base != [] && !IsJsWhiteSpace(base[0]) && base[|base| - 1] != '/'
    ensures GeneratorApiUrl(Some(base + "/")) == Ok(base)
    ensures GeneratorFetchUrl(GeneratorApiUrl(Some(base + "/")).value, apiPath) == base + apiPath
  {
    var raw := base + "/";
    assert raw[0] == base[0] && raw[|raw| - 1] == '/';
    TrimOfTrimmed(raw);
    assert raw[..|raw| - 1] == base;
  }

  /** A configured address that neither has surrounding whitespace nor ends in `/` is used as it is. */
  lemma GeneratorFetchUrlKeepsBase(base: string, apiPath: string)
    requires base != [] && !IsJsWhiteSpace(base[0]) && !IsJsWhiteSpace(base[|base| - 1]) && base[|base| - 1] != '/'
    ensures GeneratorApiUrl(Some(base)) == Ok(base)
    ensures GeneratorFetchUrl(GeneratorApiUrl(Some(base)).value, apiPath) == base + apiPath
  {
    TrimOfTrimmed(base);
  }

  // ---------------------------------------------------------------------
  // Sports and countries as `/sports` and `/countries` return them

  /** A sport object; the entry of the array is `None` when it is not an object (`null`). */
  datatype Sport = Sport(id: Num, name: Option<string>)

  datatype Country = Country(id: Num, name: Option<string>)

  /** `sport.name` is truthy: a non-empty string. */
  predicate HasName(name: Option<string>) {
    name.Some? && name.value != ""
  }

  /** The slug of an entry's name (`""` for an entry that is not an object). */
  function SlugOf(entry: Option<Sport>): string {
    if entry.Some? then Slugify(entry.value.name) else ""
  }

  /**
   * The entries `main` makes a sport page for and `pickFootballSport`
   * chooses from: an object with a finite id, a name, and a non-empty slug.
   */
  predicate IsCandidate(entry: Option<Sport>) {
    entry.Some? && entry.value.id.Finite? && HasName(entry.value.name) && SlugOf(entry) != ""
  }

  /** The name test of the skip rule adds nothing once the slug is non-empty. */
  lemma NonEmptySlugHasName(name: Option<string>)
    ensures Slugify(name) != "" ==> HasName(name)
  {
    if name == Some("") {
      SlugifyWithoutCollapse(name);
      assert SlugInput(name) == "";
    }
  }

  // ---------------------------------------------------------------------
  // Pages and links

  /**
   * What `main` needs to write one page; `landingConfig` is the two id lists.
   * An empty `countryIds` stands for a `landingConfig` without the
   * `countryIds` key, as the sport pages have.
   */
  datatype PageDef = PageDef(
    canonicalPath: string, title: string, description: string, heading: string, intro: string,
    sportIds: seq<int>, countryIds: seq<int>)

  /** An entry of `seoPages`: a footer link. */
  datatype SeoLink = SeoLink(url: string, path: string, labelText: string)

  /** The page of one sport, under `/watch/<slug>/`. */
  function SportPage(sport: Sport): (page: PageDef)
    requires IsCandidate(Some(sport))
    ensures page.sportIds == [sport.id.value] && page.countryIds == []
  {
    var name := sport.name.value;
    PageDef(
      WatchPrefix + Slugify(sport.name) + "/",
      name + SportTitleTail,
      FindWhere + name + SportDescriptionTail,
      name + SportHeadingTail,
      BrowseHead + name + SportIntroTail,
      [sport.id.value], [])
  }

  function SportLink(sport: Sport): (link: SeoLink)
    requires IsCandidate(Some(sport))
    ensures link.url == SiteUrl + link.path
  {
    var path := WatchPrefix + Slugify(sport.name) + "/";
    SeoLink(SiteUrl + path, path, sport.name.value + LinkTail)
  }

  /** One step of the first loop of `main`: a page for a candidate, nothing for the others. */
  function SportPageOf(entry: Option<Sport>): seq<PageDef> {
    if IsCandidate(entry) then [SportPage(entry.value)] else []
  }

  function SportLinkOf(entry: Option<Sport>): seq<SeoLink> {
    if IsCandidate(entry) then [SportLink(entry.value)] else []
  }

  /** The sport pages of the first loop of `main`, in the order of the sports. */
  function SportPages(sports: seq<Option<Sport>>): seq<PageDef> {
    FlatMap(sports, SportPageOf)
  }

  function SportLinks(sports: seq<Option<Sport>>): seq<SeoLink> {
    FlatMap(sports, SportLinkOf)
  }

  /** Exactly the candidates get a page: nobody else, and nobody is left out. */
  lemma SportPagesMembers(sports: seq<Option<Sport>>)
    ensures forall sport :: Some(sport) in sports && IsCandidate(Some(sport)) ==> SportPage(sport) in SportPages(sports)
    ensures forall d :: d in SportPages(sports) ==> exists sport :: Some(sport) in sports && IsCandidate(Some(sport)) && d == SportPage(sport)
  {
    FlatMapMembers(sports, SportPageOf);
    forall sport | Some(sport) in sports && IsCandidate(Some(sport))
      ensures SportPage(sport) in SportPages(sports)
    {
      assert SportPage(sport) in SportPageOf(Some(sport));
    }
    forall d | d in SportPages(sports)
      ensures exists sport :: Some(sport) in sports && IsCandidate(Some(sport)) && d == SportPage(sport)
    {
      var entry :| entry in sports && d in SportPageOf(entry);
      assert Some(entry.value) == entry;
    }
  }

  /** The `k`-th sport page is the page of the `k`-th candidate. */
  lemma SportPagesFollowCandidates(sports: seq<Option<Sport>>)
    ensures |SportPages(sports)| == |Filter(sports, IsCandidate)|
    ensures forall k :: 0 <= k < |SportPages(sports)| ==>
      Filter(sports, IsCandidate)[k].Some? && SportPages(sports)[k] == SportPage(Filter(sports, IsCandidate)[k].value)
  {
    FlatMapOfSingletons(sports, SportPageOf, IsCandidate);
  }

  /** The `k`-th footer link of the first loop points to the `k`-th sport page. */
  lemma SportLinksFollowPages(sports: seq<Option<Sport>>)
    ensures |SportLinks(sports)| == |SportPages(sports)|
    ensures forall k :: 0 <= k < |SportLinks(sports)| ==>
      SportLinks(sports)[k].path == SportPages(sports)[k].canonicalPath &&
      SportLinks(sports)[k].url == SiteUrl + SportPages(sports)[k].canonicalPath
  {
    FlatMapOfSingletons(sports, SportPageOf, IsCandidate);
    FlatMapOfSingletons(sports, SportLinkOf, IsCandidate);
  }

  // ---------------------------------------------------------------------
  // pickFootballSport

  /** The first element of `s` that satisfies `p` (`s.find(p)`). */
  function First<T>(s: seq<T>, p: T -> bool): (r: Option<T>)
    ensures r.Some? ==> r.value in s && p(r.value)
  {
    if s == [] then None else if p(s[0]) then Some(s[0]) else First(s[1..], p)
  }

  /** `i` is the first index of `s` whose element satisfies `p`. */
  predicate IsFirst<T>(s: seq<T>, p: T -> bool, i: int) {
    0 <= i < |s| && p(s[i]) && forall j :: 0 <= j < i ==> !p(s[j])
  }

  lemma {:induction false} FirstAt<T>(s: seq<T>, p: T -> bool, i: int)
    requires IsFirst(s, p, i)
    ensures First(s, p) == Some(s[i])
  {
    if i > 0 {
      assert !p(s[0]);
      assert IsFirst(s[1..], p, i - 1);
      FirstAt(s[1..], p, i - 1);
    }
  }

  lemma {:induction false} FirstNone<T>(s: seq<T>, p: T -> bool)
    ensures First(s, p).None? <==> forall j :: 0 <= j < |s| ==> !p(s[j])
  {
    if s != [] {
      FirstNone(s[1..], p);
      assert forall j :: 1 <= j < |s| ==> s[j] == s[1..][j - 1];
    }
  }

  /** Looking in the kept elements for `q` is looking in all of them for `pq`, the conjunction. */
  lemma {:induction false} FirstInFilter<T>(s: seq<T>, p: T -> bool, q: T -> bool, pq: T -> bool)
    requires forall x :: pq(x) == (p(x) && q(x))
    ensures First(Filter(s, p), q) == First(s, pq)
  {
    if s != [] {
      FirstInFilter(s[1..], p, q, pq);
      var kept := Filter(s, p);
      if p(s[0]) {
        assert kept == [s[0]] + Filter(s[1..], p);
        assert kept[0] == s[0] && kept[1..] == Filter(s[1..], p);
      } else {
        assert kept == Filter(s[1..], p);
      }
    }
  }

  predicate IsFootballSlug(entry: Option<Sport>) { SlugOf(entry) == "football" }
  predicate IsSoccerSlug(entry: Option<Sport>) { SlugOf(entry) == "soccer" }

  /** `/football/i.test(sport.name)`. */
  predicate MentionsFootball(entry: Option<Sport>) {
    entry.Some? && Includes(Lower(entry.value.name.GetOr("")), "football")
  }

  /** `pickFootballSport`: slug `football`, else slug `soccer`, else a name mentioning football. */
  function PickFootballSport(sports: seq<Option<Sport>>): (r: Option<Sport>)
    ensures r.Some? ==> Some(r.value) in sports && IsCandidate(Some(r.value))
  {
    var candidates := Filter(sports, IsCandidate);
    match First(candidates, IsFootballSlug)
    case Some(e) => e
    case None =>
      match First(candidates, IsSoccerSlug)
      case Some(e) => e
      case None =>
        match First(candidates, MentionsFootball)
        case Some(e) => e
        case None => None
  }

  predicate FootballCandidate(entry: Option<Sport>) { IsCandidate(entry) && IsFootballSlug(entry) }
  predicate SoccerCandidate(entry: Option<Sport>) { IsCandidate(entry) && IsSoccerSlug(entry) }
  predicate NamedFootballCandidate(entry: Option<Sport>) { IsCandidate(entry) && MentionsFootball(entry) }

  /**
   * The priority of `pickFootballSport`, stated on the raw array: the first
   * candidate with slug `football`; when there is none, the first with slug
   * `soccer`; when there is none either, the first whose name mentions
   * football in any case; otherwise none.
   */
  lemma PickFootballSportPriority(sports: seq<Option<Sport>>)
    ensures forall i :: IsFirst(sports, FootballCandidate, i) ==> PickFootballSport(sports) == sports[i]
    ensures (forall j :: 0 <= j < |sports| ==> !FootballCandidate(sports[j])) ==>
      forall i :: IsFirst(sports, SoccerCandidate, i) ==> PickFootballSport(sports) == sports[i]
    ensures (forall j :: 0 <= j < |sports| ==> !FootballCandidate(sports[j]) && !SoccerCandidate(sports[j])) ==>
      forall i :: IsFirst(sports, NamedFootballCandidate, i) ==> PickFootballSport(sports) == sports[i]
    ensures PickFootballSport(sports).None? <==>
      forall j :: 0 <= j < |sports| ==> !FootballCandidate(sports[j]) && !SoccerCandidate(sports[j]) && !NamedFootballCandidate(sports[j])
  {
    FirstInFilter(sports, IsCandidate, IsFootballSlug, FootballCandidate);
    FirstInFilter(sports, IsCandidate, IsSoccerSlug, SoccerCandidate);
    FirstInFilter(sports, IsCandidate, MentionsFootball, NamedFootballCandidate);
    FirstNone(sports, FootballCandidate);
    FirstNone(sports, SoccerCandidate);
    FirstNone(sports, NamedFootballCandidate);
    forall i | IsFirst(sports, FootballCandidate, i) {
      FirstAt(sports, FootballCandidate, i);
    }
    forall i | IsFirst(sports, SoccerCandidate, i) {
      FirstAt(sports, SoccerCandidate, i);
    }
    forall i | IsFirst(sports, NamedFootballCandidate, i) {
      FirstAt(sports, NamedFootballCandidate, i);
    }
  }

  // ---------------------------------------------------------------------
  // findCountryByName

  /** `String(value || "").trim().toLowerCase()`. */
  function NameKey(name: Option<string>): string {
    Lower(Trim(name.GetOr("")))
  }

  /** The key of an entry of `/countries`: `country?.name`, so `""` for `null`. */
  function CountryKey(entry: Option<Country>): string {
    if entry.Some? then NameKey(entry.value.name) else ""
  }

  predicate KeyIs(target: string, entry: Option<Country>) {
    CountryKey(entry) == target
  }

  /** The test `countries.find` applies for the key `target`. */
  function HasKey(target: string): Option<Country> -> bool {
    c => KeyIs(target, c)
  }

  /** The first entry whose key is `target`; `|| null` turns a `null` entry found into none. */
  function FindByKey(countries: seq<Option<Country>>, target: string): Option<Country> {
    match FindIndex(countries, HasKey(target))
    case None => None
    case Some(i) => countries[i]
  }

  /**
   * `findCountryByName`: the first entry whose key is the key of `name`;
   * case and surrounding whitespace are ignored on both sides.
   */
  function FindCountryByName(countries: seq<Option<Country>>, name: Option<string>): Option<Country> {
    FindByKey(countries, NameKey(name))
  }

  /** `i` is the first index whose entry has the key `target`. */
  predicate FirstWithKey(countries: seq<Option<Country>>, target: string, i: int) {
    0 <= i < |countries| && KeyIs(target, countries[i]) && forall j :: 0 <= j < i ==> !KeyIs(target, countries[j])
  }

  /** The entry found is the first entry with the key, and none is found when no entry has it. */
  lemma FindByKeySpec(countries: seq<Option<Country>>, target: string)
    ensures forall i :: FirstWithKey(countries, target, i) ==> FindByKey(countries, target) == countries[i]
    ensures (forall j :: 0 <= j < |countries| ==> !KeyIs(target, countries[j])) ==> FindByKey(countries, target).None?
    ensures FindByKey(countries, target).Some? ==>
      exists i :: FirstWithKey(countries, target, i) && countries[i] == FindByKey(countries, target)
  {
    var found := FindIndex(countries, HasKey(target));
    if found.Some? {
      var m := found.value;
      assert FirstWithKey(countries, target, m);
      forall i | FirstWithKey(countries, target, i)
        ensures i == m
      {
        assert !(i < m) && !(m < i);
      }
    }
  }

  // ---------------------------------------------------------------------
  // The football pages of four countries

  datatype Variant = Variant(slug: string, country: string, labelText: string)

  const Variants: seq<Variant> := [
    Variant("english-football-on-tv", "England", "English"),
    Variant("spanish-football-on-tv", "Spain", "Spanish"),
    Variant("german-football-on-tv", "Germany", "German"),
    Variant("italian-football-on-tv", "Italy", "Italian")
  ]

  function VariantPage(v: Variant, footballId: int, countryId: int): (page: PageDef)
    ensures page.sportIds == [footballId] && page.countryIds == [countryId]
  {
    PageDef(
      "/" + v.slug + "/",
      v.labelText + FootballTitleTail,
      FindWhere + Lower(v.labelText) + FootballDescriptionMiddle + v.country + ".",
      v.labelText + FootballLinkTail,
      FootballIntroHead + v.country + FootballIntroTail,
      [footballId], [countryId])
  }

  function VariantLink(v: Variant): (link: SeoLink)
    ensures link.url == SiteUrl + link.path
  {
    SeoLink(SiteUrl + "/" + v.slug + "/", "/" + v.slug + "/", v.labelText + FootballLinkTail)
  }

  /** The id of the variant's country, when the list has it with a finite id. */
  function VariantCountryId(countries: seq<Option<Country>>, v: Variant): Option<int> {
    match FindCountryByName(countries, Some(v.country))
    case Some(c) => if c.id.Finite? then Some(c.id.value) else None
    case None => None
  }

  /** One step of the second loop of `main`: a variant whose country is missing is skipped. */
  function VariantPageOf(footballId: int, countries: seq<Option<Country>>): Variant -> seq<PageDef> {
    v =>
      match VariantCountryId(countries, v)
      case None => []
      case Some(countryId) => [VariantPage(v, footballId, countryId)]
  }

  function VariantLinkOf(countries: seq<Option<Country>>): Variant -> seq<SeoLink> {
    v => if VariantCountryId(countries, v).Some? then [VariantLink(v)] else []
  }

  /** The variants whose country is listed with a finite id. */
  function IsListed(countries: seq<Option<Country>>): Variant -> bool {
    v => VariantCountryId(countries, v).Some?
  }

  /** The pages of the second loop of `main`, in the order of the variants. */
  function SpecialPages(footballId: int, countries: seq<Option<Country>>, variants: seq<Variant>): seq<PageDef> {
    FlatMap(variants, VariantPageOf(footballId, countries))
  }

  function SpecialLinks(countries: seq<Option<Country>>, variants: seq<Variant>): seq<SeoLink> {
    FlatMap(variants, VariantLinkOf(countries))
  }

  /**
   * A page is made exactly for each variant whose country is listed with a
   * finite id, and it carries the football id and that country's id.
   */
  lemma SpecialPagesMembers(footballId: int, countries: seq<Option<Country>>, variants: seq<Variant>)
    ensures forall d :: d in SpecialPages(footballId, countries, variants) <==>
      exists v :: v in variants && VariantCountryId(countries, v).Some? &&
        d == VariantPage(v, footballId, VariantCountryId(countries, v).value)
  {
    var f := VariantPageOf(footballId, countries);
    FlatMapMembers(variants, f);
    forall d | d in SpecialPages(footballId, countries, variants)
      ensures exists v :: (v in variants && VariantCountryId(countries, v).Some? &&
        d == VariantPage(v, footballId, VariantCountryId(countries, v).value))
    {
      var v :| v in variants && d in f(v);
    }
    forall v | v in variants && VariantCountryId(countries, v).Some?
      ensures VariantPage(v, footballId, VariantCountryId(countries, v).value) in SpecialPages(footballId, countries, variants)
    {
      assert VariantPage(v, footballId, VariantCountryId(countries, v).value) in f(v);
    }
  }

  /** The `k`-th page of the second loop is the page of the `k`-th listed variant, with its link beside it. */
  lemma SpecialPagesFollowVariants(footballId: int, countries: seq<Option<Country>>, variants: seq<Variant>)
    ensures |SpecialPages(footballId, countries, variants)| == |Filter(variants, IsListed(countries))|
    ensures |SpecialLinks(countries, variants)| == |SpecialPages(footballId, countries, variants)|
    ensures forall k :: 0 <= k < |SpecialPages(footballId, countries, variants)| ==>
      var v := Filter(variants, IsListed(countries))[k];
      VariantCountryId(countries, v).Some? &&
      SpecialPages(footballId, countries, variants)[k] == VariantPage(v, footballId, VariantCountryId(countries, v).value) &&
      SpecialLinks(countries, variants)[k] == VariantLink(v)
  {
    FlatMapOfSingletons(variants, VariantPageOf(footballId, countries), IsListed(countries));
    FlatMapOfSingletons(variants, VariantLinkOf(countries), IsListed(countries));
  }

  // ---------------------------------------------------------------------
  // The loops of main

  /** The first loop of `main`: a page and a footer link per candidate sport. */
  method CollectSportPages(sports: seq<Option<Sport>>) returns (sportDefs: seq<PageDef>, seoPages: seq<SeoLink>)
    ensures sportDefs == SportPages(sports)
    ensures seoPages == SportLinks(sports)
  {
    sportDefs, seoPages := [], [];
    for i := 0 to |sports|
      invariant sportDefs == SportPages(sports[..i])
      invariant seoPages == SportLinks(sports[..i])
    {
      FlatMapSnoc(sports, i, SportPageOf);
      FlatMapSnoc(sports, i, SportLinkOf);
      var entry := sports[i];
      if entry.None? || !entry.value.id.Finite? || !HasName(entry.value.name) {
        continue;
      }
      var slug := Slugify(entry.value.name);
      if slug == "" {
        continue;
      }
      sportDefs := sportDefs + [SportPage(entry.value)];
      seoPages := seoPages + [SportLink(entry.value)];
    }
    assert sports[..|sports|] == sports;
  }

  /** The second loop of `main`: a page and a footer link per variant whose country is listed. */
  method CollectSpecialPages(footballId: int, countries: seq<Option<Country>>)
    returns (specialDefs: seq<PageDef>, specialLinks: seq<SeoLink>)
    ensures specialDefs == SpecialPages(footballId, countries, Variants)
    ensures specialLinks == SpecialLinks(countries, Variants)
  {
    specialDefs, specialLinks := [], [];
    for i := 0 to |Variants|
      invariant specialDefs == SpecialPages(footballId, countries, Variants[..i])
      invariant specialLinks == SpecialLinks(countries, Variants[..i])
    {
      FlatMapSnoc(Variants, i, VariantPageOf(footballId, countries));
      FlatMapSnoc(Variants, i, VariantLinkOf(countries));
      var variant := Variants[i];
      var country := FindCountryByName(countries, Some(variant.country));
      if country.None? || !country.value.id.Finite? {
        continue;
      }
      specialDefs := specialDefs + [VariantPage(variant, footballId, country.value.id.value)];
      specialLinks := specialLinks + [VariantLink(variant)];
    }
    assert Variants[..|Variants|] == Variants;
  }

  /**
   * Both loops of `main`: the sport pages, then, when a football sport is
   * found, the football pages of the countries; the footer links in the
   * same order.
   */
  method CollectPages(sports: seq<Option<Sport>>, countries: seq<Option<Country>>)
    returns (sportDefs: seq<PageDef>, specialDefs: seq<PageDef>, seoPages: seq<SeoLink>)
    ensures sportDefs == SportPages(sports)
    ensures specialDefs == match PickFootballSport(sports)
      case None => []
      case Some(football) => SpecialPages(football.id.value, countries, Variants)
    ensures seoPages == SportLinks(sports) + match PickFootballSport(sports)
      case None => []
      case Some(_) => SpecialLinks(countries, Variants)
  {
    sportDefs, seoPages := CollectSportPages(sports);
    specialDefs := [];
    var football := PickFootballSport(sports);
    if football.None? {
      assert seoPages == seoPages + [];
      return;
    }
    var specialLinks;
    specialDefs, specialLinks := CollectSpecialPages(football.value.id.value, countries);
    seoPages := seoPages + specialLinks;
  }

  // ---------------------------------------------------------------------
  // The sitemap addresses

  const StaticUrls: seq<string> := [SiteUrl + "/", SiteUrl + "/about/", SiteUrl + "/faq/", SiteUrl + "/privacy/"]

  predicate Distinct(s: seq<string>) {
    forall i, j :: 0 <= i < j < |s| ==> s[i] != s[j]
  }

  /** `Set.prototype.add` on a set kept in insertion order. */
  function AddUrl(urls: seq<string>, u: string): (r: seq<string>)
    ensures Distinct(urls) ==> Distinct(r)
    ensures forall x :: x in r <==> x in urls || x == u
    ensures |urls| <= |r| && r[..|urls|] == urls
  {
    if u in urls then urls else urls + [u]
  }

  /**
   * `Array.from(sitemapUrls)`: the four fixed pages, then each page's
   * address, in the order in which the page writes finished, once each.
   */
  function SitemapUrls(finished: seq<PageDef>): (urls: seq<string>)
    ensures Distinct(urls)
    ensures |urls| >= 4 && urls[..4] == StaticUrls
    ensures forall u :: u in urls <==> u in StaticUrls || exists d :: d in finished && u == SiteUrl + d.canonicalPath
  {
    if finished == [] then
      assert |StaticUrls[0]| < |StaticUrls[2]| < |StaticUrls[1]| < |StaticUrls[3]|;
      StaticUrls
    else
      var init := finished[..|finished| - 1];
      var last := finished[|finished| - 1];
      assert forall d :: d in finished <==> d in init || d == last by {
        assert finished == init + [last];
      }
      AddUrl(SitemapUrls(init), SiteUrl + last.canonicalPath)
  }
}
