/**
 * The operations of i18n.js on the set of loaded catalogs: `setLocale`,
 * `getLocale`, `getCatalog`, `getLocales`, `removeLocale`, and the choice of a
 * request's locale in `guessLanguage`, as functions of the catalogs and the
 * request. All of them apply the fallbacks as `translate` does: one hop at most.
 */
module LocaleState {
  import opened Wrappers
  import opened Text
  import opened KeyPath
  import opened AcceptLanguage
  import opened Negotiation
  import opened Translator

  // ---------------------------------------------------------------------------
  // setLocale / getLocale
  // ---------------------------------------------------------------------------

  /**
   * The locale `setLocale` settles on: the requested one after a fallback hop
   * when that has a catalog, otherwise `current` (the default locale, which the
   * global form leaves as it was and the request form assigns).
   */
  function LocaleAfterSet(fallbacks: map<string, string>, locales: map<string, Catalog>,
                          current: string, locale: string): (r: string)
    ensures r in locales || r == current
    ensures locale in locales ==> r == locale
  {
    var target := Hop(fallbacks, locales, locale);
    if target in locales then target else current
  }

  /**
   * A loaded locale is taken as it is; an unloaded one with a fallback gives
   * that fallback when it is loaded, and the default otherwise, whatever the
   * fallback's own fallback; anything else gives the default.
   */
  lemma SetLocaleSingleHop(fallbacks: map<string, string>, locales: map<string, Catalog>,
                           current: string, locale: string)
    ensures var r := LocaleAfterSet(fallbacks, locales, current, locale);
      && (r in locales || r == current)
      && (locale in locales ==> r == locale)
      && (locale !in locales && HasFallback(fallbacks, locale) ==>
            r == if fallbacks[locale] in locales then fallbacks[locale] else current)
      && (locale !in locales && !HasFallback(fallbacks, locale) ==> r == current)
  {
  }

  /** `getLocale(request)`: the request's locale when it is non-empty, the default locale otherwise. */
  function LocaleOfRequest(requestLocale: string, defaultLocale: string): (r: string)
    ensures r != "" ==> r == requestLocale || r == defaultLocale
    ensures requestLocale != "" ==> r == requestLocale
    ensures requestLocale == "" ==> r == defaultLocale
  {
    if requestLocale != "" then requestLocale else defaultLocale
  }

  // ---------------------------------------------------------------------------
  // getCatalog / getLocales / removeLocale
  // ---------------------------------------------------------------------------

  /** What `getCatalog` returns: every catalog, one catalog, or `false`. */
  datatype CatalogView = AllCatalogs(all: map<string, Catalog>) | OneCatalog(catalog: Catalog) | NoCatalog

  /** `getCatalog(locale)`; an absent or empty locale asks for every catalog. */
  function CatalogFor(fallbacks: map<string, string>, locales: map<string, Catalog>,
                      target: Option<string>): (r: CatalogView)
    ensures target.None? || target == Some("") ==> r == AllCatalogs(locales)
    ensures r.OneCatalog? ==> r.catalog in locales.Values
  {
    if target.None? || target.value == "" then AllCatalogs(locales)
    else
      var t := Hop(fallbacks, locales, target.value);
      if t in locales then OneCatalog(locales[t]) else NoCatalog
  }

  /**
   * A loaded locale gives its own catalog; an unloaded one gives its fallback's
   * catalog when that is loaded and `false` otherwise.
   */
  lemma CatalogForSpec(fallbacks: map<string, string>, locales: map<string, Catalog>, l: string)
    requires l != ""
    ensures l in locales ==> CatalogFor(fallbacks, locales, Some(l)) == OneCatalog(locales[l])
    ensures l !in locales && HasFallback(fallbacks, l) && fallbacks[l] in locales ==>
      CatalogFor(fallbacks, locales, Some(l)) == OneCatalog(locales[fallbacks[l]])
    ensures l !in locales && (!HasFallback(fallbacks, l) || fallbacks[l] !in locales) ==>
      CatalogFor(fallbacks, locales, Some(l)) == NoCatalog
  {
  }

  /** `removeLocale`: the catalog is dropped, every other one is kept. */
  function RemoveLocale(locales: map<string, Catalog>, l: string): (r: map<string, Catalog>)
    ensures r.Keys == locales.Keys - {l}
    ensures forall k :: k in r ==> r[k] == locales[k]
  {
    locales - {l}
  }

  /**
   * Once a locale is removed, asking for its catalog gives its fallback's (when
   * loaded) or `false`: the removed catalog is never returned under its name.
   */
  lemma RemovedLocaleFallsBack(fallbacks: map<string, string>, locales: map<string, Catalog>, l: string)
    requires l != ""
    ensures var r := RemoveLocale(locales, l);
      CatalogFor(fallbacks, r, Some(l)) ==
        if HasFallback(fallbacks, l) && fallbacks[l] in r then OneCatalog(r[fallbacks[l]]) else NoCatalog
  {
    CatalogForSpec(fallbacks, RemoveLocale(locales, l), l);
  }

  // ---------------------------------------------------------------------------
  // guessLanguage
  // ---------------------------------------------------------------------------

  /** The request fields `guessLanguage` sets. */
  datatype Guessed = Guessed(locale: string, language: string, region: string,
                             languages: seq<string>, regions: seq<string>)

  /** The options `guessLanguage` reads; a cookie name or query parameter of "" is not configured. */
  datatype GuessOptions = GuessOptions(defaultLocale: string, fallbacks: map<string, string>,
                                       queryParameter: string, cookieName: string)

  /** A non-empty value under `name`, when `name` is configured. */
  predicate Given(name: string, values: map<string, string>) {
    name != "" && name in values && values[name] != ""
  }

  /** The language the header loop settles on: the loaded tag it stopped at, else the first loaded primary subtag, else `current`. */
  function HeaderLanguage(r: ScanState, current: string): string {
    if r.matched.Some? && r.matched.value != "" then r.matched.value
    else if r.fallbackMatch != "" then r.fallbackMatch
    else current
  }

  /**
   * The language and region `guessLanguage` settles on for a request with the
   * given query parameters, cookies and `Accept-Language` header ("" when
   * absent), with `locales` the loaded catalogs.
   */
  function GuessChoice(g: GuessOptions, locales: map<string, Catalog>, query: map<string, string>,
                       cookies: map<string, string>, header: string): (r: (string, string))
    ensures Given(g.queryParameter, query) ==> r.0 == LowerAscii(query[g.queryParameter])
    ensures r.1 == g.defaultLocale || (!Given(g.queryParameter, query) && !Given(g.cookieName, cookies) && header != "")
    ensures !Given(g.queryParameter, query) && !Given(g.cookieName, cookies) && header == "" ==>
      r == (g.defaultLocale, g.defaultLocale)
  {
    var d := g.defaultLocale;
    if Given(g.queryParameter, query) then (LowerAscii(query[g.queryParameter]), d)
    else if Given(g.cookieName, cookies) then (cookies[g.cookieName], d)
    else if header != "" then
      var r := Scan(g.fallbacks, locales.Keys, Start(AcceptedLanguages(header)));
      (HeaderLanguage(r, d), if |r.regions| > 0 then r.regions[0] else d)
    else (d, d)
  }

  /**
   * `guessLanguage(request)`: the request's fields once it has run. The lists of
   * languages and regions stay the default locale alone, and the locale is what
   * `setLocale(request, language)` settles on.
   */
  function Guess(g: GuessOptions, locales: map<string, Catalog>, query: map<string, string>,
                 cookies: map<string, string>, header: string): (r: Guessed)
    ensures r.languages == [g.defaultLocale] && r.regions == [g.defaultLocale]
    ensures (r.language, r.region) == GuessChoice(g, locales, query, cookies, header)
    ensures r.locale in locales || r.locale == g.defaultLocale
  {
    var d := g.defaultLocale;
    var (language, region) := GuessChoice(g, locales, query, cookies, header);
    Guessed(LocaleAfterSet(g.fallbacks, locales, d, language), language, region, [d], [d])
  }

  /** A configured query parameter with a value decides, lower-cased, over the cookie and the header. */
  lemma QueryParameterWins(g: GuessOptions, locales: map<string, Catalog>, query: map<string, string>,
                           cookies: map<string, string>, header: string)
    requires Given(g.queryParameter, query)
    ensures var r := Guess(g, locales, query, cookies, header); var language := LowerAscii(query[g.queryParameter]);
      r.language == language && r.locale == LocaleAfterSet(g.fallbacks, locales, g.defaultLocale, language)
      && r.region == g.defaultLocale
  {
  }

  /** Without one, a configured cookie with a value decides over the header. */
  lemma CookieBeatsHeader(g: GuessOptions, locales: map<string, Catalog>, query: map<string, string>,
                          cookies: map<string, string>, header: string)
    requires !Given(g.queryParameter, query) && Given(g.cookieName, cookies)
    ensures var r := Guess(g, locales, query, cookies, header); var language := cookies[g.cookieName];
      r.language == language && r.locale == LocaleAfterSet(g.fallbacks, locales, g.defaultLocale, language)
      && r.region == g.defaultLocale
  {
  }

  /** With no query parameter, cookie or header, the request gets the default locale. */
  lemma NothingToGoBy(g: GuessOptions, locales: map<string, Catalog>, query: map<string, string>,
                      cookies: map<string, string>)
    requires !Given(g.queryParameter, query) && !Given(g.cookieName, cookies)
    ensures var r := Guess(g, locales, query, cookies, "");
      r.language == g.defaultLocale && r.region == g.defaultLocale
      && r.locale == LocaleAfterSet(g.fallbacks, locales, g.defaultLocale, g.defaultLocale)
  {
  }

  /**
   * The language and region the header loop leads to: the first tag of the
   * extended list that has a catalog (none of the tags before it has one);
   * failing that, the first loaded primary subtag of the tags visited; failing
   * that, the default. The region is the first region subtag among the visited
   * tags, lower-cased.
   */
  lemma HeaderLoopOutcome(fallbacks: map<string, string>, loaded: set<string>, accepted: seq<string>, d: string)
    ensures var r := Scan(fallbacks, loaded, Start(accepted));
      var visited := r.list[..if r.matched.Some? then r.next + 1 else r.next];
      && (forall j :: 0 <= j < r.next ==> r.list[j] !in loaded)
      && (r.matched.Some? ==> r.matched.value == r.list[r.next] && r.list[r.next] in loaded)
      && (r.matched.Some? && r.matched.value != "" ==> HeaderLanguage(r, d) == r.list[r.next])
      && (r.matched.None? ==>
            HeaderLanguage(r, d) == if FirstLoadedPrimary(r.list, loaded) != "" then FirstLoadedPrimary(r.list, loaded) else d)
      && r.regions == RegionsOf(visited)
  {
    ScanFromStart(fallbacks, loaded, accepted);
    var r := Scan(fallbacks, loaded, Start(accepted));
    assert Outcome(fallbacks, loaded, accepted, r);
    if r.matched.None? {
      assert r.list[..r.next] == r.list;
    }
  }

  /** With neither a query parameter nor a cookie, a non-empty header decides through that loop. */
  lemma HeaderDecides(g: GuessOptions, locales: map<string, Catalog>, query: map<string, string>,
                      cookies: map<string, string>, header: string)
    requires !Given(g.queryParameter, query) && !Given(g.cookieName, cookies) && header != ""
    ensures var r := Scan(g.fallbacks, locales.Keys, Start(AcceptedLanguages(header)));
      var out := Guess(g, locales, query, cookies, header);
      && out.language == HeaderLanguage(r, g.defaultLocale)
      && out.region == (if r.regions != [] then r.regions[0] else g.defaultLocale)
      && out.locale == LocaleAfterSet(g.fallbacks, locales, g.defaultLocale, out.language)
  {
  }

  /** Whatever the request carries, its locale ends up loaded or the default. */
  lemma GuessedLocaleLoaded(g: GuessOptions, locales: map<string, Catalog>, query: map<string, string>,
                            cookies: map<string, string>, header: string)
    ensures var r := Guess(g, locales, query, cookies, header); r.locale in locales || r.locale == g.defaultLocale
  {
  }
}
