/**
 * The i18n object itself: the loaded catalogs, the files and the options it
 * reads, with the operations that change them step by step as i18n.js does.
 * Each method is proved to leave the state the corresponding function of the
 * other modules describes, so what is proved about those functions holds of
 * the object.
 */
module Engine {
  import opened Wrappers
  import opened Text
  import opened KeyPath
  import opened Persistence
  import opened AcceptLanguage
  import opened Negotiation
  import opened Translator
  import opened LocaleState

  /** An incoming request: what it carries, and the fields `guessLanguage` and `setLocale` set on it. */
  class Request {
    /** The `Accept-Language` header, "" when absent. */
    const acceptLanguage: string
    /** The query parameters of its URL. */
    const query: map<string, string>
    const cookies: map<string, string>
    var locale: string
    var language: string
    var region: string
    var languages: seq<string>
    var regions: seq<string>

    constructor(acceptLanguage: string, query: map<string, string>, cookies: map<string, string>)
      ensures this.acceptLanguage == acceptLanguage && this.query == query && this.cookies == cookies
      ensures locale == "" && language == "" && region == "" && languages == [] && regions == []
    {
      this.acceptLanguage := acceptLanguage;
      this.query := query;
      this.cookies := cookies;
      locale := "";
      language := "";
      region := "";
      languages := [];
      regions := [];
    }

    function Fields(): Guessed
      reads this
    {
      Guessed(locale, language, region, languages, regions)
    }
  }

  class I18n {
    var locales: map<string, Catalog>
    var files: map<string, FileEntry>
    var extension: string
    var defaultLocale: string
    const fallbacks: map<string, string>
    /** The object-notation delimiter, "" when off. */
    const objectNotation: string
    const retryInDefaultLocale: bool
    const updateFiles: bool
    const directory: string
    const prefix: string
    const codec: Codec
    /** The cookie and query parameter `guessLanguage` looks at, "" when not configured. */
    const cookieName: string
    const queryParameter: string

    /** The options as the functions of the other modules take them. */
    function Opts(): Options
      reads this
    {
      Options(defaultLocale, fallbacks, objectNotation, retryInDefaultLocale, updateFiles, directory, prefix, codec)
    }

    /** The state as the functions of the other modules take it. */
    function Current(): Store
      reads this
    {
      Store(locales, files, extension)
    }

    function GuessOpts(): GuessOptions
      reads this
    {
      GuessOptions(defaultLocale, fallbacks, queryParameter, cookieName)
    }

    /** An engine with the given options and files, before any catalog is read. */
    constructor(defaultLocale: string, fallbacks: map<string, string>, objectNotation: string,
                retryInDefaultLocale: bool, updateFiles: bool, directory: string, prefix: string,
                extension: string, codec: Codec, cookieName: string, queryParameter: string,
                files: map<string, FileEntry>)
      ensures Opts() == Options(defaultLocale, fallbacks, objectNotation, retryInDefaultLocale, updateFiles,
                                directory, prefix, codec)
      ensures Current() == Store(map[], files, extension)
      ensures this.cookieName == cookieName && this.queryParameter == queryParameter
    {
      this.defaultLocale := defaultLocale;
      this.fallbacks := fallbacks;
      this.objectNotation := objectNotation;
      this.retryInDefaultLocale := retryInDefaultLocale;
      this.updateFiles := updateFiles;
      this.directory := directory;
      this.prefix := prefix;
      this.extension := extension;
      this.codec := codec;
      this.cookieName := cookieName;
      this.queryParameter := queryParameter;
      this.files := files;
      locales := map[];
    }

    // -------------------------------------------------------------------------
    // Files
    // -------------------------------------------------------------------------

    /** `getStorageFilePath`. */
    method StorageFilePath(locale: string) returns (path: string)
      modifies this
      ensures (path, Current()) == StoragePath(old(Opts()), old(Current()), locale)
      ensures defaultLocale == old(defaultLocale)
    {
      var ext := if extension == "" then ".json" else extension;
      var filepath := directory + Separator + prefix + locale + ext;
      var filepathJs := directory + Separator + prefix + locale + ".js";
      if filepathJs in files {
        extension := ".js";
        return filepathJs;
      }
      return filepath;
    }

    /** `write`. */
    method Write(locale: string)
      modifies this
      ensures Current() == Persistence.Write(old(Opts()), old(Current()), locale)
      ensures defaultLocale == old(defaultLocale)
    {
      if !updateFiles {
        return;
      }
      if locale !in locales {
        locales := locales[locale := map[]];
      }
      var target := StorageFilePath(locale);
      files := files[target := Readable(codec.serialize(locales[locale]))];
    }

    /** `read`. */
    method Read(locale: string)
      modifies this
      ensures Current() == Persistence.Read(old(Opts()), old(Current()), locale)
      ensures defaultLocale == old(defaultLocale)
    {
      var file := StorageFilePath(locale);
      if file in files && files[file].Readable? {
        var parsed := codec.parse(files[file].content);
        if parsed.Some? {
          locales := locales[locale := parsed.value];
        }
      } else {
        if file in files {
          files := (files - {file})[file + ".invalid" := files[file]];
        }
        Write(locale);
      }
    }

    /** `addLocale`: reads the locale's file. */
    method AddLocale(locale: string)
      modifies this
      ensures Current() == Persistence.Read(old(Opts()), old(Current()), locale)
      ensures defaultLocale == old(defaultLocale)
    {
      Read(locale);
    }

    /** `removeLocale`: drops the catalog and keeps the file. */
    method RemoveLocale(locale: string)
      modifies this
      ensures locales == LocaleState.RemoveLocale(old(locales), locale)
      ensures files == old(files) && extension == old(extension) && defaultLocale == old(defaultLocale)
    {
      locales := locales - {locale};
    }

    // -------------------------------------------------------------------------
    // Locales
    // -------------------------------------------------------------------------

    /** `getLocales`: the names of the loaded catalogs. */
    function GetLocales(): (r: set<string>)
      reads this
      ensures forall l :: l in r <==> l in locales
    {
      locales.Keys
    }

    /** `setLocale(locale)`: changes the default locale when the locale (after a hop) is loaded. */
    method SetLocale(locale: string) returns (r: string)
      modifies this
      ensures defaultLocale == LocaleAfterSet(fallbacks, locales, old(defaultLocale), locale)
      ensures r == defaultLocale
      ensures locales == old(locales) && files == old(files) && extension == old(extension)
    {
      var target := locale;
      if target !in locales && HasFallback(fallbacks, target) {
        target := fallbacks[target];
      }
      if target in locales {
        defaultLocale := target;
      }
      r := defaultLocale;
    }

    /** `setLocale(request, locale)`: the request gets the locale (after a hop) when loaded, the default otherwise. */
    method SetLocaleOn(request: Request, locale: string) returns (r: string)
      modifies request
      ensures request.locale == LocaleAfterSet(fallbacks, locales, defaultLocale, locale)
      ensures request.language == old(request.language) && request.region == old(request.region)
      ensures request.languages == old(request.languages) && request.regions == old(request.regions)
      ensures r == GetLocale(request)
    {
      var target := locale;
      if target !in locales && HasFallback(fallbacks, target) {
        target := fallbacks[target];
      }
      if target in locales {
        request.locale := target;
      } else {
        request.locale := defaultLocale;
      }
      r := GetLocale(request);
    }

    /** `getLocale(request)`. */
    function GetLocale(request: Request): (r: string)
      reads this, request
      ensures request.locale != "" ==> r == request.locale
      ensures request.locale == "" ==> r == defaultLocale
    {
      LocaleOfRequest(request.locale, defaultLocale)
    }

    /** `getCatalog(locale)`. */
    function GetCatalog(target: Option<string>): (r: CatalogView)
      reads this
      ensures target.None? || target == Some("") ==> r == AllCatalogs(locales)
      ensures r.OneCatalog? ==> r.catalog in locales.Values
    {
      CatalogFor(fallbacks, locales, target)
    }

    /** The language and region `guessLanguage` settles on: query parameter, cookie, header, default. */
    method ChooseLanguage(request: Request) returns (language: string, region: string)
      ensures (language, region)
              == GuessChoice(GuessOpts(), locales, request.query, request.cookies, request.acceptLanguage)
    {
      language := defaultLocale;
      region := defaultLocale;
      if queryParameter != "" && queryParameter in request.query && request.query[queryParameter] != "" {
        language := LowerAscii(request.query[queryParameter]);
      } else if cookieName != "" && cookieName in request.cookies && request.cookies[cookieName] != "" {
        language := request.cookies[cookieName];
      } else if request.acceptLanguage != "" {
        var accepted := AcceptedLanguages(request.acceptLanguage);
        var scan := ScanPreferences(fallbacks, locales.Keys, accepted);
        if scan.matched.Some? && scan.matched.value != "" {
          language := scan.matched.value;
        } else if scan.fallbackMatch != "" {
          language := scan.fallbackMatch;
        }
        if |scan.regions| > 0 {
          region := scan.regions[0];
        }
      }
    }

    /**
     * `guessLanguage(request)`. The language and region are settled first and
     * assigned once; the source assigns the defaults first and overwrites them,
     * to the same effect.
     */
    method GuessLanguage(request: Request) returns (r: string)
      modifies request
      ensures request.Fields() == Guess(GuessOpts(), locales, request.query, request.cookies, request.acceptLanguage)
      ensures r == GetLocale(request)
    {
      var language, region := ChooseLanguage(request);
      request.languages := [defaultLocale];
      request.regions := [defaultLocale];
      request.language := language;
      request.region := region;
      r := SetLocaleOn(request, language);
    }

    // -------------------------------------------------------------------------
    // translate and __n
    // -------------------------------------------------------------------------

    /** Calls a bound mutator: walks the key's path in the catalog and writes `v` at its end. */
    method Mutate(mutator: Mutator, v: Option<Tree>)
      requires mutator.Target? ==> |mutator.segs| >= 1
      modifies this
      ensures locales == InvokeMutator(mutator, old(locales), v)
      ensures files == old(files) && extension == old(extension) && defaultLocale == old(defaultLocale)
    {
      if mutator.Target? && mutator.locale in locales {
        var catalog := AssignPath(locales[mutator.locale], mutator.segs, v);
        locales := locales[mutator.locale := catalog];
      }
    }

    /** The locale `translate` works in, reading files as it goes. */
    method ResolveLocale(locale: Option<string>) returns (loc: string)
      modifies this
      ensures Resolved(loc, Current()) == Translator.ResolveLocale(old(Opts()), old(Current()), locale)
      ensures defaultLocale == old(defaultLocale)
    {
      loc := if locale.Some? then locale.value else defaultLocale;
      if loc !in locales && HasFallback(fallbacks, loc) {
        loc := fallbacks[loc];
      }
      if loc !in locales {
        Read(loc);
      }
      if loc !in locales {
        loc := defaultLocale;
        Read(loc);
      }
    }

    /** `translate(locale, singular, plural)`. */
    method Translate(locale: Option<string>, singular: string, plural: Option<string>) returns (v: Option<Tree>)
      requires RetryTerminates(Opts(), Current())
      modifies this
      ensures Translation(v, Current()) == Translator.Translate(old(Opts()), old(Current()), locale, singular, plural)
      ensures defaultLocale == old(defaultLocale)
      decreases if locale == Some(defaultLocale) then 0 else 1, 2
    {
      ResolveDefault(Opts(), Current());
      var loc := ResolveLocale(locale);
      v := TranslateAt(loc, singular, plural);
    }

    /** The part of `translate` after the locale is settled. */
    method TranslateAt(loc: string, singular: string, plural: Option<string>) returns (v: Option<Tree>)
      requires RetryTerminates(Opts(), Current())
      modifies this
      ensures Translation(v, Current()) == Translator.TranslateAt(old(Opts()), old(Current()), loc, singular, plural)
      ensures defaultLocale == old(defaultLocale)
      decreases if loc == defaultLocale || !retryInDefaultLocale then 0 else 1, 1
    {
      var (key, dflt) := SplitDefault(objectNotation, singular);
      var pluralKey := PluralKey(objectNotation, plural);
      var accessor := BindAccessor(locales, loc, key, objectNotation, true);
      var mutator := BindMutator(locales, loc, key, objectNotation);
      if PluralGiven(plural) && !Truthy(InvokeAccessor(accessor, locales)) {
        Fill(loc, key, pluralKey, mutator, PluralSeed(objectNotation, key, dflt, plural));
        Write(loc);
      }
      if !Truthy(InvokeAccessor(accessor, locales)) {
        Fill(loc, key, pluralKey, mutator, Str(Seed(key, dflt)));
        Write(loc);
      }
      v := InvokeAccessor(accessor, locales);
    }

    /** Calls the mutator on a missing entry, with the default locale's translation or with `seed`. */
    method Fill(loc: string, key: string, pluralKey: Option<string>, mutator: Mutator, seed: Tree)
      requires RetryTerminates(Opts(), Current())
      requires mutator.Target? ==> |mutator.segs| >= 1
      modifies this
      ensures Current() == Translator.Fill(old(Opts()), old(Current()), loc, key, pluralKey, mutator, seed)
      ensures defaultLocale == old(defaultLocale)
      decreases if loc == defaultLocale || !retryInDefaultLocale then 0 else 1, 0
    {
      if retryInDefaultLocale && loc != defaultLocale {
        var t := Translate(Some(defaultLocale), key, pluralKey);
        Mutate(mutator, t);
      } else {
        Mutate(mutator, Some(seed));
      }
    }

    /** `__n(singular, plural, count)`, up to formatting. */
    method TranslatePlural(locale: Option<string>, singular: string, plural: string, count: Count)
      returns (v: Option<Tree>)
      requires RetryTerminates(Opts(), Current())
      modifies this
      ensures Translation(v, Current())
              == Translator.TranslatePlural(old(Opts()), old(Current()), locale, singular, plural, count)
      ensures defaultLocale == old(defaultLocale)
    {
      var msg := Translate(locale, singular, Some(plural));
      v := SelectForm(msg, CountArgument(plural, count));
    }
  }
}
