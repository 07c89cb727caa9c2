# i18n-node translation engine, modelled in Dafny

This project models the core of `i18n.js` (i18n-node 0.6.0): the engine that
keeps one catalog of translations per locale and finds, seeds and stores
translations in them. It covers these parts:

- **`translate`**:
  - settles on a locale (the default, one fallback hop, a read of the file, the default again);
  - splits a `key:default text` key when object notation is on;
  - seeds a missing or empty entry, with the default text or, with `retryInDefaultLocale`, with the default locale's translation;
  - writes the locale and returns the entry as the catalog holds it afterwards.
- **The plural choice in `__n`**.
- **The key-path accessor and mutator** (`localeAccessor`, `localeMutator`), which walk nested objects along a key split on the object-notation delimiter.
- **The catalog files** (`read`, `write`, `getStorageFilePath`), including:
  - the backup of an unreadable file to `<file>.invalid`;
  - the sticky switch to an existing `.js` file.
- **The locale operations**: `setLocale`, `getLocale`, `getCatalog`, `getLocales`, `addLocale` and `removeLocale`.
- **`guessLanguage`**:
  - the query parameter, then the cookie, then the `Accept-Language` header;
  - the header is parsed by `getAcceptedLanguagesFromHeader` (quality values of section 5.3.1 of RFC 7231, a stable sort, best first);
  - the header is then scanned by a loop that splices configured fallbacks into the list it walks.

The modules are:

| file | module | what it holds |
|---|---|---|
| `wrappers.dfy` | `Wrappers` | `Option` |
| `text.dfy` | `Text` | The string primitives the source relies on: `indexOf`, `split`, `trim`, `toLowerCase`, `parseInt`, `parseFloat`, and integer to string. |
| `keypath.dfy` | `KeyPath` | Translation trees and the key-path accessor and mutator. |
| `persistence.dfy` | `Persistence` | Options, the engine's state as a value, and `read`, `write` and `getStorageFilePath`. |
| `header.dfy` | `AcceptLanguage` | `getAcceptedLanguagesFromHeader`. |
| `negotiation.dfy` | `Negotiation` | The header loop of `guessLanguage`, as a function and as the loop itself. |
| `translate.dfy` | `Translator` | `translate` and the plural choice of `__n`. |
| `locales.dfy` | `LocaleState` | `setLocale`, `getLocale`, `getCatalog`, `removeLocale` and the choice made by `guessLanguage`. |
| `engine.dfy` | `Engine` | The `I18n` object, with the catalogs, files, extension and default locale as fields its methods update, and a `Request` object. |

The pure functions state each operation on values. The `Engine` methods do
the same work step by step on the object's fields, and each is proved to
leave exactly the state its function describes. What is proved of the
functions therefore holds of the object.

The modelling choices:

- **Catalogs** are `map<string, Tree>`, where `Tree = Str(text) | Obj(members)`. A plural entry is the object `{one, other}`, as it is stored on disk.
- **The file system** is a map from path to a file. A file is readable, with its text, or present but unreadable.
- **Serializing and parsing a catalog** is a pair of functions the model does not look into; parsing can fail.
- **The object-notation option** is a string, where "" means off. The source accepts any string, and `true` becomes `"."` in `configure`.
- **Values stored in a catalog:** the model has no `null` or `undefined` value. A retry in the default locale that finds nothing removes the member. The source stores `null` or `undefined` there; see `Translator.Fill` under "## Left out".

## Model

| member | source | states |
|---|---|---|
| Text.IndexOf | i18n.js:602 | `indexOf`: the first index where the needle occurs, -1 exactly when it occurs nowhere |
| Text.Split | i18n.js:679 | `split` on a non-empty separator always yields at least one piece |
| Text.SplitPieces | i18n.js:679 | no piece of a split contains the separator |
| Text.JoinSplit | i18n.js:679 | joining the pieces of `split` with the separator gives back the string |
| Text.TrimStart | i18n.js:540 | `trim` (leading part): removes exactly the leading white space |
| Text.TrimEnd | i18n.js:540 | `trim` (trailing part): removes exactly the trailing white space |
| Text.LowerAscii | i18n.js:465 | `toLowerCase`: same length, each letter lowered |
| Text.NatToStringValue | i18n.js:240 | the decimal digits of a number read back as that number |
| Text.ParseIntToString | i18n.js:240 | `parseInt(String(n), 10) == n` for every integer `n` |
| Text.ParseFloat | i18n.js:544 | `parseFloat` is NaN exactly when no digit, nor a point followed by a digit, comes after the leading white space and an optional sign |
| Text.ParseFloatDecimal | i18n.js:544 | digits, a point and digits (at least one digit in all) read as the whole part plus the fraction over its power of ten |
| Text.ParseFloatInteger | i18n.js:544 | a run of digits reads as its integer value |
| KeyPath.Segments | i18n.js:666-667 | object notation applies only when the delimiter first occurs at an index greater than 0; the segments then join back to the key, otherwise the key is one segment |
| KeyPath.SetPath | i18n.js:745-773 | a write along a path touches only the member under the first segment |
| KeyPath.LookupSetPath | i18n.js:745-787 | after a write along a writable path, reading that path gives exactly the written value |
| KeyPath.SetPathBlocked | i18n.js:745-773 | a string standing above the leaf makes the write do nothing |
| KeyPath.SetPathIdempotent | i18n.js:745-787 | writing the same value twice equals writing it once |
| KeyPath.SetPathFrame | i18n.js:745-787 | every path that parts ways with the written one reads as before |
| KeyPath.SetPathCreatesBranches | i18n.js:752-757 | a write creates an object at every proper prefix of the path (`object[index] = {}` with branching allowed) |
| KeyPath.AssignPath | i18n.js:745-773 | the level-by-level walk with its rebuild gives exactly the catalog of `SetPath` |
| KeyPath.BindAccessor | i18n.js:661-704 | an accessor bound to a loaded locale carries a non-empty path |
| KeyPath.AccessorReadsAtCallTime | i18n.js:698-703 | with delayed traversal allowed, calling the accessor reads the catalog as it is at call time, so a value seeded after binding is seen |
| KeyPath.AccessorWithoutRetry | i18n.js:683-688 | with delayed traversal forbidden, a path missing at bind time reads as `null` whatever happens later |
| KeyPath.AccessorUnbound | i18n.js:663 | an accessor bound to an unloaded locale yields `undefined` forever |
| KeyPath.BindMutator | i18n.js:727-788 | a mutator bound to a loaded locale carries a non-empty path |
| KeyPath.InvokeMutator | i18n.js:774-787 | calling a mutator keeps the set of locales, and changes no catalog but its own |
| KeyPath.MutatorWrites | i18n.js:745-787 | the mutator writes the value at the key's path, creating missing branches, and leaves other locales and paths that part ways with the key as they were |
| KeyPath.FlatKeyAccess | i18n.js:706-711 | without object notation (or with the delimiter absent or first), both accessor and mutator use `tree[key]` directly |
| Persistence.StoragePath | i18n.js:868-884 | an existing `.js` file wins and switches the extension to `.js`; otherwise the configured extension, `.json` when empty; no catalog and no file changes |
| Persistence.JsExtensionSticks | i18n.js:877-879 | once a `.js` file was found, every locale's path uses `.js` |
| Persistence.Write | i18n.js:826-862 | nothing changes without `updateFiles`; otherwise the locale gets a catalog and no other catalog changes |
| Persistence.WriteStores | i18n.js:840-853 | with `updateFiles`, a missing catalog becomes `{}`, its text is stored at the locale's path, and no other file changes |
| Persistence.WriteIdempotent | i18n.js:826-862 | writing a locale twice in a row equals writing it once |
| Persistence.Read | i18n.js:794-820 | reading a locale only adds or replaces that locale's catalog |
| Persistence.ReadKeepsCatalogOnParseError | i18n.js:802-806 | a readable file that does not parse changes no catalog and no file |
| Persistence.ReadLoads | i18n.js:799-803 | a readable file that parses becomes the locale's catalog, and no file changes |
| Persistence.ReadBacksUpUnreadable | i18n.js:807-819 | an unreadable file is moved to `<file>.invalid`; the file is recreated exactly when files are updated |
| Persistence.ReadMissingWrites | i18n.js:807-819 | a missing file is not backed up; the locale is just written |
| Persistence.StoragePathAfterWrite | i18n.js:868-884 | right after a write, the locale's path is computed the same way again and nothing changes |
| Persistence.WriteThenRead | i18n.js:794-862 | with a codec that round-trips, reading back a locale just written changes nothing |
| AcceptLanguage.ParsePreferenceTag | i18n.js:540-549 | the tag is the trimmed item up to the first `;q=`, never contains `;q=`; without `;q=` the quality is 1 |
| AcceptLanguage.ParsePreferenceDecimal | i18n.js:540-546 | an item `tag;q=a.b` with digits `a` and `b` has tag `tag` and quality `a.b` read as a decimal (`en;q=0.5` has 0.5) |
| AcceptLanguage.ParsePreferenceInteger | i18n.js:540-546 | an item `tag;q=n` with digits `n` has quality `n` (`en;q=1` has 1) |
| AcceptLanguage.ParsePreferenceNaN | i18n.js:540-546 | an item whose quality text starts no number (`en;q=abc`) has quality 0 |
| AcceptLanguage.Qualities | i18n.js:547 | the `preferences` dictionary holds exactly the tags of the items |
| AcceptLanguage.QualityOfLastOccurrence | i18n.js:547 | a tag listed twice takes the quality of its last occurrence |
| AcceptLanguage.Positive | i18n.js:550-552 | the filter keeps exactly the tags with positive recorded quality, and never adds any |
| AcceptLanguage.SortByQuality | i18n.js:552-554 | the sort's result is ordered by descending quality and is a permutation of its input |
| AcceptLanguage.SortIsStable | i18n.js:552-554 | tags of equal quality keep their relative order |
| AcceptLanguage.AcceptedLanguages | i18n.js:536-555 | the result holds the tags with positive quality, each as often as the filter keeps it |
| AcceptLanguage.AcceptedLanguagesSpec | i18n.js:536-555 | a tag is returned exactly when an item carries it with positive recorded quality, as often as the filter keeps it, best first, ties in header order |
| Negotiation.FirstIndex | i18n.js:490-491 | `indexOf` on the list: the first index of the element, -1 exactly when absent |
| Negotiation.InjectSpec | i18n.js:486-504 | the fallback step adds only absent fallback targets, one element each, keeps the visited prefix, and afterwards the current tag's fallbacks are present |
| Negotiation.InjectExactAfterTag | i18n.js:487-493 | the exact tag's absent fallback lands right after the tag |
| Negotiation.InjectPrimaryAtEnd | i18n.js:497-503 | the primary subtag's absent fallback is pushed at the end |
| Negotiation.InjectFallbacks | i18n.js:486-504 | the splice after the tag and the push at the end, done on the list in turn, give exactly `Inject`, the step `InjectSpec` describes |
| Negotiation.Scan | i18n.js:479-524 | the loop ends, and leaves its index inside the list |
| Negotiation.ScanPreferences | i18n.js:479-524 | the loop that splices into and pushes onto the list it walks computes exactly `Scan` from the accepted languages |
| Negotiation.ScanFromStart | i18n.js:479-524 | the loop stops at the first tag of the extended list with a catalog; the fallback match is the first loaded primary subtag and the regions are those of the visited tags; the list grows by at most the number of distinct fallback targets, which is why the loop ends |
| Translator.Hop | i18n.js:582-584 | the single fallback hop: a loaded locale or one without fallback stays, otherwise its fallback is taken |
| Translator.ResolveLocale | i18n.js:576-596 | the settled locale has a catalog or is the default, and no catalog is dropped on the way |
| Translator.ResolveLoaded | i18n.js:582-591 | a loaded locale is used as it is, and nothing is read |
| Translator.ResolveUndefined | i18n.js:577-580 | no locale given means the default locale |
| Translator.ResolveSingleHop | i18n.js:582-596 | fallback is a single hop: the target is used when loaded or loadable, otherwise the default, whatever the target's own fallback |
| Translator.ResolveDefault | i18n.js:625-640 | under the retry condition, the nested call for the default locale works in the default locale |
| Translator.SplitDefault | i18n.js:598-615 | with object notation on and a colon at an index above 0, the key and its default text rejoin with the colon and the key has no colon; otherwise the key is its own default |
| Translator.Seed | i18n.js:631-645 | `default \|\| key` is empty only when both are |
| Translator.SeedText | i18n.js:598-645 | the seeded singular text is the text after the first colon (the key before it when that is empty) when split, the whole key otherwise |
| Translator.Translate | i18n.js:576-648 | a call never drops a catalog |
| Translator.TranslateAt | i18n.js:617-648 | the part after settling never drops a catalog |
| Translator.Fill | i18n.js:624-643 | calling the mutator, with or without the retry, never drops a catalog |
| Translator.TranslateAtReturnsStored | i18n.js:617-648 | the result is the entry the settled locale's catalog holds once the call is over; nothing when that locale has no catalog |
| Translator.TranslateReturnsStored | i18n.js:576-648 | the same for a whole call, in the locale it settled on |
| Translator.TranslateAtFound | i18n.js:620-648 | a present, non-empty entry is returned as it is, and nothing is seeded or written |
| Translator.TranslateAtSeeds | i18n.js:636-647 | a missing singular entry, without retry, is seeded with the default text, the locale is written once, and that text is returned |
| Translator.TranslateAtSeedsPlural | i18n.js:620-647 | a missing plural entry, without retry, is seeded with `{one, other}` from both default texts, written once, and returned |
| Translator.DefaultCallFrame | i18n.js:624-629 | the nested call for the default locale changes no catalog but the default locale's |
| Translator.TranslateAtFrame | i18n.js:617-648 | without a retry, a call changes no catalog but its own locale's |
| Translator.TranslateAtRetries | i18n.js:636-647 | with `retryInDefaultLocale`, a missing singular entry of another locale takes the default locale's translation, is written once, and that value is returned |
| Translator.TranslateIdempotent | i18n.js:576-648 | asking a loaded locale again for a key that came back non-empty returns the same and changes nothing |
| Translator.UnparsableDefaultOverwritten | i18n.js:587-596 | a default locale whose file does not parse gets `{}` written over that file, and the call returns nothing |
| Translator.IntegerPluralIsCount | i18n.js:240-244 | an integer written as the plural argument is taken as the count |
| Translator.CountArgument | i18n.js:240-244 | the plural argument `"NaN"` makes the count NaN; one that is no integer's decimal text leaves the count alone |
| Translator.FormName | i18n.js:254-258 | `count > 1` picks "other"; anything else, NaN included, picks "one" |
| Translator.SelectForm | i18n.js:254-258 | an object entry gives its `other` member for a count above 1 and its `one` member otherwise; a string or no entry gives nothing |
| Translator.TranslatePlural | i18n.js:206-258 | `__n` drops no catalog and leaves the catalogs as the `translate` call it makes |
| Translator.TranslatePluralSeeded | i18n.js:240-258 | for a missing entry `__n` returns the singular default text for a count of at most 1 or NaN, the plural one above 1 |
| LocaleState.SetLocaleSingleHop | i18n.js:274-309 | `setLocale` settles on the locale when loaded, else its loaded fallback, else the current (or default) locale |
| LocaleState.LocaleAfterSet | i18n.js:290-306 | the locale `setLocale` settles on is loaded or is the current one, and a loaded locale is taken as it is |
| LocaleState.LocaleOfRequest | i18n.js:311-325 | `getLocale(request)` is the request's locale when non-empty, the default otherwise |
| LocaleState.CatalogForSpec | i18n.js:327-365 | `getCatalog`: a loaded locale's own catalog, else its loaded fallback's, else `false` |
| LocaleState.CatalogFor | i18n.js:350-364 | no locale or "" gives every catalog; a single catalog returned is one of the loaded ones |
| LocaleState.RemoveLocale | i18n.js:375-377 | `removeLocale` drops exactly that catalog |
| LocaleState.RemovedLocaleFallsBack | i18n.js:327-377 | a removed locale's catalog is never returned under its name again |
| LocaleState.QueryParameterWins | i18n.js:460-468 | a configured query parameter with a value decides, lower-cased, over cookie and header |
| LocaleState.CookieBeatsHeader | i18n.js:471-474 | otherwise a configured cookie with a value decides over the header |
| LocaleState.GuessChoice | i18n.js:460-527 | a given query parameter decides the language, lower-cased; the region comes only from the header; with nothing to go by both are the default locale |
| LocaleState.Guess | i18n.js:449-531 | the lists of languages and regions are the default locale alone, language and region are those chosen, and the locale is loaded or the default |
| LocaleState.NothingToGoBy | i18n.js:449-531 | with nothing to go by, the request gets the default locale and language |
| LocaleState.HeaderLoopOutcome | i18n.js:477-525 | the header decides the first loaded tag of the extended list, else the first loaded primary subtag, else the default; the region is the first region subtag visited |
| LocaleState.HeaderDecides | i18n.js:477-528 | with no query parameter or cookie, a non-empty header decides language, region and locale through that loop |
| LocaleState.GuessedLocaleLoaded | i18n.js:449-531 | whatever the request carries, its locale ends up loaded or the default |
| Engine.Request.constructor | i18n.js:449-458 | a request starts with its header, query and cookies and no locale fields set |
| Engine.I18n.constructor | i18n.js:18-100 | an engine starts with no catalog (`locales = {}`), the options `configure` sets, and the given files |
| Engine.I18n.StorageFilePath | i18n.js:868-884 | the path and new state are those of `getStorageFilePath` |
| Engine.I18n.Write | i18n.js:826-862 | the new state is that of `write` |
| Engine.I18n.Read | i18n.js:794-820 | the new state is that of `read` |
| Engine.I18n.AddLocale | i18n.js:371-373 | `addLocale` reads the locale |
| Engine.I18n.RemoveLocale | i18n.js:375-377 | `removeLocale` drops the catalog and touches no file |
| Engine.I18n.SetLocale | i18n.js:274-309 | the global form changes only the default locale, as `setLocale` describes |
| Engine.I18n.SetLocaleOn | i18n.js:274-309 | the request form sets only the request's locale, and returns `getLocale(request)` |
| Engine.I18n.GetLocales | i18n.js:367-369 | `getLocales` names exactly the loaded catalogs |
| Engine.I18n.GetLocale | i18n.js:311-325 | `getLocale(request)` is the request's locale when non-empty, the default locale otherwise |
| Engine.I18n.GetCatalog | i18n.js:327-365 | `getCatalog` with no locale or "" gives every catalog; a single catalog returned is a loaded one |
| Engine.I18n.ChooseLanguage | i18n.js:460-527 | the language and region chosen are, in order of precedence, the query parameter's value lower-cased, the cookie's value, what the `Accept-Language` loop settles on, or the default locale (`LocaleState.GuessChoice`) |
| Engine.I18n.GuessLanguage | i18n.js:449-531 | the request's fields end up as `guessLanguage` describes, and the result is the request's locale |
| Engine.I18n.Mutate | i18n.js:774-787 | calling a bound mutator on the object leaves the catalogs the mutator describes |
| Engine.I18n.ResolveLocale | i18n.js:576-596 | the locale and new state are those of the settling step of `translate` |
| Engine.I18n.Translate | i18n.js:576-648 | the result and new state are those of `translate` |
| Engine.I18n.TranslateAt | i18n.js:598-648 | the same for the part after settling |
| Engine.I18n.Fill | i18n.js:624-645 | the same for a mutator call with retry or seed |
| Engine.I18n.TranslatePlural | i18n.js:206-258 | the result and new state are those of `__n` up to formatting |

## Left out

- Translator.Translate: requires `RetryTerminates`: with `retryInDefaultLocale`, the default locale is loaded, has no fallback, or falls back to itself. This is sufficient for the retry to end, not necessary. When the default locale is unloaded and its fallback X is loadable and lacks the key, the source recurses without end. But with an unloaded default locale whose fallback X is another locale, the source also ends when:
  - X cannot be loaded, so the nested call settles on the default locale itself and does not retry;
  - X holds the key, so the retry is not taken;
  - the call itself settles on the default locale, so there is no retry.
  The model states nothing in those cases.
- Translator.TranslateAt: the same `RetryTerminates` requires as `Translator.Translate`.
- Translator.Fill: the same `RetryTerminates` requires as `Translator.Translate`.
- Translator.Fill: a retry in the default locale can come back `null` (the default locale holds a string above the key) or `undefined` (no catalog for it). The source then stores that `null` or `undefined` member in the locale, and `write` saves the `null`. The model removes the member instead. A later key that walks through that member throws a `TypeError` in the source (`null[index] = {}`, or `hasOwnProperty` of `undefined`); the model creates the missing branches there.
- Translator.TranslatePlural: the same `RetryTerminates` requires as `Translator.Translate`.
- Engine.I18n.Translate: the same `RetryTerminates` requires as `Translator.Translate`.
- Engine.I18n.TranslateAt: the same `RetryTerminates` requires as `Translator.Translate`.
- Engine.I18n.Fill: the same `RetryTerminates` requires, and the same removal of a member where the source stores `null` or `undefined`, as `Translator.Fill`.
- Engine.I18n.TranslatePlural: the same `RetryTerminates` requires as `Translator.Translate`.
- `configure`, `init`, `applyAPItoObject`, `guessLocales`, `fs.watch` reloading and logging are not modelled. `configure`'s initial reads are exactly `addLocale` per listed locale.
- Formatting is not modelled: `vsprintf`, `sprintf`, Mustache rendering and `__`/`__mf`/`__l`/`__h`. `__n` is modelled up to the choice of form.
- Translator.TranslatePlural: does not model these calls to `__n`:
  - the object form (`{singular, plural, locale, count}`);
  - a plural argument that is a number rather than a string;
  - `namedValues.count`;
  - a `msg` that is `undefined` (the source throws there; the model returns nothing).
- Finding the locale of the `this` object (`getLocaleFromObject`) is left out: the locale is an argument, `None` for `undefined`.
- `setLocale(locale)`, which changes the default locale, `setLocale(request, locale)` and `getLocale(request)` are modelled. The `req.setLocale(...)`, `req.getLocale()` and `req.getCatalog(...)` forms that use `this` are not; they act the same on the request.
- `getLocales` returns `Object.keys(locales)`, an ordered array; the model gives the set of keys.
- JavaScript properties of strings and prototypes (such as `"abc".length` along a key path, or `toString` as a fallback key) are not modelled. A key path is only followed through objects.
- KeyPath.SetPath: writing two or more levels below a string throws a `TypeError` in the source; the model leaves the catalog unchanged, as it does one level below.
- Aliasing is not modelled. The retry stores the very object the default locale holds, so a later change to one shows in both; the model copies values.
- A parsed file that is not a JSON object is not modelled: the codec yields a catalog or nothing.
- Text.ParseInt: integers are unbounded, so precision loss above 2^53 is not modelled.
- Text.ParseFloat reads an optional sign, digits and a fraction. Exponents (`1e3`) and `Infinity` are left out.
- Text.LowerAscii lowers ASCII letters only.
- Paths: `path.normalize` is not modelled and the separator is `/`.
- The query string is a map from name to one value: `url.parse` and array-valued parameters are left out.
- File-system detail left out:
  - the temporary file and rename of `write`;
  - directory creation and permissions;
  - I/O errors other than an unreadable file.
