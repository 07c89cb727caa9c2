/**
 * `translate` in i18n.js, and the choice of plural form in `__n`.
 *
 * `translate` first settles on a locale: the default one when none is given,
 * then one hop through the fallbacks when the locale has no catalog, then a
 * read of its file, and the default locale (read again) when there is still no
 * catalog. With object notation on, a key may carry its default text after a
 * colon. A missing or empty entry is seeded, either with the default text (a
 * `{one, other}` object for a plural) or, with `retryInDefaultLocale`, with the
 * default locale's translation; the locale is then written. The result is the
 * entry as the catalog holds it afterwards.
 */
module Translator {
  import opened Wrappers
  import opened Text
  import opened KeyPath
  import opened Persistence
  import opened Negotiation

  // ---------------------------------------------------------------------------
  // Settling on a locale
  // ---------------------------------------------------------------------------

  /**
   * The single fallback hop `translate`, `setLocale` and `getCatalog` share: a
   * locale without a catalog is replaced by its fallback, when one is configured.
   */
  function Hop(fallbacks: map<string, string>, locales: map<string, Catalog>, locale: string): (r: string)
    ensures locale in locales || !HasFallback(fallbacks, locale) ==> r == locale
    ensures locale !in locales && HasFallback(fallbacks, locale) ==> r == fallbacks[locale]
  {
    if locale !in locales && HasFallback(fallbacks, locale) then fallbacks[locale] else locale
  }

  datatype Resolved = Resolved(locale: string, st: Store)

  /** The locale `translate` works in, and the store after the reads it needed. */
  function ResolveLocale(o: Options, s: Store, locale: Option<string>): (r: Resolved)
    ensures s.locales.Keys <= r.st.locales.Keys
    ensures r.locale in r.st.locales || r.locale == o.defaultLocale
  {
    var requested := locale.GetOr(o.defaultLocale);
    var target := Hop(o.fallbacks, s.locales, requested);
    var s1 := if target !in s.locales then Read(o, s, target) else s;
    if target in s1.locales then Resolved(target, s1)
    else Resolved(o.defaultLocale, Read(o, s1, o.defaultLocale))
  }

  /** A loaded locale is used as it is, and nothing is read. */
  lemma ResolveLoaded(o: Options, s: Store, l: string)
    requires l in s.locales
    ensures ResolveLocale(o, s, Some(l)) == Resolved(l, s)
  {
  }

  /** No locale given means the default locale. */
  lemma ResolveUndefined(o: Options, s: Store)
    ensures ResolveLocale(o, s, None) == ResolveLocale(o, s, Some(o.defaultLocale))
  {
  }

  /**
   * Fallback is a single hop: an unloaded locale with a fallback is replaced by
   * that target; when the target cannot be loaded either, the default locale is
   * used, whatever fallback the target itself has.
   */
  lemma ResolveSingleHop(o: Options, s: Store, l: string)
    requires l !in s.locales && HasFallback(o.fallbacks, l)
    ensures var target := o.fallbacks[l]; var r := ResolveLocale(o, s, Some(l));
      && (r.locale == target || r.locale == o.defaultLocale)
      && (target in s.locales ==> r == Resolved(target, s))
      && (target !in s.locales && target in Read(o, s, target).locales ==> r == Resolved(target, Read(o, s, target)))
      && (target !in s.locales && target !in Read(o, s, target).locales ==>
            r == Resolved(o.defaultLocale, Read(o, Read(o, s, target), o.defaultLocale)))
  {
  }

  /**
   * The condition under which the `retryInDefaultLocale` recursion ends: the
   * nested call for the default locale must stay in the default locale, so the
   * default locale is loaded, or has no fallback, or falls back to itself.
   * Without it, an unloaded default locale whose fallback is loaded sends the
   * nested call to that fallback, which retries in the default locale again.
   */
  predicate RetryTerminates(o: Options, s: Store) {
    o.retryInDefaultLocale ==>
      o.defaultLocale in s.locales || !HasFallback(o.fallbacks, o.defaultLocale)
      || o.fallbacks[o.defaultLocale] == o.defaultLocale
  }

  /** Under that condition the nested call for the default locale works in the default locale. */
  lemma ResolveDefault(o: Options, s: Store)
    requires RetryTerminates(o, s)
    ensures o.retryInDefaultLocale ==> ResolveLocale(o, s, Some(o.defaultLocale)).locale == o.defaultLocale
  {
  }

  // ---------------------------------------------------------------------------
  // Keys with default texts
  // ---------------------------------------------------------------------------

  /**
   * The key and its default text: with object notation on and a colon at an
   * index greater than 0, the text before the first colon and the text after
   * it; otherwise the key itself twice.
   */
  function SplitDefault(notation: string, key: string): (r: (string, string))
    ensures notation == "" || IndexOf(key, ":") <= 0 ==> r == (key, key)
    ensures notation != "" && IndexOf(key, ":") > 0 ==>
      && r.0 + ":" + r.1 == key && r.0 != "" && IndexOf(r.0, ":") == -1
  {
    var i := IndexOf(key, ":");
    if notation != "" && 0 < i then
      assert key == key[..i] + ":" + key[i + 1..] by {
        assert key[i..i + 1] == ":";
      }
      NoOccurrenceBefore(key, ":", i);
      (key[..i], key[i + 1..])
    else (key, key)
  }

  /** `default || key`: an empty default text gives way to the key. */
  function Seed(key: string, dflt: string): (r: string)
    ensures r == "" ==> key == "" && dflt == ""
  {
    if dflt == "" then key else dflt
  }

  /**
   * The text `translate` seeds a missing entry with: the text after the first
   * colon, or the key before it when that text is empty, when the key is split;
   * the whole key otherwise.
   */
  lemma SeedText(notation: string, key: string)
    ensures var (k, d) := SplitDefault(notation, key); var i := IndexOf(key, ":");
      Seed(k, d) == if notation != "" && i > 0 then (if i + 1 == |key| then key[..i] else key[i + 1..]) else key
  {
  }

  /** A plural argument counts when it is a non-empty string. */
  predicate PluralGiven(plural: Option<string>) {
    plural.Some? && plural.value != ""
  }

  /** The plural argument after its own default text is split off. */
  function PluralKey(notation: string, plural: Option<string>): Option<string> {
    if PluralGiven(plural) then Some(SplitDefault(notation, plural.value).0) else plural
  }

  /** The `{one, other}` entry a missing plural is seeded with. */
  function PluralSeed(notation: string, key: string, dflt: string, plural: Option<string>): Tree
    requires PluralGiven(plural)
  {
    var (pkey, pdflt) := SplitDefault(notation, plural.value);
    PluralEntry(Seed(key, dflt), Seed(pkey, pdflt))
  }

  // ---------------------------------------------------------------------------
  // translate
  // ---------------------------------------------------------------------------

  datatype Translation = Translation(value: Option<Tree>, st: Store)

  /** `translate(locale, singular, plural)`. */
  function Translate(o: Options, s: Store, locale: Option<string>, singular: string, plural: Option<string>): (r: Translation)
    requires RetryTerminates(o, s)
    ensures s.locales.Keys <= r.st.locales.Keys
    decreases if locale == Some(o.defaultLocale) then 0 else 1, 2
  {
    var res := ResolveLocale(o, s, locale);
    ResolveDefault(o, s);
    TranslateAt(o, res.st, res.locale, singular, plural)
  }

  /** The part of `translate` after the locale is settled. */
  function TranslateAt(o: Options, s: Store, loc: string, singular: string, plural: Option<string>): (r: Translation)
    requires RetryTerminates(o, s)
    ensures s.locales.Keys <= r.st.locales.Keys
    decreases if loc == o.defaultLocale || !o.retryInDefaultLocale then 0 else 1, 1
  {
    var (key, dflt) := SplitDefault(o.notation, singular);
    var pluralKey := PluralKey(o.notation, plural);
    var accessor := BindAccessor(s.locales, loc, key, o.notation, true);
    var mutator := BindMutator(s.locales, loc, key, o.notation);
    var s1 :=
      if PluralGiven(plural) && !Truthy(InvokeAccessor(accessor, s.locales)) then
        Write(o, Fill(o, s, loc, key, pluralKey, mutator, PluralSeed(o.notation, key, dflt, plural)), loc)
      else s;
    var s2 :=
      if !Truthy(InvokeAccessor(accessor, s1.locales)) then
        Write(o, Fill(o, s1, loc, key, pluralKey, mutator, Str(Seed(key, dflt))), loc)
      else s1;
    Translation(InvokeAccessor(accessor, s2.locales), s2)
  }

  /**
   * Calling the mutator on a missing entry: with the default locale's
   * translation when retrying in the default locale, with `seed` otherwise.
   */
  function Fill(o: Options, s: Store, loc: string, key: string, pluralKey: Option<string>,
                mutator: Mutator, seed: Tree): (r: Store)
    requires RetryTerminates(o, s)
    requires mutator.Target? ==> |mutator.segs| >= 1
    ensures s.locales.Keys <= r.locales.Keys
    decreases if loc == o.defaultLocale || !o.retryInDefaultLocale then 0 else 1, 0
  {
    if o.retryInDefaultLocale && loc != o.defaultLocale then
      var t := Translate(o, s, Some(o.defaultLocale), key, pluralKey);
      t.st.(locales := InvokeMutator(mutator, t.st.locales, t.value))
    else s.(locales := InvokeMutator(mutator, s.locales, Some(seed)))
  }

  // ---------------------------------------------------------------------------
  // What translate returns and what it stores
  // ---------------------------------------------------------------------------

  /** The key a call looks up, after its default text is split off. */
  function KeyOf(o: Options, singular: string): string {
    SplitDefault(o.notation, singular).0
  }

  /** The path of that key in a catalog. */
  function PathOf(o: Options, singular: string): seq<string> {
    Segments(o.notation, KeyOf(o, singular))
  }

  /**
   * The result is the entry as the catalog of the settled locale holds it once
   * the call is over, not the default text it may have seeded; nothing when that
   * locale has no catalog.
   */
  lemma TranslateAtReturnsStored(o: Options, s: Store, loc: string, singular: string, plural: Option<string>)
    requires RetryTerminates(o, s)
    ensures var r := TranslateAt(o, s, loc, singular, plural);
      r.value == if loc in s.locales then Lookup(r.st.locales[loc], PathOf(o, singular)) else None
  {
    var r := TranslateAt(o, s, loc, singular, plural);
    if loc in s.locales {
      AccessorReadsAtCallTime(s.locales, r.st.locales, loc, KeyOf(o, singular), o.notation);
    }
  }

  /** The same for a whole call: the value at the key in the catalog of the locale it settled on. */
  lemma TranslateReturnsStored(o: Options, s: Store, locale: Option<string>, singular: string, plural: Option<string>)
    requires RetryTerminates(o, s)
    ensures var res := ResolveLocale(o, s, locale); var r := Translate(o, s, locale, singular, plural);
      r.value == if res.locale in res.st.locales then Lookup(r.st.locales[res.locale], PathOf(o, singular)) else None
  {
    var res := ResolveLocale(o, s, locale);
    TranslateAtReturnsStored(o, res.st, res.locale, singular, plural);
  }

  /** A present, non-empty entry is returned as it is, and nothing is seeded or written. */
  lemma TranslateAtFound(o: Options, s: Store, loc: string, singular: string, plural: Option<string>)
    requires RetryTerminates(o, s)
    requires loc in s.locales && Truthy(Lookup(s.locales[loc], PathOf(o, singular)))
    ensures TranslateAt(o, s, loc, singular, plural) == Translation(Lookup(s.locales[loc], PathOf(o, singular)), s)
  {
    AccessorReadsAtCallTime(s.locales, s.locales, loc, KeyOf(o, singular), o.notation);
  }

  /** The store after the mutator put `v` at the key's path in `loc`. */
  function Seeded(s: Store, loc: string, segs: seq<string>, v: Option<Tree>): Store
    requires loc in s.locales && |segs| >= 1
  {
    s.(locales := s.locales[loc := SetPath(s.locales[loc], segs, v)])
  }

  /**
   * A missing or empty singular entry, without a retry in the default locale, is
   * seeded with the default text; the locale is written once, and the seeded
   * text is what is returned.
   */
  lemma TranslateAtSeeds(o: Options, s: Store, loc: string, singular: string, plural: Option<string>)
    requires RetryTerminates(o, s)
    requires loc in s.locales && Writable(s.locales[loc], PathOf(o, singular))
    requires !Truthy(Lookup(s.locales[loc], PathOf(o, singular)))
    requires !PluralGiven(plural)
    requires !o.retryInDefaultLocale || loc == o.defaultLocale
    ensures var (key, dflt) := SplitDefault(o.notation, singular);
      var v := Some(Str(Seed(key, dflt)));
      var r := TranslateAt(o, s, loc, singular, plural);
      && r.st == Write(o, Seeded(s, loc, PathOf(o, singular), v), loc)
      && r.value == v
  {
    var (key, dflt) := SplitDefault(o.notation, singular);
    var v := Some(Str(Seed(key, dflt)));
    var segs := PathOf(o, singular);
    TranslateAtReturnsStored(o, s, loc, singular, plural);
    LookupSetPath(s.locales[loc], segs, v);
  }

  /**
   * A missing or empty plural entry, without a retry in the default locale, is
   * seeded with `{one, other}` from the two default texts; the locale is written
   * once (the seeded object is never empty, so the singular step leaves it), and
   * the object is what is returned.
   */
  lemma TranslateAtSeedsPlural(o: Options, s: Store, loc: string, singular: string, plural: Option<string>)
    requires RetryTerminates(o, s)
    requires loc in s.locales && Writable(s.locales[loc], PathOf(o, singular))
    requires !Truthy(Lookup(s.locales[loc], PathOf(o, singular)))
    requires PluralGiven(plural)
    requires !o.retryInDefaultLocale || loc == o.defaultLocale
    ensures var (key, dflt) := SplitDefault(o.notation, singular);
      var v := Some(PluralSeed(o.notation, key, dflt, plural));
      var r := TranslateAt(o, s, loc, singular, plural);
      && r.st == Write(o, Seeded(s, loc, PathOf(o, singular), v), loc)
      && r.value == v
  {
    var (key, dflt) := SplitDefault(o.notation, singular);
    var seed := PluralSeed(o.notation, key, dflt, plural);
    var v := Some(seed);
    var segs := PathOf(o, singular);
    var accessor := BindAccessor(s.locales, loc, key, o.notation, true);
    var mutator := BindMutator(s.locales, loc, key, o.notation);
    var s1 := Write(o, Seeded(s, loc, segs, v), loc);
    AccessorReadsAtCallTime(s.locales, s.locales, loc, key, o.notation);
    FillSeeds(o, s, loc, key, PluralKey(o.notation, plural), seed);
    assert Fill(o, s, loc, key, PluralKey(o.notation, plural), mutator, seed) == Seeded(s, loc, segs, v);
    LookupSetPath(s.locales[loc], segs, v);
    assert Lookup(s1.locales[loc], segs) == v;
    AccessorReadsAtCallTime(s.locales, s1.locales, loc, key, o.notation);
    assert Truthy(InvokeAccessor(accessor, s1.locales));
    assert TranslateAt(o, s, loc, singular, plural) == Translation(v, s1);
  }

  /** Without a retry in the default locale, calling the bound mutator seeds the entry in place. */
  lemma FillSeeds(o: Options, s: Store, loc: string, key: string, pluralKey: Option<string>, seed: Tree)
    requires RetryTerminates(o, s) && loc in s.locales
    requires !o.retryInDefaultLocale || loc == o.defaultLocale
    ensures Fill(o, s, loc, key, pluralKey, BindMutator(s.locales, loc, key, o.notation), seed)
            == Seeded(s, loc, Segments(o.notation, key), Some(seed))
  {
  }

  /**
   * With `retryInDefaultLocale`, the nested call for the default locale reads and
   * changes only the default locale's catalog.
   */
  lemma DefaultCallFrame(o: Options, s: Store, singular: string, plural: Option<string>)
    requires RetryTerminates(o, s) && o.retryInDefaultLocale
    ensures var t := Translate(o, s, Some(o.defaultLocale), singular, plural);
      forall l :: l in s.locales && l != o.defaultLocale ==> t.st.locales[l] == s.locales[l]
  {
    var d := o.defaultLocale;
    assert Hop(o.fallbacks, s.locales, d) == d;
    var res := ResolveLocale(o, s, Some(d));
    assert res.locale == d;
    assert forall l :: l in s.locales && l != d ==> res.st.locales[l] == s.locales[l];
    TranslateAtFrame(o, res.st, d, singular, plural);
  }

  /** Without a retry in the default locale, a call changes no catalog but its own locale's. */
  lemma TranslateAtFrame(o: Options, s: Store, loc: string, singular: string, plural: Option<string>)
    requires RetryTerminates(o, s)
    requires !o.retryInDefaultLocale || loc == o.defaultLocale
    ensures var r := TranslateAt(o, s, loc, singular, plural);
      forall l :: l in s.locales && l != loc ==> r.st.locales[l] == s.locales[l]
  {
    var (key, dflt) := SplitDefault(o.notation, singular);
    var pluralKey := PluralKey(o.notation, plural);
    var mutator := BindMutator(s.locales, loc, key, o.notation);
    assert mutator.Inert? || mutator.locale == loc;
    var accessor := BindAccessor(s.locales, loc, key, o.notation, true);
    var s1 :=
      if PluralGiven(plural) && !Truthy(InvokeAccessor(accessor, s.locales)) then
        Write(o, Fill(o, s, loc, key, pluralKey, mutator, PluralSeed(o.notation, key, dflt, plural)), loc)
      else s;
    if PluralGiven(plural) {
      FillFrame(o, s, loc, key, pluralKey, mutator, PluralSeed(o.notation, key, dflt, plural));
    }
    FillFrame(o, s1, loc, key, pluralKey, mutator, Str(Seed(key, dflt)));
  }

  /** Without a retry in the default locale, a fill through a mutator bound to `loc` leaves the other catalogs alone. */
  lemma FillFrame(o: Options, t: Store, loc: string, key: string, pluralKey: Option<string>,
                  mutator: Mutator, seed: Tree)
    requires RetryTerminates(o, t) && (!o.retryInDefaultLocale || loc == o.defaultLocale)
    requires mutator.Inert? || (mutator.locale == loc && |mutator.segs| >= 1)
    ensures var f := Fill(o, t, loc, key, pluralKey, mutator, seed);
      forall l :: l in t.locales && l != loc ==> f.locales[l] == t.locales[l]
  {
  }

  /**
   * With `retryInDefaultLocale`, a missing singular entry of another locale is
   * filled with whatever the default locale's translation of the key is (seeded
   * there first when missing), the locale is written once, and that value is
   * returned.
   */
  lemma TranslateAtRetries(o: Options, s: Store, loc: string, singular: string, plural: Option<string>)
    requires RetryTerminates(o, s) && o.retryInDefaultLocale && loc != o.defaultLocale
    requires loc in s.locales && Writable(s.locales[loc], PathOf(o, singular))
    requires !Truthy(Lookup(s.locales[loc], PathOf(o, singular)))
    requires !PluralGiven(plural)
    ensures var t := Translate(o, s, Some(o.defaultLocale), KeyOf(o, singular), plural);
      var r := TranslateAt(o, s, loc, singular, plural);
      && loc in t.st.locales
      && r.st == Write(o, Seeded(t.st, loc, PathOf(o, singular), t.value), loc)
      && r.value == t.value
  {
    var t := Translate(o, s, Some(o.defaultLocale), KeyOf(o, singular), plural);
    DefaultCallFrame(o, s, KeyOf(o, singular), plural);
    LookupSetPath(t.st.locales[loc], PathOf(o, singular), t.value);
    TranslateAtReturnsStored(o, s, loc, singular, plural);
  }

  /**
   * Asking a loaded locale for the same key a second time, after the first call
   * returned a non-empty value, writes nothing and returns the same value.
   */
  lemma TranslateIdempotent(o: Options, s: Store, l: string, singular: string, plural: Option<string>)
    requires RetryTerminates(o, s) && l in s.locales
    requires Truthy(Translate(o, s, Some(l), singular, plural).value)
    ensures var r := Translate(o, s, Some(l), singular, plural);
      RetryTerminates(o, r.st) && Translate(o, r.st, Some(l), singular, plural) == r
  {
    var r := Translate(o, s, Some(l), singular, plural);
    ResolveLoaded(o, s, l);
    TranslateAtReturnsStored(o, s, l, singular, plural);
    ResolveLoaded(o, r.st, l);
    TranslateAtFound(o, r.st, l, singular, plural);
  }

  /**
   * A default locale whose file does not parse stays without a catalog; the
   * call then writes an empty catalog over that file (where an unreadable file
   * would have been backed up first) and returns nothing.
   */
  lemma UnparsableDefaultOverwritten(o: Options, s: Store, singular: string, plural: Option<string>)
    requires o.updateFiles && o.defaultLocale !in s.locales && !HasFallback(o.fallbacks, o.defaultLocale)
    requires var file := StoragePath(o, s, o.defaultLocale).0;
      file in s.files && s.files[file].Readable? && o.codec.parse(s.files[file].content).None?
    ensures var file := StoragePath(o, s, o.defaultLocale).0;
      var r := Translate(o, s, None, singular, plural);
      && r.value == None
      && r.st.locales == s.locales[o.defaultLocale := map[]]
      && r.st.files == s.files[file := Readable(o.codec.serialize(map[]))]
  {
    var d := o.defaultLocale;
    var (file, s1) := StoragePath(o, s, d);
    ReadKeepsCatalogOnParseError(o, s, d);
    assert Read(o, s, d) == s1;
    ReadKeepsCatalogOnParseError(o, s1, d);
    assert Read(o, s1, d) == s1;
    assert ResolveLocale(o, s, None) == Resolved(d, s1);
    assert StoragePath(o, s1, d).0 == file;
    WriteStores(o, s1, d);
    WriteIdempotent(o, s1, d);
    var w := Write(o, s1, d);
    var (key, dflt) := SplitDefault(o.notation, singular);
    assert BindAccessor(s1.locales, d, key, o.notation, true) == Unbound;
    assert BindMutator(s1.locales, d, key, o.notation) == Inert;
    forall t: Store, seed: Tree | RetryTerminates(o, t)
      ensures Fill(o, t, d, key, PluralKey(o.notation, plural), Inert, seed) == t
    {
    }
    assert TranslateAt(o, s1, d, singular, plural) == Translation(None, w);
  }

  // ---------------------------------------------------------------------------
  // The plural form in __n
  // ---------------------------------------------------------------------------

  /** A count as `count > 1` sees it: a number, or NaN (no number at all). */
  datatype Count = Num(n: real) | NaN

  /**
   * The count `__n(singular, plural, count)` uses: the plural argument when it
   * reads back as itself through `parseInt` (an integer string, or "NaN"), the
   * count argument otherwise.
   */
  function CountArgument(plural: string, count: Count): (r: Count)
    ensures plural == "NaN" ==> r == NaN
    ensures (forall n :: plural != IntToString(n)) && plural != "NaN" ==> r == count
  {
    var p := ParseInt(plural);
    if p.Some? && IntToString(p.value) == plural then Num(p.value as real)
    else if p.None? && plural == "NaN" then NaN
    else count
  }

  /** An integer written out as the plural argument is the count. */
  lemma IntegerPluralIsCount(n: int, count: Count)
    ensures CountArgument(IntToString(n), count) == Num(n as real)
  {
    ParseIntToString(n);
  }

  /** `count > 1` picks the "other" form; anything else, NaN included, picks "one". */
  function FormName(count: Count): (r: string)
    ensures r == "other" <==> count.Num? && count.n > 1.0
    ensures r == "one" <==> !(count.Num? && count.n > 1.0)
  {
    if count.Num? && count.n > 1.0 then "other" else "one"
  }

  /** `msg.other` or `msg.one` of the entry; nothing on an entry that is not an object. */
  function SelectForm(msg: Option<Tree>, count: Count): (r: Option<Tree>)
    ensures msg.Some? && msg.value.Obj? && "other" in msg.value.members && count.Num? && count.n > 1.0 ==>
      r == Some(msg.value.members["other"])
    ensures msg.Some? && msg.value.Obj? && "one" in msg.value.members && !(count.Num? && count.n > 1.0) ==>
      r == Some(msg.value.members["one"])
    ensures msg.None? || msg.value.Str? ==> r.None?
  {
    if msg.Some? && msg.value.Obj? && FormName(count) in msg.value.members then
      Some(msg.value.members[FormName(count)])
    else None
  }

  /** `__n(singular, plural, count)` up to formatting: the chosen form of the translated entry. */
  function TranslatePlural(o: Options, s: Store, locale: Option<string>, singular: string, plural: string,
                           count: Count): (r: Translation)
    requires RetryTerminates(o, s)
    ensures s.locales.Keys <= r.st.locales.Keys
    ensures r.st == Translate(o, s, locale, singular, Some(plural)).st
  {
    var t := Translate(o, s, locale, singular, Some(plural));
    Translation(SelectForm(t.value, CountArgument(plural, count)), t.st)
  }

  /**
   * For a loaded locale without the entry (and no retry in the default locale),
   * `__n` returns the singular default text when the count is at most 1 or not a
   * number, and the plural default text when it is above 1.
   */
  lemma TranslatePluralSeeded(o: Options, s: Store, l: string, singular: string, plural: string, count: Count)
    requires RetryTerminates(o, s) && plural != ""
    requires l in s.locales && Writable(s.locales[l], PathOf(o, singular))
    requires !Truthy(Lookup(s.locales[l], PathOf(o, singular)))
    requires !o.retryInDefaultLocale || l == o.defaultLocale
    ensures var (key, dflt) := SplitDefault(o.notation, singular);
      var (pkey, pdflt) := SplitDefault(o.notation, plural);
      var c := CountArgument(plural, count);
      TranslatePlural(o, s, Some(l), singular, plural, count).value
        == Some(Str(if c.Num? && c.n > 1.0 then Seed(pkey, pdflt) else Seed(key, dflt)))
  {
    ResolveLoaded(o, s, l);
    TranslateAtSeedsPlural(o, s, l, singular, Some(plural));
  }
}
