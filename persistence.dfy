/**
 * The catalog files behind `read`, `write` and `getStorageFilePath` in i18n.js.
 *
 * The file system is a map from path to file. A file is either readable, with
 * its text, or present but unreadable (a directory, a file without permission).
 * Turning a catalog into text and back (`serializeLocale`, `deserializeLocale`)
 * is a pair of functions the model does not look into; parsing may fail.
 */
module Persistence {
  import opened Wrappers
  import opened KeyPath

  datatype FileEntry = Readable(content: string) | Unreadable

  /** `serializeLocale` and `deserializeLocale`; `parse` yields `None` where `JSON.parse` throws. */
  datatype Codec = Codec(serialize: Catalog -> string, parse: string -> Option<Catalog>)

  /**
   * The options the engine reads. `notation` is the object-notation delimiter,
   * "" when object notation is off; `fallbacks` maps a locale to the locale to
   * use when it has no catalog.
   */
  datatype Options = Options(
    defaultLocale: string,
    fallbacks: map<string, string>,
    notation: string,
    retryInDefaultLocale: bool,
    updateFiles: bool,
    directory: string,
    prefix: string,
    codec: Codec)

  /**
   * What the engine changes as it goes: the loaded catalogs, the files, and the
   * configured extension (which `getStorageFilePath` overwrites).
   */
  datatype Store = Store(locales: map<string, Catalog>, files: map<string, FileEntry>, extension: string)

  /** The path separator: the model follows a POSIX system. */
  const Separator := "/"

  /** The extension used for a locale's file: the configured one, ".json" when it is empty. */
  function EffectiveExtension(extension: string): string {
    if extension == "" then ".json" else extension
  }

  function PathWith(o: Options, locale: string, ext: string): string {
    o.directory + Separator + o.prefix + locale + ext
  }

  /**
   * `getStorageFilePath`: the ".js" file when one exists for the locale, which
   * also switches the configured extension to ".js"; otherwise the file with the
   * configured extension.
   */
  function StoragePath(o: Options, s: Store, locale: string): (r: (string, Store))
    ensures r.1.locales == s.locales && r.1.files == s.files
    ensures PathWith(o, locale, ".js") in s.files ==> r == (PathWith(o, locale, ".js"), s.(extension := ".js"))
    ensures PathWith(o, locale, ".js") !in s.files ==> r == (PathWith(o, locale, EffectiveExtension(s.extension)), s)
  {
    var js := PathWith(o, locale, ".js");
    if js in s.files then (js, s.(extension := ".js"))
    else (PathWith(o, locale, EffectiveExtension(s.extension)), s)
  }

  /**
   * Once the ".js" file of one locale has been found, every locale's file uses
   * ".js": the switch is global and sticks.
   */
  lemma JsExtensionSticks(o: Options, s: Store, locale: string, other: string)
    requires PathWith(o, locale, ".js") in s.files
    ensures var s1 := StoragePath(o, s, locale).1;
      s1.extension == ".js" && StoragePath(o, s1, other).0 == PathWith(o, other, ".js")
      && StoragePath(o, s1, other).1 == s1
  {
  }

  /**
   * `write`: nothing at all when files are not updated, not even the empty
   * catalog; otherwise a missing catalog becomes `{}` and the catalog is stored
   * at the locale's path.
   */
  function Write(o: Options, s: Store, locale: string): (r: Store)
    ensures !o.updateFiles ==> r == s
    ensures o.updateFiles ==> locale in r.locales
    ensures r.locales.Keys == s.locales.Keys + (if o.updateFiles then {locale} else {})
    ensures forall l :: l in s.locales ==> r.locales[l] == s.locales[l]
  {
    if !o.updateFiles then s
    else
      var s1 := if locale in s.locales then s else s.(locales := s.locales[locale := map[]]);
      var (path, s2) := StoragePath(o, s1, locale);
      s2.(files := s2.files[path := Readable(o.codec.serialize(s2.locales[locale]))])
  }

  /**
   * With files updated, `write` leaves every catalog as it was except that a
   * missing one becomes `{}`, stores the locale's catalog as text at its path,
   * and touches no other file.
   */
  lemma WriteStores(o: Options, s: Store, locale: string)
    requires o.updateFiles
    ensures var r := Write(o, s, locale); var (path, _) := StoragePath(o, s, locale);
      && r.locales == (if locale in s.locales then s.locales else s.locales[locale := map[]])
      && path in r.files && r.files[path] == Readable(o.codec.serialize(r.locales[locale]))
      && (forall p :: p != path ==> (p in r.files <==> p in s.files))
      && (forall p :: p != path && p in s.files ==> r.files[p] == s.files[p])
  {
  }

  /**
   * `read`: a readable file that parses replaces the locale's catalog; one that
   * does not parse leaves it as it was. When the file cannot be read, an
   * existing file is renamed to `<file>.invalid` and the locale is written.
   */
  function Read(o: Options, s: Store, locale: string): (r: Store)
    ensures r.locales.Keys <= s.locales.Keys + {locale}
    ensures s.locales.Keys <= r.locales.Keys
    ensures forall l :: l in s.locales && l != locale ==> r.locales[l] == s.locales[l]
  {
    var (file, s1) := StoragePath(o, s, locale);
    if file in s1.files && s1.files[file].Readable? then
      match o.codec.parse(s1.files[file].content)
      case Some(c) => s1.(locales := s1.locales[locale := c])
      case None => s1
    else
      var s2 := if file in s1.files then s1.(files := (s1.files - {file})[file + ".invalid" := s1.files[file]]) else s1;
      Write(o, s2, locale)
  }

  /** A readable file that does not parse leaves every catalog and every file as it was. */
  lemma ReadKeepsCatalogOnParseError(o: Options, s: Store, locale: string)
    requires var file := StoragePath(o, s, locale).0;
      file in s.files && s.files[file].Readable? && o.codec.parse(s.files[file].content).None?
    ensures Read(o, s, locale).locales == s.locales
    ensures Read(o, s, locale).files == s.files
  {
  }

  /** A readable file that parses becomes the locale's catalog, and no file changes. */
  lemma ReadLoads(o: Options, s: Store, locale: string)
    requires var file := StoragePath(o, s, locale).0;
      file in s.files && s.files[file].Readable? && o.codec.parse(s.files[file].content).Some?
    ensures var file := StoragePath(o, s, locale).0;
      Read(o, s, locale).locales == s.locales[locale := o.codec.parse(s.files[file].content).value]
    ensures Read(o, s, locale).files == s.files
  {
  }

  /**
   * A file that exists but cannot be read is moved to `<file>.invalid`; the
   * locale is then written, which recreates the file only when files are
   * updated.
   */
  lemma ReadBacksUpUnreadable(o: Options, s: Store, locale: string)
    requires var file := StoragePath(o, s, locale).0; file in s.files && s.files[file].Unreadable?
    ensures var file := StoragePath(o, s, locale).0; var r := Read(o, s, locale);
      && file + ".invalid" in r.files && r.files[file + ".invalid"] == Unreadable
      && (o.updateFiles <==> file in r.files)
      && (o.updateFiles ==> locale in r.locales)
  {
    var file := StoragePath(o, s, locale).0;
    var s1 := StoragePath(o, s, locale).1;
    var s2 := s1.(files := (s1.files - {file})[file + ".invalid" := s1.files[file]]);
    assert file != file + ".invalid" by {
      assert |file + ".invalid"| > |file|;
    }
    assert Read(o, s, locale) == Write(o, s2, locale);
    if o.updateFiles {
      WriteStores(o, s2, locale);
      // the rename made the ".js" file vanish only if it was that file, so the
      // path is computed the same way again
      assert StoragePath(o, s2, locale).0 == file;
    }
  }

  /** A missing file is no read error worth a backup: the locale is just written. */
  lemma ReadMissingWrites(o: Options, s: Store, locale: string)
    requires StoragePath(o, s, locale).0 !in s.files
    ensures Read(o, s, locale) == Write(o, s, locale)
  {
  }

  /** The serializer and the parser are inverse on catalogs, as `JSON.stringify` and `JSON.parse` are on JSON objects. */
  ghost predicate RoundTrips(c: Codec) {
    forall cat :: c.parse(c.serialize(cat)) == Some(cat)
  }

  /** Right after a write, the locale's path is computed the same way again and changes nothing. */
  lemma StoragePathAfterWrite(o: Options, s: Store, locale: string)
    requires o.updateFiles
    ensures var w := Write(o, s, locale); StoragePath(o, w, locale) == (StoragePath(o, s, locale).0, w)
  {
    var w := Write(o, s, locale);
    var s1 := if locale in s.locales then s else s.(locales := s.locales[locale := map[]]);
    var (path, s2) := StoragePath(o, s1, locale);
    var js := PathWith(o, locale, ".js");
    if js !in s1.files && js == path {
      var stem := o.directory + Separator + o.prefix + locale;
      assert js[|stem|..] == ".js" && path[|stem|..] == EffectiveExtension(s1.extension);
      assert s2.extension == ".js";
    }
  }

  /** Writing a locale twice in a row has the effect of writing it once. */
  lemma WriteIdempotent(o: Options, s: Store, locale: string)
    ensures Write(o, Write(o, s, locale), locale) == Write(o, s, locale)
  {
    if o.updateFiles {
      var w := Write(o, s, locale);
      StoragePathAfterWrite(o, s, locale);
      var path := StoragePath(o, s, locale).0;
      assert w.files[path := Readable(o.codec.serialize(w.locales[locale]))] == w.files;
    }
  }

  /**
   * With files updated and a codec that round-trips, reading back a locale that
   * was just written reproduces its catalog and changes no file.
   */
  lemma WriteThenRead(o: Options, s: Store, locale: string)
    requires o.updateFiles && RoundTrips(o.codec)
    ensures var w := Write(o, s, locale); Read(o, w, locale) == w
  {
    var w := Write(o, s, locale);
    var s1 := if locale in s.locales then s else s.(locales := s.locales[locale := map[]]);
    var (path, s2) := StoragePath(o, s1, locale);
    StoragePathAfterWrite(o, s, locale);
    assert o.codec.parse(o.codec.serialize(s2.locales[locale])) == Some(s2.locales[locale]);
    assert w.locales[locale := s2.locales[locale]] == w.locales;
  }
}
