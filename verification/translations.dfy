/** The reloadable front end (the source's `TranslationRegistry`): one live store, replaced
    as a whole by a fresh one whenever a reload's loader reports success. */
module Translations {
  import opened Wrappers
  import opened Locales
  import opened Kyori

  /** The registry: the store its atomic reference currently holds. */
  datatype TranslationRegistry = TranslationRegistry(live: Registry)

  /** A loader (the source's `Predicate<KyoriTranslationRegistry>`): it fills the store it is
      given and reports whether loading succeeded. */
  type Loader = Registry -> (Registry, bool)

  /** The empty store a reload hands to the loader, carrying the given default locale. */
  function Seeded(default: Locale): (r: Registry)
    ensures r.translations == map[] && r.defaultLocale == default
  {
    SetDefaultLocale(Fresh, default)
  }

  /** `reload()`: a fresh store seeded with the live default locale is filled by the
      loader, and becomes live only if the loader reports success. */
  function Reload(t: TranslationRegistry, loader: Loader): (t': TranslationRegistry)
    ensures loader(Seeded(t.live.defaultLocale)).1 ==> t'.live == loader(Seeded(t.live.defaultLocale)).0
    ensures !loader(Seeded(t.live.defaultLocale)).1 ==> t' == t
  {
    var (loaded, ok) := loader(Seeded(t.live.defaultLocale));
    if ok then TranslationRegistry(loaded) else t
  }

  /** The constructor: seed the live store with the default locale, then reload once. */
  function New(default: Locale, loader: Loader): (t: TranslationRegistry)
    ensures loader(Seeded(default)).1 ==> t.live == loader(Seeded(default)).0
    ensures !loader(Seeded(default)).1 ==> t.live.translations == map[] && t.live.defaultLocale == default
  {
    Reload(TranslationRegistry(Seeded(default)), loader)
  }

  /** A failed first load leaves the seeded store live, so the default locale survives. */
  lemma NewFailedLoad(default: Locale, loader: Loader)
    requires !loader(Seeded(default)).1
    ensures New(default, loader).live == Seeded(default)
    ensures DefaultLocale(New(default, loader)) == default
  {
  }

  /** A loader that leaves the store's default locale alone. */
  ghost predicate KeepsDefault(loader: Loader) {
    forall r: Registry :: loader(r).0.defaultLocale == r.defaultLocale
  }

  /** A reload carries the live default locale over into the new store, whether or not
      the loader succeeds. */
  lemma ReloadKeepsDefault(t: TranslationRegistry, loader: Loader)
    requires KeepsDefault(loader)
    ensures DefaultLocale(Reload(t, loader)) == DefaultLocale(t)
  {
    var seeded := Seeded(t.live.defaultLocale);
    assert loader(seeded).0.defaultLocale == seeded.defaultLocale;
  }

  /** `defaultLocale(locale)`: sets the live store's default, which the next reload carries
      over. */
  function SetDefault(t: TranslationRegistry, locale: Locale): (t': TranslationRegistry)
    ensures DefaultLocale(t') == locale && t'.live.translations == t.live.translations
  {
    TranslationRegistry(SetDefaultLocale(t.live, locale))
  }

  /** A default set before a reload is the one the loader's fresh store starts with. */
  lemma SetDefaultThenReload(t: TranslationRegistry, locale: Locale, loader: Loader)
    ensures Reload(SetDefault(t, locale), loader) ==
      (if loader(Seeded(locale)).1 then TranslationRegistry(loader(Seeded(locale)).0) else SetDefault(t, locale))
  {
  }

  /** `defaultLocale()`: the live store's default. */
  function DefaultLocale(t: TranslationRegistry): Locale {
    t.live.defaultLocale
  }

  /** `contains(key)` and `contains(key, locale)` ask the live store. */
  predicate ContainsKey(t: TranslationRegistry, key: string) {
    Contains(t.live, key)
  }

  predicate ContainsKeyFor(t: TranslationRegistry, key: string, locale: Locale) {
    Translate(t.live, key, locale).Some?
  }

  /** The front end answers from the live store: `contains(key, locale)` holds exactly when
      the key is known and one of the four fallback locales, with the live default among
      them, has a format. */
  lemma LiveAnswers(t: TranslationRegistry, key: string, locale: Locale)
    ensures ContainsKey(t, key) <==> Contains(t.live, key)
    ensures ContainsKeyFor(t, key, locale) <==>
      ContainsKey(t, key) && exists j :: 0 <= j < 4 && Present(t.live, key, Fallbacks(locale, DefaultLocale(t))[j])
  {
    ContainsLocaleSpec(t.live, key, locale);
    assert Fallbacks(locale, DefaultLocale(t)) == Fallbacks(locale, t.live.defaultLocale);
  }

  /** The file name suffix the file loader accepts. */
  const Suffix: string := ".properties"

  predicate IsPropertiesFile(name: string) {
    |name| >= |Suffix| && name[|name| - |Suffix|..] == Suffix
  }

  /** `listFiles` with the suffix filter: the listed names ending in `.properties`, in order. */
  function PropertiesFiles(names: seq<string>): (files: seq<string>)
    ensures forall f :: f in files <==> f in names && IsPropertiesFile(f)
    decreases |names|
  {
    if names == [] then []
    else (if IsPropertiesFile(names[0]) then [names[0]] else []) + PropertiesFiles(names[1..])
  }

  /** The filter keeps order and repeats: filtering a listing in two parts filters each
      part and puts the results one after the other, and a single name is kept exactly
      when it ends in `.properties`. */
  lemma {:induction false} PropertiesFilesAppend(a: seq<string>, b: seq<string>)
    ensures PropertiesFiles(a + b) == PropertiesFiles(a) + PropertiesFiles(b)
    ensures |a| == 1 ==> PropertiesFiles(a) == if IsPropertiesFile(a[0]) then a else []
    decreases |a|
  {
    if a != [] {
      assert (a + b)[0] == a[0] && (a + b)[1..] == a[1..] + b;
      PropertiesFilesAppend(a[1..], b);
    } else {
      assert a + b == b;
    }
  }

  /** The locale tag of a translation file: its name without the suffix. */
  function Tag(name: string): (tag: string)
    requires IsPropertiesFile(name)
    ensures tag + Suffix == name
  {
    name[..|name| - |Suffix|]
  }

  /** What reading a file yields: an `IOException` (swallowed where the file is read), a
      malformed bundle (an exception that escapes to the loader), or the bundle's entries. */
  datatype Contents = Unreadable | Malformed | Entries(bundle: seq<(string, string)>)

  /** The loop over the accepted files: a file whose tag names no locale is skipped, an
      unreadable one contributes nothing, and any exception ends loading with failure. */
  function LoadFiles(files: seq<string>, parseLocale: string -> Option<Locale>, read: string -> Contents, r: Registry): (o: (Registry, bool))
    requires forall f :: f in files ==> IsPropertiesFile(f)
    ensures !o.1 ==> exists i :: 0 <= i < |files| && Blamed(files[i], parseLocale, read)
    decreases |files|, 1
  {
    if files == [] then (r, true)
    else
      var name := files[0];
      assert name in files;
      match parseLocale(Tag(name))
      case None => SkipBlame(files, parseLocale, read, r); LoadFiles(files[1..], parseLocale, read, r)
      case Some(locale) =>
        match read(name)
        case Unreadable => SkipBlame(files, parseLocale, read, r); LoadFiles(files[1..], parseLocale, read, r)
        case Malformed => (r, false)
        case Entries(bundle) =>
          var o := RegisterBundle(r, locale, bundle, true);
          if o.thrown.Some? then (o.after, false) else LoadFiles(files[1..], parseLocale, read, o.after)
  }

  /** A file loading can fail on: its tag names a locale and it was read, well formed or
      not. */
  predicate Blamed(name: string, parseLocale: string -> Option<Locale>, read: string -> Contents)
    requires IsPropertiesFile(name)
  {
    parseLocale(Tag(name)).Some? && !read(name).Unreadable?
  }

  /** A failure after skipping the first file is blamed on a later one. */
  lemma SkipBlame(files: seq<string>, parseLocale: string -> Option<Locale>, read: string -> Contents, r: Registry)
    requires files != [] && forall f :: f in files ==> IsPropertiesFile(f)
    ensures !LoadFiles(files[1..], parseLocale, read, r).1 ==> exists i :: 0 < i < |files| && Blamed(files[i], parseLocale, read)
    decreases |files|, 0
  {
    if !LoadFiles(files[1..], parseLocale, read, r).1 {
      var i :| 0 <= i < |files[1..]| && Blamed(files[1..][i], parseLocale, read);
      assert files[i + 1] == files[1..][i];
    }
  }

  /** The file loader applied to a store: no listing, or no `.properties` file in it, is a
      failure; otherwise the files are loaded in listing order. */
  function FileLoad(listing: Option<seq<string>>, parseLocale: string -> Option<Locale>, read: string -> Contents, r: Registry): (o: (Registry, bool))
    ensures o.1 ==> listing.Some? && exists f :: f in listing.value && IsPropertiesFile(f)
  {
    if listing.None? then (r, false)
    else
      var files := PropertiesFiles(listing.value);
      if files == [] then (r, false)
      else
        assert files[0] in files;
        LoadFiles(files, parseLocale, read, r)
  }

  /** `fileLoader(folder)`: the folder's listing, the locale parser and the file reader are
      parameters. */
  function FileLoader(listing: Option<seq<string>>, parseLocale: string -> Option<Locale>, read: string -> Contents): Loader {
    r => FileLoad(listing, parseLocale, read, r)
  }

  /** Without a listing, or with no `.properties` file in it, the file loader fails. */
  lemma FileLoadNeedsFiles(listing: Option<seq<string>>, parseLocale: string -> Option<Locale>, read: string -> Contents, r: Registry)
    requires listing.None? || forall f :: f in listing.value ==> !IsPropertiesFile(f)
    ensures !FileLoad(listing, parseLocale, read, r).1
  {
    if listing.Some? {
      NoPropertiesFiles(listing.value);
    }
  }

  lemma {:induction false} NoPropertiesFiles(names: seq<string>)
    requires forall f :: f in names ==> !IsPropertiesFile(f)
    ensures PropertiesFiles(names) == []
    decreases |names|
  {
    if names != [] {
      assert names[0] in names;
      NoPropertiesFiles(names[1..]);
    }
  }

  /** Loading files never changes the store's default locale. */
  lemma {:induction false} LoadFilesKeepsDefault(files: seq<string>, parseLocale: string -> Option<Locale>, read: string -> Contents, r: Registry)
    requires forall f :: f in files ==> IsPropertiesFile(f)
    ensures LoadFiles(files, parseLocale, read, r).0.defaultLocale == r.defaultLocale
    decreases |files|
  {
    if files != [] {
      assert files[0] in files;
      match parseLocale(Tag(files[0]))
      case None => LoadFilesKeepsDefault(files[1..], parseLocale, read, r);
      case Some(locale) =>
        match read(files[0])
        case Unreadable => LoadFilesKeepsDefault(files[1..], parseLocale, read, r);
        case Malformed =>
        case Entries(bundle) =>
          var o := RegisterBundle(r, locale, bundle, true);
          RegisterAllCovers(r, locale, Compiled(bundle, true));
          if o.thrown.None? {
            LoadFilesKeepsDefault(files[1..], parseLocale, read, o.after);
          }
    }
  }

  /** The file loader keeps the default locale, so reloading from files does too. */
  lemma FileLoaderKeepsDefault(listing: Option<seq<string>>, parseLocale: string -> Option<Locale>, read: string -> Contents)
    ensures KeepsDefault(FileLoader(listing, parseLocale, read))
  {
    forall r: Registry
      ensures FileLoader(listing, parseLocale, read)(r).0.defaultLocale == r.defaultLocale
    {
      if listing.Some? && PropertiesFiles(listing.value) != [] {
        LoadFilesKeepsDefault(PropertiesFiles(listing.value), parseLocale, read, r);
      }
    }
  }

  /** The files whose tag names a locale. */
  function Parsed(files: seq<string>, parseLocale: string -> Option<Locale>): (kept: seq<string>)
    requires forall f :: f in files ==> IsPropertiesFile(f)
    ensures forall f :: f in kept <==> f in files && parseLocale(Tag(f)).Some?
    decreases |files|
  {
    if files == [] then []
    else
      assert files[0] in files;
      (if parseLocale(Tag(files[0])).Some? then [files[0]] else []) + Parsed(files[1..], parseLocale)
  }

  /** Files whose tag names no locale are skipped: loading gives the same result without them. */
  lemma {:induction false} LoadFilesSkipsUnparsed(files: seq<string>, parseLocale: string -> Option<Locale>, read: string -> Contents, r: Registry)
    requires forall f :: f in files ==> IsPropertiesFile(f)
    ensures LoadFiles(files, parseLocale, read, r) == LoadFiles(Parsed(files, parseLocale), parseLocale, read, r)
    decreases |files|
  {
    if files != [] {
      var name, rest := files[0], files[1..];
      assert name in files;
      var kept := Parsed(files, parseLocale);
      if parseLocale(Tag(name)).None? {
        assert kept == Parsed(rest, parseLocale);
        LoadFilesSkipsUnparsed(rest, parseLocale, read, r);
      } else {
        assert kept == [name] + Parsed(rest, parseLocale);
        assert kept[0] == name && kept[1..] == Parsed(rest, parseLocale);
        forall s: Registry
          ensures LoadFiles(rest, parseLocale, read, s) == LoadFiles(Parsed(rest, parseLocale), parseLocale, read, s)
        {
          LoadFilesSkipsUnparsed(rest, parseLocale, read, s);
        }
      }
    }
  }

  /** The store a file leaves for the files after it, when loading goes on past it. */
  function AfterFile(name: string, parseLocale: string -> Option<Locale>, read: string -> Contents, r: Registry): Registry
    requires IsPropertiesFile(name)
  {
    if parseLocale(Tag(name)).Some? && read(name).Entries? then
      RegisterBundle(r, parseLocale(Tag(name)).value, read(name).bundle, true).after
    else r
  }

  /** A successful load goes on from the store the first file leaves. */
  lemma LoadFilesStep(files: seq<string>, parseLocale: string -> Option<Locale>, read: string -> Contents, r: Registry)
    requires forall f :: f in files ==> IsPropertiesFile(f)
    requires files != [] && LoadFiles(files, parseLocale, read, r).1
    ensures files[0] in files
    ensures LoadFiles(files[1..], parseLocale, read, AfterFile(files[0], parseLocale, read, r)) == LoadFiles(files, parseLocale, read, r)
  {
    assert files[0] in files;
  }

  /** Any exception ends loading with failure: when loading succeeds, no file whose tag
      names a locale was malformed. */
  lemma {:induction false} LoadFilesNotMalformed(files: seq<string>, parseLocale: string -> Option<Locale>, read: string -> Contents, r: Registry)
    requires forall f :: f in files ==> IsPropertiesFile(f)
    requires LoadFiles(files, parseLocale, read, r).1
    ensures forall i :: 0 <= i < |files| && parseLocale(Tag(files[i])).Some? ==> !read(files[i]).Malformed?
    decreases |files|
  {
    if files != [] {
      LoadFilesStep(files, parseLocale, read, r);
      var rest := files[1..];
      LoadFilesNotMalformed(rest, parseLocale, read, AfterFile(files[0], parseLocale, read, r));
      forall i | 0 <= i < |files| && parseLocale(Tag(files[i])).Some?
        ensures !read(files[i]).Malformed?
      {
        if i > 0 {
          assert files[i] == rest[i - 1];
        }
      }
    }
  }

  /** A file that repeats a key the store already holds for the file's locale makes the
      whole load fail, wherever the file comes in the listing. */
  lemma {:induction false} LoadFilesClash(files: seq<string>, parseLocale: string -> Option<Locale>, read: string -> Contents, r: Registry, i: nat, j: nat)
    requires forall f :: f in files ==> IsPropertiesFile(f)
    requires i < |files| && parseLocale(Tag(files[i])).Some? && read(files[i]).Entries?
    requires j < |read(files[i]).bundle| && Present(r, read(files[i]).bundle[j].0, parseLocale(Tag(files[i])).value)
    ensures !LoadFiles(files, parseLocale, read, r).1
    decreases |files|
  {
    if i == 0 {
      FirstFileClash(files, parseLocale, read, r, j);
    } else {
      LoadFilesUnfold(files, parseLocale, read, r);
      var name, rest := files[0], files[1..];
      var next := AfterFile(name, parseLocale, read, r);
      var key, locale := read(files[i]).bundle[j].0, parseLocale(Tag(files[i])).value;
      AfterFileKeeps(name, parseLocale, read, r, key, locale);
      assert rest[i - 1] == files[i];
      LoadFilesClash(rest, parseLocale, read, next, i - 1, j);
    }
  }

  lemma FirstFileClash(files: seq<string>, parseLocale: string -> Option<Locale>, read: string -> Contents, r: Registry, j: nat)
    requires forall f :: f in files ==> IsPropertiesFile(f)
    requires 0 < |files| && parseLocale(Tag(files[0])).Some? && read(files[0]).Entries?
    requires j < |read(files[0]).bundle| && Present(r, read(files[0]).bundle[j].0, parseLocale(Tag(files[0])).value)
    ensures !LoadFiles(files, parseLocale, read, r).1
  {
    assert files[0] in files;
    var locale, bundle := parseLocale(Tag(files[0])).value, read(files[0]).bundle;
    BundleClashThrows(r, locale, bundle, true, j);
    var o := RegisterBundle(r, locale, bundle, true);
    assert LoadFiles(files, parseLocale, read, r) == (o.after, false);
  }

  /** A file never takes away what the store holds. */
  lemma AfterFileKeeps(name: string, parseLocale: string -> Option<Locale>, read: string -> Contents, r: Registry, key: string, locale: Locale)
    requires IsPropertiesFile(name) && Present(r, key, locale)
    ensures Present(AfterFile(name, parseLocale, read, r), key, locale)
  {
    if parseLocale(Tag(name)).Some? && read(name).Entries? {
      RegisterAllCovers(r, parseLocale(Tag(name)).value, Compiled(read(name).bundle, true));
    }
  }

  /** File `i` has a tag naming a locale and could be read: its entries are registered
      under that locale. */
  predicate Loads(files: seq<string>, parseLocale: string -> Option<Locale>, read: string -> Contents, i: int)
    requires forall f :: f in files ==> IsPropertiesFile(f)
  {
    0 <= i < |files| && parseLocale(Tag(files[i])).Some? && read(files[i]).Entries?
  }

  /** Entry `j` of file `i` puts a key under a locale for which the store already holds it. */
  predicate Collides(files: seq<string>, parseLocale: string -> Option<Locale>, read: string -> Contents, r: Registry, i: int, j: int)
    requires forall f :: f in files ==> IsPropertiesFile(f)
  {
    && Loads(files, parseLocale, read, i)
    && 0 <= j < |read(files[i]).bundle|
    && Present(r, read(files[i]).bundle[j].0, parseLocale(Tag(files[i])).value)
  }

  /** Entry `j` of file `i` and, after it, entry `j'` of file `i'` put the same key under the
      same locale: in one bundle, or in two files whose tags name the same locale. */
  predicate Repeats(files: seq<string>, parseLocale: string -> Option<Locale>, read: string -> Contents, i: int, j: int, i': int, j': int)
    requires forall f :: f in files ==> IsPropertiesFile(f)
  {
    && Loads(files, parseLocale, read, i) && Loads(files, parseLocale, read, i')
    && 0 <= j < |read(files[i]).bundle| && 0 <= j' < |read(files[i']).bundle|
    && (i < i' || (i == i' && j < j'))
    && parseLocale(Tag(files[i])) == parseLocale(Tag(files[i']))
    && read(files[i]).bundle[j].0 == read(files[i']).bundle[j'].0
  }

  /** A folder is consistent: no file whose tag names a locale is malformed, and no key
      repeats under a locale. */
  ghost predicate Consistent(files: seq<string>, parseLocale: string -> Option<Locale>, read: string -> Contents)
    requires forall f :: f in files ==> IsPropertiesFile(f)
  {
    && (forall i :: 0 <= i < |files| && parseLocale(Tag(files[i])).Some? ==> !read(files[i]).Malformed?)
    && (forall i, j, i', j' :: !Repeats(files, parseLocale, read, i, j, i', j'))
  }

  /** A folder loads cleanly into a store: it is consistent, and no entry meets a key the
      store holds for its locale. */
  ghost predicate CleanLoad(files: seq<string>, parseLocale: string -> Option<Locale>, read: string -> Contents, r: Registry)
    requires forall f :: f in files ==> IsPropertiesFile(f)
  {
    Consistent(files, parseLocale, read) && forall i, j :: !Collides(files, parseLocale, read, r, i, j)
  }

  /** Two entries putting the same key under the same locale make the load fail: the second
      `register` of the key throws, inside one bundle or from a later file. */
  lemma {:induction false} LoadFilesRepeat(files: seq<string>, parseLocale: string -> Option<Locale>, read: string -> Contents, r: Registry, i: nat, j: nat, i': nat, j': nat)
    requires forall f :: f in files ==> IsPropertiesFile(f)
    requires Repeats(files, parseLocale, read, i, j, i', j')
    ensures !LoadFiles(files, parseLocale, read, r).1
    decreases |files|
  {
    if i == 0 && i' == 0 {
      BundleRepeat(files, parseLocale, read, r, j, j');
    } else if i == 0 {
      LaterFileRepeat(files, parseLocale, read, r, j, i', j');
    } else {
      LoadFilesUnfold(files, parseLocale, read, r);
      RepeatsRest(files, parseLocale, read, i, j, i', j');
      LoadFilesRepeat(files[1..], parseLocale, read, AfterFile(files[0], parseLocale, read, r), i - 1, j, i' - 1, j');
    }
  }

  /** A repeat between later files is a repeat in the rest of the folder. */
  lemma RepeatsRest(files: seq<string>, parseLocale: string -> Option<Locale>, read: string -> Contents, i: nat, j: nat, i': nat, j': nat)
    requires forall f :: f in files ==> IsPropertiesFile(f)
    requires Repeats(files, parseLocale, read, i, j, i', j') && 0 < i
    ensures forall f :: f in files[1..] ==> IsPropertiesFile(f)
    ensures Repeats(files[1..], parseLocale, read, i - 1, j, i' - 1, j')
  {
    assert files[1..][i - 1] == files[i] && files[1..][i' - 1] == files[i'];
  }

  /** A first file that repeats a key in its own bundle makes the load fail. */
  lemma BundleRepeat(files: seq<string>, parseLocale: string -> Option<Locale>, read: string -> Contents, r: Registry, j: nat, j': nat)
    requires forall f :: f in files ==> IsPropertiesFile(f)
    requires Repeats(files, parseLocale, read, 0, j, 0, j')
    ensures !LoadFiles(files, parseLocale, read, r).1
  {
    assert files[0] in files;
    var locale, bundle := parseLocale(Tag(files[0])).value, read(files[0]).bundle;
    BundleRepeatThrows(r, locale, bundle, true, j, j');
    var o := RegisterBundle(r, locale, bundle, true);
    assert LoadFiles(files, parseLocale, read, r) == (o.after, false);
  }

  /** A key of the first file that a later file repeats under the same locale makes the
      load fail: the key is stored by the time the later file comes. */
  lemma LaterFileRepeat(files: seq<string>, parseLocale: string -> Option<Locale>, read: string -> Contents, r: Registry, j: nat, i': nat, j': nat)
    requires forall f :: f in files ==> IsPropertiesFile(f)
    requires Repeats(files, parseLocale, read, 0, j, i', j') && 0 < i'
    ensures !LoadFiles(files, parseLocale, read, r).1
  {
    LoadFilesUnfold(files, parseLocale, read, r);
    var locale, bundle := parseLocale(Tag(files[0])).value, read(files[0]).bundle;
    var rest, next := files[1..], AfterFile(files[0], parseLocale, read, r);
    RegisterAllCovers(r, locale, Compiled(bundle, true));
    assert rest[i' - 1] == files[i'];
    LoadFilesClash(rest, parseLocale, read, next, i' - 1, j');
  }

  /** A store meeting an entry's key and locale makes the load fail. */
  lemma NoCollision(files: seq<string>, parseLocale: string -> Option<Locale>, read: string -> Contents, r: Registry, i: int, j: int)
    requires forall f :: f in files ==> IsPropertiesFile(f)
    ensures Collides(files, parseLocale, read, r, i, j) ==> !LoadFiles(files, parseLocale, read, r).1
  {
    if Collides(files, parseLocale, read, r, i, j) {
      LoadFilesClash(files, parseLocale, read, r, i, j);
    }
  }

  /** A repeated key makes the load fail. */
  lemma NoRepeat(files: seq<string>, parseLocale: string -> Option<Locale>, read: string -> Contents, r: Registry, i: int, j: int, i': int, j': int)
    requires forall f :: f in files ==> IsPropertiesFile(f)
    ensures Repeats(files, parseLocale, read, i, j, i', j') ==> !LoadFiles(files, parseLocale, read, r).1
  {
    if Repeats(files, parseLocale, read, i, j, i', j') {
      LoadFilesRepeat(files, parseLocale, read, r, i, j, i', j');
    }
  }

  /** A folder that loads successfully loads cleanly. */
  lemma LoadsClean(files: seq<string>, parseLocale: string -> Option<Locale>, read: string -> Contents, r: Registry)
    requires forall f :: f in files ==> IsPropertiesFile(f)
    requires LoadFiles(files, parseLocale, read, r).1
    ensures CleanLoad(files, parseLocale, read, r)
  {
    LoadFilesNotMalformed(files, parseLocale, read, r);
    forall i, j
      ensures !Collides(files, parseLocale, read, r, i, j)
    {
      NoCollision(files, parseLocale, read, r, i, j);
    }
    forall i, j, i', j'
      ensures !Repeats(files, parseLocale, read, i, j, i', j')
    {
      NoRepeat(files, parseLocale, read, r, i, j, i', j');
    }
  }

  /** `key` is a key of the first file, which loads, and `locale` is that file's locale. */
  predicate FirstKey(files: seq<string>, parseLocale: string -> Option<Locale>, read: string -> Contents, key: string, locale: Locale)
    requires forall f :: f in files ==> IsPropertiesFile(f)
  {
    && Loads(files, parseLocale, read, 0) && locale == parseLocale(Tag(files[0])).value
    && exists j :: 0 <= j < |read(files[0]).bundle| && read(files[0]).bundle[j].0 == key
  }

  /** What stays clean after the first file: the rest of the folder, against a store that
      holds only what `r` held and the first file's keys under its locale. */
  lemma CleanRest(files: seq<string>, parseLocale: string -> Option<Locale>, read: string -> Contents, r: Registry, r': Registry)
    requires forall f :: f in files ==> IsPropertiesFile(f)
    requires files != [] && CleanLoad(files, parseLocale, read, r)
    requires forall k, l :: Present(r', k, l) ==> Present(r, k, l) || FirstKey(files, parseLocale, read, k, l)
    ensures CleanLoad(files[1..], parseLocale, read, r')
  {
    var rest := files[1..];
    forall i | 0 <= i < |rest| && parseLocale(Tag(rest[i])).Some?
      ensures !read(rest[i]).Malformed?
    {
      assert rest[i] == files[i + 1];
    }
    forall i, j | Loads(rest, parseLocale, read, i) && 0 <= j < |read(rest[i]).bundle|
      ensures !Present(r', read(rest[i]).bundle[j].0, parseLocale(Tag(rest[i])).value)
    {
      var i1 := i + 1;
      assert rest[i] == files[i1];
      assert !Collides(files, parseLocale, read, r, i1, j);
      var key, locale := read(files[i1]).bundle[j].0, parseLocale(Tag(files[i1])).value;
      assert Loads(files, parseLocale, read, i1);
      if Loads(files, parseLocale, read, 0) {
        forall j0 | 0 <= j0 < |read(files[0]).bundle|
          ensures read(files[0]).bundle[j0].0 != key || parseLocale(Tag(files[0])).value != locale
        {
          assert !Repeats(files, parseLocale, read, 0, j0, i1, j);
        }
      }
      assert !FirstKey(files, parseLocale, read, key, locale);
    }
    forall i, j, i', j'
      ensures !Repeats(rest, parseLocale, read, i, j, i', j')
    {
      if 0 <= i < |rest| && 0 <= i' < |rest| {
        assert rest[i] == files[i + 1] && rest[i'] == files[i' + 1];
        assert !Repeats(files, parseLocale, read, i + 1, j, i' + 1, j');
      }
    }
  }

  /** A clean first file registers without a throw, and the rest of the folder is clean
      against the store it leaves. */
  lemma CleanFirstFile(files: seq<string>, parseLocale: string -> Option<Locale>, read: string -> Contents, r: Registry)
    requires forall f :: f in files ==> IsPropertiesFile(f)
    requires CleanLoad(files, parseLocale, read, r) && Loads(files, parseLocale, read, 0)
    ensures var o := RegisterBundle(r, parseLocale(Tag(files[0])).value, read(files[0]).bundle, true);
      o.thrown.None? && CleanLoad(files[1..], parseLocale, read, o.after)
  {
    var locale, bundle := parseLocale(Tag(files[0])).value, read(files[0]).bundle;
    var entries := Compiled(bundle, true);
    forall n | 0 <= n < |entries|
      ensures !Fails(r, locale, entries, n)
    {
      assert !Collides(files, parseLocale, read, r, 0, n);
      forall m | 0 <= m < n
        ensures entries[m].0 != entries[n].0
      {
        assert !Repeats(files, parseLocale, read, 0, m, 0, n);
      }
    }
    RegisterAllOnly(r, locale, entries);
    var after := RegisterBundle(r, locale, bundle, true).after;
    forall k, l | Present(after, k, l) && !Present(r, k, l)
      ensures FirstKey(files, parseLocale, read, k, l)
    {
      var j :| 0 <= j < |entries| && entries[j].0 == k;
      assert bundle[j].0 == k;
    }
    CleanRest(files, parseLocale, read, r, after);
  }

  /** A folder that loads cleanly loads successfully. */
  lemma {:induction false} CleanLoads(files: seq<string>, parseLocale: string -> Option<Locale>, read: string -> Contents, r: Registry)
    requires forall f :: f in files ==> IsPropertiesFile(f)
    requires CleanLoad(files, parseLocale, read, r)
    ensures LoadFiles(files, parseLocale, read, r).1
    decreases |files|
  {
    if files != [] {
      assert files[0] in files;
      if Loads(files, parseLocale, read, 0) {
        CleanFirstFile(files, parseLocale, read, r);
        var o := RegisterBundle(r, parseLocale(Tag(files[0])).value, read(files[0]).bundle, true);
        CleanLoads(files[1..], parseLocale, read, o.after);
      } else {
        CleanRest(files, parseLocale, read, r, r);
        CleanLoads(files[1..], parseLocale, read, r);
      }
    }
  }

  /** The file loop succeeds exactly when the folder loads cleanly into the store. */
  lemma LoadFilesSucceeds(files: seq<string>, parseLocale: string -> Option<Locale>, read: string -> Contents, r: Registry)
    requires forall f :: f in files ==> IsPropertiesFile(f)
    ensures LoadFiles(files, parseLocale, read, r).1 <==> CleanLoad(files, parseLocale, read, r)
  {
    if LoadFiles(files, parseLocale, read, r).1 {
      LoadsClean(files, parseLocale, read, r);
    }
    if CleanLoad(files, parseLocale, read, r) {
      CleanLoads(files, parseLocale, read, r);
    }
  }

  /** The file loader succeeds exactly when the folder lists some `.properties` file and
      the listed files load cleanly into the store. */
  lemma FileLoadSucceeds(listing: Option<seq<string>>, parseLocale: string -> Option<Locale>, read: string -> Contents, r: Registry)
    ensures FileLoad(listing, parseLocale, read, r).1 <==>
      listing.Some? && PropertiesFiles(listing.value) != [] && CleanLoad(PropertiesFiles(listing.value), parseLocale, read, r)
  {
    if listing.Some? && PropertiesFiles(listing.value) != [] {
      LoadFilesSucceeds(PropertiesFiles(listing.value), parseLocale, read, r);
    }
  }

  /** A reload from a folder fills an empty store, so it succeeds exactly when the folder
      lists some `.properties` file and is consistent: the only throws left are a malformed
      file and a key repeated under a locale, in one file or across two. */
  lemma ReloadFromFilesSucceeds(t: TranslationRegistry, listing: Option<seq<string>>, parseLocale: string -> Option<Locale>, read: string -> Contents)
    ensures FileLoad(listing, parseLocale, read, Seeded(DefaultLocale(t))).1 <==>
      listing.Some? && PropertiesFiles(listing.value) != [] && Consistent(PropertiesFiles(listing.value), parseLocale, read)
  {
    var seeded := Seeded(DefaultLocale(t));
    FileLoadSucceeds(listing, parseLocale, read, seeded);
    if listing.Some? && PropertiesFiles(listing.value) != [] {
      var files := PropertiesFiles(listing.value);
      forall i, j
        ensures !Collides(files, parseLocale, read, seeded, i, j)
      {
      }
    }
  }

  /** When loading succeeds, everything stored before is still stored. */
  lemma {:induction false} LoadFilesGrows(files: seq<string>, parseLocale: string -> Option<Locale>, read: string -> Contents, r: Registry)
    requires forall f :: f in files ==> IsPropertiesFile(f)
    requires LoadFiles(files, parseLocale, read, r).1
    ensures forall k, l :: Present(r, k, l) ==> Present(LoadFiles(files, parseLocale, read, r).0, k, l)
    decreases |files|
  {
    if files != [] {
      LoadFilesStep(files, parseLocale, read, r);
      var name := files[0];
      if parseLocale(Tag(name)).Some? && read(name).Entries? {
        RegisterAllCovers(r, parseLocale(Tag(name)).value, Compiled(read(name).bundle, true));
      }
      LoadFilesGrows(files[1..], parseLocale, read, AfterFile(name, parseLocale, read, r));
    }
  }

  /** When loading succeeds, every key of every file it could read is registered under that
      file's locale. */
  lemma {:induction false} LoadFilesRegisters(files: seq<string>, parseLocale: string -> Option<Locale>, read: string -> Contents, r: Registry)
    requires forall f :: f in files ==> IsPropertiesFile(f)
    requires LoadFiles(files, parseLocale, read, r).1
    ensures forall i, j :: (0 <= i < |files| && parseLocale(Tag(files[i])).Some? && read(files[i]).Entries? &&
      0 <= j < |read(files[i]).bundle|) ==>
        Present(LoadFiles(files, parseLocale, read, r).0, read(files[i]).bundle[j].0, parseLocale(Tag(files[i])).value)
    decreases |files|
  {
    if files != [] {
      LoadFilesStep(files, parseLocale, read, r);
      var name, rest := files[0], files[1..];
      var next := AfterFile(name, parseLocale, read, r);
      var result := LoadFiles(files, parseLocale, read, r).0;
      LoadFilesRegisters(rest, parseLocale, read, next);
      LoadFilesGrows(rest, parseLocale, read, next);
      if parseLocale(Tag(name)).Some? && read(name).Entries? {
        RegisterAllCovers(r, parseLocale(Tag(name)).value, Compiled(read(name).bundle, true));
      }
      forall i, j | (0 <= i < |files| && parseLocale(Tag(files[i])).Some? && read(files[i]).Entries? &&
        0 <= j < |read(files[i]).bundle|)
        ensures Present(result, read(files[i]).bundle[j].0, parseLocale(Tag(files[i])).value)
      {
        if i > 0 {
          assert files[i] == rest[i - 1];
        }
      }
    }
  }

  /** `key` is a key of the bundle of some file whose tag names a locale and which could be
      read. */
  predicate FromFile(files: seq<string>, parseLocale: string -> Option<Locale>, read: string -> Contents, key: string)
    requires forall f :: f in files ==> IsPropertiesFile(f)
  {
    exists i, j :: (0 <= i < |files| && parseLocale(Tag(files[i])).Some? && read(files[i]).Entries? &&
      0 <= j < |read(files[i]).bundle| && read(files[i]).bundle[j].0 == key)
  }

  /** Loading stops at the first file with its store, or goes on from it. */
  lemma LoadFilesUnfold(files: seq<string>, parseLocale: string -> Option<Locale>, read: string -> Contents, r: Registry)
    requires forall f :: f in files ==> IsPropertiesFile(f)
    requires files != []
    ensures files[0] in files
    ensures || LoadFiles(files, parseLocale, read, r) == (AfterFile(files[0], parseLocale, read, r), false)
            || LoadFiles(files, parseLocale, read, r) == LoadFiles(files[1..], parseLocale, read, AfterFile(files[0], parseLocale, read, r))
  {
    assert files[0] in files;
  }

  /** A key a file adds is a key of its bundle; the index of that entry is returned. */
  lemma AfterFileKeys(name: string, parseLocale: string -> Option<Locale>, read: string -> Contents, r: Registry, key: string)
    returns (j: nat)
    requires IsPropertiesFile(name)
    requires Contains(AfterFile(name, parseLocale, read, r), key) && !Contains(r, key)
    ensures parseLocale(Tag(name)).Some? && read(name).Entries?
    ensures j < |read(name).bundle| && read(name).bundle[j].0 == key
  {
    j := RegisterAllNewKeys(r, parseLocale(Tag(name)).value, Compiled(read(name).bundle, true), key);
  }

  /** Loading adds no key that is not in some loaded file. */
  lemma {:induction false} LoadFilesOnlyBundles(files: seq<string>, parseLocale: string -> Option<Locale>, read: string -> Contents, r: Registry, key: string)
    requires forall f :: f in files ==> IsPropertiesFile(f)
    requires Contains(LoadFiles(files, parseLocale, read, r).0, key)
    ensures Contains(r, key) || FromFile(files, parseLocale, read, key)
    decreases |files|
  {
    if files != [] {
      LoadFilesUnfold(files, parseLocale, read, r);
      var name, rest := files[0], files[1..];
      var next := AfterFile(name, parseLocale, read, r);
      if !Contains(next, key) {
        LoadFilesOnlyBundles(rest, parseLocale, read, next, key);
        if FromFile(rest, parseLocale, read, key) {
          FromFileTail(files, parseLocale, read, key);
        }
      } else if !Contains(r, key) {
        var j := AfterFileKeys(name, parseLocale, read, r, key);
        FromFileHead(files, parseLocale, read, key, j);
      }
    }
  }

  /** A key from a later file is a key from the files. */
  lemma FromFileTail(files: seq<string>, parseLocale: string -> Option<Locale>, read: string -> Contents, key: string)
    requires forall f :: f in files ==> IsPropertiesFile(f)
    requires files != [] && FromFile(files[1..], parseLocale, read, key)
    ensures FromFile(files, parseLocale, read, key)
  {
    var rest := files[1..];
    var i, j :| (0 <= i < |rest| && parseLocale(Tag(rest[i])).Some? && read(rest[i]).Entries? &&
      0 <= j < |read(rest[i]).bundle| && read(rest[i]).bundle[j].0 == key);
    assert files[i + 1] == rest[i];
  }

  /** A key of the first file's bundle is a key from the files. */
  lemma FromFileHead(files: seq<string>, parseLocale: string -> Option<Locale>, read: string -> Contents, key: string, j: nat)
    requires forall f :: f in files ==> IsPropertiesFile(f)
    requires files != [] && parseLocale(Tag(files[0])).Some? && read(files[0]).Entries?
    requires j < |read(files[0]).bundle| && read(files[0]).bundle[j].0 == key
    ensures FromFile(files, parseLocale, read, key)
  {
  }

  /** Reloading from a folder replaces, never merges: when loading succeeds the live store
      holds exactly the keys of the files whose tag names a locale and which could be read,
      each under its file's locale; when it fails nothing changes. The default locale
      survives either way. */
  lemma ReloadFromFiles(t: TranslationRegistry, listing: Option<seq<string>>, parseLocale: string -> Option<Locale>, read: string -> Contents)
    ensures var t', ok := Reload(t, FileLoader(listing, parseLocale, read)), FileLoad(listing, parseLocale, read, Seeded(DefaultLocale(t))).1;
      && DefaultLocale(t') == DefaultLocale(t)
      && (!ok ==> t' == t)
      && (ok ==> listing.Some? && (forall key :: ContainsKey(t', key) <==> FromFile(PropertiesFiles(listing.value), parseLocale, read, key)))
      && (ok ==> forall i, j :: (0 <= i < |PropertiesFiles(listing.value)| && parseLocale(Tag(PropertiesFiles(listing.value)[i])).Some? &&
            read(PropertiesFiles(listing.value)[i]).Entries? && 0 <= j < |read(PropertiesFiles(listing.value)[i]).bundle|) ==>
              Present(t'.live, read(PropertiesFiles(listing.value)[i]).bundle[j].0, parseLocale(Tag(PropertiesFiles(listing.value)[i])).value))
  {
    FileLoaderKeepsDefault(listing, parseLocale, read);
    ReloadKeepsDefault(t, FileLoader(listing, parseLocale, read));
    var seeded := Seeded(DefaultLocale(t));
    if FileLoad(listing, parseLocale, read, seeded).1 {
      var files := PropertiesFiles(listing.value);
      assert FileLoad(listing, parseLocale, read, seeded) == LoadFiles(files, parseLocale, read, seeded);
      LoadFilesRegisters(files, parseLocale, read, seeded);
      forall key | Contains(LoadFiles(files, parseLocale, read, seeded).0, key)
        ensures FromFile(files, parseLocale, read, key)
      {
        LoadFilesOnlyBundles(files, parseLocale, read, seeded, key);
      }
    }
  }
}
