# Translations: the template compiler and the locale-fallback registry

This project is a Dafny model of the core of the Translations library. It proves properties of that model. The core has three parts.

- **`Format`** is the template compiler. One pass over a raw template does two things:
  - it records every `{}` / `{N}` argument slot;
  - it wraps the value of each `<tag:value>` markup tag in quotes.

  Each inserted quote shifts the positions of the slots recorded after it. `format(String...)` then replaces each slot with its argument, keeping a running offset.
- **`KyoriTranslationRegistry`** is the store. It maps each key to formats by locale and has a default locale. It supports:
  - `register`, which only inserts and refuses a format that already exists;
  - `registerAll`, which attempts every entry, counts the failures and rethrows them as one exception;
  - `unregister`;
  - a four-step locale fallback: the requested locale, its language alone, the default locale, then the default's language alone.
- **`TranslationRegistry`** is the reloadable front end. `reload()` seeds a fresh store with the live default locale and hands it to a loader. The fresh store becomes live only if the loader reports success. `fileLoader(folder)` loads every `locale.properties` file of a folder.

## Modules

- **Wrappers**: `Option`, for the source's nullable results.
- **Chars**: digits, quotes, `ParseNat`, quote doubling, and `Keep`, which erases marked characters.
- **Locales**: `Locale` and its language-only form.
- **Slots**: a reference definition of the `{digits}` occurrences of a raw template, independent of the compiler.
- **Compiler**: the compiling loop's variables (`Scanner`) and one loop iteration (`Step`), with the per-step lemmas.
- **Scanning**: the loop as a fold (`Scan`) and the invariants it keeps.
- **Formats**:
  - `Format`, `Compile` and `format` (`FormatWith`);
  - a reference definition of the substituted text (`Substituted`).
- **Kyori**: the store and its operations.
- **Translations**: the reloadable registry and the file loader.
- **TestTemplate** and **Template**: the template of the repository's formatting test, and what it compiles to.

The model keeps one variable the source does not have. `Scanner.copied` marks which output characters were copied from the input, so that "erasing the inserted quotes gives back the input" can be stated.

## Model

| member | source | states |
|---|---|---|
| Formats.Compile | src/main/java/de/crazydev22/translations/Format.java:15-106 | Every slot lies inside the compiled pattern and covers `{digits}` there. A numbered slot targets the number between its braces. Slots are ascending and do not overlap. The n-th empty `{}` targets n. `maxArgument` is -1 exactly when there are no slots, and otherwise is the largest target. |
| Formats.CompileKeepsInput | src/main/java/de/crazydev22/translations/Format.java:58-98 | The compiler only inserts quote characters. Deleting the inserted characters from the pattern gives back the raw template exactly. |
| Formats.CompileQuotesValue | src/main/java/de/crazydev22/translations/Format.java:69-95 | `<n:v>`, with `n` and `v` free of `>` and `:` and `v` neither starting with a quote nor ending in `'`, compiles to `<n:'v'>`. |
| Formats.CompileKeepsQuotedValue | src/main/java/de/crazydev22/translations/Format.java:69-95 | `<n:v>`, with `v` starting and ending with the same quote, compiles to itself. |
| Formats.DigitSlot | src/main/java/de/crazydev22/translations/Format.java:33-45 | A `{d}` with one digit d in the raw template becomes a slot covering `{d}` that targets d. |
| Template.CompileFormattingTest | src/test/java/FormattingTest.java:21 | The test's template `<green>Test {1} <lang:test2:{2}> {0}` compiles to `<green>Test {1} <lang:'test2':'{2}'> {0}`. It has exactly three slots. In order they cover `{1}`, `{2}` and `{0}` and target 1, 2 and 0, so the largest target is 2. |
| Template.TemplateOccurrences | src/main/java/de/crazydev22/translations/Format.java:33-45 | The `{digits}` occurrences of a template shaped like the test's are exactly `{1}`, `{2}` and `{0}`, in this order. |
| Template.TemplateSlots | src/main/java/de/crazydev22/translations/Format.java:33-56 | Such a template compiles to exactly three slots. In order they cover `{1}`, `{2}` and `{0}` and target 1, 2 and 0, and `maxArgument` is 2. |
| Formats.CompileWithoutTags | src/main/java/de/crazydev22/translations/Format.java:58-67 | A template without `<` is copied unchanged. |
| Formats.CompileFindsSlots | src/main/java/de/crazydev22/translations/Format.java:33-56 | The slots correspond one-to-one, in order, to the `{digits}` occurrences of the raw template. The n-th slot's compiled text is the n-th occurrence's text, even after quotes are inserted before it. |
| Formats.CompileSlotTargets | src/main/java/de/crazydev22/translations/Format.java:33-45 | Every `{digits}` in the raw template becomes a slot covering that text. When it has digits, the slot targets their value. |
| Formats.CompileSlotsFromInput | src/main/java/de/crazydev22/translations/Format.java:37-45 | Every slot's text is a `{digits}` occurrence of the raw template. No slot is invented. |
| Formats.MaxTarget | src/main/java/de/crazydev22/translations/Format.java:102-105 | The result is -1 exactly for no slots. Otherwise it bounds every target and is attained by one. |
| Formats.FormatWith | src/main/java/de/crazydev22/translations/Format.java:108-123 | The loop's result equals the reference substitution. Every gap between slots is copied. Each slot with an argument becomes that argument, and a slot without one keeps its own text. |
| Formats.SubstitutedUntouched | src/main/java/de/crazydev22/translations/Format.java:111-113 | When no slot's target has an argument, `format` returns the compiled pattern unchanged. |
| Formats.SlotReplaced | src/main/java/de/crazydev22/translations/Format.java:114-119 | In the result, slot n's filler and the gap before it appear at their original positions moved by the growth of the earlier slots. |
| Formats.EnoughArguments | src/main/java/de/crazydev22/translations/Format.java:102-112 | With more arguments than `maxArgument`, no slot is skipped. |
| Slots.OpenBraceSpec | src/main/java/de/crazydev22/translations/Format.java:33-36 | The open slot candidate starts at j exactly when `raw[j]` is `{` and only digits follow up to the current index. |
| Slots.RawSlotsSpec | src/main/java/de/crazydev22/translations/Format.java:33-56 | A span is a reference occurrence exactly when it is `{`, digits, `}` in the raw template. |
| Slots.RawSlotsAscending | src/main/java/de/crazydev22/translations/Format.java:33-45 | Reference occurrences are in order and disjoint. |
| Scanning.Scan | src/main/java/de/crazydev22/translations/Format.java:28-99 | After any prefix of the input, the loop variables satisfy the facts the steps keep: the candidate and the value region are well formed, and the output is as long as the prefix plus the quote count. |
| Scanning.ScanOutsideTags | src/main/java/de/crazydev22/translations/Format.java:58-67 | From a point outside any tag, a stretch without `<` is copied as is, with the tag machine and quote count unchanged. |
| Scanning.ScanInsideTag | src/main/java/de/crazydev22/translations/Format.java:85-98 | Inside a tag and past a value's first character, a stretch without `>` and `:` is copied as is, with the tag machine and quote count unchanged. |
| Scanning.ReachedTagName | src/main/java/de/crazydev22/translations/Format.java:58-84 | A `<`, a tag name and the `>` or `:` after it are copied as they are. A `:` opens a value at its own index. |
| Scanning.ReachedUnquotedValue | src/main/java/de/crazydev22/translations/Format.java:69-98 | A value not starting with a quote and not ending in `'` gets a `'` on each side. The quote count grows by two, and `'` becomes the active quote. |
| Scanning.ReachedQuotedValue | src/main/java/de/crazydev22/translations/Format.java:69-98 | A value that starts and ends with the same quote is copied with nothing inserted, and that quote becomes the active one. |
| Scanning.ScanTagValue | src/main/java/de/crazydev22/translations/Format.java:58-98 | A template that is one tag `<name:value>` with such an unquoted value compiles to `<name:'value'>` with two quotes inserted. |
| Scanning.ScanQuotedValue | src/main/java/de/crazydev22/translations/Format.java:58-98 | A template that is one tag whose value is quoted on both ends compiles to itself. |
| Scanning.ScanKeeps | src/main/java/de/crazydev22/translations/Format.java:58-98 | After any prefix of the input, erasing the inserted characters from the output gives that prefix. Every inserted character is a quote, and their number is the quote offset. |
| Scanning.ScanWithoutTags | src/main/java/de/crazydev22/translations/Format.java:58-67 | Before the first `<`, the output is the input and no quote has been inserted. |
| Scanning.ScanSlotsPlaced | src/main/java/de/crazydev22/translations/Format.java:33-56 | After any prefix, each recorded slot is well placed in the output, in ascending order before the open candidate. The auto-counter equals the number of empty slots. |
| Scanning.ScanMatchesRaw | src/main/java/de/crazydev22/translations/Format.java:33-98 | After any prefix, the open candidate is the reference one and the recorded slots match the reference occurrences text for text. |
| Compiler.TagStepSane | src/main/java/de/crazydev22/translations/Format.java:69-95 | The tag machine (`TagStep`) keeps its facts: a value region starts at a `:` inside a tag and the active quote is a quote. It inserts at most one character per input character, and only a quote. Where it inserts one is stated by `TagStepQuotes`. |
| Compiler.TagStepQuotes | src/main/java/de/crazydev22/translations/Format.java:69-95 | The first character of a value gets a `'` written before it unless it is a quote. A quote there writes nothing and becomes the active quote; otherwise `'` does. A `>` or `:` ending a value gets the active quote written before it unless the raw character before it already is that quote. A quote is written exactly in these two cases, and the active quote changes nowhere else. |
| Compiler.StepInsideTag | src/main/java/de/crazydev22/translations/Format.java:85-98 | Inside a tag, a character that is not `>` or `:` and not the first of a value is copied alone, and the tag machine and quote count are unchanged. |
| Compiler.SlotStepSane | src/main/java/de/crazydev22/translations/Format.java:33-56 | The slot machine (`SlotStep`) keeps its facts: an open candidate starts at a `{` and holds exactly the digits read since. |
| Compiler.StepSane | src/main/java/de/crazydev22/translations/Format.java:29-99 | One iteration of the loop (`Step`) keeps both machines' facts, and the output stays as long as the input read plus the quotes inserted. |
| Compiler.StepOutsideTags | src/main/java/de/crazydev22/translations/Format.java:58-67 | Outside a tag, a character other than `<` is copied alone. The tag machine, its active quote included, and the quote count are unchanged. |
| Chars.DoubleQuotesRoundTrip | src/main/java/de/crazydev22/translations/KyoriTranslationRegistry.java:108 | Doubling every `'` (`DoubleQuotes`, the `replaceAll("'", "''")`) is undone by collapsing `''` pairs. It adds one character per quote and leaves quote-free text unchanged. |
| Kyori.Lookup | src/main/java/de/crazydev22/translations/KyoriTranslationRegistry.java:144-150 | A format is found exactly when one of the four fallback locales has one. The format found is the first such locale's, in fallback order. |
| Kyori.Translate | src/main/java/de/crazydev22/translations/KyoriTranslationRegistry.java:54-58 | An unknown key finds nothing. A known key finds a format exactly when one of the four fallbacks of the requested locale, against the default locale at the time of the call, has one under that key. The format found is the first such fallback's, in fallback order. |
| Kyori.ContainsLocaleSpec | src/main/java/de/crazydev22/translations/KyoriTranslationRegistry.java:46-52 | `contains(key)` (`Contains`) is the key having an entry. `contains(key, locale)` (`ContainsLocale`) holds exactly when the key exists and some fallback locale has a format for it. |
| Kyori.SetDefaultLocale | src/main/java/de/crazydev22/translations/KyoriTranslationRegistry.java:60-67 | Setting the default changes the default and no translation. |
| Kyori.DefaultReadAtLookup | src/main/java/de/crazydev22/translations/KyoriTranslationRegistry.java:147 | Lookups read the current default. Once neither the requested locale nor its language matches, a newly set default's format is found. |
| Kyori.Register | src/main/java/de/crazydev22/translations/KyoriTranslationRegistry.java:69-71 | It throws exactly when the key already has a format for the locale. A throw leaves the store unchanged. Otherwise the key's entry is created if missing and gains exactly this locale. The default locale is unchanged. |
| Kyori.RegisterThenTranslate | src/main/java/de/crazydev22/translations/KyoriTranslationRegistry.java:138-141 | After a successful `register`, translating the key at that locale gives the registered format. |
| Kyori.RegisterAllSpec | src/main/java/de/crazydev22/translations/KyoriTranslationRegistry.java:77-97 | `registerAll` (`RegisterAll`, looping with `Attempt`): every entry is attempted. An entry fails exactly when its key already had the locale or an earlier entry has the same key. Each non-failing entry's format is stored, and other keys and locales are untouched. Nothing is thrown iff no entry fails. One failure is rethrown as is. Several failures are thrown as "Invalid key (and count-1 more)", caused by the first failure. |
| Kyori.Attempt | src/main/java/de/crazydev22/translations/KyoriTranslationRegistry.java:78-92 | The loop keeps no exception exactly when it counted none, so the rethrow at the end happens exactly when some entry failed. |
| Kyori.AttemptCounts | src/main/java/de/crazydev22/translations/KyoriTranslationRegistry.java:78-89 | The loop's error count is the number of failing entries. The exception it keeps is the first failing entry's. |
| Kyori.RegisterAllCovers | src/main/java/de/crazydev22/translations/KyoriTranslationRegistry.java:77-97 | Afterwards every entry's key has a format for the locale. Formats stored before are still stored, and the default is unchanged. |
| Kyori.RegisterAllNewKeys | src/main/java/de/crazydev22/translations/KyoriTranslationRegistry.java:80-82 | A key that `registerAll` adds is one of its entries' keys. |
| Kyori.RegisterAllOnly | src/main/java/de/crazydev22/translations/KyoriTranslationRegistry.java:77-96 | When no entry fails, `registerAll` throws nothing. Every format it leaves was stored before, or sits under the call's locale and an entry's key. |
| Kyori.BundleClashThrows | src/main/java/de/crazydev22/translations/KyoriTranslationRegistry.java:105-109 | Registering a bundle (`RegisterBundle`) throws when any of its keys already has a format for the locale. |
| Kyori.BundleRepeatThrows | src/main/java/de/crazydev22/translations/KyoriTranslationRegistry.java:77-96 | A bundle that lists a key twice makes `registerAll` throw, because the second `register` of the key fails. |
| Kyori.CompiledKeepsValue | src/main/java/de/crazydev22/translations/KyoriTranslationRegistry.java:105-109 | `Compiled`, the value-compiling step of `registerAll`, keeps every entry's key in order. Nothing of a bundle value is lost: dropping the quotes the compiler inserted, then collapsing the doubled `'` when escaping is asked for, gives back the value. |
| Kyori.Unregister | src/main/java/de/crazydev22/translations/KyoriTranslationRegistry.java:112-114 | The key's whole entry is removed. Every other key keeps its entry, and the default is unchanged. |
| Kyori.UnregisterLocale | src/main/java/de/crazydev22/translations/KyoriTranslationRegistry.java:116-120 | Only that key's format for that locale is removed. The set of keys is unchanged, even when the entry becomes empty, and an unknown key is ignored. |
| Translations.Seeded | src/main/java/de/crazydev22/translations/TranslationRegistry.java:104-105 | The store a reload hands to the loader is empty and carries the given default. |
| Translations.New | src/main/java/de/crazydev22/translations/TranslationRegistry.java:38-45 | The constructor's first load makes the loader's store live when it succeeds. Otherwise an empty store with the requested default is live. |
| Translations.NewFailedLoad | src/main/java/de/crazydev22/translations/TranslationRegistry.java:38-45 | When the constructor's first load fails, the seeded empty store with the requested default stays live. |
| Translations.ReloadKeepsDefault | src/main/java/de/crazydev22/translations/TranslationRegistry.java:102-108 | `Reload` hands the loader a fresh store seeded with the live default. For a loader that leaves the default alone, a reload keeps the live default locale whether or not it succeeds. |
| Translations.SetDefault | src/main/java/de/crazydev22/translations/TranslationRegistry.java:51-58 | Setting the default changes only the live store's default. |
| Translations.SetDefaultThenReload | src/main/java/de/crazydev22/translations/TranslationRegistry.java:51-53 | A default set before a reload is the default of the fresh store the loader fills. A failed reload keeps the store with the new default. |
| Translations.LiveAnswers | src/main/java/de/crazydev22/translations/TranslationRegistry.java:55-66 | `contains(key)` (`ContainsKey`) and `contains(key, locale)` (`ContainsKeyFor`) ask the live store. The latter holds exactly when the key is known and one of the four fallback locales, with the live default (`DefaultLocale`) among them, has a format. |
| Translations.PropertiesFiles | src/main/java/de/crazydev22/translations/TranslationRegistry.java:113 | Exactly the listed names ending in `.properties` are kept. |
| Translations.PropertiesFilesAppend | src/main/java/de/crazydev22/translations/TranslationRegistry.java:113 | The filter keeps the listing's order and repeats. Filtering a listing in two parts gives the two filtered parts one after the other. A single name is kept exactly when it ends in `.properties`. |
| Translations.Tag | src/main/java/de/crazydev22/translations/TranslationRegistry.java:125-126 | The tag followed by `.properties` is the file name. |
| Translations.FileLoadSucceeds | src/main/java/de/crazydev22/translations/TranslationRegistry.java:111-141 | `FileLoad`, the file loader applied to a store, returns true exactly when the listing exists, holds some `.properties` file, and the listed files load cleanly into the store (`CleanLoad`). |
| Translations.FileLoadNeedsFiles | src/main/java/de/crazydev22/translations/TranslationRegistry.java:113-121 | With no listing, or no `.properties` file in it, the file loader reports failure. |
| Translations.FileLoaderKeepsDefault | src/main/java/de/crazydev22/translations/TranslationRegistry.java:111-141 | The file loader (`FileLoader`) never changes the store's default locale. |
| Translations.LoadFilesSucceeds | src/main/java/de/crazydev22/translations/TranslationRegistry.java:123-139 | The loop over the files (`LoadFiles`) reaches the end and returns true exactly when the folder loads cleanly into the store. That means: no file whose tag names a locale is malformed; no entry's key already has a format for its file's locale; and no key repeats under one locale, in one bundle or across two files. Otherwise some `registerAll` throws and the loop returns false. |
| Translations.LoadFilesNotMalformed | src/main/java/de/crazydev22/translations/TranslationRegistry.java:123-139 | When loading succeeds, no file with a locale tag was malformed: a malformed bundle's exception ends loading with failure. |
| Translations.LoadFilesClash | src/main/java/de/crazydev22/translations/TranslationRegistry.java:133-139 | A file with a locale tag whose bundle has a key stored under that locale when loading starts makes loading fail, because `registerAll`'s exception ends it. |
| Translations.LoadFilesRepeat | src/main/java/de/crazydev22/translations/TranslationRegistry.java:123-139 | Two entries that put the same key under the same locale make loading fail. This covers a key repeated in one bundle, and the same key in two files whose tags name the same locale, because the second `register` of the key throws. |
| Translations.LoadFilesSkipsUnparsed | src/main/java/de/crazydev22/translations/TranslationRegistry.java:127-131 | A file whose tag names no locale is skipped: loading with it or without it gives the same result. |
| Translations.LoadFilesRegisters | src/main/java/de/crazydev22/translations/TranslationRegistry.java:123-135 | When loading succeeds, every key of every readable file with a locale tag is stored under that locale. |
| Translations.LoadFilesGrows | src/main/java/de/crazydev22/translations/TranslationRegistry.java:123-135 | When loading succeeds, nothing stored before is lost. |
| Translations.LoadFilesOnlyBundles | src/main/java/de/crazydev22/translations/TranslationRegistry.java:123-135 | Loading adds no key that is not in some loaded file. |
| Translations.ReloadFromFiles | src/main/java/de/crazydev22/translations/TranslationRegistry.java:102-141 | `Reload` with the file loader replaces the store and never merges. On success the live keys are exactly the keys of the readable locale files, each stored under its file's locale. On failure nothing changes. The default locale survives either way. |
| Translations.ReloadFromFilesSucceeds | src/main/java/de/crazydev22/translations/TranslationRegistry.java:102-141 | A reload from a folder fills an empty store. It therefore succeeds exactly when the folder lists some `.properties` file, no file whose tag names a locale is malformed, and no key repeats under one locale (`Consistent`). |

## Left out

- The component renderer (`TranslatableComponentRenderer` and `renderTranslatable`) is left out. It works on external text-component trees and serialisation. The model stops at the string `format` returns.
- Concurrency is left out: the atomic reference, the concurrent maps, and the race between `register` and a concurrent `reload`. Each operation is modelled as one atomic state change.
- File I/O is left out. The folder listing is a parameter (`None` for a failed listing) in listing order. Each file's contents are given by a reader function: `Unreadable` for an `IOException`, `Malformed` for a bundle that fails to parse, or its entries. Locale-tag parsing is a parameter too. `PropertyResourceBundle` parsing is not modelled.
- Logging is left out, and so are `Examinable` and `toString`.
- `Locale` is three plain strings. Case normalisation, scripts and extensions are not modelled.
- Exceptions from a loader other than the file loader are left out. In the source, `reload()` does not catch an exception the loader throws. The file loader catches everything thrown while it loads the listed files (lines 123-139) and reports failure. The model follows that code: a loader is a total function returning the filled store and a success flag.
- An exception from the folder listing itself is left out. `listFiles` (line 113) runs outside the `try`, so an exception it throws, such as a `SecurityException`, would escape `reload()` and the constructor. The model has no such exception: a failed listing is `None`, which the file loader turns into failure, as it does for the `null` listing of lines 114-117.
- Chars.ParseNat: does not model `Integer.parseInt` overflow for slot numbers beyond 2^31-1, which would throw `NumberFormatException`. It also treats only ASCII `0`-`9` as digits, where `Character.isDigit` accepts every Unicode digit.
- Exceptions from the function that supplies formats to `registerAll` are left out. The only `IllegalArgumentException` modelled is "Translation already exists".
- Key order in `registerAll` is left out: a `Set` or `ResourceBundle` key set is modelled as a sequence in iteration order. That sequence may repeat a key, which a key set cannot; a repeated key is a failure, as a second `register` of it would be.
- `registerAll(locale, Map)` (lines 73-75) is `registerAll` over the map's entries and is not modelled separately.
