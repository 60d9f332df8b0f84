/** The per-key, per-locale translation store (the source's `KyoriTranslationRegistry`). */
module Kyori {
  import opened Wrappers
  import opened Locales
  import opened Chars
  import opened Formats

  /** The `IllegalArgumentException`s the store throws. */
  datatype Error =
    | /** "Translation already exists: key for locale" */
      AlreadyExists(key: string, locale: Locale)
    | /** "Invalid key (and `more` more)", caused by the first failure */
      InvalidKeys(more: nat, cause: Error)

  /** The store: each key's formats by locale, and the locale lookups fall back to. */
  datatype Registry = Registry(translations: map<string, map<Locale, Format>>, defaultLocale: Locale)

  /** What an operation leaves behind, and the exception it throws, if any. */
  datatype Outcome = Outcome(after: Registry, thrown: Option<Error>)

  /** A new, empty store: no keys, default locale `Locale.US`. */
  const Fresh: Registry := Registry(map[], US)

  /** `contains(key)`: the key has an entry, even one with no formats left. */
  predicate Contains(r: Registry, key: string) {
    key in r.translations
  }

  /** A format is stored for `key` under exactly `locale`. */
  predicate Present(r: Registry, key: string, locale: Locale) {
    key in r.translations && locale in r.translations[key]
  }

  /** The key's formats, or none when it has no entry yet. */
  function FormatsOf(r: Registry, key: string): map<Locale, Format> {
    if key in r.translations then r.translations[key] else map[]
  }

  /** The locales a lookup tries, in order: the requested one, its language alone, the
      default one, and the default's language alone. */
  function Fallbacks(requested: Locale, default: Locale): (order: seq<Locale>)
    ensures |order| == 4
  {
    [requested, requested.LanguageOnly(), default, default.LanguageOnly()]
  }

  /** `Translation.translate`: the first of four lookups that finds a format. */
  function Lookup(formats: map<Locale, Format>, requested: Locale, default: Locale): (r: Option<Format>)
    ensures r.Some? <==> exists j :: 0 <= j < 4 && Fallbacks(requested, default)[j] in formats
    ensures r.Some? ==> exists j :: (0 <= j < 4
      && Fallbacks(requested, default)[j] in formats && r.value == formats[Fallbacks(requested, default)[j]]
      && forall i :: 0 <= i < j ==> Fallbacks(requested, default)[i] !in formats)
  {
    var order := Fallbacks(requested, default);
    if order[0] in formats then Some(formats[order[0]])
    else if order[1] in formats then Some(formats[order[1]])
    else if order[2] in formats then Some(formats[order[2]])
    else if order[3] in formats then Some(formats[order[3]])
    else None
  }

  /** `translate(key, locale)`: nothing when the key is unknown, otherwise the fallback
      lookup against the default locale current at the time of the call. */
  function Translate(r: Registry, key: string, locale: Locale): (f: Option<Format>)
    ensures key !in r.translations ==> f == None
    ensures f.Some? <==> (key in r.translations
      && exists j :: 0 <= j < 4 && Fallbacks(locale, r.defaultLocale)[j] in r.translations[key])
    ensures f.Some? ==> exists j :: (0 <= j < 4
      && Fallbacks(locale, r.defaultLocale)[j] in r.translations[key]
      && f.value == r.translations[key][Fallbacks(locale, r.defaultLocale)[j]]
      && forall i :: 0 <= i < j ==> Fallbacks(locale, r.defaultLocale)[i] !in r.translations[key])
  {
    if key !in r.translations then None else Lookup(r.translations[key], locale, r.defaultLocale)
  }

  /** `contains(key, locale)`: `translate` finds something. */
  predicate ContainsLocale(r: Registry, key: string, locale: Locale) {
    Translate(r, key, locale).Some?
  }

  /** `contains(key, locale)` holds exactly when the key exists and one of the four
      fallback locales has a format. */
  lemma ContainsLocaleSpec(r: Registry, key: string, locale: Locale)
    ensures ContainsLocale(r, key, locale) <==>
      Contains(r, key) && exists j :: 0 <= j < 4 && Present(r, key, Fallbacks(locale, r.defaultLocale)[j])
  {
    if ContainsLocale(r, key, locale) {
      var j :| 0 <= j < 4 && Fallbacks(locale, r.defaultLocale)[j] in r.translations[key];
      assert Present(r, key, Fallbacks(locale, r.defaultLocale)[j]);
    }
  }

  /** `defaultLocale(locale)`: only the default changes. */
  function SetDefaultLocale(r: Registry, locale: Locale): (r': Registry)
    ensures r'.defaultLocale == locale && r'.translations == r.translations
  {
    r.(defaultLocale := locale)
  }

  /** Lookups read the default locale current when they run: once a key has no format for
      the requested locale or its language, changing the default changes what it finds. */
  lemma DefaultReadAtLookup(r: Registry, key: string, locale: Locale, default: Locale)
    requires Present(r, key, default)
    requires !Present(r, key, locale) && !Present(r, key, locale.LanguageOnly())
    ensures Translate(SetDefaultLocale(r, default), key, locale) == Some(r.translations[key][default])
  {
  }

  /** `register(key, locale, format)`: insert-only. The key's entry is created when missing;
      a format already stored for the locale is an error and nothing changes. */
  function Register(r: Registry, key: string, locale: Locale, format: Format): (o: Outcome)
    ensures o.thrown.Some? <==> Present(r, key, locale)
    ensures o.thrown.Some? ==> o.thrown.value == AlreadyExists(key, locale) && o.after == r
    ensures o.thrown.None? ==> o.after.translations == r.translations[key := FormatsOf(r, key)[locale := format]]
    ensures o.after.defaultLocale == r.defaultLocale
    ensures Contains(o.after, key) && Present(o.after, key, locale)
  {
    if Present(r, key, locale) then Outcome(r, Some(AlreadyExists(key, locale)))
    else Outcome(r.(translations := r.translations[key := FormatsOf(r, key)[locale := format]]), None)
  }

  /** After a successful `register`, the format is found under its own locale. */
  lemma RegisterThenTranslate(r: Registry, key: string, locale: Locale, format: Format)
    requires !Present(r, key, locale)
    ensures Translate(Register(r, key, locale, format).after, key, locale) == Some(format)
  {
  }

  /** The loop of `registerAll(locale, keys, function)`: the store so far, the first
      exception caught, and how many were caught. */
  datatype Tally = Tally(registry: Registry, firstError: Option<Error>, errorCount: nat)

  /** The loop after the first `n` entries, each a key with the format computed for it. */
  function Attempt(r: Registry, locale: Locale, entries: seq<(string, Format)>, n: nat): (t: Tally)
    requires n <= |entries|
    ensures t.firstError.None? <==> t.errorCount == 0
    decreases n
  {
    if n == 0 then Tally(r, None, 0)
    else
      var t := Attempt(r, locale, entries, n - 1);
      var o := Register(t.registry, entries[n - 1].0, locale, entries[n - 1].1);
      if o.thrown.None? then Tally(o.after, t.firstError, t.errorCount)
      else Tally(o.after, if t.firstError.None? then o.thrown else t.firstError, t.errorCount + 1)
  }

  /** `registerAll(locale, keys, function)`: attempt every entry, then rethrow a single
      failure as is, or several as one exception counting the rest and caused by the first. */
  function RegisterAll(r: Registry, locale: Locale, entries: seq<(string, Format)>): Outcome {
    var t := Attempt(r, locale, entries, |entries|);
    if t.firstError.None? then Outcome(t.registry, None)
    else if t.errorCount == 1 then Outcome(t.registry, t.firstError)
    else Outcome(t.registry, Some(InvalidKeys(t.errorCount - 1, t.firstError.value)))
  }

  /** Reference for the failures: entry `i` fails when its key already had a format for the
      locale before the call, or when an earlier entry has the same key. */
  predicate Fails(r: Registry, locale: Locale, entries: seq<(string, Format)>, i: nat)
    requires i < |entries|
  {
    Present(r, entries[i].0, locale) || exists j :: 0 <= j < i && entries[j].0 == entries[i].0
  }

  /** How many of the first `n` entries fail. */
  function FailCount(r: Registry, locale: Locale, entries: seq<(string, Format)>, n: nat): nat
    requires n <= |entries|
    decreases n
  {
    if n == 0 then 0 else FailCount(r, locale, entries, n - 1) + (if Fails(r, locale, entries, n - 1) then 1 else 0)
  }

  /** Entry `i` is the first failing one. */
  predicate FirstFailure(r: Registry, locale: Locale, entries: seq<(string, Format)>, i: nat)
    requires i < |entries|
  {
    Fails(r, locale, entries, i) && forall j :: 0 <= j < i ==> !Fails(r, locale, entries, j)
  }

  /** Some key among the first `n` entries is `key`. */
  predicate Among(entries: seq<(string, Format)>, n: nat, key: string)
    requires n <= |entries|
  {
    exists j :: 0 <= j < n && entries[j].0 == key
  }

  /** What the store holds after the first `n` entries: every entry's key has a format for
      the locale, a non-failing entry's format is stored, and every other key and every
      other locale is as before. */
  ghost predicate Registered(r: Registry, locale: Locale, entries: seq<(string, Format)>, n: nat, after: Registry)
    requires n <= |entries|
  {
    && after.defaultLocale == r.defaultLocale
    && KeysAdded(r, entries, n, after)
    && OthersKept(r, entries, n, after)
    && AllPresent(locale, entries, n, after)
    && NewStored(r, locale, entries, n, after)
    && OldKept(r, locale, entries, n, after)
  }

  /** The keys are those there before and those of the first `n` entries. */
  ghost predicate KeysAdded(r: Registry, entries: seq<(string, Format)>, n: nat, after: Registry)
    requires n <= |entries|
  {
    forall k :: k in after.translations <==> k in r.translations || Among(entries, n, k)
  }

  /** A key none of the first `n` entries has keeps its formats. */
  ghost predicate OthersKept(r: Registry, entries: seq<(string, Format)>, n: nat, after: Registry)
    requires n <= |entries|
  {
    forall k :: k in r.translations && !Among(entries, n, k) ==>
      k in after.translations && after.translations[k] == r.translations[k]
  }

  /** Each of the first `n` entries' keys has a format for the locale. */
  predicate AllPresent(locale: Locale, entries: seq<(string, Format)>, n: nat, after: Registry)
    requires n <= |entries|
  {
    forall j :: 0 <= j < n ==> Present(after, entries[j].0, locale)
  }

  /** Each of the first `n` entries that does not fail has added its format to its key's. */
  predicate NewStored(r: Registry, locale: Locale, entries: seq<(string, Format)>, n: nat, after: Registry)
    requires n <= |entries|
  {
    forall j :: 0 <= j < n && !Fails(r, locale, entries, j) ==>
      entries[j].0 in after.translations && after.translations[entries[j].0] == FormatsOf(r, entries[j].0)[locale := entries[j].1]
  }

  /** A key among the first `n` entries that already had a format for the locale keeps
      its formats. */
  predicate OldKept(r: Registry, locale: Locale, entries: seq<(string, Format)>, n: nat, after: Registry)
    requires n <= |entries|
  {
    forall j :: 0 <= j < n && Present(r, entries[j].0, locale) ==>
      entries[j].0 in after.translations && after.translations[entries[j].0] == r.translations[entries[j].0]
  }

  /** Entry `n` fails exactly when its key already has a format for the locale in the
      store the loop has built so far. */
  lemma FailsIffPresent(r: Registry, locale: Locale, entries: seq<(string, Format)>, n: nat, after: Registry)
    requires n < |entries| && Registered(r, locale, entries, n, after)
    ensures Fails(r, locale, entries, n) <==> Present(after, entries[n].0, locale)
  {
    var k := entries[n].0;
    if Present(r, k, locale) && !Among(entries, n, k) {
      assert after.translations[k] == r.translations[k];
    }
    if Present(after, k, locale) && !Among(entries, n, k) {
      assert after.translations[k] == r.translations[k];
    }
  }

  /** One more entry adds exactly its own key to those seen. */
  lemma AmongStep(entries: seq<(string, Format)>, n: nat)
    requires 0 < n <= |entries|
    ensures forall k :: Among(entries, n, k) <==> Among(entries, n - 1, k) || k == entries[n - 1].0
  {
    forall k | Among(entries, n, k) && !Among(entries, n - 1, k)
      ensures k == entries[n - 1].0
    {
      var j :| 0 <= j < n && entries[j].0 == k;
      assert j == n - 1;
    }
  }

  /** A failing entry leaves the store as it is. */
  lemma RegisteredFailStep(r: Registry, locale: Locale, entries: seq<(string, Format)>, n: nat, after: Registry)
    requires 0 < n <= |entries| && Registered(r, locale, entries, n - 1, after)
    requires Fails(r, locale, entries, n - 1)
    ensures Registered(r, locale, entries, n, after)
  {
    FailsIffPresent(r, locale, entries, n - 1, after);
    AmongStep(entries, n);
    var k := entries[n - 1].0;
    if !Among(entries, n - 1, k) {
      assert Present(r, k, locale);
    }
  }

  /** A non-failing entry stores its format under its key and the locale. */
  lemma RegisteredAddStep(r: Registry, locale: Locale, entries: seq<(string, Format)>, n: nat, after: Registry)
    requires 0 < n <= |entries| && Registered(r, locale, entries, n - 1, after)
    requires !Fails(r, locale, entries, n - 1)
    ensures var (k, f) := entries[n - 1];
      Registered(r, locale, entries, n, after.(translations := after.translations[k := FormatsOf(after, k)[locale := f]]))
  {
    var (k, f) := entries[n - 1];
    var next := after.(translations := after.translations[k := FormatsOf(after, k)[locale := f]]);
    assert !Among(entries, n - 1, k) && !Present(r, k, locale);
    assert FormatsOf(after, k) == FormatsOf(r, k);
    AmongStep(entries, n);
    AddKeys(r, entries, n, after, next);
    AddOthers(r, entries, n, after, next);
    AddPresent(locale, entries, n, after, next);
    AddStored(r, locale, entries, n, after, next);
    AddOldKept(r, locale, entries, n, after, next);
  }

  /** The keys after a successful entry: its own is added. */
  lemma AddKeys(r: Registry, entries: seq<(string, Format)>, n: nat, after: Registry, next: Registry)
    requires 0 < n <= |entries| && KeysAdded(r, entries, n - 1, after)
    requires next.translations.Keys == after.translations.Keys + {entries[n - 1].0}
    ensures KeysAdded(r, entries, n, next)
  {
    AmongStep(entries, n);
  }

  /** Keys no entry has are left alone by a successful entry. */
  lemma AddOthers(r: Registry, entries: seq<(string, Format)>, n: nat, after: Registry, next: Registry)
    requires 0 < n <= |entries| && OthersKept(r, entries, n - 1, after)
    requires forall k :: k != entries[n - 1].0 && k in after.translations ==>
      k in next.translations && next.translations[k] == after.translations[k]
    ensures OthersKept(r, entries, n, next)
  {
    AmongStep(entries, n);
  }

  /** A successful entry's key gets a format for the locale, and no key loses one. */
  lemma AddPresent(locale: Locale, entries: seq<(string, Format)>, n: nat, after: Registry, next: Registry)
    requires 0 < n <= |entries| && AllPresent(locale, entries, n - 1, after)
    requires Present(next, entries[n - 1].0, locale)
    requires forall k :: k != entries[n - 1].0 && k in after.translations ==>
      k in next.translations && next.translations[k] == after.translations[k]
    ensures AllPresent(locale, entries, n, next)
  {
    forall j | 0 <= j < n
      ensures Present(next, entries[j].0, locale)
    {
      if j < n - 1 && entries[j].0 != entries[n - 1].0 {
        assert Present(after, entries[j].0, locale);
      }
    }
  }

  /** A successful entry whose key is new to the loop stores its format, leaving the
      formats stored by earlier entries alone. */
  lemma AddStored(r: Registry, locale: Locale, entries: seq<(string, Format)>, n: nat, after: Registry, next: Registry)
    requires 0 < n <= |entries| && NewStored(r, locale, entries, n - 1, after)
    requires !Among(entries, n - 1, entries[n - 1].0) && !Present(r, entries[n - 1].0, locale)
    requires entries[n - 1].0 in next.translations
    requires next.translations[entries[n - 1].0] == FormatsOf(r, entries[n - 1].0)[locale := entries[n - 1].1]
    requires forall k :: k != entries[n - 1].0 && k in after.translations ==>
      k in next.translations && next.translations[k] == after.translations[k]
    ensures NewStored(r, locale, entries, n, next)
  {
    forall j | 0 <= j < n - 1
      ensures entries[j].0 != entries[n - 1].0
    {
    }
  }

  /** Keys that had a format for the locale keep their formats past a successful entry. */
  lemma AddOldKept(r: Registry, locale: Locale, entries: seq<(string, Format)>, n: nat, after: Registry, next: Registry)
    requires 0 < n <= |entries| && OldKept(r, locale, entries, n - 1, after)
    requires !Present(r, entries[n - 1].0, locale)
    requires forall k :: k != entries[n - 1].0 && k in after.translations ==>
      k in next.translations && next.translations[k] == after.translations[k]
    ensures OldKept(r, locale, entries, n, next)
  {
    forall j | 0 <= j < n && Present(r, entries[j].0, locale)
      ensures entries[j].0 in next.translations && next.translations[entries[j].0] == r.translations[entries[j].0]
    {
      assert entries[j].0 != entries[n - 1].0;
    }
  }

  /** The store the loop has built after the first `n` entries agrees with the reference. */
  ghost predicate LoopRegistered(r: Registry, locale: Locale, entries: seq<(string, Format)>, n: nat)
    requires n <= |entries|
  {
    Registered(r, locale, entries, n, Attempt(r, locale, entries, n).registry)
  }

  /** The store the loop builds agrees with the reference after every entry. */
  lemma {:induction false} AttemptRegistered(r: Registry, locale: Locale, entries: seq<(string, Format)>, n: nat)
    requires n <= |entries|
    ensures LoopRegistered(r, locale, entries, n)
    decreases n
  {
    if n > 0 {
      AttemptRegistered(r, locale, entries, n - 1);
      AttemptStep(r, locale, entries, n);
    }
  }

  /** One entry of the loop keeps the store in agreement with the reference. */
  lemma AttemptStep(r: Registry, locale: Locale, entries: seq<(string, Format)>, n: nat)
    requires 0 < n <= |entries| && LoopRegistered(r, locale, entries, n - 1)
    ensures LoopRegistered(r, locale, entries, n)
  {
    var after := Attempt(r, locale, entries, n - 1).registry;
    AttemptRegisters(r, locale, entries, n);
    RegisteredStep(r, locale, entries, n, after);
  }

  /** Whether or not entry `n - 1` fails, the loop's store afterwards is what `register`
      leaves behind. */
  lemma AttemptRegisters(r: Registry, locale: Locale, entries: seq<(string, Format)>, n: nat)
    requires 0 < n <= |entries|
    ensures Attempt(r, locale, entries, n).registry
      == Register(Attempt(r, locale, entries, n - 1).registry, entries[n - 1].0, locale, entries[n - 1].1).after
  {
  }

  /** One entry keeps the store in agreement with the reference. */
  lemma RegisteredStep(r: Registry, locale: Locale, entries: seq<(string, Format)>, n: nat, after: Registry)
    requires 0 < n <= |entries|
    requires Registered(r, locale, entries, n - 1, after)
    ensures Registered(r, locale, entries, n, Register(after, entries[n - 1].0, locale, entries[n - 1].1).after)
  {
    FailsIffPresent(r, locale, entries, n - 1, after);
    if Fails(r, locale, entries, n - 1) {
      RegisteredFailStep(r, locale, entries, n, after);
    } else {
      RegisteredAddStep(r, locale, entries, n, after);
    }
  }

  /** The loop meets entry `n` with a store that already holds its key and locale exactly
      when the entry fails. */
  lemma AttemptFailsIffPresent(r: Registry, locale: Locale, entries: seq<(string, Format)>, n: nat)
    requires n < |entries|
    ensures Fails(r, locale, entries, n) <==> Present(Attempt(r, locale, entries, n).registry, entries[n].0, locale)
  {
    AttemptRegistered(r, locale, entries, n);
    FailsIffPresent(r, locale, entries, n, Attempt(r, locale, entries, n).registry);
  }

  /** After the first `n` entries the loop has counted the failing ones and kept the first
      one's exception. */
  predicate LoopCounted(r: Registry, locale: Locale, entries: seq<(string, Format)>, n: nat)
    requires n <= |entries|
  {
    var t := Attempt(r, locale, entries, n);
    && t.errorCount == FailCount(r, locale, entries, n)
    && (t.firstError.Some? ==> exists i :: (0 <= i < n && FirstFailure(r, locale, entries, i)
          && t.firstError.value == AlreadyExists(entries[i].0, locale)))
  }

  /** The loop counts the failing entries and keeps the first one's exception. */
  lemma {:induction false} AttemptCounts(r: Registry, locale: Locale, entries: seq<(string, Format)>, n: nat)
    requires n <= |entries|
    ensures LoopCounted(r, locale, entries, n)
    decreases n
  {
    if n > 0 {
      AttemptCounts(r, locale, entries, n - 1);
      CountStep(r, locale, entries, n);
    }
  }

  /** One entry of the loop: a failing entry is counted, and the first one's exception kept. */
  lemma CountStep(r: Registry, locale: Locale, entries: seq<(string, Format)>, n: nat)
    requires 0 < n <= |entries| && LoopCounted(r, locale, entries, n - 1)
    ensures LoopCounted(r, locale, entries, n)
  {
    AttemptFailsIffPresent(r, locale, entries, n - 1);
    var t := Attempt(r, locale, entries, n - 1);
    if Fails(r, locale, entries, n - 1) && t.firstError.None? {
      NoFailures(r, locale, entries, n - 1);
      assert FirstFailure(r, locale, entries, n - 1);
    }
  }

  /** `registerAll` attempts every entry: afterwards every key has a format for the locale,
      each entry that did not fail has its format stored, and other keys are untouched. It
      throws nothing when no entry fails, the first failure itself when exactly one does,
      and otherwise an exception counting the other failures, caused by the first. */
  lemma RegisterAllSpec(r: Registry, locale: Locale, entries: seq<(string, Format)>)
    ensures var o, count := RegisterAll(r, locale, entries), FailCount(r, locale, entries, |entries|);
      var stored := Registered(r, locale, entries, |entries|, o.after);
      && stored
      && (o.thrown.None? <==> count == 0)
      && (o.thrown.Some? ==> exists i :: (0 <= i < |entries| && FirstFailure(r, locale, entries, i)
            && o.thrown.value == (if count == 1 then AlreadyExists(entries[i].0, locale)
                                  else InvalidKeys(count - 1, AlreadyExists(entries[i].0, locale)))))
  {
    var t := Attempt(r, locale, entries, |entries|);
    AttemptRegistered(r, locale, entries, |entries|);
    AttemptCounts(r, locale, entries, |entries|);
    assert RegisterAll(r, locale, entries).after == t.registry;
  }

  /** No entry fails exactly when the keys are distinct and none had a format for the locale. */
  lemma {:induction false} NoFailures(r: Registry, locale: Locale, entries: seq<(string, Format)>, n: nat)
    requires n <= |entries|
    ensures FailCount(r, locale, entries, n) == 0 <==> forall i :: 0 <= i < n ==> !Fails(r, locale, entries, i)
    decreases n
  {
    if n > 0 {
      NoFailures(r, locale, entries, n - 1);
    }
  }

  /** `registerAll(locale, bundle, escapeSingleQuotes)`: each bundle value compiled, with
      every `'` doubled first when asked to. */
  function Compiled(bundle: seq<(string, string)>, escapeSingleQuotes: bool): (entries: seq<(string, Format)>)
    ensures |entries| == |bundle|
    ensures forall i :: 0 <= i < |bundle| ==> entries[i].0 == bundle[i].0
    ensures forall i :: 0 <= i < |bundle| ==>
      entries[i].1 == Compile(if escapeSingleQuotes then DoubleQuotes(bundle[i].1) else bundle[i].1)
  {
    seq(|bundle|, i requires 0 <= i < |bundle| =>
      (bundle[i].0, Compile(if escapeSingleQuotes then DoubleQuotes(bundle[i].1) else bundle[i].1)))
  }

  /** Nothing of a bundle value is lost on the way to its format: dropping the quotes the
      compiler inserted, then collapsing the doubled `'` when escaping was asked for, gives
      back the value. The marks of the compiler's own characters are returned. */
  lemma CompiledKeepsValue(bundle: seq<(string, string)>, escapeSingleQuotes: bool, i: nat) returns (copied: seq<bool>)
    requires i < |bundle|
    ensures var pattern := Compiled(bundle, escapeSingleQuotes)[i].1.pattern;
      && |copied| == |pattern|
      && (forall p :: 0 <= p < |copied| && !copied[p] ==> IsQuote(pattern[p]))
      && (var kept := Keep(pattern, copied);
          (if escapeSingleQuotes then UndoubleQuotes(kept) else kept) == bundle[i].1)
  {
    var value := bundle[i].1;
    var raw := if escapeSingleQuotes then DoubleQuotes(value) else value;
    var pattern := Compile(raw).pattern;
    CompileKeepsInput(raw);
    copied :| |copied| == |pattern| && Keep(pattern, copied) == raw
      && (forall p :: 0 <= p < |copied| && !copied[p] ==> IsQuote(pattern[p]));
    DoubleQuotesRoundTrip(value);
  }

  function RegisterBundle(r: Registry, locale: Locale, bundle: seq<(string, string)>, escapeSingleQuotes: bool): Outcome {
    RegisterAll(r, locale, Compiled(bundle, escapeSingleQuotes))
  }

  /** `unregister(key)`: the whole entry goes; nothing else changes. */
  function Unregister(r: Registry, key: string): (r': Registry)
    ensures !Contains(r', key) && r'.defaultLocale == r.defaultLocale
    ensures forall k :: k != key ==> (Contains(r', k) <==> Contains(r, k))
    ensures forall k :: k != key && Contains(r, k) ==> k in r'.translations && r'.translations[k] == r.translations[k]
  {
    r.(translations := r.translations - {key})
  }

  /** `unregister(key, locale)`: only that locale's format goes. An unknown key is left
      alone, and the entry stays even when it becomes empty. */
  function UnregisterLocale(r: Registry, key: string, locale: Locale): (r': Registry)
    ensures forall k :: Contains(r', k) <==> Contains(r, k)
    ensures !Present(r', key, locale) && r'.defaultLocale == r.defaultLocale
    ensures forall k, l :: (k != key || l != locale) ==> (Present(r', k, l) <==> Present(r, k, l))
    ensures forall k, l :: (k != key || l != locale) && Present(r, k, l) ==> Present(r', k, l) && r'.translations[k][l] == r.translations[k][l]
  {
    if key !in r.translations then r
    else r.(translations := r.translations[key := r.translations[key] - {locale}])
  }

  /** `registerAll` never removes a format: whatever was stored stays stored. */
  lemma {:induction false} AttemptGrows(r: Registry, locale: Locale, entries: seq<(string, Format)>, n: nat, key: string, l: Locale)
    requires n <= |entries| && Present(r, key, l)
    ensures Present(Attempt(r, locale, entries, n).registry, key, l)
    decreases n
  {
    if n > 0 {
      AttemptGrows(r, locale, entries, n - 1, key, l);
    }
  }

  /** After `registerAll` every entry's key has a format for the locale, formats stored
      before are still stored, and the default locale is unchanged. */
  lemma RegisterAllCovers(r: Registry, locale: Locale, entries: seq<(string, Format)>)
    ensures forall j :: 0 <= j < |entries| ==> Present(RegisterAll(r, locale, entries).after, entries[j].0, locale)
    ensures forall k, l :: Present(r, k, l) ==> Present(RegisterAll(r, locale, entries).after, k, l)
    ensures RegisterAll(r, locale, entries).after.defaultLocale == r.defaultLocale
  {
    AttemptRegistered(r, locale, entries, |entries|);
    forall k, l | Present(r, k, l)
      ensures Present(RegisterAll(r, locale, entries).after, k, l)
    {
      AttemptGrows(r, locale, entries, |entries|, k, l);
    }
  }

  /** A key `registerAll` adds is the key of one of its entries; its index is returned. */
  lemma RegisterAllNewKeys(r: Registry, locale: Locale, entries: seq<(string, Format)>, key: string)
    returns (j: nat)
    requires Contains(RegisterAll(r, locale, entries).after, key) && !Contains(r, key)
    ensures j < |entries| && entries[j].0 == key
  {
    AttemptRegistered(r, locale, entries, |entries|);
    assert Among(entries, |entries|, key);
    j :| 0 <= j < |entries| && entries[j].0 == key;
  }

  /** A bundle with a key the store already holds for the locale makes `registerAll` throw. */
  lemma BundleClashThrows(r: Registry, locale: Locale, bundle: seq<(string, string)>, escapeSingleQuotes: bool, j: nat)
    requires j < |bundle| && Present(r, bundle[j].0, locale)
    ensures RegisterBundle(r, locale, bundle, escapeSingleQuotes).thrown.Some?
  {
    var entries := Compiled(bundle, escapeSingleQuotes);
    RegisterAllSpec(r, locale, entries);
    NoFailures(r, locale, entries, |entries|);
    assert Fails(r, locale, entries, j);
  }

  /** A bundle that repeats a key makes `registerAll` throw on the repeat. */
  lemma BundleRepeatThrows(r: Registry, locale: Locale, bundle: seq<(string, string)>, escapeSingleQuotes: bool, j: nat, j': nat)
    requires j < j' < |bundle| && bundle[j].0 == bundle[j'].0
    ensures RegisterBundle(r, locale, bundle, escapeSingleQuotes).thrown.Some?
  {
    var entries := Compiled(bundle, escapeSingleQuotes);
    RegisterAllSpec(r, locale, entries);
    NoFailures(r, locale, entries, |entries|);
    assert Fails(r, locale, entries, j');
  }

  /** When no entry fails, `registerAll` throws nothing, and a format it leaves is one stored
      before or one for the locale under an entry's key. */
  lemma RegisterAllOnly(r: Registry, locale: Locale, entries: seq<(string, Format)>)
    requires forall i :: 0 <= i < |entries| ==> !Fails(r, locale, entries, i)
    ensures RegisterAll(r, locale, entries).thrown.None?
    ensures forall k, l :: Present(RegisterAll(r, locale, entries).after, k, l) ==>
      Present(r, k, l) || (l == locale && exists j :: 0 <= j < |entries| && entries[j].0 == k)
  {
    RegisterAllSpec(r, locale, entries);
    NoFailures(r, locale, entries, |entries|);
    var after := RegisterAll(r, locale, entries).after;
    forall k, l | Present(after, k, l) && !Present(r, k, l)
      ensures l == locale && Among(entries, |entries|, k)
    {
      if Among(entries, |entries|, k) {
        var j :| 0 <= j < |entries| && entries[j].0 == k;
        assert after.translations[k] == FormatsOf(r, k)[locale := entries[j].1];
      }
    }
  }
}
