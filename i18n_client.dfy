/**
 * The display-language provider (lib/i18n-client.tsx): the initial locale read
 * back from browser storage, `setLocale`, and the effect that writes the locale
 * to storage and to the document's `lang` attribute.
 */
module I18nClient {
  import opened Wrappers

  /** The two display languages. */
  type Locale = s: string | s == "en" || s == "tr" witness "tr"

  /** The browser storage key under which the locale is kept. */
  const StorageKey: string := "locale"

  /** Accept a stored value only when it names a known locale; default to Turkish. */
  function ValidateStored(stored: Option<string>): (l: Locale)
    ensures stored.Some? && (stored.value == "en" || stored.value == "tr") ==> l == stored.value
    ensures l == "en" <==> stored == Some("en")
  {
    if stored.Some? && stored.value != "" && stored.value in ["en", "tr"] then stored.value else "tr"
  }

  /**
   * The lazy initial state of the provider. `storage` is the browser's
   * `localStorage`, or `None` when there is no window (rendering on the server).
   */
  function InitialLocale(storage: Option<map<string, string>>): (l: Locale)
    ensures storage.None? ==> l == "tr"
    ensures storage.Some? && StorageKey !in storage.value ==> l == "tr"
    ensures storage.Some? && StorageKey in storage.value && storage.value[StorageKey] in ["en", "tr"]
            ==> l == storage.value[StorageKey]
    ensures l == "en" <==> storage.Some? && Get(storage.value, StorageKey) == Some("en")
  {
    match storage
    case None => "tr"
    case Some(st) => ValidateStored(Get(st, StorageKey))
  }

  /** A locale written to storage is the locale read back on the next initialisation. */
  lemma StoredLocaleRoundTrip(st: map<string, string>, l: Locale)
    ensures InitialLocale(Some(st[StorageKey := l])) == l
  {
  }

  /** The provider as it lives in the browser: its state, storage and the document language. */
  class LocaleProvider {
    var locale: Locale
    var storage: map<string, string>
    var documentLang: string

    /** What the persistence effect establishes: storage and document agree with the state. */
    ghost predicate Persisted()
      reads this
    {
      StorageKey in storage && storage[StorageKey] == locale && documentLang == locale
    }

    /** Mounting in the browser: the lazy initial state, then the effect's first run. */
    constructor (stored: map<string, string>, lang: string)
      ensures locale == InitialLocale(Some(stored))
      ensures storage == stored[StorageKey := locale]
      ensures documentLang == locale
      ensures Persisted()
    {
      locale := InitialLocale(Some(stored));
      storage := stored;
      documentLang := lang;
      new;
      PersistLocale();
    }

    /** The effect run after a change of `locale`. */
    method PersistLocale()
      modifies this
      ensures locale == old(locale)
      ensures storage == old(storage)[StorageKey := locale]
      ensures documentLang == locale
      ensures Persisted()
    {
      storage := storage[StorageKey := locale];
      documentLang := locale;
    }

    /**
     * `setLocale`: the state becomes `l`. The effect re-runs only when the value
     * changed; when it did not, storage already holds `l`.
     */
    method SetLocale(l: Locale)
      requires Persisted()
      modifies this
      ensures locale == l
      ensures storage == old(storage)[StorageKey := l]
      ensures documentLang == l
      ensures Persisted()
    {
      if l != locale {
        locale := l;
        PersistLocale();
      }
    }
  }

  /** Choosing a locale and reloading the page brings the same locale back. */
  method ReloadAfterSetLocale(stored: map<string, string>, l: Locale) returns (reloaded: Locale)
    ensures reloaded == l
  {
    var before := new LocaleProvider(stored, "tr");
    before.SetLocale(l);
    var after := new LocaleProvider(before.storage, before.documentLang);
    reloaded := after.locale;
  }
}
