/** Locales as the registry uses them: compared by value, with a language-only form. */
module Locales {

  /** A locale: language, country and variant subtags, kept exactly as given. */
  datatype Locale = Locale(language: string, country: string, variant: string) {

    /** The locale built from this one's language alone (`new Locale(getLanguage())`). */
    function LanguageOnly(): Locale {
      Locale(language, [], [])
    }
  }

  /** `Locale.US`, the registry's initial default locale. */
  const US: Locale := Locale("en", "US", "")
}
