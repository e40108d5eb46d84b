/** Languages and key references (BasicLocalizationLanguage,
    BasicLocalizationKeyReference). */
module Languages {
  import opened Wrappers
  import opened Locales

  /** A language asset. It is an object: the profile, the phrases, the
      selectors and the editor compare languages by reference in some places
      and by `id` in others, and Dafny's reference equality stands for the
      former. `id` is `LanguageId`; `locale` the optional shared locale. */
  class Language {
    const id: string
    const locale: Option<Locale>

    /** `BasicLocalizationLanguage.Create(id)`: a new asset with that id
        and no locale. */
    constructor Create(id: string)
      ensures this.id == id && locale == None
    {
      this.id := id;
      this.locale := None;
    }

    /** A language asset as loaded, with the locale its inspector assigned. */
    constructor Load(id: string, locale: Option<Locale>)
      ensures this.id == id && this.locale == locale
    {
      this.id := id;
      this.locale := locale;
    }

    /** The locale is set and has `code` (the test both selector searches
        apply to each language). */
    predicate HasLocaleCode(code: Option<string>) {
      locale.Some? && locale.value.HasCode(code)
    }
  }

  /** The lookup token carried by call sites: a key and the guid of the
      entry it was last resolved to; either may be null. */
  datatype KeyReference = KeyReference(key: Option<string>, guid: Option<string>)
}
