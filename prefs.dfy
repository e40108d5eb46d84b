/** The remembered language choice (BasicLocalizationPlayerPrefUtils): the
    id of the selected language is stored in the host's player preferences,
    here an explicit string-to-string store. */
module PlayerPrefs {
  import opened Wrappers
  import opened Strings
  import opened Languages
  import opened Profiles

  /** The one key the package writes. */
  const CurrentLanguageKey: string := "localization.current_language_key"

  /** `PlayerPrefs` as a mutable store of strings (`SetString`, `HasKey`,
      `GetString`); `PlayerPrefs.Save` flushes to disk and has no effect on
      the contents. */
  class PrefStore {
    var entries: map<string, string>

    constructor Create(entries: map<string, string>)
      ensures this.entries == entries
    {
      this.entries := entries;
    }

    /** `Save(profile, language)`: nothing for a null language or profile;
        otherwise the language id is stored under `CurrentLanguageKey` and
        no other key changes. When the id is non-empty and no earlier
        language of the profile carries it, `Restore` then yields exactly
        that language. */
    method Save(profile: Profile?, language: Language?)
      modifies this`entries
      ensures language == null || profile == null ==> entries == old(entries)
      ensures language != null && profile != null ==>
        entries == old(entries)[CurrentLanguageKey := language.id]
      ensures (language != null && profile != null && language in profile.languages && language.id != ""
               && FirstWithId(profile.languages, language)) ==> Restore(profile, this) == language
    {
      if language == null || profile == null {
        return;
      }
      entries := entries[CurrentLanguageKey := language.id];
      if language in profile.languages && language.id != "" && FirstWithId(profile.languages, language) {
        RestoreAfterSave(profile.languages, entries, language);
      }
    }
  }

  /** No language before `language` in `ls` has its id (true for every
      member of a list whose ids are unique). */
  predicate FirstWithId(ls: seq<Language>, language: Language) {
    forall j :: 0 <= j < IndexOf(ls, language) ==> ls[j].id != language.id
  }

  /** What `Restore` finds in a store's contents: the first language whose
      id equals the stored string, or null when the key is absent or the
      stored string is empty. */
  function RestoreFrom(ls: seq<Language>, entries: map<string, string>): (r: Language?)
    ensures r != null ==> r in ls && CurrentLanguageKey in entries && entries[CurrentLanguageKey] == r.id
    ensures r == null <==>
      CurrentLanguageKey !in entries || entries[CurrentLanguageKey] == "" || entries[CurrentLanguageKey] !in IdsOf(ls)
  {
    if CurrentLanguageKey in entries && entries[CurrentLanguageKey] != "" then
      FindById(ls, entries[CurrentLanguageKey])
    else null
  }

  /** `Restore(profile)`: null for a null profile, otherwise what the store
      names. It only reads the store. */
  function Restore(profile: Profile?, store: PrefStore): (r: Language?)
    reads profile, store
    ensures profile == null ==> r == null
    ensures profile != null ==> r == RestoreFrom(profile.languages, store.entries)
  {
    if profile == null then null else RestoreFrom(profile.languages, store.entries)
  }

  /** The round trip: storing the id of a language that is the first of its
      id in the list and restoring gives that language back. */
  lemma RestoreAfterSave(ls: seq<Language>, entries: map<string, string>, language: Language)
    requires language in ls && language.id != "" && FirstWithId(ls, language)
    ensures RestoreFrom(ls, entries[CurrentLanguageKey := language.id]) == language
  {
    var ids := IdsOf(ls);
    var p := IndexOf(ls, language);
    assert ids[p] == language.id;
    var k := IndexOf(ids, language.id);
    assert forall q :: 0 <= q < p ==> ids[q] != language.id;
    assert forall q :: 0 <= q < k ==> ids[..k][q] == ids[q];
  }

  /** A language whose id is the empty string cannot be restored: the
      stored empty string reads as "nothing saved". */
  lemma EmptyIdNotRestored(ls: seq<Language>, entries: map<string, string>, language: Language)
    requires language.id == ""
    ensures RestoreFrom(ls, entries[CurrentLanguageKey := language.id]) == null
  {
  }

  /** Only the restore key matters: writing any other key leaves the result
      unchanged. */
  lemma RestoreIgnoresOtherKeys(ls: seq<Language>, entries: map<string, string>, key: string, value: string)
    requires key != CurrentLanguageKey
    ensures RestoreFrom(ls, entries[key := value]) == RestoreFrom(ls, entries)
  {
  }
}
