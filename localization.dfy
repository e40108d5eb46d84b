/** The public facade (the static class BasicLocalization of the player
    build): the cached current language, the profile override, the
    language-changed event, and translation lookups through the current
    profile. The static state becomes the fields of one object; the
    `OnLanguageChanged` subscribers are represented by the list of languages
    the event was raised with. */
module Facade {
  import opened Wrappers
  import opened Strings
  import opened Languages
  import opened Selectors
  import opened Translations
  import opened Profiles
  import opened PlayerPrefs
  import opened LanguageSelection

  /** `GetCurrentLanguage(profile)`'s selector loop: the first non-null
      language the selectors yield, in list order (later selectors are not
      consulted). */
  function ChainLanguage(ss: seq<LanguageSelector>, profile: Profile, host: Host, store: PrefStore): (r: Language?)
    reads profile, store
    ensures r == null <==> forall i :: 0 <= i < |ss| ==> SelectorLanguage(ss[i], profile, host, store) == null
    ensures r != null ==> r in profile.languages || r == profile.defaultLanguage
    decreases |ss|
  {
    if ss == [] then null
    else if SelectorLanguage(ss[0], profile, host, store) != null then SelectorLanguage(ss[0], profile, host, store)
    else
      var r := ChainLanguage(ss[1..], profile, host, store);
      assert forall i :: 1 <= i < |ss| ==> ss[i] == ss[1..][i - 1];
      r
  }

  /** The selector loop of `GetCurrentLanguage`: the selectors are asked
      in order and the first language returned ends the loop. */
  method ChainGetLanguage(ss: seq<LanguageSelector>, profile: Profile, host: Host, store: PrefStore) returns (r: Language?)
    ensures r == ChainLanguage(ss, profile, host, store)
  {
    var i := 0;
    while i < |ss|
      invariant 0 <= i <= |ss|
      invariant ChainLanguage(ss, profile, host, store) == ChainLanguage(ss[i..], profile, host, store)
    {
      assert ss[i..][1..] == ss[i + 1..];
      r := SelectorGetLanguage(ss[i], profile, host, store);
      if r != null {
        return;
      }
      i := i + 1;
    }
    r := null;
  }

  /** The first selector that yields a language decides. */
  lemma {:induction false} ChainFirstSelector(ss: seq<LanguageSelector>, profile: Profile, host: Host, store: PrefStore, k: nat)
    requires k < |ss| && SelectorLanguage(ss[k], profile, host, store) != null
    requires forall j :: 0 <= j < k ==> SelectorLanguage(ss[j], profile, host, store) == null
    ensures ChainLanguage(ss, profile, host, store) == SelectorLanguage(ss[k], profile, host, store)
    decreases k
  {
    if k > 0 {
      assert ss[1..][k - 1] == ss[k];
      ChainFirstSelector(ss[1..], profile, host, store, k - 1);
    }
  }

  /** A chain that contains the default selector always yields a language
      when the profile has a default language. */
  lemma ChainWithDefaultNeverNull(ss: seq<LanguageSelector>, profile: Profile, host: Host, store: PrefStore)
    requires DefaultSelector in ss && profile.defaultLanguage != null
    ensures ChainLanguage(ss, profile, host, store) != null
  {
    var k :| 0 <= k < |ss| && ss[k] == DefaultSelector;
    assert SelectorLanguage(ss[k], profile, host, store) != null;
  }

  /** With the default chain, a language remembered in the player
      preferences wins unless the command line names one. */
  lemma DefaultChainPrefersSaved(profile: Profile, host: Host, store: PrefStore)
    requires CommandLineLanguage(Some(DefaultCommandLinePrefix), host.args, profile.languages) == null
    requires Restore(profile, store) != null
    ensures ChainLanguage(DefaultSelectors, profile, host, store) == Restore(profile, store)
  {
    var ss := DefaultSelectors;
    assert SelectorLanguage(ss[0], profile, host, store) == null by {
      assert CommandLineLanguageMember(Some(DefaultCommandLinePrefix), host.args, profile.languages) == null;
    }
    ChainFirstSelector(ss, profile, host, store, 1);
  }

  /** What a fresh selection over `profile` yields: nothing for a null
      profile, otherwise the selector chain. */
  function Chosen(profile: Profile?, host: Host, store: PrefStore): Language?
    reads profile, store
  {
    if profile == null then null else ChainLanguage(profile.languageSelectors, profile, host, store)
  }

  /** `List.IndexOf` on the language list followed by the offset rule of
      `SelectLanguageWithOffset`: +1 and -1 move cyclically, any other
      offset goes to the first language. */
  function OffsetIndex(current: nat, offset: int, count: nat): (r: nat)
    requires current < count
    ensures r < count
    ensures offset == 1 ==> r == (current + 1) % count
    ensures offset == -1 ==> r == (current + count - 1) % count
    ensures offset != 1 && offset != -1 ==> r == 0
  {
    if offset == 1 then
      ModWrap(current + 1, count);
      if current + 1 >= count then 0 else current + 1
    else if offset == -1 then
      ModWrap(current + count - 1, count);
      if current == 0 then count - 1 else current - 1
    else 0
  }

  /** `%` on the range the offset rule produces. */
  lemma ModWrap(a: int, count: nat)
    requires 0 <= a < 2 * count
    ensures a % count == if a < count then a else a - count
  {
    var q := if a < count then 0 else 1;
    assert a == q * count + (a - q * count);
  }

  /** Next then previous (and previous then next) come back to the start. */
  lemma NextPreviousRoundTrip(current: nat, count: nat)
    requires current < count
    ensures OffsetIndex(OffsetIndex(current, 1, count), -1, count) == current
    ensures OffsetIndex(OffsetIndex(current, -1, count), 1, count) == current
  {
  }

  /** With two or more languages, a step of +1 or -1 always moves. */
  lemma OffsetIndexMoves(current: nat, offset: int, count: nat)
    requires current < count && count > 1 && (offset == 1 || offset == -1)
    ensures OffsetIndex(current, offset, count) != current
  {
  }

  /** The guard of `SelectLanguageAt` as written: it rejects a negative index
      and an index beyond the count, but lets the index equal to the count
      through, which then reads past the end of the list. */
  predicate SourceRejectsIndex(index: int, count: nat) {
    index < 0 || index > count
  }

  /** The guard as intended: every index that is not a position is
      rejected. */
  predicate RejectsIndex(index: int, count: nat) {
    index < 0 || index >= count
  }

  /** The written guard admits `index == count`, which is not a position of
      the list. */
  lemma SourceGuardAdmitsCount(count: nat)
    ensures !SourceRejectsIndex(count, count) && !(count < count)
  {
  }

  /** The corrected guard admits exactly the positions, and it differs from
      the written one only at `index == count`. */
  lemma RejectsIndexExactly(index: int, count: nat)
    ensures !RejectsIndex(index, count) <==> 0 <= index < count
    ensures SourceRejectsIndex(index, count) != RejectsIndex(index, count) <==> index == count
  {
  }

  /** The text an entry gives for a language; null without an entry. */
  function TextOf(t: Translation?, language: Language?): Option<string>
    reads t
  {
    if t == null then None else t.GetTranslation(language)
  }

  /** `PlayerPrefs` after `Save(profile, language)`. */
  function Saved(entries: map<string, string>, profile: Profile?, language: Language): map<string, string> {
    if profile == null then entries else entries[CurrentLanguageKey := language.id]
  }

  class Localization {
    /** `_currentLanguage`: the cached current language. */
    var currentLanguage: Language?
    /** `_overridenProfile`. */
    var overriddenProfile: Profile?
    /** The languages `OnLanguageChanged` was raised with, oldest first. */
    var events: seq<Language?>
    /** `BasicLocalizationProfile.Instance`, the profile the player build
        loaded. */
    const instance: Profile?
    /** The host inputs of the selectors. */
    const host: Host
    /** The player preferences. */
    const prefs: PrefStore

    constructor Create(instance: Profile?, host: Host, prefs: PrefStore)
      ensures this.instance == instance && this.host == host && this.prefs == prefs
      ensures currentLanguage == null && overriddenProfile == null && events == []
    {
      this.instance := instance;
      this.host := host;
      this.prefs := prefs;
      currentLanguage := null;
      overriddenProfile := null;
      events := [];
    }

    /** `GetCurrentProfile` (player build): the override when set, otherwise
        the loaded instance. */
    function GetCurrentProfile(): (r: Profile?)
      reads this
      ensures overriddenProfile != null ==> r == overriddenProfile
      ensures overriddenProfile == null ==> r == instance
    {
      if overriddenProfile != null then overriddenProfile else instance
    }

    /** The language `GetCurrentLanguage(profile)` returns: the cached one
        when set, whichever profile is asked, otherwise a fresh choice. */
    function LanguageFor(profile: Profile?): (r: Language?)
      reads this, profile, prefs
      ensures currentLanguage != null ==> r == currentLanguage
      ensures currentLanguage == null ==> r == Chosen(profile, host, prefs)
    {
      if currentLanguage != null then currentLanguage else Chosen(profile, host, prefs)
    }

    /** The state after `SelectLanguage(profile, newLanguage)` starting from
        `before` as the current language: when the new language is non-null
        and not the current one it becomes current, is saved and is
        announced; otherwise the current language stays `before` and
        nothing is saved or announced. */
    ghost predicate SelectedFrom(before: Language?, newLanguage: Language?, events0: seq<Language?>, entries0: map<string, string>, profile: Profile?)
      reads this, prefs
    {
      if newLanguage != null && newLanguage != before then
        currentLanguage == newLanguage && events == events0 + [newLanguage] && prefs.entries == Saved(entries0, profile, newLanguage)
      else
        currentLanguage == before && events == events0 && prefs.entries == entries0
    }

    /** `GetCurrentLanguage(profile)`: returns the cache when set; otherwise
        runs the selectors in order, caches the first non-null result and
        returns it. */
    method GetCurrentLanguageFor(profile: Profile?) returns (language: Language?)
      modifies this`currentLanguage
      ensures currentLanguage == old(LanguageFor(profile))
      ensures language == currentLanguage
    {
      if currentLanguage != null {
        return currentLanguage;
      }
      if profile != null {
        currentLanguage := ChainGetLanguage(profile.languageSelectors, profile, host, prefs);
      }
      return currentLanguage;
    }

    /** `GetCurrentLanguage()`: the current language of the current
        profile. */
    method GetCurrentLanguage() returns (language: Language?)
      modifies this`currentLanguage
      ensures currentLanguage == old(LanguageFor(GetCurrentProfile()))
      ensures language == currentLanguage
    {
      language := GetCurrentLanguageFor(GetCurrentProfile());
    }

    /** `GetAvailableLanguages`: the current profile's language list itself
        (the source dereferences the profile). */
    function GetAvailableLanguages(): (r: seq<Language>)
      requires GetCurrentProfile() != null
      reads this, GetCurrentProfile()
      ensures r == GetCurrentProfile().languages
    {
      GetCurrentProfile().languages
    }

    /** `SelectLanguage(profile, newLanguage)`. Afterwards a non-null new
        language is current; when it was not current before, it is saved
        and announced, and a later restore from the same preferences gives
        it back whenever its id is non-empty and no earlier language of the
        profile shares it. */
    method SelectLanguage(profile: Profile?, newLanguage: Language?)
      modifies this`currentLanguage, this`events, prefs`entries
      ensures SelectedFrom(old(LanguageFor(profile)), newLanguage, old(events), old(prefs.entries), profile)
      ensures newLanguage != null ==> currentLanguage == newLanguage
      ensures (newLanguage != null && newLanguage != old(LanguageFor(profile)) && profile != null &&
               newLanguage in profile.languages && newLanguage.id != "" && FirstWithId(profile.languages, newLanguage)) ==>
        Restore(profile, prefs) == newLanguage
    {
      var current := GetCurrentLanguageFor(profile);
      if newLanguage != null && newLanguage != current {
        currentLanguage := newLanguage;
        prefs.Save(profile, currentLanguage);
        events := events + [newLanguage];
      }
    }

    /** `SelectLanguageAt(index)`, with the corrected guard: when the profile
        has a current language and `index` is a position of its list, that
        language is selected; any other index changes nothing beyond filling
        the cache. The source dereferences the current profile. */
    method SelectLanguageAt(index: int)
      requires GetCurrentProfile() != null
      modifies this`currentLanguage, this`events, prefs`entries
      ensures var p := GetCurrentProfile(); var before := old(LanguageFor(p));
        if before != null && 0 <= index < |p.languages| then
          SelectedFrom(before, p.languages[index], old(events), old(prefs.entries), p)
        else
          SelectedFrom(before, null, old(events), old(prefs.entries), p)
    {
      var profile := GetCurrentProfile();
      var languages := profile.languages;
      var current := GetCurrentLanguageFor(profile);
      if |languages| <= 0 || current == null || RejectsIndex(index, |languages|) {
        return;
      }
      SelectLanguage(profile, languages[index]);
    }

    /** `SelectLanguageWithOffset(offset)`: when the current language is in
        the current profile's list, the language at `OffsetIndex` from its
        first position is selected; otherwise nothing changes beyond
        filling the cache. */
    method SelectLanguageWithOffset(offset: int)
      requires GetCurrentProfile() != null
      modifies this`currentLanguage, this`events, prefs`entries
      ensures var p := GetCurrentProfile(); var before := old(LanguageFor(p));
        if before != null && before in p.languages then
          SelectedFrom(before, p.languages[OffsetIndex(IndexOf(p.languages, before), offset, |p.languages|)], old(events), old(prefs.entries), p)
        else
          SelectedFrom(before, null, old(events), old(prefs.entries), p)
    {
      var profile := GetCurrentProfile();
      var languages := profile.languages;
      var current := GetCurrentLanguageFor(profile);
      if |languages| <= 0 || current == null {
        return;
      }
      var currentIndex := IndexOf(languages, current);
      if currentIndex == -1 {
        return;
      }
      var index := OffsetIndex(currentIndex, offset, |languages|);
      SelectLanguage(profile, languages[index]);
    }

    /** `SelectNextLanguage`: one step forward, wrapping to the first. With
        two or more distinct languages the current one always changes and
        the event fires. */
    method SelectNextLanguage()
      requires GetCurrentProfile() != null
      modifies this`currentLanguage, this`events, prefs`entries
      ensures var p := GetCurrentProfile(); var before := old(LanguageFor(p));
        before != null && before in p.languages ==>
          currentLanguage == p.languages[(IndexOf(p.languages, before) + 1) % |p.languages|]
      ensures var p := GetCurrentProfile(); var before := old(LanguageFor(p));
        (before != null && before in p.languages && |p.languages| > 1 && Distinct(p.languages)) ==>
          currentLanguage != before && events == old(events) + [currentLanguage]
      ensures var p := GetCurrentProfile(); var before := old(LanguageFor(p));
        !(before != null && before in p.languages) ==> SelectedFrom(before, null, old(events), old(prefs.entries), p)
      ensures var p := GetCurrentProfile(); var before := old(LanguageFor(p));
        before != null && before in p.languages ==>
          SelectedFrom(before, p.languages[OffsetIndex(IndexOf(p.languages, before), 1, |p.languages|)], old(events), old(prefs.entries), p)
    {
      ghost var p := GetCurrentProfile();
      ghost var before := LanguageFor(p);
      SelectLanguageWithOffset(1);
      if before != null && before in p.languages && |p.languages| > 1 && Distinct(p.languages) {
        var k := IndexOf(p.languages, before);
        OffsetIndexMoves(k, 1, |p.languages|);
        DistinctAt(p.languages, k, OffsetIndex(k, 1, |p.languages|));
      }
    }

    /** `SelectPreviousLanguage`: one step back, wrapping to the last. */
    method SelectPreviousLanguage()
      requires GetCurrentProfile() != null
      modifies this`currentLanguage, this`events, prefs`entries
      ensures var p := GetCurrentProfile(); var before := old(LanguageFor(p));
        before != null && before in p.languages ==>
          currentLanguage == p.languages[(IndexOf(p.languages, before) + |p.languages| - 1) % |p.languages|]
      ensures var p := GetCurrentProfile(); var before := old(LanguageFor(p));
        (before != null && before in p.languages && |p.languages| > 1 && Distinct(p.languages)) ==>
          currentLanguage != before && events == old(events) + [currentLanguage]
      ensures var p := GetCurrentProfile(); var before := old(LanguageFor(p));
        !(before != null && before in p.languages) ==> SelectedFrom(before, null, old(events), old(prefs.entries), p)
      ensures var p := GetCurrentProfile(); var before := old(LanguageFor(p));
        before != null && before in p.languages ==>
          SelectedFrom(before, p.languages[OffsetIndex(IndexOf(p.languages, before), -1, |p.languages|)], old(events), old(prefs.entries), p)
    {
      ghost var p := GetCurrentProfile();
      ghost var before := LanguageFor(p);
      SelectLanguageWithOffset(-1);
      if before != null && before in p.languages && |p.languages| > 1 && Distinct(p.languages) {
        var k := IndexOf(p.languages, before);
        OffsetIndexMoves(k, -1, |p.languages|);
        DistinctAt(p.languages, k, OffsetIndex(k, -1, |p.languages|));
      }
    }

    /** `OverrideCurrentProfile(overrideProfile)`: installs the override
        (null goes back to the instance), drops the cached language, chooses
        afresh from the profile now current, and raises the event with the
        new language (possibly null) when it is not the old one. */
    method OverrideCurrentProfile(overrideProfile: Profile?)
      modifies this`overriddenProfile, this`currentLanguage, this`events
      ensures overriddenProfile == overrideProfile
      ensures currentLanguage == Chosen(GetCurrentProfile(), host, prefs)
      ensures events == if old(currentLanguage) != currentLanguage then old(events) + [currentLanguage] else old(events)
    {
      var oldLanguage := currentLanguage;
      overriddenProfile := overrideProfile;
      currentLanguage := null;
      var profile := if overriddenProfile != null then overriddenProfile else instance;
      assert profile == GetCurrentProfile();
      ghost var chosen := Chosen(profile, host, prefs);
      currentLanguage := GetCurrentLanguageFor(profile);
      assert currentLanguage == chosen == Chosen(GetCurrentProfile(), host, prefs);
      if oldLanguage != currentLanguage {
        events := events + [currentLanguage];
      }
    }

    /** `GetTranslation(profile, keyReference)`: null without a profile (the
        current language is then not even resolved); otherwise the profile's
        text for the reference in the current language. */
    method GetTranslationFrom(profile: Profile?, keyReference: KeyReference) returns (r: Option<string>)
      modifies this`currentLanguage, profile
      ensures profile == null ==> r == None && currentLanguage == old(currentLanguage)
      ensures profile != null ==> currentLanguage == old(LanguageFor(profile))
      ensures profile != null ==> unchanged(profile`defaultLanguage, profile`languages, profile`languageSelectors, profile`translations, profile`translateOnlyEmptyFields)
      ensures profile != null && currentLanguage == null ==> r == None && profile.cache == old(profile.cache)
      ensures profile != null && currentLanguage != null ==>
        profile.cache == (if old(profile.cache).Some? then old(profile.cache) else Some(BuildIndex(profile.translations))) &&
        r == TextOf(Resolve(profile.cache.value, keyReference), currentLanguage)
    {
      if profile == null {
        return None;
      }
      var language := GetCurrentLanguageFor(profile);
      r := profile.GetTranslationByReference(language, keyReference);
    }

    /** `GetTranslation(keyReference)` on the current profile. */
    method GetTranslation(keyReference: KeyReference) returns (r: Option<string>)
      modifies this`currentLanguage, GetCurrentProfile()
      ensures var p := GetCurrentProfile(); p == null ==> r == None && currentLanguage == old(currentLanguage)
      ensures var p := GetCurrentProfile(); p != null ==> currentLanguage == old(LanguageFor(p))
      ensures var p := GetCurrentProfile(); p != null ==>
        unchanged(p`defaultLanguage, p`languages, p`languageSelectors, p`translations, p`translateOnlyEmptyFields)
      ensures var p := GetCurrentProfile(); p != null && currentLanguage == null ==> r == None && p.cache == old(p.cache)
      ensures var p := GetCurrentProfile(); p != null && currentLanguage != null ==>
        p.cache == (if old(p.cache).Some? then old(p.cache) else Some(BuildIndex(p.translations))) &&
        r == TextOf(Resolve(p.cache.value, keyReference), currentLanguage)
    {
      r := GetTranslationFrom(GetCurrentProfile(), keyReference);
    }

    /** `GetTranslation(key)`: the same lookup with a reference that carries
        only the key. */
    method GetTranslationByKey(key: Option<string>) returns (r: Option<string>)
      modifies this`currentLanguage, GetCurrentProfile()
      ensures var p := GetCurrentProfile(); p == null ==> r == None && currentLanguage == old(currentLanguage)
      ensures var p := GetCurrentProfile(); p != null ==> currentLanguage == old(LanguageFor(p))
      ensures var p := GetCurrentProfile(); p != null ==>
        unchanged(p`defaultLanguage, p`languages, p`languageSelectors, p`translations, p`translateOnlyEmptyFields)
      ensures var p := GetCurrentProfile(); p != null && currentLanguage == null ==> r == None && p.cache == old(p.cache)
      ensures var p := GetCurrentProfile(); p != null && currentLanguage != null ==>
        p.cache == (if old(p.cache).Some? then old(p.cache) else Some(BuildIndex(p.translations))) &&
        r == TextOf(Resolve(p.cache.value, KeyReference(key, None)), currentLanguage)
    {
      r := GetTranslationFrom(GetCurrentProfile(), KeyReference(key, None));
    }
  }
}
