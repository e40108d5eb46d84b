/** The inspector field of a key reference
    (BasicLocalizationKeyReferencePropertyDrawer): each repaint heals the
    stored key and guid against the current profile, a key edit or a picked
    suggestion clears the guid, the suggestion menu filters the entries, and
    the preview picks which phrase to show. */
module KeyReferenceDrawing {
  import opened Wrappers
  import opened Strings
  import opened Languages
  import opened Translations
  import opened Profiles

  /** At most this many suggestions are listed. */
  const MaxSuggestCount: nat := 100

  /** The outcome of the healing step: the new key and guid, and the entry
      the field shows (null when nothing resolved). */
  datatype Healing = Healing(reference: KeyReference, translation: Translation?)

  /** The healing rule of `OnGUI`, against the index the raw lookups use
      (`None` when there is no profile, so every lookup is null). The entry
      shown is the one the runtime lookup returns for the stored reference;
      the stored reference is rewritten according to how it resolved. */
  function Heal(index: Option<Index>, ref: KeyReference): (h: Healing)
    ensures index.None? ==> h.translation == null
    ensures index.Some? ==> h.translation == Resolve(index.value, ref)
    // Unresolved: a non-empty guid is kept as it is, an empty one is nulled.
    ensures h.translation == null ==>
      h.reference == KeyReference(ref.key, if IsNullOrEmpty(ref.guid) then None else ref.guid)
    // Resolved by guid: the key follows the entry, the guid stays.
    ensures h.translation != null && !IsNullOrEmpty(ref.guid) && index.Some? && Find(index.value.byGuid, ref.guid) != null ==>
      h.reference == KeyReference(Some(h.translation.key), ref.guid)
    // A stale guid resolved by key: the guid field receives the key text.
    ensures h.translation != null && !IsNullOrEmpty(ref.guid) && index.Some? && Find(index.value.byGuid, ref.guid) == null ==>
      h.reference == KeyReference(ref.key, ref.key)
    // No guid, resolved by key: the entry's guid is stored.
    ensures h.translation != null && IsNullOrEmpty(ref.guid) ==>
      h.reference == KeyReference(ref.key, Some(h.translation.guid))
  {
    var byGuid := if index.None? then null else Find(index.value.byGuid, ref.guid);
    var byKey := if index.None? then null else Find(index.value.byKey, ref.key);
    if !IsNullOrEmpty(ref.guid) then
      if byGuid != null then Healing(KeyReference(Some(byGuid.key), ref.guid), byGuid)
      else if byKey != null then Healing(KeyReference(ref.key, ref.key), byKey)
      else Healing(ref, null)
    else
      Healing(KeyReference(ref.key, if byKey == null then None else Some(byKey.guid)), byKey)
  }

  /** With a freshly built index whose guids are unique and non-empty, and
      no key that is also some entry's guid, healing a second time changes
      nothing. */
  lemma HealIdempotent(ts: seq<Translation>, ref: KeyReference)
    requires forall i, j :: 0 <= i < j < |ts| ==> ts[i].guid != ts[j].guid
    requires forall i :: 0 <= i < |ts| ==> ts[i].guid != ""
    requires forall i, j :: 0 <= i < |ts| && 0 <= j < |ts| ==> ts[i].key != ts[j].guid
    ensures var once := Heal(Some(BuildIndex(ts)), ref);
      Heal(Some(BuildIndex(ts)), once.reference) == once
  {
    var index := BuildIndex(ts);
    if !IsNullOrEmpty(ref.guid) {
      if Find(index.byGuid, ref.guid) == null && Find(index.byKey, ref.key) != null {
        StaleGuidNotAGuid(ts, ref.key.value);
      }
    } else if Find(index.byKey, ref.key) != null {
      StoredGuidFindsEntry(ts, ref.key.value);
    }
  }

  /** A key that resolves is no entry's guid. */
  lemma StaleGuidNotAGuid(ts: seq<Translation>, k: string)
    requires forall i, j :: 0 <= i < |ts| && 0 <= j < |ts| ==> ts[i].key != ts[j].guid
    requires Find(BuildIndex(ts).byKey, Some(k)) != null
    ensures Find(BuildIndex(ts).byGuid, Some(k)) == null
  {
    BuildIndexFirstWins(ts, k);
    var i := IndexOf(KeysOf(ts), k);
    assert ts[i].key == k;
    assert k !in GuidsOf(ts) by {
      forall j | 0 <= j < |ts|
        ensures GuidsOf(ts)[j] != k
      {
        assert ts[i].key != ts[j].guid;
      }
    }
  }

  /** With unique guids, the guid of the entry a key resolves to resolves
      back to that entry. */
  lemma StoredGuidFindsEntry(ts: seq<Translation>, k: string)
    requires forall i, j :: 0 <= i < j < |ts| ==> ts[i].guid != ts[j].guid
    requires forall i :: 0 <= i < |ts| ==> ts[i].guid != ""
    requires Find(BuildIndex(ts).byKey, Some(k)) != null
    ensures var t := Find(BuildIndex(ts).byKey, Some(k));
      t.key == k && Find(BuildIndex(ts).byGuid, Some(t.guid)) == t
  {
    BuildIndexFirstWins(ts, k);
    var i := IndexOf(KeysOf(ts), k);
    var t := ts[i];
    assert t.key == k;
    BuildIndexFirstWins(ts, t.guid);
    assert GuidsOf(ts)[i] == t.guid;
    var g := IndexOf(GuidsOf(ts), t.guid);
    assert ts[g].guid == t.guid;
    if g != i {
      assert false;
    }
  }

  /** The serialized `key` and `guid` of the reference being drawn. */
  class KeyReferenceField {
    var key: Option<string>
    var guid: Option<string>

    constructor Create(key: Option<string>, guid: Option<string>)
      ensures this.key == key && this.guid == guid
    {
      this.key := key;
      this.guid := guid;
    }

    function Value(): KeyReference
      reads this
    {
      KeyReference(key, guid)
    }

    /** The user typed `text` into the key field: the guid is reset, so the
        next repaint resolves by the new key. */
    method EditKey(text: string)
      modifies this
      ensures key == Some(text) && guid == None
    {
      key := Some(text);
      guid := None;
    }

    /** A suggestion was picked: its key is taken and the guid cleared. */
    method PickSuggestion(t: Translation)
      modifies this
      ensures key == Some(t.key) && guid == None
    {
      key := Some(t.key);
      guid := None;
    }
  }

  /** After a key edit or a pick, the next repaint stores the guid of the
      entry the key resolves to, or none. */
  lemma HealAfterEdit(index: Index, text: string)
    ensures var h := Heal(Some(index), KeyReference(Some(text), None));
      h.translation == Find(index.byKey, Some(text)) &&
      h.reference.guid == (if h.translation == null then None else Some(h.translation.guid))
  {
  }

  /** The key-filter test of the suggestion loop: with no typed text every
      entry is listed, otherwise those whose key contains it, compared after
      the case folding of the current culture. */
  predicate Suggested(t: Translation, keyValue: Option<string>, fold: string -> string) {
    IsNullOrEmpty(keyValue) || Contains(fold(t.key), fold(keyValue.value))
  }

  /** The entries passing the filter, in profile order. */
  function Matching(ts: seq<Translation>, keyValue: Option<string>, fold: string -> string): (r: seq<Translation>)
    ensures |r| <= |ts|
    decreases |ts|
  {
    if ts == [] then []
    else
      var prior := Matching(ts[..|ts| - 1], keyValue, fold);
      if Suggested(ts[|ts| - 1], keyValue, fold) then prior + [ts[|ts| - 1]] else prior
  }

  /** Exactly the entries passing the filter are listed. */
  lemma {:induction false} MatchingMembers(ts: seq<Translation>, keyValue: Option<string>, fold: string -> string, t: Translation)
    ensures t in Matching(ts, keyValue, fold) <==> t in ts && Suggested(t, keyValue, fold)
    decreases |ts|
  {
    if ts != [] {
      MatchingMembers(ts[..|ts| - 1], keyValue, fold, t);
      assert ts == ts[..|ts| - 1] + [ts[|ts| - 1]];
    }
  }

  /** With no typed text every entry passes. */
  lemma {:induction false} MatchingAllWhenEmpty(ts: seq<Translation>, keyValue: Option<string>, fold: string -> string)
    requires IsNullOrEmpty(keyValue)
    ensures Matching(ts, keyValue, fold) == ts
    decreases |ts|
  {
    if ts != [] {
      MatchingAllWhenEmpty(ts[..|ts| - 1], keyValue, fold);
      assert ts == ts[..|ts| - 1] + [ts[|ts| - 1]];
    }
  }

  /** The menu of `DrawSuggest`: no entries without a profile; otherwise
      the first `MaxSuggestCount` entries that pass the filter. */
  function SuggestionList(profile: Profile?, keyValue: Option<string>, fold: string -> string): (r: seq<Translation>)
    reads profile
    ensures |r| <= MaxSuggestCount
    ensures profile == null ==> r == []
    ensures profile != null ==> r == Matching(profile.translations, keyValue, fold)[..Min(|Matching(profile.translations, keyValue, fold)|, MaxSuggestCount)]
  {
    if profile == null then []
    else
      var m := Matching(profile.translations, keyValue, fold);
      m[..Min(|m|, MaxSuggestCount)]
  }

  function Min(a: nat, b: nat): nat {
    if a < b then a else b
  }

  /** The suggestion loop: it counts the listed entries and stops at the
      cap. */
  method Suggest(profile: Profile?, keyValue: Option<string>, fold: string -> string) returns (items: seq<Translation>)
    ensures items == SuggestionList(profile, keyValue, fold)
  {
    items := [];
    if profile == null {
      return;
    }
    var ts := profile.translations;
    var i := 0;
    while i < |ts|
      invariant 0 <= i <= |ts|
      invariant |items| < MaxSuggestCount
      invariant items == Matching(ts[..i], keyValue, fold)
    {
      assert ts[..i + 1][..i] == ts[..i];
      if Suggested(ts[i], keyValue, fold) {
        items := items + [ts[i]];
        if |items| >= MaxSuggestCount {
          MatchingCapped(ts, i + 1, keyValue, fold);
          return;
        }
      }
      i := i + 1;
    }
    assert ts[..i] == ts;
  }

  /** Once the filter of a prefix reaches the cap, the capped filter of the
      whole list is that prefix's filter. */
  lemma MatchingCapped(ts: seq<Translation>, n: nat, keyValue: Option<string>, fold: string -> string)
    requires n <= |ts| && |Matching(ts[..n], keyValue, fold)| == MaxSuggestCount
    ensures |Matching(ts, keyValue, fold)| >= MaxSuggestCount &&
      Matching(ts, keyValue, fold)[..MaxSuggestCount] == Matching(ts[..n], keyValue, fold)
  {
    assert ts == ts[..n] + ts[n..];
    MatchingAppend(ts[..n], ts[n..], keyValue, fold);
  }

  /** Filtering distributes over concatenation. */
  lemma {:induction false} MatchingAppend(a: seq<Translation>, b: seq<Translation>, keyValue: Option<string>, fold: string -> string)
    ensures Matching(a + b, keyValue, fold) == Matching(a, keyValue, fold) + Matching(b, keyValue, fold)
    decreases |b|
  {
    if b == [] {
      assert a + b == a;
    } else {
      var b', x := b[..|b| - 1], b[|b| - 1];
      MatchingAppend(a, b', keyValue, fold);
      assert (a + b)[..|a + b| - 1] == a + b' && (a + b)[|a + b| - 1] == x;
      var tail := if Suggested(x, keyValue, fold) then [x] else [];
      assert Matching(a + b, keyValue, fold) == Matching(a + b', keyValue, fold) + tail;
      assert Matching(b, keyValue, fold) == Matching(b', keyValue, fold) + tail;
      assert (Matching(a, keyValue, fold) + Matching(b', keyValue, fold)) + tail ==
        Matching(a, keyValue, fold) + (Matching(b', keyValue, fold) + tail);
    }
  }

  /** The id each phrase shows in the preview popup (`_sLanguages`), null
      for a phrase without a language. */
  function PhraseLanguageIds(ps: seq<Phrase>): (r: seq<Option<string>>)
    ensures |r| == |ps| && forall i :: 0 <= i < |ps| ==> r[i] == (if ps[i].language == null then None else Some(ps[i].language.id))
  {
    seq(|ps|, i requires 0 <= i < |ps| => if ps[i].language == null then None else Some(ps[i].language.id))
  }

  /** The preview's phrase choice: a selection that is -1 or past the end is
      replaced by the position of the default language's id among the
      phrase ids, or 0 when there is no default or it has no phrase. */
  function PreviewIndex(selected: int, ids: seq<Option<string>>, default: Option<string>): (r: int)
    requires |ids| > 0
    ensures selected != -1 && selected < |ids| ==> r == selected
    ensures (selected == -1 || selected >= |ids|) ==> 0 <= r < |ids|
    ensures (selected == -1 || selected >= |ids|) && default.Some? && Some(default.value) in ids ==>
      ids[r] == Some(default.value) && Some(default.value) !in ids[..r]
    ensures (selected == -1 || selected >= |ids|) && (default.None? || Some(default.value) !in ids) ==> r == 0
  {
    if selected == -1 || selected >= |ids| then
      if default.None? then 0
      else
        var k := IndexOf(ids, Some(default.value));
        if k == -1 then 0 else k
    else selected
  }

  /** The loop filling `_sLanguages`. */
  method CollectPhraseIds(ps: seq<Phrase>) returns (languages: seq<Option<string>>)
    ensures languages == PhraseLanguageIds(ps)
  {
    languages := [];
    var i := 0;
    while i < |ps|
      invariant 0 <= i <= |ps|
      invariant languages == PhraseLanguageIds(ps)[..i]
    {
      languages := languages + [if ps[i].language == null then None else Some(ps[i].language.id)];
      i := i + 1;
    }
  }

  class KeyReferenceDrawer {
    /** `_selectedLanguage`: the phrase shown in the preview. */
    var selectedLanguage: int

    constructor Create()
      ensures selectedLanguage == -1
    {
      selectedLanguage := -1;
    }

    /** The healing step of `OnGUI`: the raw lookups build the index when
        the profile has none; the field receives the healed key and guid,
        and the entry to preview is returned. */
    method HealField(profile: Profile?, field: KeyReferenceField) returns (translation: Translation?)
      modifies field, profile
      ensures profile != null ==> unchanged(profile`defaultLanguage, profile`languages, profile`languageSelectors, profile`translations, profile`translateOnlyEmptyFields)
      ensures profile != null ==> profile.cache == if old(profile.cache).Some? then old(profile.cache) else Some(BuildIndex(profile.translations))
      ensures var h := Heal(if profile == null then None else profile.cache, old(field.Value()));
        field.Value() == h.reference && translation == h.translation
    {
      var dontChangeValues := false;
      if !IsNullOrEmpty(field.guid) {
        translation := null;
        if profile != null {
          translation := profile.GetTranslationRawByGuid(field.guid);
        }
        if translation == null {
          if profile != null {
            translation := profile.GetTranslationRawByKey(field.key);
          }
          if translation == null {
            dontChangeValues := true;
          } else {
            field.guid := field.key;
          }
        } else {
          field.key := Some(translation.key);
        }
      } else {
        translation := null;
        if profile != null {
          translation := profile.GetTranslationRawByKey(field.key);
        }
        field.guid := if translation == null then None else Some(translation.guid);
      }
      if translation == null && !dontChangeValues {
        field.guid := None;
      }
    }

    /** The default-index choice of `DrawTranslation`: nothing without an
        entry, a phrase or a profile; otherwise `PreviewIndex` over the
        phrase ids with the profile's default language. */
    method ChoosePreview(profile: Profile?, translation: Translation?)
      modifies this`selectedLanguage
      ensures translation == null || translation.phrases.None? || |translation.phrases.value| == 0 || profile == null ==>
        selectedLanguage == old(selectedLanguage)
      ensures translation != null && translation.phrases.Some? && |translation.phrases.value| > 0 && profile != null ==>
        selectedLanguage == PreviewIndex(old(selectedLanguage), PhraseLanguageIds(translation.phrases.value),
                                         if profile.defaultLanguage == null then None else Some(profile.defaultLanguage.id))
    {
      if translation == null || translation.phrases.None? || |translation.phrases.value| <= 0 || profile == null {
        return;
      }
      var ps := translation.phrases.value;
      var languages := CollectPhraseIds(ps);
      if selectedLanguage == -1 || selectedLanguage >= |ps| {
        if profile.defaultLanguage == null {
          selectedLanguage := 0;
        } else {
          selectedLanguage := IndexOf(languages, Some(profile.defaultLanguage.id));
          if selectedLanguage == -1 {
            selectedLanguage := 0;
          }
        }
      }
    }
  }
}
