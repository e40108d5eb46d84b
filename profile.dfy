/** The localization profile: languages, translation entries, the default
    language, the selector chain, and the lookup index that is kept as a
    cache (BasicLocalizationProfile, runtime part). */
module Profiles {
  import opened Wrappers
  import opened Strings
  import opened Languages
  import opened Translations
  import opened Selectors

  /** The two dictionaries `_translationsByKey` and `_translationByGuid`. */
  datatype Index = Index(byKey: map<string, Translation>, byGuid: map<string, Translation>)

  /** The keys of the entries, in list order. */
  function KeysOf(ts: seq<Translation>): (r: seq<string>)
    ensures |r| == |ts| && forall i :: 0 <= i < |ts| ==> r[i] == ts[i].key
  {
    if ts == [] then [] else KeysOf(ts[..|ts| - 1]) + [ts[|ts| - 1].key]
  }

  /** The guids of the entries, in list order. */
  function GuidsOf(ts: seq<Translation>): (r: seq<string>)
    ensures |r| == |ts| && forall i :: 0 <= i < |ts| ==> r[i] == ts[i].guid
  {
    if ts == [] then [] else GuidsOf(ts[..|ts| - 1]) + [ts[|ts| - 1].guid]
  }

  /** The index `CacheTranslations` builds: entries are visited in list
      order and a key (a guid) is added only when it is not there yet. */
  function BuildIndex(ts: seq<Translation>): Index
    decreases |ts|
  {
    if ts == [] then Index(map[], map[])
    else
      var b := BuildIndex(ts[..|ts| - 1]);
      var t := ts[|ts| - 1];
      Index(if t.key in b.byKey then b.byKey else b.byKey[t.key := t],
            if t.guid in b.byGuid then b.byGuid else b.byGuid[t.guid := t])
  }

  lemma {:induction false} IndexOfAppend<T>(s: seq<T>, x: T, k: T)
    ensures IndexOf(s + [x], k) == if k in s then IndexOf(s, k) else if x == k then |s| else -1
  {
    if s != [] {
      assert (s + [x])[1..] == s[1..] + [x];
      IndexOfAppend(s[1..], x, k);
    }
  }

  /** First occurrence wins: the index maps every key (guid) that some entry
      carries to the first entry in list order that carries it; later
      duplicates are shadowed. */
  lemma {:induction false} BuildIndexFirstWins(ts: seq<Translation>, k: string)
    ensures k in BuildIndex(ts).byKey <==> k in KeysOf(ts)
    ensures k in KeysOf(ts) ==> BuildIndex(ts).byKey[k] == ts[IndexOf(KeysOf(ts), k)]
    ensures k in BuildIndex(ts).byGuid <==> k in GuidsOf(ts)
    ensures k in GuidsOf(ts) ==> BuildIndex(ts).byGuid[k] == ts[IndexOf(GuidsOf(ts), k)]
    decreases |ts|
  {
    if ts != [] {
      var n := |ts| - 1;
      var front := ts[..n];
      BuildIndexFirstWins(front, k);
      assert KeysOf(ts) == KeysOf(front) + [ts[n].key];
      assert GuidsOf(ts) == GuidsOf(front) + [ts[n].guid];
      IndexOfAppend(KeysOf(front), ts[n].key, k);
      IndexOfAppend(GuidsOf(front), ts[n].guid, k);
    }
  }

  /** The phrase lists of the entries, in list order. */
  function PhraseTable(ts: seq<Translation>): (r: seq<PhraseList>)
    reads ts`phrases
    ensures |r| == |ts| && forall j :: 0 <= j < |ts| ==> r[j] == ts[j].phrases
  {
    if ts == [] then [] else PhraseTable(ts[..|ts| - 1]) + [ts[|ts| - 1].phrases]
  }

  lemma {:induction false} KeysOfAppend(a: seq<Translation>, b: seq<Translation>)
    ensures KeysOf(a + b) == KeysOf(a) + KeysOf(b)
    decreases |b|
  {
    if b != [] {
      var n := |b| - 1;
      assert (a + b)[..|a| + n] == a + b[..n];
      KeysOfAppend(a, b[..n]);
    } else {
      assert a + b == a;
    }
  }

  lemma {:induction false} GuidsOfAppend(a: seq<Translation>, b: seq<Translation>)
    ensures GuidsOf(a + b) == GuidsOf(a) + GuidsOf(b)
    decreases |b|
  {
    if b != [] {
      var n := |b| - 1;
      assert (a + b)[..|a| + n] == a + b[..n];
      GuidsOfAppend(a, b[..n]);
    } else {
      assert a + b == a;
    }
  }

  lemma {:induction false} PhraseTableAppend(a: seq<Translation>, b: seq<Translation>)
    ensures PhraseTable(a + b) == PhraseTable(a) + PhraseTable(b)
    decreases |b|
  {
    if b != [] {
      var n := |b| - 1;
      assert (a + b)[..|a| + n] == a + b[..n];
      PhraseTableAppend(a, b[..n]);
    } else {
      assert a + b == a;
    }
  }

  /** Positions i and j of `s`, i before j, hold different elements. */
  ghost predicate Apart<T>(s: seq<T>, i: int, j: int) {
    0 <= i < j < |s| ==> s[i] != s[j]
  }

  /** Entries distinct as objects (the list never holds one entry twice).
      The condition is stated per pair of positions, so that a proof
      names the pair it needs. */
  ghost predicate Distinct<T>(s: seq<T>) {
    forall i, j :: Apart(s, i, j)
  }

  /** Two different positions of a list without repetitions hold
      different elements. */
  lemma DistinctAt<T>(s: seq<T>, i: int, j: int)
    requires Distinct(s) && 0 <= i < |s| && 0 <= j < |s| && i != j
    ensures s[i] != s[j]
  {
    if i < j { assert Apart(s, i, j); } else { assert Apart(s, j, i); }
  }

  /** The element at position i of a list without repetitions occurs
      nowhere else in it. */
  lemma DistinctOthers<T>(s: seq<T>, i: int)
    requires Distinct(s) && 0 <= i < |s|
    ensures forall j :: 0 <= j < |s| && j != i ==> s[j] != s[i]
  {
    forall j | 0 <= j < |s| && j != i ensures s[j] != s[i] {
      DistinctAt(s, j, i);
    }
  }

  /** Appending an element not in the list keeps it without repetitions. */
  lemma DistinctSnoc<T>(s: seq<T>, x: T)
    requires Distinct(s) && x !in s
    ensures Distinct(s + [x])
  {
    var r := s + [x];
    forall i, j ensures Apart(r, i, j) {
      if 0 <= i < j < |r| {
        if j < |s| {
          assert Apart(s, i, j);
        } else {
          assert r[i] == s[i];
        }
      }
    }
  }

  /** A prefix of a list without repetitions has none. */
  lemma DistinctPrefix<T>(s: seq<T>, n: nat)
    requires Distinct(s) && n <= |s|
    ensures Distinct(s[..n])
  {
    forall i, j ensures Apart(s[..n], i, j) {
      assert Apart(s, i, j);
    }
  }

  /** The entry a raw lookup returns from an index: null for a null or
      empty argument or a missing one. */
  function Find(m: map<string, Translation>, arg: Option<string>): Translation? {
    if !IsNullOrEmpty(arg) && arg.value in m then m[arg.value] else null
  }

  /** A by-key lookup of a key some entry carries returns the first entry
      that carries it; the empty key never resolves. */
  lemma FindPresentKey(ts: seq<Translation>, k: string)
    requires k in KeysOf(ts)
    ensures Find(BuildIndex(ts).byKey, Some(k)) == (if k == "" then null else ts[IndexOf(KeysOf(ts), k)])
  {
    BuildIndexFirstWins(ts, k);
  }

  /** The entry that a key reference resolves to against an index: a
      non-empty guid is looked up by guid, falling back to the key; an empty
      or null guid is looked up by key only. */
  function Resolve(index: Index, keyReference: KeyReference): Translation? {
    if !IsNullOrEmpty(keyReference.guid) then
      if Find(index.byGuid, keyReference.guid) != null then Find(index.byGuid, keyReference.guid)
      else Find(index.byKey, keyReference.key)
    else Find(index.byKey, keyReference.key)
  }

  /** The profile. `cache` is null until a lookup builds it and is emptied
      only by `ClearTranslationCache`. */
  class Profile {
    var defaultLanguage: Language?
    var languages: seq<Language>
    var languageSelectors: seq<LanguageSelector>
    var translations: seq<Translation>
    /** `editorData.translateOnlyEmptyFields`. */
    var translateOnlyEmptyFields: bool
    var cache: Option<Index>

    /** Every entry and every language occurs once in its list (both lists
        only ever receive fresh objects). */
    ghost predicate Valid()
      reads this
    {
      Distinct(translations) && Distinct(languages)
    }

    /** `BasicLocalizationProfile.Create`: empty lists, the default selector
        chain, no default language, no index. */
    constructor Create()
      ensures Valid()
      ensures languages == [] && translations == [] && defaultLanguage == null
      ensures languageSelectors == DefaultSelectors && translateOnlyEmptyFields && cache == None
    {
      defaultLanguage := null;
      languages := [];
      languageSelectors := DefaultSelectors;
      translations := [];
      translateOnlyEmptyFields := true;
      cache := None;
    }

    /** `CacheTranslations`: builds the index when there is none and leaves
        an existing one, however stale, untouched. */
    method CacheTranslations()
      modifies this`cache
      ensures cache == if old(cache).Some? then old(cache) else Some(BuildIndex(translations))
    {
      if cache.None? {
        var byKey: map<string, Translation> := map[];
        var byGuid: map<string, Translation> := map[];
        var i := 0;
        while i < |translations|
          invariant 0 <= i <= |translations|
          invariant Index(byKey, byGuid) == BuildIndex(translations[..i])
        {
          var t := translations[i];
          assert translations[..i + 1][..i] == translations[..i];
          if t.key !in byKey {
            byKey := byKey[t.key := t];
          }
          if t.guid !in byGuid {
            byGuid := byGuid[t.guid := t];
          }
          i := i + 1;
        }
        assert translations[..i] == translations;
        cache := Some(Index(byKey, byGuid));
      }
    }

    /** `ClearTranslationCache`: drops the index (inside the import, and from
        the editor's delayed callback). */
    method ClearTranslationCache()
      modifies this`cache
      ensures cache == None
    {
      cache := None;
    }

    /** `GetTranslationRawByGuid(guid)`: builds the index if needed; returns
        the indexed entry, null for a null or empty guid or an unknown one. */
    method GetTranslationRawByGuid(guid: Option<string>) returns (t: Translation?)
      modifies this`cache
      ensures cache == if old(cache).Some? then old(cache) else Some(BuildIndex(translations))
      ensures t == Find(cache.value.byGuid, guid)
      ensures IsNullOrEmpty(guid) ==> t == null
    {
      CacheTranslations();
      if !IsNullOrEmpty(guid) && guid.value in cache.value.byGuid {
        return cache.value.byGuid[guid.value];
      }
      return null;
    }

    /** `GetTranslationRawByKey(key)`: as above, by key. */
    method GetTranslationRawByKey(key: Option<string>) returns (t: Translation?)
      modifies this`cache
      ensures cache == if old(cache).Some? then old(cache) else Some(BuildIndex(translations))
      ensures t == Find(cache.value.byKey, key)
      ensures IsNullOrEmpty(key) ==> t == null
    {
      CacheTranslations();
      if !IsNullOrEmpty(key) && key.value in cache.value.byKey {
        return cache.value.byKey[key.value];
      }
      return null;
    }

    /** `GetTranslation(language, keyReference)`: null for a null language
        (the index is not even touched then); otherwise the text of the entry
        the reference resolves to (guid first, then key), null if none. The
        reference is a value and is not changed. */
    method GetTranslationByReference(language: Language?, keyReference: KeyReference) returns (r: Option<string>)
      modifies this`cache
      ensures language == null ==> r == None && cache == old(cache)
      ensures language != null ==> cache == if old(cache).Some? then old(cache) else Some(BuildIndex(translations))
      ensures language != null ==>
        var t := Resolve(cache.value, keyReference);
        r == if t == null then None else t.GetTranslation(language)
    {
      if language == null {
        return None;
      }
      var translation: Translation?;
      if !IsNullOrEmpty(keyReference.guid) {
        translation := GetTranslationRawByGuid(keyReference.guid);
        if translation == null {
          translation := GetTranslationRawByKey(keyReference.key);
        }
      } else {
        translation := GetTranslationRawByKey(keyReference.key);
      }
      if translation != null {
        return translation.GetTranslation(language);
      }
      return None;
    }

    /** `GetTranslation(language, key)`: the text of the entry found by key,
        null if there is none; a null language yields null through the
        entry's own lookup. */
    method GetTranslationByKey(language: Language?, key: Option<string>) returns (r: Option<string>)
      modifies this`cache
      ensures cache == if old(cache).Some? then old(cache) else Some(BuildIndex(translations))
      ensures var t := Find(cache.value.byKey, key);
        r == if t == null then None else t.GetTranslation(language)
    {
      var translation := GetTranslationRawByKey(key);
      if translation != null {
        return translation.GetTranslation(language);
      }
      return None;
    }

    /** `GetLanguageByLanguageId(id)`: the first language with that id;
        null for a null or empty id or when none has it. */
    function GetLanguageByLanguageId(languageId: Option<string>): (r: Language?)
      reads this
      ensures IsNullOrEmpty(languageId) || languageId.value !in IdsOf(languages) ==> r == null
      ensures !IsNullOrEmpty(languageId) && languageId.value in IdsOf(languages) ==>
        r == languages[IndexOf(IdsOf(languages), languageId.value)]
      ensures r != null ==> r in languages && Some(r.id) == languageId
    {
      if IsNullOrEmpty(languageId) then null else FindById(languages, languageId.value)
    }
  }

  /** The ids of a language list, in list order. */
  function IdsOf(ls: seq<Language>): (r: seq<string>)
    ensures |r| == |ls| && forall i :: 0 <= i < |ls| ==> r[i] == ls[i].id
  {
    seq(|ls|, i requires 0 <= i < |ls| => ls[i].id)
  }

  /** The scan of GetLanguageByLanguageId over a language list: the first
      language carrying the id, null when none does. */
  function FindById(ls: seq<Language>, id: string): (r: Language?)
    ensures r == if id in IdsOf(ls) then ls[IndexOf(IdsOf(ls), id)] else null
  {
    if ls == [] then null
    else if id == ls[0].id then
      assert IdsOf(ls)[0] == id;
      ls[0]
    else
      assert IdsOf(ls) == [ls[0].id] + IdsOf(ls[1..]);
      FindById(ls[1..], id)
  }

  /** With a freshly built index, a key reference resolves to the first
      entry carrying its guid when there is one, else to the first entry
      carrying its key. */
  lemma ResolveFresh(ts: seq<Translation>, keyReference: KeyReference)
    ensures var g := keyReference.guid; var k := keyReference.key;
      var byGuid := if !IsNullOrEmpty(g) && g.value in GuidsOf(ts) then ts[IndexOf(GuidsOf(ts), g.value)] else null;
      var byKey := if !IsNullOrEmpty(k) && k.value in KeysOf(ts) then ts[IndexOf(KeysOf(ts), k.value)] else null;
      Resolve(BuildIndex(ts), keyReference) == if byGuid != null then byGuid else byKey
  {
    if keyReference.guid.Some? {
      BuildIndexFirstWins(ts, keyReference.guid.value);
    }
    if keyReference.key.Some? {
      BuildIndexFirstWins(ts, keyReference.key.value);
    }
  }

  /** The guid is a stable identity: with a fresh index, a reference with the
      guid of an entry whose guid is unique resolves to that entry whatever
      its key says (so renaming the entry's key does not break it). */
  lemma GuidSurvivesRename(ts: seq<Translation>, i: nat, staleKey: Option<string>)
    requires i < |ts| && ts[i].guid != ""
    requires forall j :: 0 <= j < |ts| && j != i ==> ts[j].guid != ts[i].guid
    ensures Resolve(BuildIndex(ts), KeyReference(staleKey, Some(ts[i].guid))) == ts[i]
  {
    BuildIndexFirstWins(ts, ts[i].guid);
    assert GuidsOf(ts)[i] == ts[i].guid;
  }
}
