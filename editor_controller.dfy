/** The logic of the profile editor window
    (BasicLocalizationProfileEditorController): which language columns of
    the translation table are visible, which rows a search keeps, and how
    the default-language popup maps to the profile's default. */
module ProfileEditorControl {
  import opened Wrappers
  import opened Strings
  import opened Languages
  import opened Translations
  import opened Profiles

  // ---------------------------------------------------------------------
  // The language visibility mask
  // ---------------------------------------------------------------------

  /** Visibility of `language` under a mask: everything is visible without
      a mask, otherwise only a listed language whose flag is set. */
  predicate VisibleIn(mask: Option<map<Language, bool>>, language: Language) {
    mask.None? || (language in mask.value && mask.value[language])
  }

  /** The languages whose flag is set. */
  function Shown(m: map<Language, bool>): set<Language> {
    set l | l in m && m[l]
  }

  /** The count `GetVisibileCount` reports: -1 without a mask, otherwise
      the number of set flags. */
  function VisibleCount(mask: Option<map<Language, bool>>): (r: int)
    ensures mask.None? <==> r == -1
    ensures mask.Some? ==> 0 <= r <= |mask.value.Keys|
  {
    if mask.None? then -1
    else
      assert Shown(mask.value) <= mask.value.Keys;
      SubsetCard(Shown(mask.value), mask.value.Keys);
      |Shown(mask.value)|
  }

  lemma SubsetCard<T>(a: set<T>, b: set<T>)
    requires a <= b
    ensures |a| <= |b|
  {
    assert b == a + (b - a);
  }

  /** The mask `Recreate` builds from a non-empty list: exactly the listed
      languages, each keeping its flag from the previous mask and visible
      when new. */
  function Recreated(previous: Option<map<Language, bool>>, ls: seq<Language>): (r: map<Language, bool>)
    ensures r.Keys == set l | l in ls
  {
    map l | l in ls :: if previous.Some? && l in previous.value then previous.value[l] else true
  }

  lemma RecreatedSnoc(previous: Option<map<Language, bool>>, ls: seq<Language>, l: Language)
    ensures Recreated(previous, ls + [l]) ==
      Recreated(previous, ls)[l := if previous.Some? && l in previous.value then previous.value[l] else true]
  {
    var a := Recreated(previous, ls + [l]);
    var b := Recreated(previous, ls)[l := if previous.Some? && l in previous.value then previous.value[l] else true];
    assert a.Keys == b.Keys;
    forall k | k in a.Keys
      ensures a[k] == b[k]
    {
    }
  }

  /** After `Recreate`, a listed language keeps the visibility it had
      before (a new one is visible), and an unlisted one is hidden. */
  lemma RecreateKeepsVisibility(previous: Option<map<Language, bool>>, ls: seq<Language>, l: Language)
    ensures l in ls ==> (VisibleIn(Some(Recreated(previous, ls)), l) <==>
                          previous.None? || l !in previous.value || previous.value[l])
    ensures l in ls && previous.Some? && l in previous.value ==>
      VisibleIn(Some(Recreated(previous, ls)), l) == VisibleIn(previous, l)
    ensures l !in ls ==> !VisibleIn(Some(Recreated(previous, ls)), l)
  {
  }

  /** A mask with every flag set to `value` over the same languages. */
  function AllFlags(keys: set<Language>, value: bool): (r: map<Language, bool>)
    ensures r.Keys == keys
  {
    map l | l in keys :: value
  }

  /** Showing all makes every masked language visible and the count the
      number of languages; hiding all makes every language hidden and the
      count zero. */
  lemma AllFlagsCount(keys: set<Language>)
    ensures VisibleCount(Some(AllFlags(keys, true))) == |keys|
    ensures VisibleCount(Some(AllFlags(keys, false))) == 0
    ensures forall l :: l in keys ==> VisibleIn(Some(AllFlags(keys, true)), l)
    ensures forall l :: !VisibleIn(Some(AllFlags(keys, false)), l)
  {
    assert Shown(AllFlags(keys, true)) == keys;
    assert Shown(AllFlags(keys, false)) == {};
  }

  /** `LanguageVisibilityMask`: `_mask` is null (None) until languages are
      known. */
  class LanguageVisibilityMask {
    var mask: Option<map<Language, bool>>

    constructor Create()
      ensures mask == None
    {
      mask := None;
    }

    function IsVisible(language: Language): (r: bool)
      reads this
      ensures mask.None? ==> r
      ensures mask.Some? && language !in mask.value ==> !r
      ensures r <==> VisibleIn(mask, language)
    {
      mask.None? || (language in mask.value && mask.value[language])
    }

    /** The counting loop over the mask's pairs. */
    method GetVisibleCount() returns (count: int)
      ensures count == VisibleCount(mask)
    {
      if mask.None? {
        return -1;
      }
      var m := mask.value;
      var remaining := m.Keys;
      count := 0;
      while remaining != {}
        invariant remaining <= m.Keys
        invariant count == |Shown(m) - remaining|
        decreases |remaining|
      {
        var l :| l in remaining;
        if m[l] {
          assert Shown(m) - (remaining - {l}) == (Shown(m) - remaining) + {l};
          count := count + 1;
        } else {
          assert Shown(m) - (remaining - {l}) == Shown(m) - remaining;
        }
        remaining := remaining - {l};
      }
    }

    /** Only a language already in the mask changes flag. */
    method SetVisibility(language: Language, value: bool)
      modifies this
      ensures old(mask).Some? && language in old(mask).value ==> mask == Some(old(mask).value[language := value])
      ensures old(mask).None? || language !in old(mask).value ==> mask == old(mask)
    {
      if mask.Some? && language in mask.value {
        mask := Some(mask.value[language := value]);
      }
    }

    /** A null or empty list removes the mask; otherwise the mask is rebuilt
        over exactly the listed languages (adding a language twice throws
        in the source, so the list is one of distinct languages). */
    method Recreate(languages: seq<Language>)
      requires forall i, j :: 0 <= i < j < |languages| ==> languages[i] != languages[j]
      modifies this
      ensures |languages| == 0 ==> mask == None
      ensures |languages| > 0 ==> mask == Some(Recreated(old(mask), languages))
    {
      if |languages| <= 0 {
        mask := None;
        return;
      }
      var oldMask := mask;
      var m: map<Language, bool> := map[];
      var i := 0;
      while i < |languages|
        invariant 0 <= i <= |languages|
        invariant m == Recreated(oldMask, languages[..i])
      {
        var language := languages[i];
        assert languages[..i + 1] == languages[..i] + [language];
        RecreatedSnoc(oldMask, languages[..i], language);
        if oldMask.Some? && language in oldMask.value {
          m := m[language := oldMask.value[language]];
        } else {
          m := m[language := true];
        }
        i := i + 1;
      }
      assert languages[..i] == languages;
      mask := Some(m);
    }

    /** Every flag becomes true; the language set is unchanged. */
    method ShowAll()
      modifies this
      ensures old(mask).None? ==> mask == None
      ensures old(mask).Some? ==> mask == Some(AllFlags(old(mask).value.Keys, true))
    {
      SetAll(true);
    }

    /** Every flag becomes false; the language set is unchanged. */
    method HideAll()
      modifies this
      ensures old(mask).None? ==> mask == None
      ensures old(mask).Some? ==> mask == Some(AllFlags(old(mask).value.Keys, false))
    {
      SetAll(false);
    }

    /** The loop shared by `ShowAll` and `HideAll` over a copy of the keys. */
    method SetAll(value: bool)
      modifies this
      ensures old(mask).None? ==> mask == None
      ensures old(mask).Some? ==> mask == Some(AllFlags(old(mask).value.Keys, value))
    {
      if mask.None? {
        return;
      }
      var keys := mask.value.Keys;
      var remaining := keys;
      while remaining != {}
        invariant remaining <= keys
        invariant mask.Some? && mask.value.Keys == keys
        invariant forall l :: l in keys - remaining ==> mask.value[l] == value
        invariant forall l :: l in remaining ==> mask.value[l] == old(mask).value[l]
        decreases |remaining|
      {
        var l :| l in remaining;
        mask := Some(mask.value[l := value]);
        remaining := remaining - {l};
      }
      assert mask.value == AllFlags(keys, value);
    }
  }

  // ---------------------------------------------------------------------
  // Row filtering of the translation table
  // ---------------------------------------------------------------------

  /** The search after `Trim`; a null search stays null. */
  function TrimmedSearch(search: Option<string>): Option<string> {
    if search.None? then None else Some(Trim(search.value))
  }

  /** A row is kept when the trimmed search is empty or the entry's key
      contains it, compared after the current culture's case folding. */
  predicate Kept(t: Translation, search: Option<string>, fold: string -> string) {
    IsNullOrEmpty(search) || Contains(fold(t.key), fold(search.value))
  }

  /** The ids of the kept rows. */
  function RowIds(ts: seq<Translation>, search: Option<string>, fold: string -> string): (r: seq<int>)
    ensures |r| <= |ts|
    ensures forall k :: 0 <= k < |r| ==> 0 <= r[k] < |ts|
    decreases |ts|
  {
    if ts == [] then []
    else
      var prior := RowIds(ts[..|ts| - 1], search, fold);
      if Kept(ts[|ts| - 1], search, fold) then prior + [|ts| - 1] else prior
  }

  lemma RowIdsSnoc(ts: seq<Translation>, i: nat, search: Option<string>, fold: string -> string)
    requires i < |ts|
    ensures RowIds(ts[..i + 1], search, fold) ==
      RowIds(ts[..i], search, fold) + (if Kept(ts[i], search, fold) then [i] else [])
  {
    assert ts[..i + 1][..i] == ts[..i];
  }

  /** The rows are exactly the kept entries' indices, in ascending order. */
  lemma {:induction false} RowIdsExact(ts: seq<Translation>, search: Option<string>, fold: string -> string)
    ensures forall i :: i in RowIds(ts, search, fold) <==> 0 <= i < |ts| && Kept(ts[i], search, fold)
    ensures forall a, b :: 0 <= a < b < |RowIds(ts, search, fold)| ==> RowIds(ts, search, fold)[a] < RowIds(ts, search, fold)[b]
    decreases |ts|
  {
    if ts != [] {
      var ts' := ts[..|ts| - 1];
      RowIdsExact(ts', search, fold);
      var prior := RowIds(ts', search, fold);
      forall i
        ensures i in RowIds(ts, search, fold) <==> 0 <= i < |ts| && Kept(ts[i], search, fold)
      {
        if 0 <= i < |ts'| {
          assert ts'[i] == ts[i];
        }
      }
    }
  }

  /** An empty search keeps every row. */
  lemma {:induction false} RowIdsAllWhenEmpty(ts: seq<Translation>, search: Option<string>, fold: string -> string)
    requires IsNullOrEmpty(search)
    ensures |RowIds(ts, search, fold)| == |ts|
    ensures forall k :: 0 <= k < |ts| ==> RowIds(ts, search, fold)[k] == k
    decreases |ts|
  {
    if ts != [] {
      RowIdsAllWhenEmpty(ts[..|ts| - 1], search, fold);
    }
  }

  /** A search that is only white space keeps every row. */
  lemma BlankSearchKeepsAll(search: string, t: Translation, fold: string -> string)
    requires forall k :: 0 <= k < |search| ==> IsWhiteSpace(search[k])
    ensures Kept(t, TrimmedSearch(Some(search)), fold)
  {
    TrimBlank(search);
  }

  /** `BuildRows`: no rows without a profile or without entries; otherwise
      the kept indices (the reuse of cached row objects is not modelled). */
  method BuildRows(profile: Profile?, searchString: Option<string>, fold: string -> string) returns (ids: seq<int>)
    ensures profile == null ==> ids == []
    ensures profile != null ==> ids == RowIds(profile.translations, TrimmedSearch(searchString), fold)
  {
    if profile == null || |profile.translations| <= 0 {
      return [];
    }
    var ts := profile.translations;
    ids := [];
    var i := 0;
    while i < |ts|
      invariant 0 <= i <= |ts|
      invariant ids == RowIds(ts[..i], TrimmedSearch(searchString), fold)
    {
      var search := TrimmedSearch(searchString);
      RowIdsSnoc(ts, i, search, fold);
      var add := true;
      if !IsNullOrEmpty(search) {
        add := Contains(fold(ts[i].key), fold(search.value));
      }
      if add {
        ids := ids + [i];
      }
      i := i + 1;
    }
    assert ts[..i] == ts;
  }

  // ---------------------------------------------------------------------
  // The default-language popup
  // ---------------------------------------------------------------------

  /** The option shown selected: "Unknown" (0) for an unset or unlisted
      default, otherwise one past the default's position. */
  function DefaultPopupIndex(ls: seq<Language>, default: Language?): (r: nat)
    ensures r <= |ls|
    ensures r == 0 <==> default == null || default !in ls
    ensures r > 0 ==> ls[r - 1] == default && default !in ls[..r - 1]
  {
    if default == null then 0 else IndexOf(ls, default) + 1
  }

  /** The default a chosen option stands for: 0 (and -1) for none. */
  function DefaultFromPopup(ls: seq<Language>, index: int): (r: Language?)
    requires -1 <= index <= |ls|
    ensures index <= 0 <==> r == null
    ensures index > 0 ==> r == ls[index - 1]
  {
    if index == 0 || index == -1 then null else ls[index - 1]
  }

  /** Re-choosing the option that is shown keeps a listed default and
      clears an unlisted one. */
  lemma PopupKeepsDefault(ls: seq<Language>, default: Language?)
    ensures DefaultFromPopup(ls, DefaultPopupIndex(ls, default)) == if default in ls then default else null
  {
  }

  /** With distinct languages, the option chosen is the one shown next. */
  lemma PopupShowsChoice(ls: seq<Language>, index: int)
    requires forall i, j :: 0 <= i < j < |ls| ==> ls[i] != ls[j]
    requires 0 <= index <= |ls|
    ensures DefaultPopupIndex(ls, DefaultFromPopup(ls, index)) == index
  {
    if index > 0 {
      var r := DefaultPopupIndex(ls, ls[index - 1]);
      assert ls[r - 1] == ls[index - 1];
      assert forall j :: 0 <= j < r - 1 ==> ls[..r - 1][j] == ls[j];
    }
  }

  /** The option labels: "Unknown" followed by the language ids. */
  method PopupLabels(ls: seq<Language>) returns (names: seq<string>)
    ensures names == ["Unknown"] + IdsOf(ls)
  {
    names := ["Unknown"];
    var i := 1;
    while i < |ls| + 1
      invariant 1 <= i <= |ls| + 1
      invariant names == ["Unknown"] + IdsOf(ls)[..i - 1]
    {
      names := names + [ls[i - 1].id];
      i := i + 1;
    }
    assert IdsOf(ls)[..|ls|] == IdsOf(ls);
  }

  /** `DrawSelectDefaultLanguage`: the labels and the selected option are
      computed from the profile; when the user picks another option
      (`choice`), the default becomes the language it stands for. */
  method DrawSelectDefaultLanguage(profile: Profile, choice: Option<int>) returns (names: seq<string>, shown: nat)
    requires choice.Some? ==> -1 <= choice.value <= |profile.languages|
    modifies profile`defaultLanguage
    ensures names == ["Unknown"] + IdsOf(profile.languages)
    ensures shown == DefaultPopupIndex(profile.languages, old(profile.defaultLanguage))
    ensures choice.None? ==> profile.defaultLanguage == old(profile.defaultLanguage)
    ensures choice.Some? ==> profile.defaultLanguage == DefaultFromPopup(profile.languages, choice.value)
  {
    names := PopupLabels(profile.languages);
    shown := DefaultPopupIndex(profile.languages, profile.defaultLanguage);
    if choice.Some? {
      var index := choice.value;
      profile.defaultLanguage := if index == 0 || index == -1 then null else profile.languages[index - 1];
    }
  }
}
