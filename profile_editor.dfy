/** Editing a profile: adding and removing languages and entries, and the
    snapshot export (BasicLocalizationProfile.EditorExtensions). Undo,
    AssetDatabase and SetDirty calls are persistence plumbing and have no
    counterpart here. */
module ProfileEditor {
  import opened Wrappers
  import opened Strings
  import opened Languages
  import opened Translations
  import opened Profiles
  import opened Snapshots

  /** The list after `RemoveAt(index)` when `0 <= index < Count`, else the
      list. */
  function RemoveIfInRange<T>(s: seq<T>, index: int): (r: seq<T>)
    ensures 0 <= index < |s| ==> |r| == |s| - 1 && r == s[..index] + s[index + 1..]
    ensures !(0 <= index < |s|) ==> r == s
  {
    if 0 <= index < |s| then s[..index] + s[index + 1..] else s
  }

  /** Removing one position keeps a list without repetitions so. */
  lemma RemoveIfInRangeDistinct<T>(s: seq<T>, index: int)
    requires Distinct(s)
    ensures Distinct(RemoveIfInRange(s, index))
  {
    if 0 <= index < |s| {
      var r := RemoveIfInRange(s, index);
      forall i, j ensures Apart(r, i, j) {
        if 0 <= i < j < |r| {
          var i' := if i < index then i else i + 1;
          var j' := if j < index then j else j + 1;
          assert r[i] == s[i'] && r[j] == s[j'];
          assert Apart(s, i', j');
        }
      }
    }
  }

  /** Ascending order. */
  predicate Ascending(s: seq<int>) {
    forall i, j :: 0 <= i < j < |s| ==> s[i] <= s[j]
  }

  /** Strictly ascending order. */
  predicate StrictlyAscending(s: seq<int>) {
    forall i, j :: 0 <= i < j < |s| ==> s[i] < s[j]
  }

  function Insert(s: seq<int>, x: int): (r: seq<int>)
    requires Ascending(s)
    ensures Ascending(r) && multiset(r) == multiset(s) + multiset{x}
    ensures r[0] == if s == [] || x <= s[0] then x else s[0]
  {
    if s == [] then [x]
    else if x <= s[0] then
      AscendingCons(x, s);
      [x] + s
    else
      assert s == [s[0]] + s[1..];
      var t := Insert(s[1..], x);
      AscendingCons(s[0], t);
      [s[0]] + t
  }

  lemma AscendingCons(x: int, t: seq<int>)
    requires Ascending(t) && |t| > 0 && x <= t[0]
    ensures Ascending([x] + t)
  {
    forall i, j | 0 <= i < j < |t| + 1
      ensures ([x] + t)[i] <= ([x] + t)[j]
    {
      if i > 0 {
        assert ([x] + t)[i] == t[i - 1];
      }
      assert ([x] + t)[j] == t[j - 1];
    }
  }

  /** `List<int>.Sort()`: the ascending permutation of the indices (the
      order of equal integers cannot be observed). */
  function Sort(s: seq<int>): (r: seq<int>)
    ensures Ascending(r) && multiset(r) == multiset(s)
  {
    if s == [] then []
    else
      assert s == [s[0]] + s[1..];
      Insert(Sort(s[1..]), s[0])
  }

  /** The removal loop of `RemoveTranslationAt(indices)`: the sorted indices
      are taken from the highest down, and each one still below the count is
      removed from the list as it stands. */
  function RemoveDescending<T>(s: seq<T>, sorted: seq<int>): seq<T> {
    RemoveDown(s, sorted, |sorted|)
  }

  /** The removal over the first `n` positions of `sorted`, from position
      `n - 1` down. */
  function RemoveDown<T>(s: seq<T>, sorted: seq<int>, n: nat): seq<T>
    requires n <= |sorted|
  {
    if n == 0 then s
    else RemoveDown(RemoveIfInRange(s, sorted[n - 1]), sorted, n - 1)
  }

  /** The reference meaning of removal by index set: the elements whose
      positions are not in `positions`, in their order. */
  function Keep<T>(s: seq<T>, positions: set<int>): seq<T>
    decreases |s|
  {
    if s == [] then []
    else Keep(s[..|s| - 1], positions) + (if |s| - 1 in positions then [] else [s[|s| - 1]])
  }

  lemma KeepSnoc<T>(s: seq<T>, x: T, p: set<int>)
    ensures Keep(s + [x], p) == Keep(s, p) + (if |s| in p then [] else [x])
  {
    assert (s + [x])[..|s|] == s;
  }

  lemma {:induction false} KeepSameBelow<T>(s: seq<T>, p: set<int>, q: set<int>)
    requires forall x :: 0 <= x < |s| ==> (x in p <==> x in q)
    ensures Keep(s, p) == Keep(s, q)
    decreases |s|
  {
    if s != [] {
      KeepSameBelow(s[..|s| - 1], p, q);
    }
  }

  lemma {:induction false} KeepAppendTail<T>(a: seq<T>, b: seq<T>, p: set<int>)
    requires forall x :: x in p ==> x < |a|
    ensures Keep(a + b, p) == Keep(a, p) + b
    decreases |b|
  {
    if b != [] {
      var n := |b| - 1;
      KeepAppendTail(a, b[..n], p);
      assert a + b == (a + b[..n]) + [b[n]];
      KeepSnoc(a + b[..n], b[n], p);
      assert |a + b[..n]| !in p;
      assert (Keep(a, p) + b[..n]) + [b[n]] == Keep(a, p) + b;
    } else {
      assert a + b == a && Keep(a, p) + b == Keep(a, p);
    }
  }

  /** Removing one position beyond all of `p` is keeping `p` and it. */
  lemma KeepRemoveOne<T>(s: seq<T>, m: int, p: set<int>)
    requires forall x :: x in p ==> x < m
    ensures Keep(RemoveIfInRange(s, m), p) == Keep(s, p + {m})
  {
    if 0 <= m < |s| {
      KeepAppendTail(s[..m], s[m + 1..], p);
      assert s == s[..m + 1] + s[m + 1..];
      KeepAppendTail(s[..m + 1], s[m + 1..], p + {m});
      assert s[..m + 1] == s[..m] + [s[m]];
      KeepSnoc(s[..m], s[m], p + {m});
      KeepSameBelow(s[..m], p, p + {m});
    } else {
      KeepSameBelow(s, p, p + {m});
    }
  }

  /** Removing the strictly ascending positions from the highest down
      removes exactly those positions; positions outside the list are
      ignored. */
  lemma {:induction false} RemoveDownKeeps<T>(s: seq<T>, sorted: seq<int>, n: nat)
    requires StrictlyAscending(sorted) && n <= |sorted|
    ensures RemoveDown(s, sorted, n) == Keep(s, set x | x in sorted[..n])
  {
    if n > 0 {
      var m := sorted[n - 1];
      var front := sorted[..n - 1];
      assert sorted[..n] == front + [m];
      ListedSnoc(sorted[..n], front, m);
      RemoveDownKeeps(RemoveIfInRange(s, m), sorted, n - 1);
      KeepRemoveOne(s, m, set x | x in front);
    } else {
      assert (set x | x in sorted[..n]) == {};
      KeepNothing(s);
    }
  }

  /** The positions listed in `front + [m]` are those of `front` and `m`,
      which exceeds all of them. */
  lemma ListedSnoc(whole: seq<int>, front: seq<int>, m: int)
    requires whole == front + [m]
    requires forall i :: 0 <= i < |front| ==> front[i] < m
    ensures (set x | x in whole) == (set x | x in front) + {m}
    ensures forall x :: x in front ==> x < m
  {
    forall x | x in front ensures x < m {
      var i :| 0 <= i < |front| && front[i] == x;
    }
  }

  lemma RemoveDescendingKeeps<T>(s: seq<T>, sorted: seq<int>)
    requires StrictlyAscending(sorted)
    ensures RemoveDescending(s, sorted) == Keep(s, set x | x in sorted)
  {
    RemoveDownKeeps(s, sorted, |sorted|);
    assert sorted[..|sorted|] == sorted;
  }

  lemma {:induction false} KeepNothing<T>(s: seq<T>)
    ensures Keep(s, {}) == s
    decreases |s|
  {
    if s != [] {
      KeepNothing(s[..|s| - 1]);
      assert s == s[..|s| - 1] + [s[|s| - 1]];
    }
  }

  lemma {:induction false} DistinctCountAtMostOne(s: seq<int>, x: int)
    requires Distinct(s)
    ensures multiset(s)[x] <= 1
    decreases |s|
  {
    if s != [] {
      var n := |s| - 1;
      assert s == s[..n] + [s[n]];
      DistinctPrefix(s, n);
      DistinctCountAtMostOne(s[..n], x);
      forall k | 0 <= k < n ensures s[..n][k] != s[n] {
        DistinctAt(s, k, n);
      }
      assert s[n] !in s[..n];
    }
  }

  lemma RepeatCountsTwice(r: seq<int>, i: nat, j: nat)
    requires i < j < |r| && r[i] == r[j]
    ensures multiset(r)[r[j]] >= 2
  {
    assert r == r[..j] + [r[j]] + r[j + 1..];
    assert r[i] == r[..j][i];
    assert r[j] in multiset(r[..j]);
  }

  lemma AscendingDistinctStrict(r: seq<int>, s: seq<int>)
    requires Ascending(r) && multiset(r) == multiset(s) && Distinct(s)
    ensures StrictlyAscending(r)
  {
    forall i, j | 0 <= i < j < |r| ensures r[i] < r[j] {
      if r[i] == r[j] {
        RepeatCountsTwice(r, i, j);
        DistinctCountAtMostOne(s, r[j]);
      }
    }
  }

  lemma SortKeepsNonNegative(s: seq<int>)
    requires forall i :: 0 <= i < |s| ==> s[i] >= 0
    ensures forall i :: 0 <= i < |Sort(s)| ==> Sort(s)[i] >= 0
  {
    var r := Sort(s);
    forall i | 0 <= i < |r| ensures r[i] >= 0 {
      assert r[i] in multiset(r);
    }
  }

  /** What `RemoveTranslationAt(indices)` does to a list: nothing for a null
      or empty index list, otherwise the descending removal over the sorted
      indices. */
  function RemoveAll<T>(s: seq<T>, indices: Option<seq<int>>): seq<T> {
    if indices.None? || |indices.value| == 0 then s
    else RemoveDescending(s, Sort(indices.value))
  }

  /** With no index repeated, `RemoveTranslationAt(indices)` removes exactly
      the listed positions and keeps the rest in order. */
  lemma RemoveAllRemovesListed<T>(s: seq<T>, indices: seq<int>)
    requires Distinct(indices)
    ensures RemoveAll(s, Some(indices)) == Keep(s, set x | x in indices)
  {
    if |indices| > 0 {
      var sorted := Sort(indices);
      AscendingDistinctStrict(sorted, indices);
      RemoveDescendingKeeps(s, sorted);
      assert (set x | x in sorted) == set x | x in indices by {
        forall x ensures x in sorted <==> x in indices {
          assert x in sorted <==> x in multiset(sorted);
          assert x in indices <==> x in multiset(indices);
        }
      }
    } else {
      assert (set x | x in indices) == {};
      KeepNothing(s);
    }
  }

  /** A repeated index removes two elements: the one at the index and the
      one that moved into its place. */
  lemma RepeatedIndexRemovesTwo<T>(s: seq<T>, i: nat)
    requires i + 1 < |s|
    ensures RemoveAll(s, Some([i as int, i as int])) == s[..i] + s[i + 2..]
  {
    var ii := [i as int, i as int];
    assert ii[1..] == [i as int];
    assert Sort([i as int]) == [i as int] by {
      assert [i as int][1..] == [];
    }
    assert Sort(ii) == Insert([i as int], i as int) == ii;
    var once := s[..i] + s[i + 1..];
    assert RemoveDown(s, ii, 2) == RemoveDown(once, ii, 1) == RemoveDown(once[..i] + once[i + 1..], ii, 0);
    assert once[..i] + once[i + 1..] == s[..i] + s[i + 2..];
  }

  /** Removal by descending positions keeps a list without repetitions so. */
  lemma {:induction false} RemoveDownDistinct<T>(s: seq<T>, sorted: seq<int>, n: nat)
    requires Distinct(s) && n <= |sorted|
    ensures Distinct(RemoveDown(s, sorted, n))
  {
    if n > 0 {
      RemoveIfInRangeDistinct(s, sorted[n - 1]);
      RemoveDownDistinct(RemoveIfInRange(s, sorted[n - 1]), sorted, n - 1);
    }
  }

  /** The editor-side operations of one profile. */
  class EditorExtensions {
    const profile: Profile

    constructor(profile: Profile)
      ensures this.profile == profile
    {
      this.profile := profile;
    }

    /** `AddLanguage(name)`: appends exactly one fresh language with that id
        and no locale, and reserves a phrase for it in every entry; nothing
        else in the profile changes. */
    method AddLanguage(languageName: string) returns (language: Language)
      requires profile.Valid()
      modifies profile`languages, profile.translations
      ensures fresh(language) && language.id == languageName && language.locale == None
      ensures profile.languages == old(profile.languages) + [language]
      ensures profile.Valid()
      ensures forall j :: 0 <= j < |profile.translations| ==>
        profile.translations[j].phrases == Reserve(old(profile.translations[j].phrases), language)
    {
      language := new Language.Create(languageName);
      DistinctSnoc(profile.languages, language);
      profile.languages := profile.languages + [language];
      ReservePhrases(language);
    }

    /** `ReserverPhrases(language)`: `ReservePhrase(language)` on every entry. */
    method ReservePhrases(language: Language)
      requires profile.Valid()
      modifies profile.translations
      ensures forall j :: 0 <= j < |profile.translations| ==>
        profile.translations[j].phrases == Reserve(old(profile.translations[j].phrases), language)
    {
      var ts := profile.translations;
      var i := 0;
      while i < |ts|
        invariant 0 <= i <= |ts|
        invariant forall j :: 0 <= j < i ==> ts[j].phrases == Reserve(old(ts[j].phrases), language)
        invariant forall j :: i <= j < |ts| ==> ts[j].phrases == old(ts[j].phrases)
      {
        DistinctOthers(ts, i);
        ts[i].ReservePhrase(language);
        i := i + 1;
      }
    }

    /** `RemoveLanguageAt(index)`: removes element `index` keeping the order
        of the rest, clears the default language only when it was that very
        language, destroys it and cleans the entries: afterwards every phrase
        list holds exactly the phrases of the other live languages, in
        order. */
    method RemoveLanguageAt(index: int) returns (removed: Language)
      requires profile.Valid()
      requires 0 <= index < |profile.languages|
      modifies profile`languages, profile`defaultLanguage, profile.translations
      ensures removed == old(profile.languages[index])
      ensures profile.languages == old(profile.languages[..index] + profile.languages[index + 1..])
      ensures removed !in profile.languages
      ensures profile.defaultLanguage == if old(profile.defaultLanguage) == removed then null else old(profile.defaultLanguage)
      ensures profile.Valid()
      ensures forall j :: 0 <= j < |profile.translations| ==>
        profile.translations[j].phrases ==
          if old(profile.translations[j].phrases).None? then None
          else Some(KeepLive(old(profile.translations[j].phrases).value, removed))
    {
      removed := profile.languages[index];
      RemoveIfInRangeDistinct(profile.languages, index);
      assert removed !in profile.languages[..index] + profile.languages[index + 1..] by {
        var ls := profile.languages;
        var rest := ls[..index] + ls[index + 1..];
        DistinctOthers(ls, index);
        forall k | 0 <= k < |rest| ensures rest[k] != removed {
          assert rest[k] == if k < index then ls[k] else ls[k + 1];
        }
      }
      profile.languages := profile.languages[..index] + profile.languages[index + 1..];
      if removed == profile.defaultLanguage {
        profile.defaultLanguage := null;
      }
      DestroyLanguage(removed);
      RemoveUnrelevantTranslations();
      forall j | 0 <= j < |profile.translations| && old(profile.translations[j].phrases).Some?
        ensures Strip(Nullify(old(profile.translations[j].phrases).value, removed)) ==
          KeepLive(old(profile.translations[j].phrases).value, removed)
      {
        StripNullifyKeepsOthers(old(profile.translations[j].phrases).value, removed);
      }
    }

    /** `Undo.DestroyObjectImmediate(language)` as the entries see it: a
        destroyed Unity object compares equal to null, so every phrase that
        refers to it becomes a null-language phrase. */
    method DestroyLanguage(language: Language)
      requires profile.Valid()
      modifies profile.translations
      ensures forall j :: 0 <= j < |profile.translations| ==>
        profile.translations[j].phrases ==
          if old(profile.translations[j].phrases).None? then None
          else Some(Nullify(old(profile.translations[j].phrases).value, language))
    {
      var ts := profile.translations;
      var i := 0;
      while i < |ts|
        invariant 0 <= i <= |ts|
        invariant forall j :: 0 <= j < i ==>
          ts[j].phrases == if old(ts[j].phrases).None? then None else Some(Nullify(old(ts[j].phrases).value, language))
        invariant forall j :: i <= j < |ts| ==> ts[j].phrases == old(ts[j].phrases)
      {
        DistinctOthers(ts, i);
        if ts[i].phrases.Some? {
          ts[i].phrases := Some(Nullify(ts[i].phrases.value, language));
        }
        i := i + 1;
      }
    }

    /** `RemoveUnrelevantTranslations()`: walks the entries from the last
        down and strips the null-language phrases of each, keeping the
        others in order. */
    method RemoveUnrelevantTranslations()
      requires profile.Valid()
      modifies profile.translations
      ensures forall j :: 0 <= j < |profile.translations| ==>
        profile.translations[j].phrases ==
          if old(profile.translations[j].phrases).None? then None
          else Some(Strip(old(profile.translations[j].phrases).value))
    {
      var ts := profile.translations;
      var i := |ts| - 1;
      while i >= 0
        invariant -1 <= i < |ts|
        invariant forall j :: i < j < |ts| ==>
          ts[j].phrases == if old(ts[j].phrases).None? then None else Some(Strip(old(ts[j].phrases).value))
        invariant forall j :: 0 <= j <= i ==> ts[j].phrases == old(ts[j].phrases)
      {
        DistinctOthers(ts, i);
        RemoveNullPhrases(ts[i]);
        i := i - 1;
      }
    }

    /** `AddTranslation(key)`: appends one fresh entry (key, the supplied
        guid, no phrases). The index is left as it is, so a built index does
        not know the new entry. */
    method AddTranslation(key: string, newGuid: string) returns (translation: Translation)
      modifies profile`translations
      ensures fresh(translation) && translation.key == key && translation.guid == newGuid && translation.phrases == None
      ensures profile.translations == old(profile.translations) + [translation]
      ensures old(profile.Valid()) ==> profile.Valid()
      ensures old(Distinct(profile.translations)) ==> Distinct(profile.translations)
    {
      ghost var ts0 := profile.translations;
      translation := new Translation.Create(key, newGuid);
      profile.translations := profile.translations + [translation];
      if Distinct(ts0) {
        DistinctSnoc(ts0, translation);
      }
    }

    /** `RemoveTranslationAt(indices)`: the list becomes
        `RemoveAll(old list, indices)` (see `RemoveAllRemovesListed` and
        `RepeatedIndexRemovesTwo`). */
    method RemoveTranslationsAt(indices: Option<seq<int>>)
      requires indices.Some? ==> forall i :: 0 <= i < |indices.value| ==> indices.value[i] >= 0
      modifies profile`translations
      ensures profile.translations == RemoveAll(old(profile.translations), indices)
      ensures old(profile.Valid()) ==> profile.Valid()
    {
      if indices.None? || |indices.value| <= 0 {
        return;
      }
      var sortedList := Sort(indices.value);
      SortKeepsNonNegative(indices.value);
      RemoveSorted(sortedList);
      if old(profile.Valid()) {
        RemoveDownDistinct(old(profile.translations), sortedList, |sortedList|);
      }
    }

    /** The removal loop of `RemoveTranslationAt(indices)` over the sorted
        indices, from the highest down. */
    method RemoveSorted(sortedList: seq<int>)
      requires forall k :: 0 <= k < |sortedList| ==> sortedList[k] >= 0
      modifies profile`translations
      ensures profile.translations == RemoveDescending(old(profile.translations), sortedList)
    {
      var translations := profile.translations;
      ghost var goal := RemoveDescending(translations, sortedList);
      var i := |sortedList| - 1;
      while i >= 0
        invariant -1 <= i < |sortedList|
        invariant RemoveDown(translations, sortedList, i + 1) == goal
      {
        var index := sortedList[i];
        ghost var before := translations;
        if |translations| > index {
          translations := translations[..index] + translations[index + 1..];
        }
        assert RemoveDown(before, sortedList, i + 1) == RemoveDown(translations, sortedList, i);
        i := i - 1;
      }
      profile.translations := translations;
    }

    /** `RemoveTranslationAt(index)`: removes the entry at `index`, or does
        nothing when `index >= Count`. */
    method RemoveTranslationAt(index: int)
      requires index >= 0
      modifies profile`translations
      ensures profile.translations == RemoveIfInRange(old(profile.translations), index)
      ensures old(profile.Valid()) ==> profile.Valid()
    {
      if |profile.translations| <= index {
        return;
      }
      if profile.Valid() {
        RemoveIfInRangeDistinct(profile.translations, index);
      }
      profile.translations := profile.translations[..index] + profile.translations[index + 1..];
    }

    /** `GetSnapshotData()`: the language ids in list order, the entry keys
        in list order, and for entry i and language k the cell
        `entry_i.GetTranslation(language_k)`; one row per key, one cell per
        language. The profile is not changed. */
    method GetSnapshotData() returns (data: SnapshotData)
      ensures data.languages == IdsOf(profile.languages)
      ensures data.keys == KeysOf(profile.translations)
      ensures |data.translations| == |data.keys|
      ensures forall i :: 0 <= i < |data.translations| ==>
        |data.translations[i]| == |profile.languages| &&
        forall k :: 0 <= k < |profile.languages| ==>
          data.translations[i][k] == profile.translations[i].GetTranslation(profile.languages[k])
    {
      var languages: seq<string> := [];
      var keys: seq<string> := [];
      var rows: seq<seq<Option<string>>> := [];
      var ls := profile.languages;
      var ts := profile.translations;
      var k := 0;
      while k < |ls|
        invariant 0 <= k <= |ls| && languages == IdsOf(ls[..k])
      {
        assert IdsOf(ls[..k + 1]) == IdsOf(ls[..k]) + [ls[k].id];
        languages := languages + [ls[k].id];
        k := k + 1;
      }
      assert ls[..k] == ls;
      var i := 0;
      while i < |ts|
        invariant 0 <= i <= |ts| && keys == KeysOf(ts[..i]) && |rows| == i
        invariant forall r :: 0 <= r < i ==>
          |rows[r]| == |ls| && forall k :: 0 <= k < |ls| ==> rows[r][k] == ts[r].GetTranslation(ls[k])
      {
        keys := keys + [ts[i].key];
        var row: seq<Option<string>> := [];
        k := 0;
        while k < |ls|
          invariant 0 <= k <= |ls| && |row| == k
          invariant forall c :: 0 <= c < k ==> row[c] == ts[i].GetTranslation(ls[c])
        {
          row := row + [ts[i].GetTranslation(ls[k])];
          k := k + 1;
        }
        rows := rows + [row];
        i := i + 1;
      }
      assert ts[..i] == ts;
      data := SnapshotData(languages, keys, rows);
    }

    /** `ImportSnapshotData(data)`: merges a snapshot into the profile in
        three passes. (1) A language is created for every snapshot id that
        `GetLanguageByLanguageId` does not find (see `AddedIdsCover` and
        `AddedIdsFresh`). (2) With the index cleared, an entry is created
        for every snapshot key the index does not resolve; the index is
        built on the first lookup and not refreshed by `AddTranslation`, so
        the keys looked up are those of the entries present before the pass
        (see `MissingRowsExact`). (3) With the index cleared again, row i is
        written into the first entry with key i, cell k for the k-th
        snapshot language, only for k below the row length (see
        `ApplyRowLookup`, `EmptyKeyEntryUntouched`). `guids[i]` is the guid
        of an entry created for row i. A row must exist for every key that
        resolves when there are languages: the source indexes it
        unconditionally. */
    method ImportSnapshotData(data: SnapshotData, guids: seq<string>)
      requires profile.Valid()
      requires |guids| == |data.keys|
      requires |data.languages| > 0 ==> forall i :: |data.translations| <= i < |data.keys| ==> data.keys[i] == ""
      modifies profile`languages, profile`translations, profile`cache, profile.translations
      ensures profile.Valid()
      ensures |profile.languages| >= |old(profile.languages)|
      ensures profile.languages[..|old(profile.languages)|] == old(profile.languages)
      ensures IdsOf(profile.languages[|old(profile.languages)|..]) == AddedIds(IdsOf(old(profile.languages)), data.languages)
      ensures forall l :: l in profile.languages[|old(profile.languages)|..] ==> l.locale == None
      ensures var rows := MissingRows(old(KeysOf(profile.translations)), data.keys);
        && |profile.translations| == |old(profile.translations)| + |rows|
        && profile.translations[..|old(profile.translations)|] == old(profile.translations)
        && KeysOf(profile.translations) == old(KeysOf(profile.translations)) + Pick(data.keys, rows)
        && GuidsOf(profile.translations) == old(GuidsOf(profile.translations)) + Pick(guids, rows)
      ensures PhraseTable(profile.translations) ==
        ApplyRows(PreparedTable(old(PhraseTable(profile.translations)), profile.languages[|old(profile.languages)|..],
                                |profile.translations| - |old(profile.translations)|),
                  Targets(KeysOf(profile.translations), data.keys),
                  LookUpTable(profile.languages, data.languages),
                  data.translations)
      ensures profile.cache == if |data.keys| == 0 then None else Some(BuildIndex(profile.translations))
    {
      ghost var table0 := PhraseTable(profile.translations);
      ghost var n0 := |profile.languages|;
      AddMissedLanguages(data.languages);
      ghost var ls1 := profile.languages;
      var lookUp := PrepareLookUp(data.languages);
      ImportRows(data, guids, lookUp, table0, ls1[n0..]);
    }

    /** The second and third passes, after the languages of the snapshot
        have been added and the look-up table is prepared. */
    method ImportRows(data: SnapshotData, guids: seq<string>, lookUp: seq<Language?>, ghost table0: seq<PhraseList>, ghost added: seq<Language>)
      requires profile.Valid()
      requires |guids| == |data.keys| && |lookUp| == |data.languages|
      requires |lookUp| > 0 ==> forall i :: |data.translations| <= i < |data.keys| ==> data.keys[i] == ""
      requires PhraseTable(profile.translations) == PreparedTable(table0, added, 0)
      modifies profile`translations, profile`cache, profile.translations
      ensures profile.Valid() && profile.languages == old(profile.languages)
      ensures var rows := MissingRows(old(KeysOf(profile.translations)), data.keys);
        && |profile.translations| == |old(profile.translations)| + |rows|
        && profile.translations[..|old(profile.translations)|] == old(profile.translations)
        && KeysOf(profile.translations) == old(KeysOf(profile.translations)) + Pick(data.keys, rows)
        && GuidsOf(profile.translations) == old(GuidsOf(profile.translations)) + Pick(guids, rows)
      ensures PhraseTable(profile.translations) ==
        ApplyRows(PreparedTable(table0, added, |profile.translations| - |old(profile.translations)|),
                  Targets(KeysOf(profile.translations), data.keys), lookUp, data.translations)
      ensures profile.cache == if |data.keys| == 0 then None else Some(BuildIndex(profile.translations))
    {
      ghost var prepared := PhraseTable(profile.translations);
      ghost var n := |profile.translations|;
      ImportTranslations(data, guids, lookUp);
      ghost var ts := profile.translations;
      ImportedTable(table0, added, prepared, |ts| - n, PhraseTable(ts), Targets(KeysOf(ts), data.keys), lookUp, data.translations);
    }

    /** The second and third import passes: the index is cleared, missing
        entries are added, the index is cleared again and the rows are
        written. */
    method ImportTranslations(data: SnapshotData, guids: seq<string>, lookUp: seq<Language?>)
      requires profile.Valid()
      requires |guids| == |data.keys| && |lookUp| == |data.languages|
      requires |lookUp| > 0 ==> forall i :: |data.translations| <= i < |data.keys| ==> data.keys[i] == ""
      modifies profile`translations, profile`cache, profile.translations
      ensures profile.Valid() && profile.languages == old(profile.languages)
      ensures var rows := MissingRows(old(KeysOf(profile.translations)), data.keys);
        && |profile.translations| == |old(profile.translations)| + |rows|
        && profile.translations[..|old(profile.translations)|] == old(profile.translations)
        && KeysOf(profile.translations) == old(KeysOf(profile.translations)) + Pick(data.keys, rows)
        && GuidsOf(profile.translations) == old(GuidsOf(profile.translations)) + Pick(guids, rows)
        && PhraseTable(profile.translations) ==
             ApplyRows(old(PhraseTable(profile.translations)) + Nones(|rows|), Targets(KeysOf(profile.translations), data.keys), lookUp, data.translations)
      ensures profile.cache == if |data.keys| == 0 then None else Some(BuildIndex(profile.translations))
    {
      AddMissedEntries(data.keys, guids);
      TraverseTranslations(data, lookUp);
    }

    /** The second import pass with the index cleared before and after it. */
    method AddMissedEntries(keys: seq<string>, guids: seq<string>)
      requires profile.Valid() && |guids| == |keys|
      modifies profile`translations, profile`cache
      ensures profile.Valid() && profile.cache == None && profile.languages == old(profile.languages)
      ensures var rows := MissingRows(old(KeysOf(profile.translations)), keys);
        && |profile.translations| == |old(profile.translations)| + |rows|
        && profile.translations[..|old(profile.translations)|] == old(profile.translations)
        && KeysOf(profile.translations) == old(KeysOf(profile.translations)) + Pick(keys, rows)
        && GuidsOf(profile.translations) == old(GuidsOf(profile.translations)) + Pick(guids, rows)
        && PhraseTable(profile.translations) == old(PhraseTable(profile.translations)) + Nones(|rows|)
      ensures forall t :: t in profile.translations ==> t in old(profile.translations) || fresh(t)
    {
      profile.ClearTranslationCache();
      AddMissedTranslations(keys, guids);
      profile.ClearTranslationCache();
    }

    /** The first import pass (`AddLanguage` for each id that
        `GetLanguageByLanguageId` does not find). */
    method AddMissedLanguages(ids: seq<string>)
      requires profile.Valid()
      modifies profile`languages, profile.translations
      ensures profile.Valid() && profile.translations == old(profile.translations)
      ensures |profile.languages| >= |old(profile.languages)|
      ensures profile.languages[..|old(profile.languages)|] == old(profile.languages)
      ensures IdsOf(profile.languages[|old(profile.languages)|..]) == AddedIds(IdsOf(old(profile.languages)), ids)
      ensures forall l :: l in profile.languages[|old(profile.languages)|..] ==> l.locale == None
      ensures forall l :: l in profile.languages ==> l in old(profile.languages) || fresh(l)
      ensures PhraseTable(profile.translations) ==
        PreparedTable(old(PhraseTable(profile.translations)), profile.languages[|old(profile.languages)|..], 0)
    {
      ghost var ts := profile.translations;
      ghost var table0 := PhraseTable(ts);
      ghost var languages0 := profile.languages;
      var i := 0;
      assert profile.languages[|languages0|..] == [];
      assert ids[..0] == [];
      while i < |ids|
        invariant i <= |ids|
        invariant AddMissedLanguagesState(ts, table0, languages0, ids, i)
        invariant forall l :: l in profile.languages ==> l in languages0 || fresh(l)
      {
        AddMissedLanguageStep(ids, i, ts, table0, languages0);
        i := i + 1;
      }
      assert ids[..i] == ids;
    }

    /** Where the first pass stands after `i` ids. */
    ghost predicate AddMissedLanguagesState(ts: seq<Translation>, table0: seq<PhraseList>, languages0: seq<Language>, ids: seq<string>, i: nat)
      requires i <= |ids|
      reads profile`languages, profile`translations, ts`phrases
    {
      && profile.translations == ts && Distinct(ts) && Distinct(profile.languages)
      && |profile.languages| >= |languages0| && profile.languages[..|languages0|] == languages0
      && IdsOf(profile.languages[|languages0|..]) == AddedIds(IdsOf(languages0), ids[..i])
      && (forall l :: l in profile.languages[|languages0|..] ==> l.locale == None)
      && PhraseTable(ts) == PreparedTable(table0, profile.languages[|languages0|..], 0)
    }

    /** The body of the first pass for id i. */
    method AddMissedLanguageStep(ids: seq<string>, i: nat, ghost ts: seq<Translation>, ghost table0: seq<PhraseList>, ghost languages0: seq<Language>)
      requires i < |ids| && AddMissedLanguagesState(ts, table0, languages0, ids, i)
      modifies profile`languages, ts
      ensures AddMissedLanguagesState(ts, table0, languages0, ids, i + 1)
      ensures |old(profile.languages)| <= |profile.languages| <= |old(profile.languages)| + 1
      ensures profile.languages[..|old(profile.languages)|] == old(profile.languages)
      ensures forall l :: l in profile.languages ==> l in old(profile.languages) || fresh(l)
    {
      ghost var added := profile.languages[|languages0|..];
      IdsOfAppend(languages0, added);
      assert profile.languages == languages0 + added;
      assert ids[..i + 1][..i] == ids[..i];
      var language := profile.GetLanguageByLanguageId(Some(ids[i]));
      if language == null {
        AddMissedLanguage(ids[i], ts, table0, languages0);
      }
    }

    /** `AddLanguage(id)` in the first pass, seen as one more added id. */
    method AddMissedLanguage(id: string, ghost ts: seq<Translation>, ghost table0: seq<PhraseList>, ghost languages0: seq<Language>)
      requires profile.translations == ts && Distinct(ts) && Distinct(profile.languages)
      requires |profile.languages| >= |languages0| && profile.languages[..|languages0|] == languages0
      requires forall l :: l in profile.languages[|languages0|..] ==> l.locale == None
      requires PhraseTable(ts) == PreparedTable(table0, profile.languages[|languages0|..], 0)
      modifies profile`languages, ts
      ensures profile.translations == ts && Distinct(ts) && Distinct(profile.languages)
      ensures |profile.languages| == |old(profile.languages)| + 1
      ensures profile.languages[..|old(profile.languages)|] == old(profile.languages)
      ensures forall l :: l in profile.languages ==> l in old(profile.languages) || fresh(l)
      ensures var added := profile.languages[|languages0|..];
        && added == old(profile.languages[|languages0|..]) + [profile.languages[|old(profile.languages)|]]
        && IdsOf(added) == IdsOf(old(profile.languages[|languages0|..])) + [id]
        && (forall l :: l in added ==> l.locale == None)
        && PhraseTable(ts) == PreparedTable(table0, added, 0)
    {
      ghost var added := profile.languages[|languages0|..];
      var created := AddLanguage(id);
      assert profile.languages[|languages0|..] == added + [created];
      IdsOfAppend(added, [created]);
      assert (added + [created])[..|added|] == added;
    }

    /** The language look-up table of the import. */
    method PrepareLookUp(ids: seq<string>) returns (lookUp: seq<Language?>)
      ensures lookUp == LookUpTable(profile.languages, ids)
    {
      lookUp := [];
      var k := 0;
      while k < |ids|
        invariant 0 <= k <= |ids| && |lookUp| == k
        invariant forall c :: 0 <= c < k ==> lookUp[c] == LookUpTable(profile.languages, ids)[c]
      {
        lookUp := lookUp + [profile.GetLanguageByLanguageId(Some(ids[k]))];
        k := k + 1;
      }
    }

    /** The second import pass: `AddTranslation` for each key that the raw
        lookup does not resolve; the index is built by the first lookup from
        the entries present then and is not refreshed afterwards. */
    method AddMissedTranslations(keys: seq<string>, guids: seq<string>)
      requires profile.cache == None && |guids| == |keys| && profile.Valid()
      modifies profile`translations, profile`cache
      ensures profile.Valid()
      ensures var rows := MissingRows(old(KeysOf(profile.translations)), keys);
        && |profile.translations| == |old(profile.translations)| + |rows|
        && profile.translations[..|old(profile.translations)|] == old(profile.translations)
        && KeysOf(profile.translations) == old(KeysOf(profile.translations)) + Pick(keys, rows)
        && GuidsOf(profile.translations) == old(GuidsOf(profile.translations)) + Pick(guids, rows)
        && PhraseTable(profile.translations) == old(PhraseTable(profile.translations)) + Nones(|rows|)
      ensures forall t :: t in profile.translations ==> t in old(profile.translations) || fresh(t)
      ensures profile.cache == if |keys| == 0 then None else Some(BuildIndex(old(profile.translations)))
    {
      ghost var ts0 := profile.translations;
      AppendedNone(ts0, keys, guids);
      assert keys[..0] == [];
      AddMissedLoop(keys, guids, ts0);
      assert keys[..|keys|] == keys;
      AppendedKeys(profile.translations, ts0, keys, guids, MissingRows(KeysOf(ts0), keys));
    }

    /** The loop of the second pass, one `AddMissedStep` per snapshot key. */
    method AddMissedLoop(keys: seq<string>, guids: seq<string>, ghost ts0: seq<Translation>)
      requires |guids| == |keys| && profile.cache == None
      requires AddMissedState(ts0, keys, guids, 0)
      modifies profile`translations, profile`cache
      ensures AddMissedState(ts0, keys, guids, |keys|)
      ensures profile.cache == if |keys| == 0 then None else Some(BuildIndex(ts0))
      ensures forall t :: t in profile.translations ==> t in old(profile.translations) || fresh(t)
    {
      var i := 0;
      while i < |keys|
        invariant 0 <= i <= |keys|
        invariant AddMissedState(ts0, keys, guids, i)
        invariant profile.cache == if i == 0 then None else Some(BuildIndex(ts0))
        invariant forall t :: t in profile.translations ==> t in old(profile.translations) || fresh(t)
      {
        AddMissedStep(keys, guids, i, ts0);
        i := i + 1;
      }
    }

    /** Where the second pass stands after `i` keys. */
    ghost predicate AddMissedState(ts0: seq<Translation>, keys: seq<string>, guids: seq<string>, i: nat)
      requires i <= |keys|
      reads profile`translations, profile.translations`phrases
    {
      && Distinct(profile.translations)
      && (i == 0 ==> profile.translations == ts0)
      && Appended(profile.translations, ts0, keys, guids, MissingRows(KeysOf(ts0), keys[..i]))
    }

    /** The body of the second pass for key i: the raw lookup (which builds
        the index from the entries present before the pass) and, when it
        finds nothing, `AddTranslation`. */
    method AddMissedStep(keys: seq<string>, guids: seq<string>, i: nat, ghost ts0: seq<Translation>)
      requires i < |keys| && |guids| == |keys|
      requires AddMissedState(ts0, keys, guids, i)
      requires profile.cache == if i == 0 then None else Some(BuildIndex(ts0))
      modifies profile`translations, profile`cache
      ensures AddMissedState(ts0, keys, guids, i + 1)
      ensures profile.cache == Some(BuildIndex(ts0))
      ensures forall t :: t in profile.translations ==> t in old(profile.translations) || fresh(t)
    {
      ghost var rows := MissingRows(KeysOf(ts0), keys[..i]);
      MissingRowsSnoc(KeysOf(ts0), keys, i);
      var translation := LookUpKey(keys[i], ts0);
      if translation == null {
        assert MissingRows(KeysOf(ts0), keys[..i + 1]) == rows + [i];
        AppendMissed(keys, guids, i, ts0, rows);
      } else {
        assert MissingRows(KeysOf(ts0), keys[..i + 1]) == rows;
      }
    }

    /** The raw key lookup during an import: the index is, or is built from,
        the entries `ts`, so a key resolves to the first entry carrying it and
        an empty or unknown key to nothing. */
    method LookUpKey(key: string, ghost ts: seq<Translation>) returns (translation: Translation?)
      requires (profile.cache == None && profile.translations == ts) || profile.cache == Some(BuildIndex(ts))
      modifies profile`cache
      ensures profile.cache == Some(BuildIndex(ts))
      ensures translation == if key == "" || key !in KeysOf(ts) then null else ts[IndexOf(KeysOf(ts), key)]
    {
      translation := profile.GetTranslationRawByKey(Some(key));
      BuildIndexFirstWins(ts, key);
    }

    /** `AddTranslation(keys[i])` in the second pass, seen as one more
        position of `MissingRows`. */
    method AppendMissed(keys: seq<string>, guids: seq<string>, i: nat, ghost ts0: seq<Translation>, ghost rows: seq<nat>)
      requires i < |keys| && |guids| == |keys|
      requires Distinct(profile.translations) && Appended(profile.translations, ts0, keys, guids, rows)
      modifies profile`translations
      ensures Distinct(profile.translations) && Appended(profile.translations, ts0, keys, guids, rows + [i])
      ensures forall t :: t in profile.translations ==> t in old(profile.translations) || fresh(t)
    {
      ghost var before := profile.translations;
      var created := AddTranslation(keys[i], guids[i]);
      AppendedStep(before, ts0, keys, guids, rows, created, i);
    }

    /** The third import pass: each row written into the entry its key
        resolves to, for every snapshot language whose cell the row has. */
    method TraverseTranslations(data: SnapshotData, lookUp: seq<Language?>)
      requires profile.cache == None && profile.Valid()
      requires |lookUp| == |data.languages|
      requires RowsCover(|profile.translations|, Targets(KeysOf(profile.translations), data.keys), |lookUp|, data.translations)
      modifies profile`cache, set t | t in profile.translations
      ensures profile.translations == old(profile.translations)
      ensures PhraseTable(profile.translations) ==
        ApplyRows(old(PhraseTable(profile.translations)), Targets(KeysOf(profile.translations), data.keys), lookUp, data.translations)
      ensures profile.cache == if |data.keys| == 0 then None else Some(BuildIndex(profile.translations))
    {
      ghost var ts := profile.translations;
      ghost var targets := Targets(KeysOf(ts), data.keys);
      assert targets[..0] == [];
      TraverseRows(data, lookUp, ts, PhraseTable(ts), targets);
      assert targets[..|data.keys|] == targets;
    }

    /** The loop of the third pass, one `TraverseStep` per snapshot key. */
    method TraverseRows(data: SnapshotData, lookUp: seq<Language?>, ghost ts: seq<Translation>,
                        ghost table0: seq<PhraseList>, ghost targets: seq<int>)
      requires |lookUp| == |data.languages|
      requires targets == Targets(KeysOf(ts), data.keys) && RowsCover(|table0|, targets, |lookUp|, data.translations)
      requires TraverseState(ts, data, lookUp, table0, targets, 0) && profile.cache == None
      modifies profile`cache, ts`phrases
      ensures TraverseState(ts, data, lookUp, table0, targets, |data.keys|)
      ensures profile.cache == if |data.keys| == 0 then None else Some(BuildIndex(ts))
    {
      var i := 0;
      while i < |data.keys|
        invariant 0 <= i <= |data.keys|
        invariant TraverseState(ts, data, lookUp, table0, targets, i)
        invariant profile.cache == if i == 0 then None else Some(BuildIndex(ts))
      {
        TraverseStep(data, lookUp, i, ts, table0, targets);
        i := i + 1;
      }
    }

    /** Where the third pass stands after `i` rows: the rows before i
        applied to the phrase table. */
    ghost predicate TraverseState(ts: seq<Translation>, data: SnapshotData, lookUp: seq<Language?>,
                                  table0: seq<PhraseList>, targets: seq<int>, i: nat)
      reads profile`translations, ts`phrases
    {
      && i <= |targets|
      && profile.translations == ts && Distinct(ts)
      && PhraseTable(ts) == ApplyRows(table0, targets[..i], lookUp, data.translations)
    }

    /** The body of the third pass for row i: the raw key lookup, then the
        row written into the entry found. */
    method TraverseStep(data: SnapshotData, lookUp: seq<Language?>, i: nat, ghost ts: seq<Translation>,
                        ghost table0: seq<PhraseList>, ghost targets: seq<int>)
      requires i < |data.keys| && |lookUp| == |data.languages|
      requires targets == Targets(KeysOf(ts), data.keys) && RowsCover(|table0|, targets, |lookUp|, data.translations)
      requires TraverseState(ts, data, lookUp, table0, targets, i)
      requires profile.cache == if i == 0 then None else Some(BuildIndex(ts))
      modifies profile`cache, ts`phrases
      ensures TraverseState(ts, data, lookUp, table0, targets, i + 1)
      ensures profile.cache == Some(BuildIndex(ts))
    {
      var translation := LookUpKey(data.keys[i], ts);
      if translation != null {
        WriteTarget(translation, data, lookUp, i, ts, table0, targets);
      } else {
        ApplyRowsSnoc(table0, targets, lookUp, data.translations, i);
      }
    }

    /** Row i written into the entry it targets moves the third pass one
        row on. */
    method WriteTarget(translation: Translation, data: SnapshotData, lookUp: seq<Language?>, i: nat, ghost ts: seq<Translation>,
                       ghost table0: seq<PhraseList>, ghost targets: seq<int>)
      requires i < |data.keys| && |lookUp| == |data.languages|
      requires targets == Targets(KeysOf(ts), data.keys) && RowsCover(|table0|, targets, |lookUp|, data.translations)
      requires TraverseState(ts, data, lookUp, table0, targets, i)
      requires 0 <= targets[i] && translation == ts[targets[i]]
      modifies translation`phrases
      ensures TraverseState(ts, data, lookUp, table0, targets, i + 1)
    {
      ApplyRowsSnoc(table0, targets, lookUp, data.translations, i);
      ghost var before := PhraseTable(ts);
      DistinctOthers(ts, targets[i]);
      WriteRow(translation, lookUp, data, i);
      TableAfterWrite(ts, before, targets[i]);
    }

    /** The inner loop of the third pass: cell k of row i is put for
        `lookUp[k]` when the row has it. */
    method WriteRow(translation: Translation, lookUp: seq<Language?>, data: SnapshotData, i: nat)
      requires |lookUp| == |data.languages|
      requires |lookUp| > 0 ==> i < |data.translations|
      modifies translation`phrases
      ensures translation.phrases == if |lookUp| == 0 then old(translation.phrases) else ApplyRow(old(translation.phrases), lookUp, data.translations[i])
    {
      var k := 0;
      while k < |data.languages|
        invariant 0 <= k <= |data.languages|
        invariant k == 0 ==> translation.phrases == old(translation.phrases)
        invariant k > 0 ==>
          translation.phrases == PutAll(old(translation.phrases), lookUp[..Min(k, |data.translations[i]|)], data.translations[i][..Min(k, |data.translations[i]|)])
      {
        var language := lookUp[k];
        var snTranslation := data.translations[i];
        if k < |snTranslation| {
          assert lookUp[..k + 1][..k] == lookUp[..k] && snTranslation[..k + 1][..k] == snTranslation[..k];
          translation.PutTranslation(language, data.translations[i][k]);
        }
        k := k + 1;
      }
    }
  }

  /** `ts` is `ts0` followed by one new entry per position of `rows`, with
      that position's key and guid and no phrase list. */
  ghost predicate Appended(ts: seq<Translation>, ts0: seq<Translation>, keys: seq<string>, guids: seq<string>, rows: seq<nat>)
    reads ts`phrases
  {
    && (forall m :: 0 <= m < |rows| ==> rows[m] < |keys| && rows[m] < |guids|)
    && |ts| == |ts0| + |rows| && ts[..|ts0|] == ts0
    && KeysOf(ts[|ts0|..]) == Pick(keys, rows)
    && GuidsOf(ts[|ts0|..]) == Pick(guids, rows)
    && PhraseTable(ts[|ts0|..]) == Nones(|rows|)
  }

  /** Nothing appended yet. */
  lemma AppendedNone(ts0: seq<Translation>, keys: seq<string>, guids: seq<string>)
    ensures Appended(ts0, ts0, keys, guids, [])
  {
    assert ts0[|ts0|..] == [];
    assert Pick(keys, []) == [] && Pick(guids, []) == [] && Nones(0) == [];
  }

  lemma AppendedStep(ts: seq<Translation>, ts0: seq<Translation>, keys: seq<string>, guids: seq<string>, rows: seq<nat>, t: Translation, i: nat)
    requires Appended(ts, ts0, keys, guids, rows)
    requires i < |keys| && i < |guids| && t.key == keys[i] && t.guid == guids[i] && t.phrases == None
    ensures Appended(ts + [t], ts0, keys, guids, rows + [i])
  {
    var suffix := ts[|ts0|..];
    assert (ts + [t])[..|ts0|] == ts[..|ts0|];
    assert (ts + [t])[|ts0|..] == suffix + [t];
    assert (suffix + [t])[..|suffix|] == suffix;
    assert Pick(keys, rows + [i]) == Pick(keys, rows) + [keys[i]];
    assert Pick(guids, rows + [i]) == Pick(guids, rows) + [guids[i]];
    assert Nones(|rows| + 1) == Nones(|rows|) + [None];
  }

  /** The appended entries seen through the key, guid and phrase tables. */
  lemma AppendedKeys(ts: seq<Translation>, ts0: seq<Translation>, keys: seq<string>, guids: seq<string>, rows: seq<nat>)
    requires Appended(ts, ts0, keys, guids, rows)
    ensures KeysOf(ts) == KeysOf(ts0) + Pick(keys, rows)
    ensures GuidsOf(ts) == GuidsOf(ts0) + Pick(guids, rows)
    ensures PhraseTable(ts) == PhraseTable(ts0) + Nones(|rows|)
  {
    assert ts == ts0 + ts[|ts0|..];
    KeysOfAppend(ts0, ts[|ts0|..]);
    GuidsOfAppend(ts0, ts[|ts0|..]);
    PhraseTableAppend(ts0, ts[|ts0|..]);
  }

  /** Only the written entry's phrase list changes in the table. */
  lemma TableAfterWrite(ts: seq<Translation>, before: seq<PhraseList>, target: nat)
    requires Distinct(ts) && target < |ts| && |before| == |ts|
    requires forall j :: 0 <= j < |ts| && j != target ==> ts[j].phrases == before[j]
    ensures PhraseTable(ts) == before[target := ts[target].phrases]
  {
  }

  lemma IdsOfAppend(a: seq<Language>, b: seq<Language>)
    ensures IdsOf(a + b) == IdsOf(a) + IdsOf(b)
  {
  }

  /** After the second pass every non-empty snapshot key is the key of some
      entry. */
  lemma AllKeysResolve(existing: seq<string>, keys: seq<string>, ts: seq<Translation>)
    requires |ts| == |existing| + |MissingRows(existing, keys)| && KeysOf(ts)[..|existing|] == existing
    requires forall m :: 0 <= m < |MissingRows(existing, keys)| ==> KeysOf(ts)[|existing| + m] == keys[MissingRows(existing, keys)[m]]
    ensures forall i :: 0 <= i < |keys| && keys[i] != "" ==> keys[i] in KeysOf(ts)
  {
    var rows := MissingRows(existing, keys);
    MissingRowsExact(existing, keys);
    forall i | 0 <= i < |keys| && keys[i] != "" ensures keys[i] in KeysOf(ts) {
      if keys[i] in existing {
        var p := IndexOf(existing, keys[i]);
        assert KeysOf(ts)[p] == KeysOf(ts)[..|existing|][p] == keys[i];
      } else {
        var m :| 0 <= m < |rows| && rows[m] == i;
        assert KeysOf(ts)[|existing| + m] == keys[i];
      }
    }
  }

  /** One step of the strip, seen from position `k`. */
  lemma StripAt(ps: seq<Phrase>, k: nat)
    requires k < |ps|
    ensures Strip(ps[k..]) == (if ps[k].language != null then [ps[k]] else []) + Strip(ps[k + 1..])
  {
    assert ps[k..][1..] == ps[k + 1..];
  }

  /** The inner loop of `RemoveUnrelevantTranslations` on one entry: from
      the last phrase down, every phrase whose language is null is removed. */
  method RemoveNullPhrases(translation: Translation)
    modifies translation`phrases
    ensures translation.phrases == if old(translation.phrases).None? then None else Some(Strip(old(translation.phrases).value))
  {
    if translation.phrases.None? {
      return;
    }
    var ps := translation.phrases.value;
    var current := ps;
    var k := |ps| - 1;
    assert ps[k + 1..] == [] && ps[..k + 1] == ps;
    assert ps[..k + 1] + Strip(ps[k + 1..]) == ps;
    while k >= 0
      invariant -1 <= k < |ps|
      invariant current == ps[..k + 1] + Strip(ps[k + 1..])
    {
      StripAt(ps, k);
      assert ps[..k + 1] == ps[..k] + [ps[k]];
      assert current[k] == ps[k];
      if current[k].language == null {
        current := current[..k] + current[k + 1..];
        assert current == ps[..k] + Strip(ps[k + 1..]);
      } else {
        assert current == ps[..k] + ([ps[k]] + Strip(ps[k + 1..]));
      }
      k := k - 1;
    }
    assert ps[0..] == ps && ps[..0] == [];
    assert current == Strip(ps);
    translation.phrases := Some(current);
  }
}
