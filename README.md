# BasicLocalization in Dafny

This project models the core of the BasicLocalization Unity package and proves properties of the model. The package resolves a localization key, or a key reference, to the text of the current language. The model covers:

- **Translation entries.** An entry has a key, a guid and phrases. Each phrase is a (language, text) pair, and phrases are matched by language id.
- **The profile.** A profile holds the languages, the entries, the default language and the language selectors. It has a cached index by key and by guid, in which the first entry wins. A key reference resolves by guid first and then by key.
- **The profile's editor extensions.**
  - Add and remove a language. Removing one nulls the phrases that point to it and then strips them.
  - Add and remove entries by index.
  - Export a snapshot and import one. The snapshot is the CSV interchange shape.
- **Locale code matching.**
- **The five language selectors**, as one datatype: command line, player prefs, system language, specific locale and default.
- **The player-prefs store.**
- **The runtime facade.** It holds the cached current language and the overridden profile, records change notifications as a log, and provides circular next/previous, select-at and override.
- **Editor logic:**
  - the CSV row ⇄ snapshot mapping;
  - the key-reference drawer's self-healing of key and guid;
  - its suggestion list and preview index;
  - the profile editor's language-visibility mask, row filter and default-language popup;
  - the machine-translation planner and its command runner.

Objects whose fields the source updates in place are Dafny classes:

- `Translation` with `phrases`;
- `Profile`, with its lists and its cache;
- `EditorExtensions`;
- `PrefStore`;
- the facade `Localization`;
- `LanguageVisibilityMask`;
- `KeyReferenceField` and `KeyReferenceDrawer`.

Each mutating method is proved against a specification function on values. These include:

- `Put` and `Reserve` for phrase lists;
- `BuildIndex` and `Resolve` for the cache;
- `RemoveAll`, `Keep` and `KeepLive` for deletions;
- `ApplyRows`, `PreparedTable` and `MissingRows` for import;
- `ChainLanguage` for the selector loop;
- `Plan` and `Replay` for machine translation.

The lemmas that relate the functions are proved alongside.

Host inputs are parameters:

- the command-line arguments;
- the current UI culture followed by its parent chain;
- `Application.systemLanguage`;
- the WebGL build flag;
- the player-prefs map;
- fresh guids;
- the culture-sensitive case fold used by the search filters;
- the cancel button as a predicate on the command index;
- the translation web service as an oracle function.

Null lists are modelled as `Option` where the source tests for null, and as plain sequences where it does not.

## Model

| member | source | states |
|---|---|---|
| Translations.Translation.Create | Runtime/Scripts/BasicLocalizationTranslation.cs:8-15 | a new entry has the given key, the supplied fresh guid and no phrase list |
| Translations.FirstMatch | Runtime/Scripts/BasicLocalizationTranslation.cs:34-40 | the index of the first phrase whose non-null language has the queried id, or -1 exactly when none has |
| Translations.Translation.GetTranslation | Runtime/Scripts/BasicLocalizationTranslation.cs:30-46 | null for a null phrase list or a null language or no match; otherwise the text of the first phrase with the same language id |
| Translations.LookupById | Runtime/Scripts/BasicLocalizationTranslation.cs:36-40 | two distinct language objects with the same id read the same text, so matching is by id and not by reference |
| Translations.Translation.PutTranslation | Runtime/Scripts/BasicLocalizationTranslation.cs:50-84 | the phrase list becomes `Put` of the old one: unchanged for a null language, else the first matching phrase is replaced in place, or one phrase is appended |
| Translations.Put | Runtime/Scripts/BasicLocalizationTranslation.cs:52-83 | for a null language nothing changes; a matching phrase is replaced at its index with the count kept and the other phrases equal; without a match exactly one phrase is appended |
| Translations.PutThenLookup | Runtime/Scripts/BasicLocalizationTranslation.cs:50-84 | after a put for a non-null language, reading any language with the same id gives the text put |
| Translations.PutKeepsOtherLanguages | Runtime/Scripts/BasicLocalizationTranslation.cs:57-70 | a put leaves the text of every other language id (and of the null language) unchanged |
| Translations.Translation.ReservePhrase | Runtime/Scripts/BasicLocalizationTranslation.cs:86-109 | the phrase list becomes `Reserve` of the old one |
| Translations.Reserve | Runtime/Scripts/BasicLocalizationTranslation.cs:88-108 | an existing phrase with the language's id leaves the list as it is; otherwise one empty-text phrase is appended |
| Translations.ReserveIdempotent | Runtime/Scripts/BasicLocalizationTranslation.cs:86-109 | reserving twice is reserving once, and afterwards the language reads its old text or "" |
| Translations.ReserveNullAlwaysAppends | Runtime/Scripts/BasicLocalizationTranslation.cs:90-108 | reserving the null language appends a phrase on every call, so it is not idempotent |
| Translations.PutAllThenLookup | Runtime/Scripts/BasicLocalizationProfile.cs:489-499 | putting a row of cells for distinct non-null languages makes each language read its own cell |
| Translations.StripKeepsLive | Runtime/Scripts/BasicLocalizationProfile.cs:329-356 | stripping keeps exactly the phrases with a non-null language, and every one of them survives |
| Translations.Nullify | Runtime/Scripts/BasicLocalizationProfile.cs:315 | destroying a language turns every phrase pointing at it into a null-language phrase with the same text, and keeps the others |
| Translations.StripNullifyKeepsOthers | Runtime/Scripts/BasicLocalizationProfile.cs:315-356 | nulling a language and then stripping gives the phrases of the other live languages, in order |
| Translations.KeepLiveDropsLanguage | Runtime/Scripts/BasicLocalizationProfile.cs:329-356 | after removal a phrase survives iff it was present and its language is non-null and not the removed one |
| Locales.Locale.HasCode | Runtime/Scripts/BasicLocalizationLocale.cs:23-44 | true iff the main code is non-empty and equal to the argument, or some non-empty alias code equals it |
| Locales.EmptyCodeNeverMatches | Runtime/Scripts/BasicLocalizationLocale.cs:25-35 | null and "" match no locale |
| Locales.NullAliasListChecksMainOnly | Runtime/Scripts/BasicLocalizationLocale.cs:31 | with no alias list only the main code is compared |
| Locales.AliasOrderIrrelevant | Runtime/Scripts/BasicLocalizationLocale.cs:29-41 | permuting the alias codes does not change any match |
| Locales.EnglishLocaleExample | Runtime/Scripts/BasicLocalizationLocale.cs:23-44 | example (one concrete locale): matching is exact: an English locale with en-US and en-GB aliases matches en-GB and not en-CA |
| Profiles.BuildIndexFirstWins | Runtime/Scripts/BasicLocalizationProfile.cs:177-205 | the index has exactly the keys (guids) of the entries, and maps each to the first entry in list order that carries it |
| Profiles.FindPresentKey | Runtime/Scripts/BasicLocalizationProfile.cs:165-205 | a by-key lookup of a present key returns its first entry, and "" never resolves |
| Profiles.Profile.CacheTranslations | Runtime/Scripts/BasicLocalizationProfile.cs:177-205 | an existing cache is kept; a missing one becomes the index of the current entries |
| Profiles.Profile.ClearTranslationCache | Runtime/Scripts/BasicLocalizationProfile.cs:209-213 | the cache is dropped |
| Profiles.Profile.GetTranslationRawByGuid | Runtime/Scripts/BasicLocalizationProfile.cs:153-163 | the cache is built if missing, and the result is the index's entry for the guid, null for a null or empty guid |
| Profiles.Profile.GetTranslationRawByKey | Runtime/Scripts/BasicLocalizationProfile.cs:165-175 | the cache is built if missing, and the result is the index's entry for the key, null for a null or empty key |
| Profiles.Profile.GetTranslationByReference | Runtime/Scripts/BasicLocalizationProfile.cs:125-151 | a null language gives null and leaves the cache; otherwise the reference resolves by guid, falling back to key, and the entry's text is returned |
| Profiles.Profile.GetTranslationByKey | Runtime/Scripts/BasicLocalizationProfile.cs:108-117 | the text of the entry the key resolves to, null when none does |
| Profiles.ResolveFresh | Runtime/Scripts/BasicLocalizationProfile.cs:125-151 | on a fresh index, a reference resolves to the first entry with its guid if there is one, else to the first entry with its key |
| Profiles.GuidSurvivesRename | Runtime/Scripts/BasicLocalizationProfile.cs:133-141 | a reference with a unique live guid finds its entry whatever stale key it carries |
| Profiles.Profile.GetLanguageByLanguageId | Runtime/Scripts/BasicLocalizationProfile.cs:512-529 | the first language with an equal id; null for a null or empty id or when no language has it |
| ProfileEditor.EditorExtensions.AddLanguage | Runtime/Scripts/BasicLocalizationProfile.cs:257-285 | exactly one fresh language with the given id is appended, and every entry reserves a phrase for it |
| ProfileEditor.EditorExtensions.ReservePhrases | Runtime/Scripts/BasicLocalizationProfile.cs:287-296 | every entry's phrases become `Reserve` of the old ones for the language |
| ProfileEditor.EditorExtensions.RemoveLanguageAt | Runtime/Scripts/BasicLocalizationProfile.cs:298-327 | element i is removed with the order of the rest kept, the default is cleared only if it was the removed language, and each entry keeps the phrases of the other live languages |
| ProfileEditor.EditorExtensions.DestroyLanguage | Runtime/Scripts/BasicLocalizationProfile.cs:315 | every phrase that pointed at the destroyed language now has a null language |
| ProfileEditor.EditorExtensions.RemoveUnrelevantTranslations | Runtime/Scripts/BasicLocalizationProfile.cs:329-356 | every entry loses exactly its null-language phrases |
| ProfileEditor.RemoveNullPhrases | Runtime/Scripts/BasicLocalizationProfile.cs:342-352 | the descending in-place loop leaves a phrase list without its null-language phrases, the others kept in order |
| ProfileEditor.EditorExtensions.AddTranslation | Runtime/Scripts/BasicLocalizationProfile.cs:358-365 | one fresh entry with the key, the supplied guid and no phrases is appended, and the cache is left as it was |
| ProfileEditor.EditorExtensions.RemoveTranslationsAt | Runtime/Scripts/BasicLocalizationProfile.cs:367-388 | the entries become `RemoveAll` of the old ones: a null or empty index list does nothing, otherwise the sorted indices are removed from the highest down |
| ProfileEditor.EditorExtensions.RemoveSorted | Runtime/Scripts/BasicLocalizationProfile.cs:378-386 | the descending removal loop computes `RemoveDescending` of the sorted indices |
| ProfileEditor.RemoveAllRemovesListed | Runtime/Scripts/BasicLocalizationProfile.cs:367-388 | with distinct indices, exactly the entries at the listed positions are removed and the others keep their order |
| ProfileEditor.RepeatedIndexRemovesTwo | Runtime/Scripts/BasicLocalizationProfile.cs:374-386 | a duplicated index i removes the two entries at i and i + 1 |
| ProfileEditor.RemoveDescendingKeeps | Runtime/Scripts/BasicLocalizationProfile.cs:378-386 | removing strictly ascending positions from the top down keeps exactly the unlisted positions, in order |
| ProfileEditor.Sort | Runtime/Scripts/BasicLocalizationProfile.cs:374-376 | the sorted index list is ascending and a permutation of the input |
| ProfileEditor.EditorExtensions.RemoveTranslationAt | Runtime/Scripts/BasicLocalizationProfile.cs:390-400 | removes the entry at the index, or nothing when the index is at or past the count |
| ProfileEditor.RemoveIfInRange | Runtime/Scripts/BasicLocalizationProfile.cs:392-396 | an index inside the list removes that one element; any other index leaves the list unchanged |
| ProfileEditor.EditorExtensions.GetSnapshotData | Runtime/Scripts/BasicLocalizationProfile.cs:404-438 | languages are the ids in order, keys are the entry keys in order, and cell [i][k] is entry i's text for language k, with |languages| cells in each row |
| ProfileEditor.EditorExtensions.ImportSnapshotData | Runtime/Scripts/BasicLocalizationProfile.cs:440-508 | old languages and entries are kept as a prefix. The unknown ids are added once each, with no locale. Each absent key gets a new entry. Entry phrases are the reserved table with each resolved row's cells put for k below the row length. The cache is the rebuilt index, or dropped when there are no keys. |
| ProfileEditor.EditorExtensions.AddMissedLanguages | Runtime/Scripts/BasicLocalizationProfile.cs:449-456 | languages whose id is unknown are appended in snapshot order, and each entry reserves their phrases |
| ProfileEditor.EditorExtensions.PrepareLookUp | Runtime/Scripts/BasicLocalizationProfile.cs:460-465 | the look-up table maps each snapshot id to the first language with that id, null for "" |
| ProfileEditor.EditorExtensions.AddMissedTranslations | Runtime/Scripts/BasicLocalizationProfile.cs:469-481 | appends one entry per snapshot key that is not among the old keys or is "", in snapshot order, a repeated absent key included, with the supplied guids |
| ProfileEditor.EditorExtensions.TraverseTranslations | Runtime/Scripts/BasicLocalizationProfile.cs:485-502 | each snapshot row whose key resolves writes its cells into that entry, cell k going to look-up language k when k is below the row length |
| ProfileEditor.AllKeysResolve | Runtime/Scripts/BasicLocalizationProfile.cs:469-491 | after the missing keys are added, every non-empty snapshot key resolves |
| Snapshots.AddedIdsCover | Runtime/Scripts/BasicLocalizationProfile.cs:449-456 | every snapshot language id is among the ids after the add pass |
| Snapshots.AddedIdsFresh | Runtime/Scripts/BasicLocalizationProfile.cs:449-456 | no added non-empty id duplicates an existing one or an earlier added one |
| Snapshots.MissingRowsExact | Runtime/Scripts/BasicLocalizationProfile.cs:469-481 | a row adds an entry iff its key is "" or absent from the old keys, and the added rows are in ascending order |
| Snapshots.Targets | Runtime/Scripts/BasicLocalizationProfile.cs:487-490 | each row targets the first entry with its key, and "" or an absent key targets nothing |
| Snapshots.EmptyKeyEntryUntouched | Runtime/Scripts/BasicLocalizationProfile.cs:485-502 | an entry whose key is "" receives no cells |
| Snapshots.ApplyRowLookup | Runtime/Scripts/BasicLocalizationProfile.cs:492-499 | after a row is written, language k reads cell k when the row has it, and its old text otherwise |
| Snapshots.ApplyRowsUntargeted | Runtime/Scripts/BasicLocalizationProfile.cs:485-502 | entries no row targets keep their phrases |
| Snapshots.PutAllSkipsOthers | Runtime/Scripts/BasicLocalizationProfile.cs:492-499 | writing a row leaves languages outside the look-up table unchanged |
| PlayerPrefs.PrefStore.Save | Runtime/Scripts/BasicLocalizationPlayerPrefUtils.cs:9-16 | a null language or profile leaves the store; otherwise the language id is stored under "localization.current_language_key", and a later restore gives the language back |
| PlayerPrefs.RestoreFrom | Runtime/Scripts/BasicLocalizationPlayerPrefUtils.cs:23-45 | null iff the key is missing, the stored id is "" or no language has it; a result is in the list and carries the stored id |
| PlayerPrefs.Restore | Runtime/Scripts/BasicLocalizationPlayerPrefUtils.cs:18-46 | a null profile gives null; otherwise the search of the profile's languages |
| PlayerPrefs.RestoreAfterSave | Runtime/Scripts/BasicLocalizationPlayerPrefUtils.cs:14-38 | saving a listed language with a non-empty id that no earlier language shares, then restoring, gives that language |
| PlayerPrefs.EmptyIdNotRestored | Runtime/Scripts/BasicLocalizationPlayerPrefUtils.cs:28 | a language with id "" is saved but never restored |
| PlayerPrefs.RestoreIgnoresOtherKeys | Runtime/Scripts/BasicLocalizationPlayerPrefUtils.cs:23-27 | other store keys do not affect the restored language |
| LanguageSelection.FindByCode | Runtime/Scripts/LanguageSelectors/SystemLanguageSelector.cs:86-97 | the first language in list order whose locale is set and has the code; null iff none has |
| LanguageSelection.FindByEmptyCode | Runtime/Scripts/LanguageSelectors/SystemLanguageSelector.cs:86-97 | null and "" find no language |
| LanguageSelection.CommandLineFirstPrefixedArg | Runtime/Scripts/LanguageSelectors/CommandLineLanguageSelector.cs:18-58 | with a non-empty prefix the first argument starting with it (ordinal, ignoring case) decides: its trimmed remainder is looked up, even when nothing matches |
| LanguageSelection.CommandLineNoPrefixedArg | Runtime/Scripts/LanguageSelectors/CommandLineLanguageSelector.cs:23-39 | without an argument carrying the prefix the result is null |
| LanguageSelection.CommandLineLanguageMember | Runtime/Scripts/LanguageSelectors/CommandLineLanguageSelector.cs:18-58 | a null or empty prefix gives null; a result is one of the profile's languages |
| LanguageSelection.CultureCodeRoundTrip | Runtime/Scripts/LanguageSelectors/SystemLanguageSelector.cs:104-151 | each of the 42 listed system languages is recovered from its code |
| LanguageSelection.CultureCodeInjective | Runtime/Scripts/LanguageSelectors/SystemLanguageSelector.cs:104-151 | listed system languages have non-empty, pairwise distinct codes |
| LanguageSelection.CultureCodeEmptyIffUnlisted | Runtime/Scripts/LanguageSelectors/SystemLanguageSelector.cs:104-151 | the code is "" exactly for the system languages the table does not list |
| LanguageSelection.CultureCodeExamples | Runtime/Scripts/LanguageSelectors/SystemLanguageSelector.cs:108-150 | examples (three concrete languages): Chinese is "zh-CN", English is "en", Unknown is "" |
| LanguageSelection.UnlistedNeverMatches | Runtime/Scripts/LanguageSelectors/SystemLanguageSelector.cs:39-48 | an unlisted or unknown system language finds no language |
| LanguageSelection.CultureLanguage | Runtime/Scripts/LanguageSelectors/SystemLanguageSelector.cs:22-37 | null iff no culture of the chain finds a language; a result is what some culture finds |
| LanguageSelection.CultureWalkFirstMatch | Runtime/Scripts/LanguageSelectors/SystemLanguageSelector.cs:22-37 | the walk stops at the first culture of the chain that finds a language |
| LanguageSelection.FindByCulture | Runtime/Scripts/LanguageSelectors/SystemLanguageSelector.cs:22-37 | the culture-parent loop computes `CultureLanguage` |
| LanguageSelection.FirstFound | Runtime/Scripts/LanguageSelectors/SystemLanguageSelector.cs:63-70 | the first non-null finder result, null iff every finder gives null |
| LanguageSelection.SystemSelectorPriority | Runtime/Scripts/LanguageSelectors/SystemLanguageSelector.cs:52-70 | off WebGL a culture match wins, on WebGL a table match wins, and without a culture match the table decides |
| LanguageSelection.SystemSelectorGetLanguage | Runtime/Scripts/LanguageSelectors/SystemLanguageSelector.cs:17-71 | the finder loop computes `SystemSelectorLanguage`, null for an empty language list |
| LanguageSelection.FirstWithMainCode | Runtime/Scripts/LanguageSelectors/SpecificLocaleLanguageSelector.cs:25-30 | the first language whose locale's main code equals the code; null iff none |
| LanguageSelection.SpecificLocaleIgnoresAliases | Runtime/Scripts/LanguageSelectors/SpecificLocaleLanguageSelector.cs:27 | the selector's alias codes do not affect its result |
| LanguageSelection.SpecificLocaleMainCodeOnly | Runtime/Scripts/LanguageSelectors/SpecificLocaleLanguageSelector.cs:17-34 | a result's main code is the selector's main code |
| LanguageSelection.SelectorLanguage | Runtime/Scripts/LanguageSelectors/BaseLanguageSelector.cs:28 | the default selector gives exactly the profile's default, with no membership check; the player-pref selector gives `Restore`; every other non-null result is a profile language |
| LanguageSelection.SelectorGetLanguage | Runtime/Scripts/LanguageSelectors/BaseLanguageSelector.cs:28 | dispatching a selector computes `SelectorLanguage` and reads only the store |
| Facade.ChainLanguage | Runtime/Scripts/BasicLocalization.cs:188-199 | null iff every selector gives null; otherwise a profile language or the default |
| Facade.ChainGetLanguage | Runtime/Scripts/BasicLocalization.cs:190-198 | the selector loop with early exit computes `ChainLanguage` |
| Facade.ChainFirstSelector | Runtime/Scripts/BasicLocalization.cs:190-198 | the first selector with a non-null result decides, and later selectors are ignored |
| Facade.ChainWithDefaultNeverNull | Runtime/Scripts/BasicLocalization.cs:190-198 | a chain containing the default selector, on a profile with a default, always finds a language |
| Facade.DefaultChainPrefersSaved | Runtime/Scripts/BasicLocalization.cs:190-198 | with the new-profile selectors and no command-line match, a saved language wins over the system and default selectors |
| Facade.Localization.GetCurrentProfile | Runtime/Scripts/BasicLocalization.cs:233-243 | the override if set, else the instance |
| Facade.Localization.LanguageFor | Runtime/Scripts/BasicLocalization.cs:183-202 | a cached language is returned whatever the profile; otherwise the chain of the profile, null without a profile |
| Facade.Localization.GetCurrentLanguageFor | Runtime/Scripts/BasicLocalization.cs:183-202 | returns `LanguageFor` and caches it |
| Facade.Localization.GetCurrentLanguage | Runtime/Scripts/BasicLocalization.cs:64-68 | the current language of the current profile, now cached |
| Facade.Localization.GetAvailableLanguages | Runtime/Scripts/BasicLocalization.cs:74-78 | the current profile's languages |
| Facade.Localization.SelectLanguage | Runtime/Scripts/BasicLocalization.cs:152-162 | iff the new language is non-null and differs from the current one: it is cached, its id saved, and one event logged; otherwise nothing changes |
| Facade.Localization.SelectLanguageAt | Runtime/Scripts/BasicLocalization.cs:84-97 | with the corrected guard: with a current language and an index that is a position, that language is selected (made current, saved to the preferences and announced when it was not current); otherwise nothing changes beyond filling the cache |
| Facade.OffsetIndex | Runtime/Scripts/BasicLocalization.cs:128-147 | +1 steps forward with the last wrapping to 0, -1 steps back with 0 wrapping to the last, any other offset gives 0 |
| Facade.NextPreviousRoundTrip | Runtime/Scripts/BasicLocalization.cs:128-147 | next then previous, and previous then next, return to the start |
| Facade.OffsetIndexMoves | Runtime/Scripts/BasicLocalization.cs:128-147 | with at least two languages a ±1 step always moves |
| Facade.Localization.SelectLanguageWithOffset | Runtime/Scripts/BasicLocalization.cs:115-150 | a current language in the list selects its circular neighbour; no current language, or one outside the list, changes nothing |
| Facade.Localization.SelectNextLanguage | Runtime/Scripts/BasicLocalization.cs:102-105 | when the current language is in the list, the language one position after its first position (wrapping to the first) is selected: made current, and saved to the preferences and announced exactly when it differs from the current one; with two or more distinct languages it always changes; otherwise nothing changes beyond filling the cache |
| Facade.Localization.SelectPreviousLanguage | Runtime/Scripts/BasicLocalization.cs:110-113 | when the current language is in the list, the language one position before its first position (wrapping to the last) is selected: made current, and saved to the preferences and announced exactly when it differs from the current one; with two or more distinct languages it always changes; otherwise nothing changes beyond filling the cache |
| Facade.Localization.OverrideCurrentProfile | Runtime/Scripts/BasicLocalization.cs:169-181 | the override is set, the cache is re-resolved from scratch against override or instance, and one event is logged (possibly null) iff the language changed by reference |
| Facade.Localization.GetTranslationFrom | Runtime/Scripts/BasicLocalization.cs:55-58 | a null profile gives null with the current language untouched; otherwise the current language is resolved and cached, the profile's lists and settings are unchanged, a null current language gives null with the index untouched, and a non-null one gives the text of the entry the reference resolves to in the (built on first use) index |
| Facade.Localization.GetTranslation | Runtime/Scripts/BasicLocalization.cs:37-40 | without a current profile null and the current language untouched; otherwise the current language is resolved and cached, the profile's lists and settings are unchanged, a null current language gives null with the index untouched, and a non-null one gives the text of the entry the reference resolves to in the (built on first use) index |
| Facade.Localization.GetTranslationByKey | Runtime/Scripts/BasicLocalization.cs:47-53 | the same as `GetTranslation` for a reference with that key and a null guid: without a current profile null and the current language untouched; otherwise the current language is resolved and cached, the profile's lists and settings are unchanged, a null current language gives null with the index untouched, and a non-null one gives the text of the entry the key resolves to |
| Facade.RejectsIndexExactly | Runtime/Scripts/BasicLocalization.cs:90-96 | the corrected guard admits exactly the positions 0 <= i < count, and differs from the written one only at i == count |
| Facade.SourceGuardAdmitsCount | Runtime/Scripts/BasicLocalization.cs:90-96 | the written guard lets index == count through, which is not a position |
| Csv.ExportRows | Editor/Scripts/MainEditorWindow/BasicLocalizationCSVConverter.cs:16-30 | the header is "Key" followed by the language ids, then one row per key: the key followed by that key's cells |
| Csv.WriteRows | Editor/Scripts/MainEditorWindow/BasicLocalizationCSVConverter.cs:16-30 | the row-writing loop computes `ExportRows` |
| Csv.Export | Editor/Scripts/MainEditorWindow/BasicLocalizationCSVConverter.cs:8-33 | nothing is written iff the path is null or empty; otherwise the header names the profile's language ids and row i + 1 holds entry i's key and its text per language |
| Csv.HeaderLanguages | Editor/Scripts/MainEditorWindow/BasicLocalizationCSVConverter.cs:47-56 | the languages are the header cells after the first, and only when there are more than one |
| Csv.KeyOnlyRowsShortenCells | Editor/Scripts/MainEditorWindow/BasicLocalizationCSVConverter.cs:60-76 | as written, every key-only row makes the cell rows one shorter than the keys |
| Csv.KeyOnlyRowShiftsCells | Editor/Scripts/MainEditorWindow/BasicLocalizationCSVConverter.cs:60-76 | as written, one key-only row shifts the next key's cells onto it |
| Csv.ReadSnapshot | Editor/Scripts/MainEditorWindow/BasicLocalizationCSVConverter.cs:39-76 | the corrected parse keeps one cell row per key |
| Csv.ReadDataRows | Editor/Scripts/MainEditorWindow/BasicLocalizationCSVConverter.cs:60-76 | for non-empty rows each row gives its key and its remaining cells, in order |
| Csv.ReadDataAgrees | Editor/Scripts/MainEditorWindow/BasicLocalizationCSVConverter.cs:60-76 | with no key-only rows the parse as written and the corrected parse agree |
| Csv.ReadRows | Editor/Scripts/MainEditorWindow/BasicLocalizationCSVConverter.cs:43-76 | the corrected reading loops compute `ReadSnapshot`; the source's loops compute `ReadSnapshotAsWritten` |
| Csv.RoundTrip | Editor/Scripts/MainEditorWindow/BasicLocalizationCSVConverter.cs:18-76 | reading back the exported rows gives the same languages, keys and cells, with null cells read as "" |
| Csv.RoundTripAsWritten | Editor/Scripts/MainEditorWindow/BasicLocalizationCSVConverter.cs:18-76 | when every row has cells (at least one language), the parse as written also gives the snapshot back |
| Csv.Import | Editor/Scripts/MainEditorWindow/BasicLocalizationCSVConverter.cs:35-81 | an empty path changes nothing; otherwise the parsed snapshot is imported, after which every header language id and every non-empty key is in the profile |
| KeyReferenceDrawing.Heal | Editor/Scripts/BasicLocalizationKeyReferencePropertyDrawer.cs:54-87 | a resolving guid refreshes the key; a stale guid with a resolving key gets the key text; with neither resolving both fields stay; an empty guid gets the entry's guid, or null |
| KeyReferenceDrawing.HealIdempotent | Editor/Scripts/BasicLocalizationKeyReferencePropertyDrawer.cs:54-87 | with unique non-empty guids that no key equals, healing a healed reference changes nothing |
| KeyReferenceDrawing.StaleGuidNotAGuid | Editor/Scripts/BasicLocalizationKeyReferencePropertyDrawer.cs:59-66 | when no key equals a guid, the key text written into the guid field does not resolve as a guid |
| KeyReferenceDrawing.StoredGuidFindsEntry | Editor/Scripts/BasicLocalizationKeyReferencePropertyDrawer.cs:72-75 | with unique guids, the guid stored for a resolved key finds the same entry |
| KeyReferenceDrawing.KeyReferenceDrawer.HealField | Editor/Scripts/BasicLocalizationKeyReferencePropertyDrawer.cs:50-87 | the field becomes `Heal` of its old value against the profile's cache, which is built if missing; the profile's lists stay |
| KeyReferenceDrawing.KeyReferenceField.EditKey | Editor/Scripts/BasicLocalizationKeyReferencePropertyDrawer.cs:112-118 | a key edit stores the text and clears the guid |
| KeyReferenceDrawing.KeyReferenceField.PickSuggestion | Editor/Scripts/BasicLocalizationKeyReferencePropertyDrawer.cs:187-191 | a picked suggestion stores its key and clears the guid |
| KeyReferenceDrawing.HealAfterEdit | Editor/Scripts/BasicLocalizationKeyReferencePropertyDrawer.cs:72-118 | after an edit the next heal resolves by key and stores that entry's guid, or null |
| KeyReferenceDrawing.MatchingMembers | Editor/Scripts/BasicLocalizationKeyReferencePropertyDrawer.cs:176-185 | an entry is suggested iff it is in the profile and the typed text is empty or its folded key contains the folded text |
| KeyReferenceDrawing.MatchingAllWhenEmpty | Editor/Scripts/BasicLocalizationKeyReferencePropertyDrawer.cs:180 | with empty typed text every entry is suggested, in order |
| KeyReferenceDrawing.SuggestionList | Editor/Scripts/BasicLocalizationKeyReferencePropertyDrawer.cs:166-203 | no profile gives no items; otherwise the matching entries in profile order, capped at 100 |
| KeyReferenceDrawing.Suggest | Editor/Scripts/BasicLocalizationKeyReferencePropertyDrawer.cs:171-201 | the counting loop with its break computes `SuggestionList` |
| KeyReferenceDrawing.MatchingCapped | Editor/Scripts/BasicLocalizationKeyReferencePropertyDrawer.cs:195-199 | stopping at the 100th match gives the first 100 matches of the whole list |
| KeyReferenceDrawing.PreviewIndex | Editor/Scripts/BasicLocalizationKeyReferencePropertyDrawer.cs:231-246 | an index in range is kept; otherwise the first position of the default id among the phrase ids, or 0 when there is no default or it is absent |
| KeyReferenceDrawing.CollectPhraseIds | Editor/Scripts/BasicLocalizationKeyReferencePropertyDrawer.cs:224-227 | the ids of the phrases' languages, null for a null language |
| KeyReferenceDrawing.KeyReferenceDrawer.ChoosePreview | Editor/Scripts/BasicLocalizationKeyReferencePropertyDrawer.cs:209-246 | no entry, phrases or profile keeps the index; otherwise it becomes `PreviewIndex` |
| ProfileEditorControl.LanguageVisibilityMask.IsVisible | Editor/Scripts/MainEditorWindow/BasicLocalizationProfileEditorController.cs:561-564 | without a mask every language is visible; with one, only keys flagged true are |
| ProfileEditorControl.VisibleCount | Editor/Scripts/MainEditorWindow/BasicLocalizationProfileEditorController.cs:537-551 | -1 exactly without a mask, else between 0 and the number of keys |
| ProfileEditorControl.LanguageVisibilityMask.GetVisibleCount | Editor/Scripts/MainEditorWindow/BasicLocalizationProfileEditorController.cs:537-551 | the counting loop computes the number of true flags, -1 without a mask |
| ProfileEditorControl.LanguageVisibilityMask.SetVisibility | Editor/Scripts/MainEditorWindow/BasicLocalizationProfileEditorController.cs:553-559 | only a language already in the mask changes its flag; otherwise nothing changes |
| ProfileEditorControl.LanguageVisibilityMask.Recreate | Editor/Scripts/MainEditorWindow/BasicLocalizationProfileEditorController.cs:566-593 | an empty list removes the mask; otherwise the keys are exactly the given languages, with old flags kept and new ones true |
| ProfileEditorControl.Recreated | Editor/Scripts/MainEditorWindow/BasicLocalizationProfileEditorController.cs:574-592 | the rebuilt mask has exactly the listed languages as keys |
| ProfileEditorControl.RecreateKeepsVisibility | Editor/Scripts/MainEditorWindow/BasicLocalizationProfileEditorController.cs:574-592 | a listed language keeps its old visibility or becomes visible if new; an unlisted one is hidden |
| ProfileEditorControl.LanguageVisibilityMask.ShowAll | Editor/Scripts/MainEditorWindow/BasicLocalizationProfileEditorController.cs:595-604 | no mask stays no mask; otherwise every existing key is flagged true |
| ProfileEditorControl.LanguageVisibilityMask.HideAll | Editor/Scripts/MainEditorWindow/BasicLocalizationProfileEditorController.cs:606-615 | no mask stays no mask; otherwise every existing key is flagged false |
| ProfileEditorControl.LanguageVisibilityMask.SetAll | Editor/Scripts/MainEditorWindow/BasicLocalizationProfileEditorController.cs:595-615 | the shared loop of show and hide keeps the key set and sets every flag to the value |
| ProfileEditorControl.AllFlagsCount | Editor/Scripts/MainEditorWindow/BasicLocalizationProfileEditorController.cs:595-615 | after show-all every key is visible and the count is the key count; after hide-all nothing is visible and the count is 0 |
| ProfileEditorControl.RowIdsExact | Editor/Scripts/MainEditorWindow/BasicLocalizationProfileEditorController.cs:314-346 | a row id is present iff it is an entry index whose folded key contains the folded search (or the search is empty), and ids ascend |
| ProfileEditorControl.RowIdsAllWhenEmpty | Editor/Scripts/MainEditorWindow/BasicLocalizationProfileEditorController.cs:319 | an empty search keeps every row, as 0 .. n - 1 |
| ProfileEditorControl.BlankSearchKeepsAll | Editor/Scripts/MainEditorWindow/BasicLocalizationProfileEditorController.cs:317-319 | a search of only white space is trimmed to empty and keeps every row |
| ProfileEditorControl.BuildRows | Editor/Scripts/MainEditorWindow/BasicLocalizationProfileEditorController.cs:304-349 | no profile gives no rows; otherwise the filtering loop computes `RowIds` of the entries for the trimmed search |
| ProfileEditorControl.DefaultPopupIndex | Editor/Scripts/MainEditorWindow/BasicLocalizationProfileEditorController.cs:189 | the shown index is the first position of the default plus one, and 0 ("Unknown") exactly when the default is unset or absent |
| ProfileEditorControl.DefaultFromPopup | Editor/Scripts/MainEditorWindow/BasicLocalizationProfileEditorController.cs:194 | choosing 0 or -1 clears the default, choosing i picks language i - 1 |
| ProfileEditorControl.PopupKeepsDefault | Editor/Scripts/MainEditorWindow/BasicLocalizationProfileEditorController.cs:189-194 | re-choosing the shown index keeps a listed default and clears an unlisted one |
| ProfileEditorControl.PopupShowsChoice | Editor/Scripts/MainEditorWindow/BasicLocalizationProfileEditorController.cs:189-194 | with distinct languages the popup then shows the index chosen |
| ProfileEditorControl.PopupLabels | Editor/Scripts/MainEditorWindow/BasicLocalizationProfileEditorController.cs:178-185 | the labels are "Unknown" followed by the language ids |
| ProfileEditorControl.DrawSelectDefaultLanguage | Editor/Scripts/MainEditorWindow/BasicLocalizationProfileEditorController.cs:176-197 | shows the labels and the default's index; a choice sets the default by `DefaultFromPopup`, no choice leaves it |
| GoogleTranslation.PlanMember | Editor/Scripts/MainEditorWindow/BasicLocalizationGoogleTranslator.cs:28-53 | a command is planned iff it goes from the default to a listed language other than the default (by reference), its entry has non-empty default text, and the target is empty or only-empty is off |
| GoogleTranslation.PlanAppend | Editor/Scripts/MainEditorWindow/BasicLocalizationGoogleTranslator.cs:28-53 | the plan of a concatenation is the concatenation of the plans, so commands are grouped by entry in order |
| GoogleTranslation.LanguagePlanMember | Editor/Scripts/MainEditorWindow/BasicLocalizationGoogleTranslator.cs:37-52 | an entry's commands target exactly the languages that pass the target test |
| GoogleTranslation.LanguagePlanAppend | Editor/Scripts/MainEditorWindow/BasicLocalizationGoogleTranslator.cs:37-52 | within one entry, commands follow the language list order |
| GoogleTranslation.PlanCommands | Editor/Scripts/MainEditorWindow/BasicLocalizationGoogleTranslator.cs:26-53 | the nested planning loops compute `Plan` |
| GoogleTranslation.PlanEntry | Editor/Scripts/MainEditorWindow/BasicLocalizationGoogleTranslator.cs:30-52 | the inner loop computes `EntryPlan` |
| GoogleTranslation.PlanInProfile | Editor/Scripts/MainEditorWindow/BasicLocalizationGoogleTranslator.cs:28-53 | every planned command names an entry of the profile |
| GoogleTranslation.Run | Editor/Scripts/MainEditorWindow/BasicLocalizationGoogleTranslator.cs:83-94 | the entry's phrases become `RunOn`: the oracle's answer is put for the target |
| GoogleTranslation.RunWritesAnswer | Editor/Scripts/MainEditorWindow/BasicLocalizationGoogleTranslator.cs:83-94 | a non-empty answer becomes the target's text; an empty one leaves the phrases; other languages keep their text |
| GoogleTranslation.Stop | Editor/Scripts/MainEditorWindow/BasicLocalizationGoogleTranslator.cs:57-65 | the run stops at the first command that is cancelled or cannot run, and every earlier one ran |
| GoogleTranslation.ReplayUntouched | Editor/Scripts/MainEditorWindow/BasicLocalizationGoogleTranslator.cs:57-65 | an entry no executed command names keeps its phrases |
| GoogleTranslation.ReplayAppend | Editor/Scripts/MainEditorWindow/BasicLocalizationGoogleTranslator.cs:57-65 | running two command lists in sequence is running their concatenation |
| GoogleTranslation.RunCommands | Editor/Scripts/MainEditorWindow/BasicLocalizationGoogleTranslator.cs:57-65 | the outcome says where the run stopped, and each entry's phrases are the replay of exactly the commands before the stop |
| GoogleTranslation.Translate | Editor/Scripts/MainEditorWindow/BasicLocalizationGoogleTranslator.cs:14-71 | no default language leaves every entry unchanged; otherwise the plan is `Plan` of the profile, and each entry holds the effect of the commands run before the first cancel |

## Left out

- Drawing code is not modelled. This covers IMGUI drawing, tree-view item caching, rects and heights, the progress bar and its float fraction, and the selectors' `DrawElement`/`GetElementHeight`. All of it is host-rendered UI.
- Unity persistence calls are no-ops. These are Undo, `AssetDatabase`, `SetDirty` and `SaveAssets`. `PlayerPrefs.Save()` is the store update itself.
- The translation web service is the `Oracle` function parameter. The HTTP request, the JSON parsing and their exceptions are network I/O and a foreign library.
- GoogleTranslation.Run: a thrown network exception, which would abort the whole run, is not modelled. A command is only run when both languages have a locale; the source dereferences the locale and would throw otherwise. This stop is `Faulted`.
- The Mono.Csv reader and writer are not modelled. Rows are `seq<seq<Option<string>>>` out and `seq<seq<string>>` in, and a null cell is written as "".
- Host APIs are values of `Host`. These are `Environment.GetCommandLineArgs`, `CultureInfo.CurrentUICulture` with its parent chain up to the invariant culture, `Application.systemLanguage`, and the `UNITY_WEBGL` define. The player prefs are the `PrefStore` map.
- The culture-sensitive fold (`CurrentCultureIgnoreCase`) is a function parameter `fold`. `OrdinalIgnoreCase` is modelled as ASCII upper-casing, which is ordinal folding for ASCII text only.
- The editor branch of `GetCurrentProfile` is not modelled. It covers the scene manager lookup, the `delayCall` reset and `GetProfileFromConfig`, and depends on Unity scene and load state. The facade takes the runtime branch.
- `OnEnable`, a main-asset singleton choice, is not modelled. Neither are `SetMainAssetFlag` and `ClearMainAssetFlag`, which are asset flags.
- `GetLanguage(string)` at `BasicLocalizationProfile.cs:97-100` is not modelled separately. It only forwards to `GetLanguageByLanguageId`.
- The profile's lists, their elements, an entry's key and a selector list are never null. The source's null guards on them are vacuous here. The row filter's "null keys are always kept" case and the chain's "null selector list" case therefore do not arise.
- Guids are not generated. `Translation.Create`, `AddTranslation` and import take the fresh guid strings from the caller.
- A language's id is a constant. The editor's renaming of `languageId` at `BasicLocalizationProfileEditorController.cs:1030` is not part of this model, so an entry's key and guid are constants too.
- Facade.Localization.GetAvailableLanguages, SelectLanguageAt, SelectLanguageWithOffset, SelectNextLanguage, SelectPreviousLanguage: they require a current profile. The source dereferences `profile.languages` and throws on a null profile.
- ProfileEditor.EditorExtensions.RemoveLanguageAt requires an index inside the language list. The source's `languages[index]` throws otherwise.
- ProfileEditor.EditorExtensions.RemoveTranslationsAt and RemoveTranslationAt require non-negative indices. The source's `RemoveAt` throws for a negative index.
- ProfileEditor.EditorExtensions.ImportSnapshotData requires a cell row for every import row whose key will resolve, that is every non-empty key, when the snapshot has languages. The source reads `data.translations[i]` there and throws otherwise. The corrected CSV parse always meets this.
- ProfileEditor.EditorExtensions.ImportSnapshotData does not state that the languages it adds are fresh objects. It states their ids, their missing locale and the phrases reserved for them.
- ProfileEditorControl.LanguageVisibilityMask.Recreate requires distinct languages. A repeated language makes `Dictionary.Add` throw in the source.
- Csv.Import states only the coverage of languages and keys. The full effect on the profile is `ImportSnapshotData`'s contract, applied to `ReadSnapshot(rows)`.
- Events are a log of the languages notified. Multicast delegates and subscriber code are not modelled.
- `SerializedProperty` string values are `Option<string>`. The property drawer's handling of the serialization (`ApplyModifiedProperties`, focus) is not modelled.
- Facade.Localization.SelectLanguageAt uses the corrected guard (`index >= Count` is rejected). On `index == Count` the source's guard at `BasicLocalization.cs:93` lets the index through and `languages[index]` at `:96` throws; the model ignores that index instead (see "## Findings").
- Csv.ReadRows computes the corrected parse `ReadSnapshot`. The source's loops compute `ReadSnapshotAsWritten`, which shifts cell rows after a key-only row (see "## Findings").
- Csv.Import imports the corrected parse. On a file such as `Key,en` / `a` / `b,B` the source's import reads `data.translations[i]` past its end at `BasicLocalizationProfile.cs:494` and throws after entries were already added; the model imports the file as intended instead.
- A language's id is never null. The source's phrase lookups call `p.language.LanguageId.Equals(...)` at `BasicLocalizationTranslation.cs:38`, `:62` and `:94`, which would throw on a null id.
- `LocalizedText`, `LocalizedTextMeshPro`, `BasicLocalizationManager`, the build hooks, the editor settings and `ManagedReferenceUtils` are not part of this model.

## Findings

| source | as written | input that shows it | evidently intended | confidence | as-written member | corrected member |
|---|---|---|---|---|---|---|
| Runtime/Scripts/BasicLocalization.cs:90-96 | the guard rejects `index > languages.Count`, so `index == Count` reaches `languages[index]` | a profile with 2 languages and a current language, `SelectLanguageAt(2)` | reject every index that is not a position (`index >= Count`) | high, not executed | Facade.SourceGuardAdmitsCount | Facade.RejectsIndexExactly |
| Editor/Scripts/MainEditorWindow/BasicLocalizationCSVConverter.cs:60-76 | a key-only row adds a key but no cell row, so every later cell row pairs with the wrong key | header `Key,en`, then a row `a`, then a row `b,B` | each key keeps its own (possibly empty) cell row | high, not executed | Csv.KeyOnlyRowShiftsCells | Csv.ReadSnapshot |

- The first finding: `Facade.Localization.SelectLanguageAt` uses the corrected guard.
- The second finding: `Csv.Import` and `Csv.ReadRows` use the corrected parse `ReadSnapshot`. `Csv.RoundTrip` proves the round trip for it. `Csv.ReadDataAgrees` shows that the two parses agree on files without key-only rows.
