/** The snapshot interchange shape and the rules by which
    `ImportSnapshotData` merges a snapshot into a profile, stated on values
    (BasicLocalizationProfile.SnapshotData and EditorExtensions). */
module Snapshots {
  import opened Wrappers
  import opened Strings
  import opened Languages
  import opened Translations
  import opened Profiles

  /** `SnapshotData`: language ids, keys, and one row of cells per key. */
  datatype SnapshotData = SnapshotData(languages: seq<string>, keys: seq<string>, translations: seq<seq<Option<string>>>)

  /** The ids for which the first import loop creates a language, in order:
      an id is added when it is empty (`GetLanguageByLanguageId("")` is
      null) or when neither the existing languages nor those added before it
      carry it. */
  function AddedIds(existing: seq<string>, ids: seq<string>): seq<string>
    decreases |ids|
  {
    if ids == [] then []
    else
      var prior := AddedIds(existing, ids[..|ids| - 1]);
      var id := ids[|ids| - 1];
      if id == "" || id !in existing + prior then prior + [id] else prior
  }

  /** Every snapshot language id exists after the first loop. */
  lemma {:induction false} AddedIdsCover(existing: seq<string>, ids: seq<string>)
    ensures forall i :: 0 <= i < |ids| ==> ids[i] in existing + AddedIds(existing, ids)
    decreases |ids|
  {
    if ids != [] {
      var n := |ids| - 1;
      AddedIdsCover(existing, ids[..n]);
      var prior := AddedIds(existing, ids[..n]);
      forall i | 0 <= i < |ids| ensures ids[i] in existing + AddedIds(existing, ids) {
        if i < n {
          assert ids[i] == ids[..n][i];
        }
      }
    }
  }

  /** Each non-empty id of `added` is new: neither in `existing` nor
      earlier in `added`. */
  predicate FreshIds(existing: seq<string>, added: seq<string>) {
    forall j :: 0 <= j < |added| && added[j] != "" ==> added[j] !in existing && added[j] !in added[..j]
  }

  /** No non-empty id is duplicated: an added non-empty id is neither an
      existing one nor one added before it. */
  lemma {:induction false} AddedIdsFresh(existing: seq<string>, ids: seq<string>)
    ensures FreshIds(existing, AddedIds(existing, ids))
    decreases |ids|
  {
    if ids != [] {
      var n := |ids| - 1;
      AddedIdsFresh(existing, ids[..n]);
      var prior := AddedIds(existing, ids[..n]);
      var added := AddedIds(existing, ids);
      if added != prior {
        var id := ids[n];
        assert added == prior + [id];
        assert id != "" ==> id !in existing + prior;
        forall j | 0 <= j < |added| && added[j] != "" ensures added[j] !in existing && added[j] !in added[..j] {
          if j < |prior| {
            assert added[j] == prior[j] && added[..j] == prior[..j];
          } else {
            assert added[..j] == prior;
          }
        }
      }
    }
  }

  /** The positions of the snapshot keys for which the second import loop
      creates an entry, ascending. The index is built once, before any entry
      is added, from the keys `existing` of the entries present then; so a
      key is added when it is empty or absent from `existing`, on every
      occurrence. */
  function MissingRows(existing: seq<string>, keys: seq<string>): (r: seq<nat>)
    ensures forall j :: 0 <= j < |r| ==> r[j] < |keys|
    decreases |keys|
  {
    if keys == [] then []
    else
      var n := |keys| - 1;
      MissingRows(existing, keys[..n]) + if keys[n] == "" || keys[n] !in existing then [n] else []
  }

  lemma MissingRowsSnoc(existing: seq<string>, keys: seq<string>, i: nat)
    requires i < |keys|
    ensures MissingRows(existing, keys[..i + 1]) ==
      MissingRows(existing, keys[..i]) + if keys[i] == "" || keys[i] !in existing then [i] else []
  {
    assert keys[..i + 1][..i] == keys[..i];
  }

  /** A position is in `MissingRows` iff its key is empty or absent, and the
      positions are strictly ascending (so an absent key that occurs twice
      yields two new entries). */
  lemma {:induction false} MissingRowsExact(existing: seq<string>, keys: seq<string>)
    ensures forall i :: 0 <= i < |keys| ==> (i in MissingRows(existing, keys) <==> keys[i] == "" || keys[i] !in existing)
    ensures forall a, b :: 0 <= a < b < |MissingRows(existing, keys)| ==> MissingRows(existing, keys)[a] < MissingRows(existing, keys)[b]
    decreases |keys|
  {
    if keys != [] {
      var n := |keys| - 1;
      MissingRowsExact(existing, keys[..n]);
      forall i | 0 <= i < n ensures keys[i] == keys[..n][i] {
      }
    }
  }

  /** The elements of `s` at the positions `rows`, in that order. */
  function Pick(s: seq<string>, rows: seq<nat>): (r: seq<string>)
    requires forall m :: 0 <= m < |rows| ==> rows[m] < |s|
    ensures |r| == |rows| && forall m :: 0 <= m < |rows| ==> r[m] == s[rows[m]]
  {
    seq(|rows|, m requires 0 <= m < |rows| => s[rows[m]])
  }

  /** The phrase lists of `n` new entries. */
  function Nones(n: nat): (r: seq<PhraseList>)
    ensures |r| == n && forall j :: 0 <= j < n ==> r[j] == None
  {
    seq(n, j => None)
  }

  /** Position of the entry the third import loop writes for each key of
      the snapshot, given the keys of the entries after the second loop: the
      first entry with that key; -1 (no entry) for an empty key. */
  function Targets(tableKeys: seq<string>, keys: seq<string>): (r: seq<int>)
    ensures |r| == |keys|
    ensures forall i :: 0 <= i < |keys| ==> -1 <= r[i] < |tableKeys|
    ensures forall i :: 0 <= i < |keys| ==> r[i] == if keys[i] == "" || keys[i] !in tableKeys then -1 else IndexOf(tableKeys, keys[i])
  {
    seq(|keys|, i requires 0 <= i < |keys| => if keys[i] == "" || keys[i] !in tableKeys then -1 else IndexOf(tableKeys, keys[i]))
  }

  /** The language look-up table: for each snapshot id the language
      `GetLanguageByLanguageId` finds, null for the empty id. */
  function LookUpTable(languages: seq<Language>, ids: seq<string>): (r: seq<Language?>)
    ensures |r| == |ids|
    ensures forall k :: 0 <= k < |ids| ==> r[k] == if ids[k] == "" then null else FindById(languages, ids[k])
  {
    seq(|ids|, k requires 0 <= k < |ids| => if ids[k] == "" then null else FindById(languages, ids[k]))
  }

  function Min(a: int, b: int): int {
    if a < b then a else b
  }

  /** One row written into one entry: cell k is put for language k when k is
      below both the number of snapshot languages and the row length. */
  function ApplyRow(ps: PhraseList, lookUp: seq<Language?>, row: seq<Option<string>>): PhraseList {
    var m := Min(|lookUp|, |row|);
    PutAll(ps, lookUp[..m], row[..m])
  }

  /** Rows applicable to targets: a targeted row exists whenever there is a
      language to write. */
  predicate RowsCover(tableSize: nat, targets: seq<int>, languageCount: nat, rows: seq<seq<Option<string>>>) {
    forall i :: 0 <= i < |targets| ==> targets[i] < tableSize && (targets[i] >= 0 && languageCount > 0 ==> i < |rows|)
  }

  /** The third import loop on the phrase table: row i is applied, in
      order, to its target entry (none for -1, nothing at all when the
      snapshot has no languages). A target or row out of range, which
      `RowsCover` excludes, is skipped. */
  function ApplyRows(table: seq<PhraseList>, targets: seq<int>, lookUp: seq<Language?>, rows: seq<seq<Option<string>>>): (r: seq<PhraseList>)
    ensures |r| == |table|
    decreases |targets|
  {
    if targets == [] then table
    else
      var n := |targets| - 1;
      var prior := ApplyRows(table, targets[..n], lookUp, rows);
      if targets[n] < 0 || |lookUp| == 0 || targets[n] >= |prior| || n >= |rows| then prior
      else prior[targets[n] := ApplyRow(prior[targets[n]], lookUp, rows[n])]
  }

  /** One more row of the third loop. */
  lemma ApplyRowsSnoc(table: seq<PhraseList>, targets: seq<int>, lookUp: seq<Language?>, rows: seq<seq<Option<string>>>, i: nat)
    requires i < |targets| && RowsCover(|table|, targets, |lookUp|, rows)
    ensures var prior := ApplyRows(table, targets[..i], lookUp, rows);
      ApplyRows(table, targets[..i + 1], lookUp, rows) ==
        if targets[i] < 0 || |lookUp| == 0 then prior else prior[targets[i] := ApplyRow(prior[targets[i]], lookUp, rows[i])]
  {
    assert targets[..i + 1][..i] == targets[..i];
  }

  /** Reserving phrases for the added languages, in order. */
  function ReserveAll(ps: PhraseList, languages: seq<Language>): PhraseList
    decreases |languages|
  {
    if languages == [] then ps
    else Reserve(ReserveAll(ps, languages[..|languages| - 1]), languages[|languages| - 1])
  }

  /** The phrase table before the third loop: the old entries with phrases
      reserved for the added languages, then `extra` new entries with no
      phrase list. */
  function PreparedTable(table: seq<PhraseList>, added: seq<Language>, extra: nat): (r: seq<PhraseList>)
    ensures |r| == |table| + extra
    ensures forall j :: 0 <= j < |r| ==> r[j] == if j < |table| then ReserveAll(table[j], added) else None
  {
    seq(|table| + extra, j requires 0 <= j < |table| + extra => if j < |table| then ReserveAll(table[j], added) else None)
  }

  /** New entries appended before the third loop extend the prepared
      table with empty phrase lists. */
  lemma PreparedTableExtend(table: seq<PhraseList>, added: seq<Language>, extra: nat)
    ensures PreparedTable(table, added, 0) + Nones(extra) == PreparedTable(table, added, extra)
  {
  }

  /** The phrase table after the import: the rows written over the old
      entries with phrases reserved for the added languages, followed by
      the new entries. */
  lemma ImportedTable(table0: seq<PhraseList>, added: seq<Language>, prepared: seq<PhraseList>, extra: nat,
                      table: seq<PhraseList>, targets: seq<int>, lookUp: seq<Language?>, rows: seq<seq<Option<string>>>)
    requires prepared == PreparedTable(table0, added, 0)
    requires table == ApplyRows(prepared + Nones(extra), targets, lookUp, rows)
    ensures table == ApplyRows(PreparedTable(table0, added, extra), targets, lookUp, rows)
  {
    PreparedTableExtend(table0, added, extra);
  }

  /** An entry that no row targets keeps its phrases. */
  lemma {:induction false} ApplyRowsUntargeted(table: seq<PhraseList>, targets: seq<int>, lookUp: seq<Language?>, rows: seq<seq<Option<string>>>, j: nat)
    requires j < |table| && forall i :: 0 <= i < |targets| ==> targets[i] != j
    ensures ApplyRows(table, targets, lookUp, rows)[j] == table[j]
    decreases |targets|
  {
    if targets != [] {
      ApplyRowsUntargeted(table, targets[..|targets| - 1], lookUp, rows, j);
    }
  }

  /** Empty keys never resolve: no row targets an entry whose key is
      empty, so such an entry (in particular one created for an empty-key
      row) receives no phrases. */
  lemma EmptyKeyEntryUntouched(table: seq<PhraseList>, tableKeys: seq<string>, keys: seq<string>, lookUp: seq<Language?>, rows: seq<seq<Option<string>>>, j: nat)
    requires |tableKeys| == |table| && j < |table| && tableKeys[j] == ""
    ensures ApplyRows(table, Targets(tableKeys, keys), lookUp, rows)[j] == table[j]
  {
    var targets := Targets(tableKeys, keys);
    forall i | 0 <= i < |targets| ensures targets[i] != j {
      if targets[i] >= 0 {
        assert tableKeys[targets[i]] == keys[i] != "";
      }
    }
    ApplyRowsUntargeted(table, targets, lookUp, rows, j);
  }

  /** Writing a row: with non-null look-up languages of pairwise distinct
      ids, language k reads cell k afterwards when the row has that cell,
      and keeps its old text when the row is too short. */
  lemma ApplyRowLookup(ps: PhraseList, lookUp: seq<Language?>, row: seq<Option<string>>, k: nat)
    requires k < |lookUp|
    requires forall j :: 0 <= j < |lookUp| ==> lookUp[j] != null
    requires forall a, b :: 0 <= a < b < |lookUp| ==> lookUp[a].id != lookUp[b].id
    ensures Lookup(ApplyRow(ps, lookUp, row), lookUp[k]) == if k < |row| then row[k] else Lookup(ps, lookUp[k])
  {
    var m := Min(|lookUp|, |row|);
    if k < |row| {
      PutAllThenLookup(ps, lookUp[..m], row[..m], k);
    } else {
      PutAllSkipsOthers(ps, lookUp[..m], row[..m], lookUp[k]);
    }
  }

  /** Puts for languages of other ids leave a language's lookup unchanged. */
  lemma {:induction false} PutAllSkipsOthers(ps: PhraseList, languages: seq<Language?>, cells: seq<Option<string>>, other: Language)
    requires |languages| == |cells|
    requires forall j :: 0 <= j < |languages| ==> languages[j] != null && languages[j].id != other.id
    ensures Lookup(PutAll(ps, languages, cells), other) == Lookup(ps, other)
    decreases |languages|
  {
    if languages != [] {
      var n := |languages| - 1;
      PutAllSkipsOthers(ps, languages[..n], cells[..n], other);
      PutKeepsOtherLanguages(PutAll(ps, languages[..n], cells[..n]), languages[n], cells[n], other);
    }
  }
}
