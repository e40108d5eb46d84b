/** The CSV interchange (BasicLocalizationCSVConverter): a snapshot becomes a
    header row and one row per key, and rows read back become a snapshot
    handed to `ImportSnapshotData`. The file codec itself is left abstract:
    `Export` yields the rows given to the writer, `Import` takes the rows the
    reader produced. */
module Csv {
  import opened Wrappers
  import opened Strings
  import opened Languages
  import opened Translations
  import opened Profiles
  import opened Snapshots
  import opened ProfileEditor

  /** The first header cell. */
  const KeyHeader: string := "Key"

  /** Strings as non-null cells. */
  function Somes(s: seq<string>): (r: seq<Option<string>>)
    ensures |r| == |s| && forall i :: 0 <= i < |s| ==> r[i] == Some(s[i])
  {
    seq(|s|, i requires 0 <= i < |s| => Some(s[i]))
  }

  /** The rows `Export` writes: "Key" and the language ids, then for each
      key the key followed by that key's cells (the source indexes the row
      of every key). */
  function ExportRows(data: SnapshotData): (r: seq<seq<Option<string>>>)
    requires |data.translations| >= |data.keys|
    ensures |r| == |data.keys| + 1
    ensures r[0] == [Some(KeyHeader)] + Somes(data.languages)
    ensures forall i :: 0 <= i < |data.keys| ==> r[i + 1] == [Some(data.keys[i])] + data.translations[i]
  {
    [[Some(KeyHeader)] + Somes(data.languages)]
      + seq(|data.keys|, i requires 0 <= i < |data.keys| => [Some(data.keys[i])] + data.translations[i])
  }

  /** What the reader returns for a written row: the text of each cell, a
      null cell taken to be written as an empty field. */
  function ReadRowBack(row: seq<Option<string>>): (r: seq<string>)
    ensures |r| == |row| && forall k :: 0 <= k < |row| ==> r[k] == row[k].GetOr("")
  {
    seq(|row|, k requires 0 <= k < |row| => row[k].GetOr(""))
  }

  function ReadBack(rows: seq<seq<Option<string>>>): (r: seq<seq<string>>)
    ensures |r| == |rows| && forall i :: 0 <= i < |rows| ==> r[i] == ReadRowBack(rows[i])
  {
    seq(|rows|, i requires 0 <= i < |rows| => ReadRowBack(rows[i]))
  }

  /** A row of cells after a write and a read: null becomes the empty
      string. */
  function BlankRow(cells: seq<Option<string>>): (r: seq<Option<string>>)
    ensures |r| == |cells| && forall k :: 0 <= k < |cells| ==> r[k] == Some(cells[k].GetOr(""))
  {
    seq(|cells|, k requires 0 <= k < |cells| => Some(cells[k].GetOr("")))
  }

  function Blank(cells: seq<seq<Option<string>>>): (r: seq<seq<Option<string>>>)
    ensures |r| == |cells| && forall i :: 0 <= i < |cells| ==> r[i] == BlankRow(cells[i])
  {
    seq(|cells|, i requires 0 <= i < |cells| => BlankRow(cells[i]))
  }

  /** One data row read back: its key, then its cells with null as the
      empty string. */
  lemma RowReadBack(key: string, cells: seq<Option<string>>)
    ensures var row := ReadRowBack([Some(key)] + cells);
      |row| > 0 && row[0] == key && Somes(row[1..]) == BlankRow(cells)
  {
    var row := ReadRowBack([Some(key)] + cells);
    assert forall k :: 0 <= k < |cells| ==> row[1..][k] == row[k + 1];
  }

  /** The header loop: language ids are the header cells after the first,
      taken only when the header has more than one cell; no row at all
      gives none. */
  function HeaderLanguages(rows: seq<seq<string>>): (r: seq<string>)
    ensures |rows| > 0 && |rows[0]| > 1 ==> r == rows[0][1..]
    ensures |rows| == 0 || |rows[0]| <= 1 ==> r == []
  {
    if |rows| > 0 && |rows[0]| > 1 then rows[0][1..] else []
  }

  /** The data loop as written: a key for every non-empty row, a row of
      cells only for a row with more than one cell. */
  function ReadDataAsWritten(rows: seq<seq<string>>): (r: (seq<string>, seq<seq<Option<string>>>))
    decreases |rows|
  {
    if rows == [] then ([], [])
    else
      var prior := ReadDataAsWritten(rows[..|rows| - 1]);
      var row := rows[|rows| - 1];
      var keys := if |row| > 0 then prior.0 + [row[0]] else prior.0;
      var cells := if |row| > 1 then prior.1 + [Somes(row[1..])] else prior.1;
      (keys, cells)
  }

  /** `Import`'s parse as written. */
  function ReadSnapshotAsWritten(rows: seq<seq<string>>): SnapshotData {
    var body := if rows == [] then [] else rows[1..];
    var data := ReadDataAsWritten(body);
    SnapshotData(HeaderLanguages(rows), data.0, data.1)
  }

  /** The number of data rows with exactly one cell. */
  function KeyOnlyRows(rows: seq<seq<string>>): nat
    decreases |rows|
  {
    if rows == [] then 0
    else KeyOnlyRows(rows[..|rows| - 1]) + (if |rows[|rows| - 1]| == 1 then 1 else 0)
  }

  /** As written, every key-only row leaves the cell rows one shorter than
      the keys. */
  lemma {:induction false} KeyOnlyRowsShortenCells(rows: seq<seq<string>>)
    ensures |ReadDataAsWritten(rows).1| + KeyOnlyRows(rows) == |ReadDataAsWritten(rows).0|
    decreases |rows|
  {
    if rows != [] {
      KeyOnlyRowsShortenCells(rows[..|rows| - 1]);
    }
  }

  /** The discrepancy, on a file with one language: the row of key "a" has
      no cell, so the cell "B" of key "b" becomes cell row 0, which
      `ImportSnapshotData` writes into the entry of key "a"; key "b" has no
      row at all, and reading `translations[1]` fails. */
  lemma KeyOnlyRowShiftsCells()
    ensures var data := ReadSnapshotAsWritten([["Key", "en"], ["a"], ["b", "B"]]);
      data.languages == ["en"] && data.keys == ["a", "b"] && data.translations == [[Some("B")]]
  {
    var rows := [["Key", "en"], ["a"], ["b", "B"]];
    var one := [["a"]];
    var two := [["a"], ["b", "B"]];
    assert rows[1..] == two;
    assert two[..1] == one && two[1] == ["b", "B"];
    assert one[..0] == [] && one[0] == ["a"];
    assert ReadDataAsWritten([]) == ([], []);
    assert ReadDataAsWritten(one) == ([] + ["a"], []);
    assert ["b", "B"][1..] == ["B"];
    assert Somes(["B"]) == [Some("B")];
    var row := two[|two| - 1];
    assert row == ["b", "B"] && |row| == 2 && row[0] == "b";
    assert Somes(row[1..]) == [Some("B")];
    assert ReadDataAsWritten(two) == (ReadDataAsWritten(one).0 + [row[0]], ReadDataAsWritten(one).1 + [Somes(row[1..])]);
    assert ["Key", "en"][1..] == ["en"];
  }

  /** The data loop as intended: a key-only row gets an empty row of cells,
      so cell row j always belongs to key j. */
  function ReadData(rows: seq<seq<string>>): (r: (seq<string>, seq<seq<Option<string>>>))
    ensures |r.0| == |r.1|
    decreases |rows|
  {
    if rows == [] then ([], [])
    else
      var prior := ReadData(rows[..|rows| - 1]);
      var row := rows[|rows| - 1];
      if |row| > 0 then (prior.0 + [row[0]], prior.1 + [Somes(row[1..])]) else prior
  }

  /** `Import`'s parse with the alignment the import pass relies on. */
  function ReadSnapshot(rows: seq<seq<string>>): (data: SnapshotData)
    ensures |data.translations| == |data.keys|
  {
    var body := if rows == [] then [] else rows[1..];
    var r := ReadData(body);
    SnapshotData(HeaderLanguages(rows), r.0, r.1)
  }

  /** Rows without an empty row: each contributes its key and its cells,
      in order. */
  lemma {:induction false} ReadDataRows(rows: seq<seq<string>>)
    requires forall i :: 0 <= i < |rows| ==> |rows[i]| > 0
    ensures |ReadData(rows).0| == |rows|
    ensures forall i :: 0 <= i < |rows| ==> ReadData(rows).0[i] == rows[i][0] && ReadData(rows).1[i] == Somes(rows[i][1..])
    decreases |rows|
  {
    if rows != [] {
      ReadDataRows(rows[..|rows| - 1]);
    }
  }

  /** The two parses agree when no data row has exactly one cell. */
  lemma {:induction false} ReadDataAgrees(rows: seq<seq<string>>)
    requires forall i :: 0 <= i < |rows| ==> |rows[i]| != 1
    ensures ReadDataAsWritten(rows) == ReadData(rows)
    decreases |rows|
  {
    if rows != [] {
      ReadDataAgrees(rows[..|rows| - 1]);
    }
  }

  /** The round trip: reading the exported rows back gives the languages,
      the keys and the cells, each null cell read as the empty string. */
  lemma RoundTrip(data: SnapshotData)
    requires |data.translations| == |data.keys|
    ensures ReadSnapshot(ReadBack(ExportRows(data))) == SnapshotData(data.languages, data.keys, Blank(data.translations))
  {
    var written := ExportRows(data);
    var rows := ReadBack(written);
    var body := rows[1..];
    forall i | 0 <= i < |body|
      ensures |body[i]| > 0 && body[i][0] == data.keys[i] && Somes(body[i][1..]) == BlankRow(data.translations[i])
    {
      assert body[i] == ReadRowBack([Some(data.keys[i])] + data.translations[i]);
      RowReadBack(data.keys[i], data.translations[i]);
    }
    ReadDataRows(body);
    var r := ReadData(body);
    assert r.0 == data.keys;
    assert r.1 == Blank(data.translations);
    HeaderReadBack(data.languages);
  }

  /** The header read back gives the languages. */
  lemma HeaderReadBack(languages: seq<string>)
    ensures forall rest :: HeaderLanguages([ReadRowBack([Some(KeyHeader)] + Somes(languages))] + rest) == languages
  {
    var header := ReadRowBack([Some(KeyHeader)] + Somes(languages));
    assert header == [KeyHeader] + languages;
  }

  /** As written the round trip also holds, but only for snapshots whose
      every row has a cell, such as those of a profile with a language. */
  lemma RoundTripAsWritten(data: SnapshotData)
    requires |data.translations| == |data.keys|
    requires forall i :: 0 <= i < |data.translations| ==> |data.translations[i]| > 0
    ensures ReadSnapshotAsWritten(ReadBack(ExportRows(data))) == SnapshotData(data.languages, data.keys, Blank(data.translations))
  {
    var rows := ReadBack(ExportRows(data));
    assert forall i :: 0 <= i < |rows[1..]| ==> rows[1..][i] == rows[i + 1];
    ReadDataAgrees(rows[1..]);
    RoundTrip(data);
  }

  /** The header row and data rows of `Export`. */
  method WriteRows(data: SnapshotData) returns (rows: seq<seq<Option<string>>>)
    requires |data.translations| >= |data.keys|
    ensures rows == ExportRows(data)
  {
    var header := [Some(KeyHeader)];
    var k := 0;
    while k < |data.languages|
      invariant 0 <= k <= |data.languages|
      invariant header == [Some(KeyHeader)] + Somes(data.languages[..k])
    {
      assert Somes(data.languages[..k + 1]) == Somes(data.languages[..k]) + [Some(data.languages[k])];
      header := header + [Some(data.languages[k])];
      k := k + 1;
    }
    assert data.languages[..k] == data.languages;
    rows := [header];
    var i := 0;
    while i < |data.keys|
      invariant 0 <= i <= |data.keys|
      invariant |rows| == i + 1 && rows[0] == header
      invariant forall j :: 0 <= j < i ==> rows[j + 1] == [Some(data.keys[j])] + data.translations[j]
    {
      rows := rows + [[Some(data.keys[i])] + data.translations[i]];
      i := i + 1;
    }
  }

  /** `Export(profile, path)`: nothing for a null or empty path; otherwise
      the rows for the profile's snapshot: the header, then for entry i its
      key followed by its text in each language, in list order. */
  method Export(editor: EditorExtensions, path: Option<string>) returns (written: Option<seq<seq<Option<string>>>>)
    ensures IsNullOrEmpty(path) <==> written.None?
    ensures var ls := editor.profile.languages; var ts := editor.profile.translations;
      written.Some? ==>
        && |written.value| == |ts| + 1
        && written.value[0] == [Some(KeyHeader)] + Somes(IdsOf(ls))
        && forall i :: 0 <= i < |ts| ==>
          && |written.value[i + 1]| == |ls| + 1
          && written.value[i + 1][0] == Some(ts[i].key)
          && forall k :: 0 <= k < |ls| ==> written.value[i + 1][k + 1] == ts[i].GetTranslation(ls[k])
  {
    if IsNullOrEmpty(path) {
      return None;
    }
    var data := editor.GetSnapshotData();
    var rows := WriteRows(data);
    var ls, ts := editor.profile.languages, editor.profile.translations;
    forall i | 0 <= i < |ts|
      ensures
        && |rows[i + 1]| == |ls| + 1
        && rows[i + 1][0] == Some(ts[i].key)
        && forall k :: 0 <= k < |ls| ==> rows[i + 1][k + 1] == ts[i].GetTranslation(ls[k])
    {
      ExportedRow(rows[i + 1], data.keys[i], data.translations[i], ts[i], ls);
    }
    written := Some(rows);
  }

  /** One exported row: the entry's key, then its text in each language. */
  lemma ExportedRow(row: seq<Option<string>>, key: string, cells: seq<Option<string>>, t: Translation, ls: seq<Language>)
    requires row == [Some(key)] + cells && key == t.key && |cells| == |ls|
    requires forall k :: 0 <= k < |ls| ==> cells[k] == t.GetTranslation(ls[k])
    ensures |row| == |ls| + 1 && row[0] == Some(t.key)
    ensures forall k :: 0 <= k < |ls| ==> row[k + 1] == t.GetTranslation(ls[k])
  {
    forall k | 0 <= k < |ls|
      ensures row[k + 1] == t.GetTranslation(ls[k])
    {
      assert row[k + 1] == cells[k];
    }
  }

  /** The read loops of `Import`, with the intended alignment. */
  method ReadRows(rows: seq<seq<string>>) returns (data: SnapshotData)
    ensures data == ReadSnapshot(rows)
  {
    var languages: seq<string> := [];
    if |rows| > 0 && |rows[0]| > 1 {
      var i := 1;
      while i < |rows[0]|
        invariant 1 <= i <= |rows[0]| && languages == rows[0][1..i]
      {
        languages := languages + [rows[0][i]];
        i := i + 1;
      }
    }
    var body := if rows == [] then [] else rows[1..];
    var keys: seq<string> := [];
    var cells: seq<seq<Option<string>>> := [];
    var j := 0;
    while j < |body|
      invariant 0 <= j <= |body| && (keys, cells) == ReadData(body[..j])
    {
      var row := body[j];
      assert body[..j + 1][..j] == body[..j];
      if |row| > 0 {
        keys := keys + [row[0]];
        var trs: seq<Option<string>> := [];
        var i := 1;
        while i < |row|
          invariant 1 <= i <= |row| && trs == Somes(row[1..i])
        {
          assert Somes(row[1..i + 1]) == Somes(row[1..i]) + [Some(row[i])];
          trs := trs + [Some(row[i])];
          i := i + 1;
        }
        assert row[1..i] == row[1..];
        cells := cells + [trs];
      }
      j := j + 1;
    }
    assert body[..j] == body;
    data := SnapshotData(languages, keys, cells);
  }

  /** `Import(profile, path)`: nothing for a null or empty path; otherwise
      the parsed snapshot goes unchanged to `ImportSnapshotData`, after which
      every header language id and every key of the file exists in the
      profile. `guids` are the guids for the entries the import creates. */
  method Import(editor: EditorExtensions, path: Option<string>, rows: seq<seq<string>>, guids: seq<string>)
    requires editor.profile.Valid()
    requires |guids| == |ReadSnapshot(rows).keys|
    modifies editor.profile`languages, editor.profile`translations, editor.profile`cache, editor.profile.translations
    ensures editor.profile.Valid()
    ensures IsNullOrEmpty(path) ==>
      && editor.profile.languages == old(editor.profile.languages)
      && editor.profile.translations == old(editor.profile.translations)
      && PhraseTable(editor.profile.translations) == old(PhraseTable(editor.profile.translations))
      && editor.profile.cache == old(editor.profile.cache)
    ensures !IsNullOrEmpty(path) ==>
      && (forall id :: id in HeaderLanguages(rows) ==> id in IdsOf(editor.profile.languages))
      && (forall key :: key in ReadSnapshot(rows).keys && key != "" ==> key in KeysOf(editor.profile.translations))
  {
    if IsNullOrEmpty(path) {
      return;
    }
    var data := ReadRows(rows);
    editor.ImportSnapshotData(data, guids);
    LanguagesCovered(old(editor.profile.languages), editor.profile.languages, data.languages);
    KeysCovered(old(KeysOf(editor.profile.translations)), data.keys, KeysOf(editor.profile.translations));
  }

  /** After the language pass every snapshot id is an id of the list. */
  lemma LanguagesCovered(ls0: seq<Language>, ls: seq<Language>, ids: seq<string>)
    requires |ls| >= |ls0| && ls[..|ls0|] == ls0
    requires IdsOf(ls[|ls0|..]) == AddedIds(IdsOf(ls0), ids)
    ensures forall id :: id in ids ==> id in IdsOf(ls)
  {
    assert ls == ls0 + ls[|ls0|..];
    IdsOfAppend(ls0, ls[|ls0|..]);
    AddedIdsCover(IdsOf(ls0), ids);
    forall id | id in ids ensures id in IdsOf(ls) {
      var i :| 0 <= i < |ids| && ids[i] == id;
    }
  }

  /** After the entry pass every non-empty snapshot key is a key of the
      list. */
  lemma KeysCovered(existing: seq<string>, keys: seq<string>, after: seq<string>)
    requires after == existing + Pick(keys, MissingRows(existing, keys))
    ensures forall key :: key in keys && key != "" ==> key in after
  {
    var missing := MissingRows(existing, keys);
    MissingRowsExact(existing, keys);
    forall key | key in keys && key != "" ensures key in after {
      var i :| 0 <= i < |keys| && keys[i] == key;
      if key !in existing {
        var m :| 0 <= m < |missing| && missing[m] == i;
        assert after[|existing| + m] == key;
      }
    }
  }
}
