/** A translation entry: a key, a guid and the phrases of the entry, one per
    language id (BasicLocalizationTranslation). */
module Translations {
  import opened Wrappers
  import opened Languages

  /** `Phrase`: a (nullable) language and its (nullable) text. A phrase whose
      language was destroyed holds null. */
  datatype Phrase = Phrase(language: Language?, text: Option<string>)

  /** The `phrases` list of an entry; `None` is a null list. */
  type PhraseList = Option<seq<Phrase>>

  /** The match test shared by GetTranslation, PutTranslation and
      ReservePhrase: both languages non-null and with the same id. */
  predicate Matches(p: Phrase, language: Language?) {
    p.language != null && language != null && p.language.id == language.id
  }

  /** The position of the first phrase that matches `language`, or -1. */
  function FirstMatch(ps: seq<Phrase>, language: Language?): (i: int)
    ensures -1 <= i < |ps|
    ensures i == -1 <==> forall j :: 0 <= j < |ps| ==> !Matches(ps[j], language)
    ensures i >= 0 ==> Matches(ps[i], language) && forall j :: 0 <= j < i ==> !Matches(ps[j], language)
  {
    if ps == [] then -1
    else if Matches(ps[0], language) then 0
    else
      var i := FirstMatch(ps[1..], language);
      assert forall j :: 1 <= j < |ps| ==> ps[j] == ps[1..][j - 1];
      if i == -1 then -1 else i + 1
  }

  /** What `GetTranslation(language)` returns for a phrase list: the text of
      the first matching phrase; null for a null list, a null language or no
      match. */
  function Lookup(ps: PhraseList, language: Language?): (r: Option<string>)
    ensures ps.None? || language == null ==> r == None
    ensures ps.Some? && FirstMatch(ps.value, language) >= 0 ==> r == ps.value[FirstMatch(ps.value, language)].text
    ensures ps.Some? && FirstMatch(ps.value, language) == -1 ==> r == None
  {
    if ps.None? then None
    else
      var i := FirstMatch(ps.value, language);
      if i < 0 then None else ps.value[i].text
  }

  /** `Lookup` depends on the language only through its id. */
  lemma LookupById(ps: PhraseList, a: Language, b: Language)
    requires a.id == b.id
    ensures Lookup(ps, a) == Lookup(ps, b)
  {
    if ps.Some? {
      assert forall j :: 0 <= j < |ps.value| ==> Matches(ps.value[j], a) == Matches(ps.value[j], b);
      FirstMatchById(ps.value, a, b);
    }
  }

  lemma {:induction false} FirstMatchById(ps: seq<Phrase>, a: Language, b: Language)
    requires a.id == b.id
    ensures FirstMatch(ps, a) == FirstMatch(ps, b)
  {
    if ps != [] {
      FirstMatchById(ps[1..], a, b);
    }
  }

  /** The phrase list after `PutTranslation(language, text)`: unchanged for a
      null language; otherwise the first phrase with the language's id is
      replaced in place, or a phrase is appended (creating the list if it was
      null). */
  function Put(ps: PhraseList, language: Language?, text: Option<string>): (r: PhraseList)
    ensures language == null ==> r == ps
    ensures language != null ==> r.Some?
    ensures language != null && ps.Some? && FirstMatch(ps.value, language) >= 0 ==>
      |r.value| == |ps.value| &&
      r.value[FirstMatch(ps.value, language)] == Phrase(language, text) &&
      forall j :: 0 <= j < |ps.value| && j != FirstMatch(ps.value, language) ==> r.value[j] == ps.value[j]
    ensures language != null && (ps.None? || FirstMatch(ps.value, language) == -1) ==>
      r.value == ps.GetOr([]) + [Phrase(language, text)]
  {
    if language == null then ps
    else if ps.Some? && FirstMatch(ps.value, language) >= 0 then
      Some(ps.value[FirstMatch(ps.value, language) := Phrase(language, text)])
    else
      Some(ps.GetOr([]) + [Phrase(language, text)])
  }

  /** The phrase list after `ReservePhrase(language)`: unchanged when a
      phrase with the language's id exists; otherwise an empty-text phrase
      for the language is appended. */
  function Reserve(ps: PhraseList, language: Language?): (r: PhraseList)
    ensures r.Some?
    ensures ps.Some? && FirstMatch(ps.value, language) >= 0 ==> r == ps
    ensures ps.None? || FirstMatch(ps.value, language) == -1 ==>
      r.value == ps.GetOr([]) + [Phrase(language, Some(""))]
  {
    if ps.Some? && FirstMatch(ps.value, language) >= 0 then ps
    else Some(ps.GetOr([]) + [Phrase(language, Some(""))])
  }

  /** After a put for a non-null language, looking that language (or any
      language with the same id) up yields the text that was put. */
  lemma PutThenLookup(ps: PhraseList, language: Language, text: Option<string>, query: Language)
    requires query.id == language.id
    ensures Lookup(Put(ps, language, text), query) == text
  {
    var r := Put(ps, language, text);
    if ps.Some? && FirstMatch(ps.value, language) >= 0 {
      var i := FirstMatch(ps.value, language);
      assert forall j :: 0 <= j < i ==> r.value[j] == ps.value[j] && !Matches(r.value[j], language);
      assert Matches(r.value[i], language);
      assert FirstMatch(r.value, language) == i;
    } else {
      var old_ := ps.GetOr([]);
      assert forall j :: 0 <= j < |old_| ==> r.value[j] == old_[j];
      assert forall j :: 0 <= j < |old_| ==> !Matches(r.value[j], language);
      assert Matches(r.value[|old_|], language);
      assert FirstMatch(r.value, language) == |old_|;
    }
    LookupById(r, language, query);
  }

  /** A put leaves the lookup of every other language id unchanged. */
  lemma PutKeepsOtherLanguages(ps: PhraseList, language: Language, text: Option<string>, other: Language?)
    requires other == null || other.id != language.id
    ensures Lookup(Put(ps, language, text), other) == Lookup(ps, other)
  {
    var r := Put(ps, language, text);
    if other != null {
      var old_ := ps.GetOr([]);
      assert forall j :: 0 <= j < |r.value| ==> (Matches(r.value[j], other) <==> j < |old_| && Matches(old_[j], other));
      if ps.Some? {
        SameMatchesSameFirst(r.value, ps.value, other);
      } else {
        assert FirstMatch(r.value, other) == -1;
      }
    }
  }

  /** Two lists that agree on which positions match (and where the longer
      one has no extra match) have the same first match. */
  lemma {:induction false} SameMatchesSameFirst(a: seq<Phrase>, b: seq<Phrase>, l: Language?)
    requires |b| <= |a|
    requires forall j :: 0 <= j < |a| ==> (Matches(a[j], l) <==> j < |b| && Matches(b[j], l))
    ensures FirstMatch(a, l) == FirstMatch(b, l)
  {
    if a != [] && b != [] {
      SameMatchesSameFirst(a[1..], b[1..], l);
    }
  }

  /** ReservePhrase with a non-null language is idempotent, and afterwards
      the language resolves (to "" when it had no phrase before). */
  lemma ReserveIdempotent(ps: PhraseList, language: Language)
    ensures Reserve(Reserve(ps, language), language) == Reserve(ps, language)
    ensures Lookup(Reserve(ps, language), language) ==
      if ps.Some? && FirstMatch(ps.value, language) >= 0 then Lookup(ps, language) else Some("")
  {
    var r := Reserve(ps, language);
    if !(ps.Some? && FirstMatch(ps.value, language) >= 0) {
      var old_ := ps.GetOr([]);
      assert forall j :: 0 <= j < |old_| ==> r.value[j] == old_[j];
      assert Matches(r.value[|old_|], language);
      assert FirstMatch(r.value, language) == |old_|;
    }
  }

  /** ReservePhrase(null) always appends a phrase: the match test never
      holds for a null language, so reserving twice adds two phrases. */
  lemma ReserveNullAlwaysAppends(ps: PhraseList)
    ensures |Reserve(ps, null).value| == |ps.GetOr([])| + 1
    ensures |Reserve(Reserve(ps, null), null).value| == |ps.GetOr([])| + 2
  {
  }

  /** The phrases whose language is not null, in their order
      (the clean-up loop of RemoveUnrelevantTranslations). */
  function Strip(ps: seq<Phrase>): (r: seq<Phrase>)
    ensures |r| <= |ps|
  {
    if ps == [] then []
    else (if ps[0].language != null then [ps[0]] else []) + Strip(ps[1..])
  }

  /** Stripping keeps exactly the phrases with a non-null language. */
  lemma {:induction false} StripKeepsLive(ps: seq<Phrase>)
    ensures forall j :: 0 <= j < |Strip(ps)| ==> Strip(ps)[j] in ps && Strip(ps)[j].language != null
    ensures forall j :: 0 <= j < |ps| && ps[j].language != null ==> ps[j] in Strip(ps)
  {
    if ps != [] {
      StripKeepsLive(ps[1..]);
      var head := if ps[0].language != null then [ps[0]] else [];
      assert Strip(ps) == head + Strip(ps[1..]);
      assert forall j :: 1 <= j < |ps| ==> ps[j] == ps[1..][j - 1];
    }
  }

  /** Destroying `language`: every phrase that refers to it now refers to
      null (a destroyed Unity object compares equal to null). */
  function Nullify(ps: seq<Phrase>, language: Language): (r: seq<Phrase>)
    ensures |r| == |ps|
    ensures forall j :: 0 <= j < |ps| ==> r[j] == if ps[j].language == language then Phrase(null, ps[j].text) else ps[j]
  {
    seq(|ps|, j requires 0 <= j < |ps| => if ps[j].language == language then Phrase(null, ps[j].text) else ps[j])
  }

  /** The phrases that keep a live language other than `language`, in order. */
  function KeepLive(ps: seq<Phrase>, language: Language): seq<Phrase> {
    if ps == [] then []
    else (if ps[0].language != null && ps[0].language != language then [ps[0]] else []) + KeepLive(ps[1..], language)
  }

  /** Destroying a language and then stripping null phrases keeps exactly
      the phrases of the other live languages, in their order. */
  lemma {:induction false} StripNullifyKeepsOthers(ps: seq<Phrase>, language: Language)
    ensures Strip(Nullify(ps, language)) == KeepLive(ps, language)
  {
    if ps != [] {
      assert Nullify(ps, language)[1..] == Nullify(ps[1..], language);
      StripNullifyKeepsOthers(ps[1..], language);
    }
  }

  /** After stripping, no phrase refers to the destroyed language, so a
      language whose id no other phrase carries no longer resolves. */
  lemma {:induction false} KeepLiveDropsLanguage(ps: seq<Phrase>, language: Language)
    ensures forall p :: p in KeepLive(ps, language) <==> p in ps && p.language != null && p.language != language
  {
    if ps != [] {
      KeepLiveDropsLanguage(ps[1..], language);
    }
  }

  /** Puts `cells[k]` for `languages[k]`, for every k, in index order. */
  function PutAll(ps: PhraseList, languages: seq<Language?>, cells: seq<Option<string>>): PhraseList
    requires |languages| == |cells|
    decreases |languages|
  {
    if languages == [] then ps
    else Put(PutAll(ps, languages[..|languages| - 1], cells[..|cells| - 1]), languages[|languages| - 1], cells[|cells| - 1])
  }

  /** When the languages are non-null with pairwise distinct ids, the k-th
      language resolves to the k-th cell after all puts. */
  lemma {:induction false} PutAllThenLookup(ps: PhraseList, languages: seq<Language?>, cells: seq<Option<string>>, k: nat)
    requires |languages| == |cells| && k < |languages|
    requires forall j :: 0 <= j < |languages| ==> languages[j] != null
    requires forall i, j :: 0 <= i < j < |languages| ==> languages[i].id != languages[j].id
    ensures Lookup(PutAll(ps, languages, cells), languages[k]) == cells[k]
  {
    var n := |languages| - 1;
    var before := PutAll(ps, languages[..n], cells[..n]);
    if k == n {
      PutThenLookup(before, languages[n], cells[n], languages[k]);
    } else {
      PutKeepsOtherLanguages(before, languages[n], cells[n], languages[k]);
      PutAllThenLookup(ps, languages[..n], cells[..n], k);
    }
  }

  /** A translation entry. `guid` is assigned once, by `Create`. */
  class Translation {
    /** The key and the guid are set by `Create`; no modelled operation
        assigns them afterwards, so they are constants here. */
    const key: string
    const guid: string
    var phrases: PhraseList

    /** `Create(key)`: the given key, the freshly generated guid (supplied
        by the caller: `Guid.NewGuid()` is host randomness) and a null
        phrase list. */
    constructor Create(key: string, newGuid: string)
      ensures this.key == key && guid == newGuid && phrases == None
    {
      this.key := key;
      this.guid := newGuid;
      this.phrases := None;
    }

    /** `GetTranslation(language)`: the text of the first phrase whose
        language is non-null and has the same id as `language` (matching is
        by id, not by reference); null for a null list, a null language or
        no match. */
    function GetTranslation(language: Language?): (r: Option<string>)
      reads this
      ensures phrases.None? || language == null ==> r == None
      ensures phrases.Some? && FirstMatch(phrases.value, language) >= 0 ==>
        r == phrases.value[FirstMatch(phrases.value, language)].text
      ensures phrases.Some? && FirstMatch(phrases.value, language) == -1 ==> r == None
    {
      Lookup(phrases, language)
    }

    /** `PutTranslation(language, text)`: the whole new phrase list is
        `Put(old(phrases), language, text)`; key and guid do not change. */
    method PutTranslation(language: Language?, text: Option<string>)
      modifies this`phrases
      ensures phrases == Put(old(phrases), language, text)
    {
      if language == null {
        return;
      }
      if phrases.Some? {
        var i := 0;
        while i < |phrases.value|
          invariant 0 <= i <= |phrases.value|
          invariant phrases == old(phrases)
          invariant forall j :: 0 <= j < i ==> !Matches(phrases.value[j], language)
        {
          var p := phrases.value[i];
          if p.language != null && language != null && p.language.id == language.id {
            phrases := Some(phrases.value[i := Phrase(language, text)]);
            return;
          }
          i := i + 1;
        }
      }
      if phrases.None? {
        phrases := Some([]);
      }
      phrases := Some(phrases.value + [Phrase(language, text)]);
    }

    /** `ReservePhrase(language)`: the whole new phrase list is
        `Reserve(old(phrases), language)`. */
    method ReservePhrase(language: Language?)
      modifies this`phrases
      ensures phrases == Reserve(old(phrases), language)
    {
      if phrases.Some? {
        var i := 0;
        while i < |phrases.value|
          invariant 0 <= i <= |phrases.value|
          invariant phrases == old(phrases)
          invariant forall j :: 0 <= j < i ==> !Matches(phrases.value[j], language)
        {
          var p := phrases.value[i];
          if p.language != null && language != null && p.language.id == language.id {
            return;
          }
          i := i + 1;
        }
      }
      if phrases.None? {
        phrases := Some([]);
      }
      phrases := Some(phrases.value + [Phrase(language, Some(""))]);
    }
  }
}
