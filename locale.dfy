/** A locale: the codes that identify a language of the host system
    (BasicLocalizationLocale). */
module Locales {
  import opened Wrappers
  import opened Strings

  /** `mainTranslationCode` and the alias list `translationCodes`; both the
      main code, the list and each of its elements may be null. */
  datatype Locale = Locale(mainTranslationCode: Option<string>, translationCodes: Option<seq<Option<string>>>)
  {
    /** `HasCode(arg)`: the main code, or one of the aliases, is non-empty and
        equal to `arg` (exact, case-sensitive comparison). */
    predicate HasCode(arg: Option<string>)
      ensures HasCode(arg) <==>
        (!IsNullOrEmpty(mainTranslationCode) && mainTranslationCode == arg)
        || (translationCodes.Some? &&
            exists i :: 0 <= i < |translationCodes.value| && CodeMatches(translationCodes.value[i], arg))
    {
      if !IsNullOrEmpty(mainTranslationCode) && mainTranslationCode == arg then true
      else if translationCodes.Some? then AnyCodeMatches(translationCodes.value, arg)
      else false
    }
  }

  /** One alias code matches: it is non-empty and equal to `arg`. */
  predicate CodeMatches(code: Option<string>, arg: Option<string>) {
    !IsNullOrEmpty(code) && code == arg
  }

  /** The scan of the alias list, one code after the other. */
  predicate AnyCodeMatches(codes: seq<Option<string>>, arg: Option<string>)
    ensures AnyCodeMatches(codes, arg) <==> exists i :: 0 <= i < |codes| && CodeMatches(codes[i], arg)
  {
    if codes == [] then false
    else if CodeMatches(codes[0], arg) then true
    else
      var r := AnyCodeMatches(codes[1..], arg);
      assert forall i :: 1 <= i < |codes| ==> codes[i] == codes[1..][i - 1];
      r
  }

  /** Null and the empty string are never codes of any locale. */
  lemma EmptyCodeNeverMatches(l: Locale)
    ensures !l.HasCode(None) && !l.HasCode(Some(""))
  {
  }

  /** Without an alias list only the main code is consulted. */
  lemma NullAliasListChecksMainOnly(l: Locale, arg: Option<string>)
    requires l.translationCodes.None?
    ensures l.HasCode(arg) <==> !IsNullOrEmpty(l.mainTranslationCode) && l.mainTranslationCode == arg
  {
  }

  /** Reordering (or otherwise permuting) the aliases does not change the
      result. */
  lemma AliasOrderIrrelevant(main: Option<string>, codes: seq<Option<string>>, codes': seq<Option<string>>, arg: Option<string>)
    requires multiset(codes) == multiset(codes')
    ensures Locale(main, Some(codes)).HasCode(arg) == Locale(main, Some(codes')).HasCode(arg)
  {
    if Locale(main, Some(codes)).HasCode(arg) && !CodeMatches(main, arg) {
      var i :| 0 <= i < |codes| && CodeMatches(codes[i], arg);
      assert codes[i] in multiset(codes');
      var j :| 0 <= j < |codes'| && codes'[j] == codes[i];
    }
    if Locale(main, Some(codes')).HasCode(arg) && !CodeMatches(main, arg) {
      var i :| 0 <= i < |codes'| && CodeMatches(codes'[i], arg);
      assert codes'[i] in multiset(codes);
      var j :| 0 <= j < |codes| && codes[j] == codes'[i];
    }
  }

  /** The example of an English locale with two regional aliases. */
  lemma EnglishLocaleExample()
    ensures Locale(Some("en"), Some([Some("en-US"), Some("en-GB")])).HasCode(Some("en-GB"))
    ensures !Locale(Some("en"), Some([Some("en-US"), Some("en-GB")])).HasCode(Some("en-CA"))
  {
    var l := Locale(Some("en"), Some([Some("en-US"), Some("en-GB")]));
    assert CodeMatches(l.translationCodes.value[1], Some("en-GB"));
  }
}
