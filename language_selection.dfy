/** What each language selector picks (the `GetLanguage` overrides of the
    BaseLanguageSelector subclasses), with the host inputs as values: the
    process arguments, the current UI culture and its parents, the host's
    `SystemLanguage`, whether the build targets WebGL, and the player
    preferences. */
module LanguageSelection {
  import opened Wrappers
  import opened Strings
  import opened Locales
  import opened Languages
  import opened Selectors
  import opened Profiles
  import opened PlayerPrefs

  /** Unity's `SystemLanguage`: the 42 values the culture-code table knows,
      `Unknown`, and any other value of the enumeration. */
  datatype SystemLanguage =
    | Afrikaans | Arabic | Basque | Belarusian | Bulgarian | Catalan | Chinese
    | ChineseSimplified | ChineseTraditional | SerboCroatian | Czech | Danish
    | Dutch | English | Estonian | Faroese | Finnish | French | German | Greek
    | Hebrew | Hungarian | Icelandic | Indonesian | Italian | Japanese | Korean
    | Latvian | Lithuanian | Norwegian | Polish | Portuguese | Romanian
    | Russian | Slovak | Slovenian | Spanish | Swedish | Thai | Turkish
    | Ukrainian | Vietnamese
    | Unknown
    | Unlisted(value: int)
  {
    /** The value has an entry in the culture-code table. */
    predicate Listed() {
      !Unknown? && !Unlisted?
    }
  }

  /** The host inputs the selectors consult. `cultures` are the names of the
      current UI culture and of its parents, nearest first, ending before the
      invariant culture (empty when the current culture is the invariant
      one). */
  datatype Host = Host(args: seq<string>, cultures: seq<string>, systemLanguage: SystemLanguage, webGL: bool)

  /** The position of the first language in list order whose locale is set
      and has the code, or the list length when there is none. */
  function CodeIndex(ls: seq<Language>, code: Option<string>): (k: nat)
    ensures k <= |ls|
    ensures forall j :: 0 <= j < k ==> !ls[j].HasLocaleCode(code)
    ensures k < |ls| ==> ls[k].HasLocaleCode(code)
  {
    if ls == [] || ls[0].HasLocaleCode(code) then 0
    else 1 + CodeIndex(ls[1..], code)
  }

  /** `FindLanguage(profile, code)` (in both the command-line and the system
      selector): the first language in list order whose locale is set and
      has the code, or null. */
  function FindByCode(ls: seq<Language>, code: Option<string>): (r: Language?)
    ensures r != null ==> r in ls && r.HasLocaleCode(code)
    ensures r == null <==> forall j :: 0 <= j < |ls| ==> !ls[j].HasLocaleCode(code)
    ensures r != null ==> exists k :: 0 <= k < |ls| && r == ls[k] && forall j :: 0 <= j < k ==> !ls[j].HasLocaleCode(code)
  {
    var k := CodeIndex(ls, code);
    if k < |ls| then ls[k] else null
  }

  /** Neither null nor the empty code ever finds a language. */
  lemma FindByEmptyCode(ls: seq<Language>)
    ensures FindByCode(ls, None) == null && FindByCode(ls, Some("")) == null
  {
    forall l: Language | true ensures !l.HasLocaleCode(None) && !l.HasLocaleCode(Some("")) {
      if l.locale.Some? {
        EmptyCodeNeverMatches(l.locale.value);
      }
    }
  }

  // ---------------------------------------------------------------------
  // CommandLineLanguageSelector

  /** `CommandLineLanguageSelector.GetLanguage`: null for a null or empty
      prefix; otherwise the first argument that starts with the prefix
      (ordinal, ignoring case) decides, even when its code finds nothing. */
  function CommandLineLanguage(prefix: Option<string>, args: seq<string>, ls: seq<Language>): Language? {
    if IsNullOrEmpty(prefix) then null else ScanArgs(prefix.value, args, ls)
  }

  /** The argument loop of the command-line selector. */
  function ScanArgs(prefix: string, args: seq<string>, ls: seq<Language>): Language?
    decreases |args|
  {
    if args == [] then null
    else if StartsWithIgnoreCase(args[0], prefix) then FindByCode(ls, Some(Trim(args[0][|prefix|..])))
    else ScanArgs(prefix, args[1..], ls)
  }

  /** The first argument carrying the prefix decides: its text after the
      prefix, trimmed, is the code looked up; later arguments are ignored. */
  lemma {:induction false} CommandLineFirstPrefixedArg(prefix: string, args: seq<string>, ls: seq<Language>, i: nat)
    requires prefix != "" && i < |args| && StartsWithIgnoreCase(args[i], prefix)
    requires forall j :: 0 <= j < i ==> !StartsWithIgnoreCase(args[j], prefix)
    ensures CommandLineLanguage(Some(prefix), args, ls) == FindByCode(ls, Some(Trim(args[i][|prefix|..])))
  {
    ScanFirstPrefixed(prefix, args, ls, i);
  }

  lemma {:induction false} ScanFirstPrefixed(prefix: string, args: seq<string>, ls: seq<Language>, i: nat)
    requires i < |args| && StartsWithIgnoreCase(args[i], prefix)
    requires forall j :: 0 <= j < i ==> !StartsWithIgnoreCase(args[j], prefix)
    ensures ScanArgs(prefix, args, ls) == FindByCode(ls, Some(Trim(args[i][|prefix|..])))
    decreases i
  {
    if i > 0 {
      assert args[1..][i - 1] == args[i];
      ScanFirstPrefixed(prefix, args[1..], ls, i - 1);
    }
  }

  /** Without an argument carrying the prefix there is no language. */
  lemma {:induction false} CommandLineNoPrefixedArg(prefix: string, args: seq<string>, ls: seq<Language>)
    requires forall j :: 0 <= j < |args| ==> !StartsWithIgnoreCase(args[j], prefix)
    ensures ScanArgs(prefix, args, ls) == null
    decreases |args|
  {
    if args != [] {
      CommandLineNoPrefixedArg(prefix, args[1..], ls);
    }
  }

  // ---------------------------------------------------------------------
  // SystemLanguageSelector

  /** `GetSystemLanguageCultureCode`: the table of culture codes; every value
      it does not list gives the empty string. */
  function CultureCode(lang: SystemLanguage): string {
    match lang
    case Afrikaans => "af"
    case Arabic => "ar"
    case Basque => "eu"
    case Belarusian => "be"
    case Bulgarian => "bg"
    case Catalan => "ca"
    case Chinese => "zh-CN"
    case ChineseSimplified => "zh-hans"
    case ChineseTraditional => "zh-hant"
    case SerboCroatian => "hr"
    case Czech => "cs"
    case Danish => "da"
    case Dutch => "nl"
    case English => "en"
    case Estonian => "et"
    case Faroese => "fo"
    case Finnish => "fi"
    case French => "fr"
    case German => "de"
    case Greek => "el"
    case Hebrew => "he"
    case Hungarian => "hu"
    case Icelandic => "is"
    case Indonesian => "id"
    case Italian => "it"
    case Japanese => "ja"
    case Korean => "ko"
    case Latvian => "lv"
    case Lithuanian => "lt"
    case Norwegian => "no"
    case Polish => "pl"
    case Portuguese => "pt"
    case Romanian => "ro"
    case Russian => "ru"
    case Slovak => "sk"
    case Slovenian => "sl"
    case Spanish => "es"
    case Swedish => "sv"
    case Thai => "th"
    case Turkish => "tr"
    case Ukrainian => "uk"
    case Vietnamese => "vi"
    case _ => ""
  }

  /** The table read backwards: the listed value a code stands for.
      Two-letter codes are read letter by letter. */
  function LanguageOfCode(code: string): Option<SystemLanguage> {
    if |code| == 2 then LanguageOfLetters(code[0], code[1])
    else if code == "zh-CN" then Some(Chinese)
    else if code == "zh-hans" then Some(ChineseSimplified)
    else if code == "zh-hant" then Some(ChineseTraditional)
    else None
  }

  function LanguageOfLetters(x: char, y: char): Option<SystemLanguage> {
    if x == 'a' && y == 'f' then Some(Afrikaans)
    else if x == 'a' && y == 'r' then Some(Arabic)
    else if x == 'e' && y == 'u' then Some(Basque)
    else if x == 'b' && y == 'e' then Some(Belarusian)
    else if x == 'b' && y == 'g' then Some(Bulgarian)
    else if x == 'c' && y == 'a' then Some(Catalan)
    else if x == 'h' && y == 'r' then Some(SerboCroatian)
    else if x == 'c' && y == 's' then Some(Czech)
    else if x == 'd' && y == 'a' then Some(Danish)
    else if x == 'n' && y == 'l' then Some(Dutch)
    else if x == 'e' && y == 'n' then Some(English)
    else if x == 'e' && y == 't' then Some(Estonian)
    else if x == 'f' && y == 'o' then Some(Faroese)
    else if x == 'f' && y == 'i' then Some(Finnish)
    else if x == 'f' && y == 'r' then Some(French)
    else if x == 'd' && y == 'e' then Some(German)
    else if x == 'e' && y == 'l' then Some(Greek)
    else if x == 'h' && y == 'e' then Some(Hebrew)
    else if x == 'h' && y == 'u' then Some(Hungarian)
    else if x == 'i' && y == 's' then Some(Icelandic)
    else if x == 'i' && y == 'd' then Some(Indonesian)
    else if x == 'i' && y == 't' then Some(Italian)
    else if x == 'j' && y == 'a' then Some(Japanese)
    else if x == 'k' && y == 'o' then Some(Korean)
    else if x == 'l' && y == 'v' then Some(Latvian)
    else if x == 'l' && y == 't' then Some(Lithuanian)
    else if x == 'n' && y == 'o' then Some(Norwegian)
    else if x == 'p' && y == 'l' then Some(Polish)
    else if x == 'p' && y == 't' then Some(Portuguese)
    else if x == 'r' && y == 'o' then Some(Romanian)
    else if x == 'r' && y == 'u' then Some(Russian)
    else if x == 's' && y == 'k' then Some(Slovak)
    else if x == 's' && y == 'l' then Some(Slovenian)
    else if x == 'e' && y == 's' then Some(Spanish)
    else if x == 's' && y == 'v' then Some(Swedish)
    else if x == 't' && y == 'h' then Some(Thai)
    else if x == 't' && y == 'r' then Some(Turkish)
    else if x == 'u' && y == 'k' then Some(Ukrainian)
    else if x == 'v' && y == 'i' then Some(Vietnamese)
    else None
  }

  /** Every listed value's code leads back to it. */
  lemma CultureCodeRoundTrip(lang: SystemLanguage)
    requires lang.Listed()
    ensures LanguageOfCode(CultureCode(lang)) == Some(lang)
  {
  }

  /** The table is injective on the listed values: distinct languages have
      distinct (non-empty) codes. */
  lemma CultureCodeInjective(a: SystemLanguage, b: SystemLanguage)
    requires a.Listed() && b.Listed() && a != b
    ensures CultureCode(a) != CultureCode(b) && CultureCode(a) != ""
  {
    CultureCodeRoundTrip(a);
    CultureCodeRoundTrip(b);
  }

  /** A code is empty exactly when the value is not in the table. */
  lemma CultureCodeEmptyIffUnlisted(lang: SystemLanguage)
    ensures CultureCode(lang) == "" <==> !lang.Listed()
  {
    if lang.Listed() {
      CultureCodeRoundTrip(lang);
      assert LanguageOfCode("") == None;
    }
  }

  /** Two entries of the table. */
  lemma CultureCodeExamples()
    ensures CultureCode(Chinese) == "zh-CN" && CultureCode(English) == "en"
    ensures CultureCode(Unknown) == ""
  {
  }

  /** `findLanguage2`: null for `Unknown`, otherwise the language that has
      the table code. */
  function SystemTableLanguage(ls: seq<Language>, lang: SystemLanguage): Language? {
    if lang == Unknown then null else FindByCode(ls, Some(CultureCode(lang)))
  }

  /** A value the table does not list never finds a language, since its
      code is the empty string. */
  lemma UnlistedNeverMatches(ls: seq<Language>, lang: SystemLanguage)
    requires !lang.Listed()
    ensures SystemTableLanguage(ls, lang) == null
  {
    CultureCodeEmptyIffUnlisted(lang);
    FindByEmptyCode(ls);
  }

  /** What `findLanguage1` computes: the first culture of the chain, nearest
      first, whose name some language's locale has. */
  function CultureLanguage(ls: seq<Language>, cultures: seq<string>): (r: Language?)
    ensures r != null ==> exists i :: 0 <= i < |cultures| && r == FindByCode(ls, Some(cultures[i]))
    ensures r == null <==> forall i :: 0 <= i < |cultures| ==> FindByCode(ls, Some(cultures[i])) == null
    decreases |cultures|
  {
    if cultures == [] then null
    else if FindByCode(ls, Some(cultures[0])) != null then FindByCode(ls, Some(cultures[0]))
    else
      var r := CultureLanguage(ls, cultures[1..]);
      assert forall i :: 1 <= i < |cultures| ==> cultures[i] == cultures[1..][i - 1];
      r
  }

  /** The culture walk stops at the first culture that matches. */
  lemma {:induction false} CultureWalkFirstMatch(ls: seq<Language>, cultures: seq<string>, i: nat)
    requires i < |cultures| && FindByCode(ls, Some(cultures[i])) != null
    requires forall j :: 0 <= j < i ==> FindByCode(ls, Some(cultures[j])) == null
    ensures CultureLanguage(ls, cultures) == FindByCode(ls, Some(cultures[i]))
    decreases i
  {
    if i > 0 {
      assert cultures[1..][i - 1] == cultures[i];
      CultureWalkFirstMatch(ls, cultures[1..], i - 1);
    }
  }

  /** `findLanguage1`: the current culture is tried, then its parents one by
      one until the invariant culture or a match. The invariant culture's
      name is the empty string, which finds nothing. */
  method FindByCulture(ls: seq<Language>, cultures: seq<string>) returns (language: Language?)
    ensures language == CultureLanguage(ls, cultures)
  {
    FindByEmptyCode(ls);
    language := FindByCode(ls, Some(if cultures == [] then "" else cultures[0]));
    if language == null {
      var k := 1;
      while k < |cultures| && language == null
        invariant 1 <= k <= |cultures| || (cultures == [] && k == 1)
        invariant language == null ==> forall j :: 0 <= j < k && j < |cultures| ==> FindByCode(ls, Some(cultures[j])) == null
        invariant language != null ==>
          0 < k <= |cultures| && language == FindByCode(ls, Some(cultures[k - 1])) &&
          forall j :: 0 <= j < k - 1 ==> FindByCode(ls, Some(cultures[j])) == null
      {
        language := FindByCode(ls, Some(cultures[k]));
        k := k + 1;
      }
      if language != null {
        CultureWalkFirstMatch(ls, cultures, k - 1);
      }
    } else {
      CultureWalkFirstMatch(ls, cultures, 0);
    }
  }

  /** The two finders of the system selector. */
  datatype Finder = ByCulture | BySystemLanguage

  /** The finder order: the culture first, except in WebGL builds, whose
      current UI culture is the invariant one. */
  function FinderOrder(webGL: bool): seq<Finder> {
    if webGL then [BySystemLanguage, ByCulture] else [ByCulture, BySystemLanguage]
  }

  function FinderLanguage(f: Finder, ls: seq<Language>, host: Host): Language? {
    match f
    case ByCulture => CultureLanguage(ls, host.cultures)
    case BySystemLanguage => SystemTableLanguage(ls, host.systemLanguage)
  }

  /** `SystemLanguageSelector.GetLanguage`: null for an empty language list;
      otherwise the first finder, in build order, that finds a language. */
  function SystemSelectorLanguage(ls: seq<Language>, host: Host): (r: Language?)
    ensures r != null ==> r in ls
    ensures |ls| > 0 ==> r == FirstFound(FinderOrder(host.webGL), ls, host)
  {
    if |ls| == 0 then null
    else FirstFound(FinderOrder(host.webGL), ls, host)
  }

  /** The first non-null result of the finders, in order. */
  function FirstFound(fs: seq<Finder>, ls: seq<Language>, host: Host): (r: Language?)
    ensures r != null ==> r in ls && exists i :: 0 <= i < |fs| && r == FinderLanguage(fs[i], ls, host)
    ensures r == null <==> forall i :: 0 <= i < |fs| ==> FinderLanguage(fs[i], ls, host) == null
  {
    if fs == [] then null
    else if FinderLanguage(fs[0], ls, host) != null then FinderLanguage(fs[0], ls, host)
    else
      var r := FirstFound(fs[1..], ls, host);
      assert forall i :: 1 <= i < |fs| ==> fs[i] == fs[1..][i - 1];
      r
  }

  /** Outside WebGL a culture match wins over the system language; in WebGL
      a table match wins over the culture. */
  lemma SystemSelectorPriority(ls: seq<Language>, host: Host)
    requires |ls| > 0
    ensures !host.webGL && CultureLanguage(ls, host.cultures) != null ==>
      SystemSelectorLanguage(ls, host) == CultureLanguage(ls, host.cultures)
    ensures host.webGL && SystemTableLanguage(ls, host.systemLanguage) != null ==>
      SystemSelectorLanguage(ls, host) == SystemTableLanguage(ls, host.systemLanguage)
    ensures CultureLanguage(ls, host.cultures) == null ==>
      SystemSelectorLanguage(ls, host) == SystemTableLanguage(ls, host.systemLanguage)
  {
    var fs := FinderOrder(host.webGL);
    var first := FinderLanguage(fs[0], ls, host);
    var second := FinderLanguage(fs[1], ls, host);
    assert fs[1..][0] == fs[1] && fs[1..][1..] == [];
    assert FirstFound(fs[1..], ls, host) == (if second != null then second else null);
    assert SystemSelectorLanguage(ls, host) == (if first != null then first else second);
  }

  /** The loop over the finders, returning at the first result. */
  method SystemSelectorGetLanguage(ls: seq<Language>, host: Host) returns (language: Language?)
    ensures language == SystemSelectorLanguage(ls, host)
  {
    if |ls| == 0 {
      return null;
    }
    var finders := FinderOrder(host.webGL);
    var i := 0;
    while i < |finders|
      invariant 0 <= i <= |finders|
      decreases |finders| - i
      invariant FirstFound(finders, ls, host) == FirstFound(finders[i..], ls, host)
    {
      assert finders[i..][1..] == finders[i + 1..];
      if finders[i] == ByCulture {
        language := FindByCulture(ls, host.cultures);
      } else {
        language := SystemTableLanguage(ls, host.systemLanguage);
      }
      if language != null {
        return;
      }
      i := i + 1;
    }
    return null;
  }

  // ---------------------------------------------------------------------
  // SpecificLocaleLanguageSelector and DefaultLanguageSelector

  /** The test of the specific-locale loop: the language's locale is set and
      its main code equals `code`. */
  predicate HasMainCode(l: Language, code: string) {
    l.locale.Some? && l.locale.value.mainTranslationCode == Some(code)
  }

  /** The position of the first language whose locale's main code is
      `code`, or the list length when there is none. */
  function MainCodeIndex(ls: seq<Language>, code: string): (k: nat)
    ensures k <= |ls|
    ensures forall j :: 0 <= j < k ==> !HasMainCode(ls[j], code)
    ensures k < |ls| ==> HasMainCode(ls[k], code)
  {
    if ls == [] || HasMainCode(ls[0], code) then 0
    else 1 + MainCodeIndex(ls[1..], code)
  }

  /** The first language whose locale's main code is `code`, or null. */
  function FirstWithMainCode(ls: seq<Language>, code: string): (r: Language?)
    ensures r != null ==> r in ls && HasMainCode(r, code)
    ensures r == null <==> forall j :: 0 <= j < |ls| ==> !HasMainCode(ls[j], code)
    ensures r != null ==> exists k :: 0 <= k < |ls| && r == ls[k] && forall j :: 0 <= j < k ==> !HasMainCode(ls[j], code)
  {
    var k := MainCodeIndex(ls, code);
    if k < |ls| then ls[k] else null
  }

  /** `SpecificLocaleLanguageSelector.GetLanguage`: null for a null locale,
      an empty main code or an empty list; otherwise the first language
      whose main code equals the selector locale's main code. Alias codes
      are not consulted on either side. */
  function SpecificLocaleLanguage(locale: Option<Locale>, ls: seq<Language>): Language? {
    if locale.None? || IsNullOrEmpty(locale.value.mainTranslationCode) || |ls| == 0 then null
    else FirstWithMainCode(ls, locale.value.mainTranslationCode.value)
  }

  /** The selector locale's alias list plays no part. */
  lemma SpecificLocaleIgnoresAliases(main: Option<string>, a: Option<seq<Option<string>>>, b: Option<seq<Option<string>>>, ls: seq<Language>)
    ensures SpecificLocaleLanguage(Some(Locale(main, a)), ls) == SpecificLocaleLanguage(Some(Locale(main, b)), ls)
  {
  }

  /** A language whose aliases contain the code but whose main code differs
      is never the result. */
  lemma SpecificLocaleMainCodeOnly(locale: Locale, ls: seq<Language>)
    ensures var r := SpecificLocaleLanguage(Some(locale), ls);
      r != null ==> r.locale.Some? && r.locale.value.mainTranslationCode == locale.mainTranslationCode
  {
  }

  // ---------------------------------------------------------------------
  // The dispatch over the selectors

  /** `languageSelector.GetLanguage(profile)`. The default selector returns
      the profile's default language without checking that it is listed;
      the player-pref selector is `Restore`. */
  function SelectorLanguage(s: LanguageSelector, profile: Profile, host: Host, store: PrefStore): (r: Language?)
    reads profile, store
    ensures s.DefaultSelector? ==> r == profile.defaultLanguage
    ensures s.PlayerPrefSelector? ==> r == Restore(profile, store)
    ensures r != null && !s.DefaultSelector? ==> r in profile.languages
  {
    match s
    case CommandLineSelector(prefix) => CommandLineLanguageMember(prefix, host.args, profile.languages)
    case PlayerPrefSelector => Restore(profile, store)
    case SystemSelector => SystemSelectorLanguage(profile.languages, host)
    case SpecificLocaleSelector(locale) => SpecificLocaleLanguage(locale, profile.languages)
    case DefaultSelector => profile.defaultLanguage
  }

  /** The command-line result is a listed language. */
  function CommandLineLanguageMember(prefix: Option<string>, args: seq<string>, ls: seq<Language>): (r: Language?)
    ensures r == CommandLineLanguage(prefix, args, ls)
    ensures r != null ==> r in ls
  {
    if IsNullOrEmpty(prefix) then null
    else
      ScanArgsMember(prefix.value, args, ls);
      ScanArgs(prefix.value, args, ls)
  }

  lemma {:induction false} ScanArgsMember(prefix: string, args: seq<string>, ls: seq<Language>)
    ensures ScanArgs(prefix, args, ls) != null ==> ScanArgs(prefix, args, ls) in ls
    decreases |args|
  {
    if args != [] && !StartsWithIgnoreCase(args[0], prefix) {
      ScanArgsMember(prefix, args[1..], ls);
    }
  }

  /** One selector call, with the system selector's loops. */
  method SelectorGetLanguage(s: LanguageSelector, profile: Profile, host: Host, store: PrefStore) returns (r: Language?)
    ensures r == SelectorLanguage(s, profile, host, store)
  {
    match s
    case SystemSelector =>
      r := SystemSelectorGetLanguage(profile.languages, host);
    case _ =>
      r := SelectorLanguage(s, profile, host, store);
  }
}
