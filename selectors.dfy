/** The configured language selectors of a profile (the subclasses of
    BaseLanguageSelector, as one closed set of variants). Their
    `GetLanguage` logic lives in module LanguageSelection. */
module Selectors {
  import opened Wrappers
  import opened Locales

  datatype LanguageSelector =
    | CommandLineSelector(commandLineArguments: Option<string>)
    | PlayerPrefSelector
    | SystemSelector
    | SpecificLocaleSelector(locale: Option<Locale>)
    | DefaultSelector

  /** The prefix a new command-line selector looks for. */
  const DefaultCommandLinePrefix: string := "-language="

  /** The selector list of a new profile, in priority order. */
  const DefaultSelectors: seq<LanguageSelector> :=
    [CommandLineSelector(Some(DefaultCommandLinePrefix)), PlayerPrefSelector, SystemSelector, DefaultSelector]
}
