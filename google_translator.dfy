/** Machine translation of a profile (BasicLocalizationGoogleTranslator):
    a plan of commands (entry, source language, target language) is built
    from the profile, then the commands run one after the other until the
    user cancels. The web request is an oracle function from (source code,
    target code, source text) to the translated text. */
module GoogleTranslation {
  import opened Wrappers
  import opened Strings
  import opened Locales
  import opened Languages
  import opened Translations
  import opened Profiles

  /** `TranslateCommand`. */
  datatype Command = Command(from: Language, to: Language, translation: Translation)

  /** The web translation: main code of the source language, main code of
      the target language and the source text give the translated text. */
  type Oracle = (Option<string>, Option<string>, Option<string>) -> Option<string>

  /** How `Translate` ended: no default language; every command ran; the
      user cancelled before command `at`; command `at` hit a language
      without a locale (a null dereference that ends the whole run). */
  datatype Outcome = NoDefault | Finished | Cancelled(at: nat) | Faulted(at: nat)

  // ---------------------------------------------------------------------
  // Planning
  // ---------------------------------------------------------------------

  /** Whether target `l` of entry `t` receives a command: never the default
      language itself (by reference), and with `onlyEmpty` only a target
      whose text is null or empty. */
  predicate Targeted(t: Translation, d: Language, l: Language, onlyEmpty: bool)
    reads t
  {
    l != d && (!onlyEmpty || IsNullOrEmpty(t.GetTranslation(l)))
  }

  /** The inner loop over the first `n` languages of one entry. */
  function LanguagePlan(t: Translation, d: Language, ls: seq<Language>, onlyEmpty: bool, n: nat): (r: seq<Command>)
    requires n <= |ls|
    reads t
    ensures |r| <= n
  {
    if n == 0 then []
    else
      var prior := LanguagePlan(t, d, ls, onlyEmpty, n - 1);
      if Targeted(t, d, ls[n - 1], onlyEmpty) then prior + [Command(d, ls[n - 1], t)] else prior
  }

  /** The commands of one entry: none when its default-language text is
      null or empty. */
  function EntryPlan(t: Translation, d: Language, ls: seq<Language>, onlyEmpty: bool): seq<Command>
    reads t
  {
    if IsNullOrEmpty(t.GetTranslation(d)) then [] else LanguagePlan(t, d, ls, onlyEmpty, |ls|)
  }

  /** The outer loop over the first `n` entries. */
  function PlanUpTo(ts: seq<Translation>, d: Language, ls: seq<Language>, onlyEmpty: bool, n: nat): seq<Command>
    requires n <= |ts|
    reads ts
  {
    if n == 0 then []
    else PlanUpTo(ts, d, ls, onlyEmpty, n - 1) + EntryPlan(ts[n - 1], d, ls, onlyEmpty)
  }

  /** The whole plan. */
  function Plan(ts: seq<Translation>, d: Language, ls: seq<Language>, onlyEmpty: bool): seq<Command>
    reads ts
  {
    PlanUpTo(ts, d, ls, onlyEmpty, |ts|)
  }

  /** The commands of one entry are its targeted languages, in list order. */
  lemma {:induction false} LanguagePlanMember(t: Translation, d: Language, ls: seq<Language>, onlyEmpty: bool, n: nat, c: Command)
    requires n <= |ls|
    ensures c in LanguagePlan(t, d, ls, onlyEmpty, n) <==>
      c.from == d && c.translation == t && c.to in ls[..n] && Targeted(t, d, c.to, onlyEmpty)
  {
    if n > 0 {
      LanguagePlanMember(t, d, ls, onlyEmpty, n - 1, c);
      assert ls[..n] == ls[..n - 1] + [ls[n - 1]];
    }
  }

  /** Membership in the plan of the first `n` entries. */
  lemma {:induction false} PlanUpToMember(ts: seq<Translation>, d: Language, ls: seq<Language>, onlyEmpty: bool, n: nat, c: Command)
    requires n <= |ts|
    ensures c in PlanUpTo(ts, d, ls, onlyEmpty, n) <==> c.translation in ts[..n] && Wanted(c, d, ls, onlyEmpty)
  {
    if n > 0 {
      PlanUpToMember(ts, d, ls, onlyEmpty, n - 1, c);
      EntryPlanMember(ts[n - 1], d, ls, onlyEmpty, c);
      assert ts[..n] == ts[..n - 1] + [ts[n - 1]];
    }
  }

  /** What makes a command one that the plan holds, once its entry is in
      the list. */
  predicate Wanted(c: Command, d: Language, ls: seq<Language>, onlyEmpty: bool)
    reads c.translation
  {
    c.from == d && c.to in ls && c.to != d &&
    !IsNullOrEmpty(c.translation.GetTranslation(d)) &&
    (!onlyEmpty || IsNullOrEmpty(c.translation.GetTranslation(c.to)))
  }

  /** Membership in the plan of one entry. */
  lemma EntryPlanMember(t: Translation, d: Language, ls: seq<Language>, onlyEmpty: bool, c: Command)
    ensures c in EntryPlan(t, d, ls, onlyEmpty) <==> c.translation == t && Wanted(c, d, ls, onlyEmpty)
  {
    LanguagePlanMember(t, d, ls, onlyEmpty, |ls|, c);
    assert ls[..|ls|] == ls;
  }

  /** A command is planned exactly for an entry of the profile with a
      non-empty default-language text and a language of the profile other
      than the default, unless only empty fields are translated and the
      target already has a text. Every command translates from the
      default. */
  lemma PlanMember(ts: seq<Translation>, d: Language, ls: seq<Language>, onlyEmpty: bool, c: Command)
    ensures c in Plan(ts, d, ls, onlyEmpty) <==>
      c.from == d && c.translation in ts && c.to in ls && c.to != d &&
      !IsNullOrEmpty(c.translation.GetTranslation(d)) &&
      (!onlyEmpty || IsNullOrEmpty(c.translation.GetTranslation(c.to)))
  {
    PlanUpToMember(ts, d, ls, onlyEmpty, |ts|, c);
    assert ts[..|ts|] == ts;
  }

  /** Commands are ordered by entry: the plan of a concatenation is the
      concatenation of the plans. */
  lemma {:induction false} PlanUpToAppend(a: seq<Translation>, b: seq<Translation>, d: Language, ls: seq<Language>, onlyEmpty: bool, n: nat)
    requires n <= |b|
    ensures PlanUpTo(a + b, d, ls, onlyEmpty, |a| + n) == Plan(a, d, ls, onlyEmpty) + PlanUpTo(b, d, ls, onlyEmpty, n)
  {
    if n == 0 {
      PlanUpToPrefix(a, a + b, d, ls, onlyEmpty, |a|);
    } else {
      PlanUpToAppend(a, b, d, ls, onlyEmpty, n - 1);
      assert (a + b)[|a| + n - 1] == b[n - 1];
      ConcatAssoc(Plan(a, d, ls, onlyEmpty), PlanUpTo(b, d, ls, onlyEmpty, n - 1), EntryPlan(b[n - 1], d, ls, onlyEmpty));
    }
  }

  /** The plan of the first `n` entries depends on those entries only. */
  lemma {:induction false} PlanUpToPrefix(a: seq<Translation>, b: seq<Translation>, d: Language, ls: seq<Language>, onlyEmpty: bool, n: nat)
    requires n <= |a| && n <= |b| && a[..n] == b[..n]
    ensures PlanUpTo(a, d, ls, onlyEmpty, n) == PlanUpTo(b, d, ls, onlyEmpty, n)
  {
    if n > 0 {
      assert a[..n - 1] == a[..n][..n - 1] && b[..n - 1] == b[..n][..n - 1];
      assert a[n - 1] == a[..n][n - 1] && b[n - 1] == b[..n][n - 1];
      PlanUpToPrefix(a, b, d, ls, onlyEmpty, n - 1);
    }
  }

  lemma PlanAppend(a: seq<Translation>, b: seq<Translation>, d: Language, ls: seq<Language>, onlyEmpty: bool)
    ensures Plan(a + b, d, ls, onlyEmpty) == Plan(a, d, ls, onlyEmpty) + Plan(b, d, ls, onlyEmpty)
  {
    PlanUpToAppend(a, b, d, ls, onlyEmpty, |b|);
  }

  lemma ConcatAssoc<T>(p: seq<T>, q: seq<T>, r: seq<T>)
    ensures (p + q) + r == p + (q + r)
  {
  }

  /** Within an entry, commands follow the language list order. */
  lemma {:induction false} LanguagePlanAppend(t: Translation, d: Language, a: seq<Language>, b: seq<Language>, onlyEmpty: bool, n: nat)
    requires n <= |b|
    ensures LanguagePlan(t, d, a + b, onlyEmpty, |a| + n) == LanguagePlan(t, d, a, onlyEmpty, |a|) + LanguagePlan(t, d, b, onlyEmpty, n)
  {
    if n == 0 {
      LanguagePlanPrefix(t, d, a, a + b, onlyEmpty, |a|);
    } else {
      LanguagePlanAppend(t, d, a, b, onlyEmpty, n - 1);
      assert (a + b)[|a| + n - 1] == b[n - 1];
      var x := b[n - 1];
      var tail := if Targeted(t, d, x, onlyEmpty) then [Command(d, x, t)] else [];
      ConcatAssoc(LanguagePlan(t, d, a, onlyEmpty, |a|), LanguagePlan(t, d, b, onlyEmpty, n - 1), tail);
    }
  }

  /** The inner plan over the first `n` languages depends on those only. */
  lemma {:induction false} LanguagePlanPrefix(t: Translation, d: Language, a: seq<Language>, b: seq<Language>, onlyEmpty: bool, n: nat)
    requires n <= |a| && n <= |b| && a[..n] == b[..n]
    ensures LanguagePlan(t, d, a, onlyEmpty, n) == LanguagePlan(t, d, b, onlyEmpty, n)
  {
    if n > 0 {
      assert a[..n - 1] == a[..n][..n - 1] && b[..n - 1] == b[..n][..n - 1];
      assert a[n - 1] == a[..n][n - 1] && b[n - 1] == b[..n][n - 1];
      LanguagePlanPrefix(t, d, a, b, onlyEmpty, n - 1);
    }
  }

  /** The outer planning loop over the entries. */
  method PlanCommands(ts: seq<Translation>, d: Language, ls: seq<Language>, onlyEmpty: bool) returns (commands: seq<Command>)
    ensures commands == Plan(ts, d, ls, onlyEmpty)
  {
    commands := [];
    var i := 0;
    while i < |ts|
      invariant 0 <= i <= |ts|
      invariant commands == PlanUpTo(ts, d, ls, onlyEmpty, i)
    {
      var more := PlanEntry(ts[i], d, ls, onlyEmpty);
      assert PlanUpTo(ts, d, ls, onlyEmpty, i + 1) == commands + more;
      commands := commands + more;
      i := i + 1;
    }
  }

  /** The body of the outer loop: nothing for an entry whose default text
      is null or empty, else the inner loop over the languages, which skips
      the default language. */
  method PlanEntry(t: Translation, d: Language, ls: seq<Language>, onlyEmpty: bool) returns (commands: seq<Command>)
    ensures commands == EntryPlan(t, d, ls, onlyEmpty)
  {
    commands := [];
    var defaultText := t.GetTranslation(d);
    if IsNullOrEmpty(defaultText) {
      return;
    }
    var j := 0;
    while j < |ls|
      invariant 0 <= j <= |ls|
      invariant commands == LanguagePlan(t, d, ls, onlyEmpty, j)
    {
      var language := ls[j];
      if language != d {
        var text := t.GetTranslation(language);
        if !onlyEmpty || IsNullOrEmpty(text) {
          commands := commands + [Command(d, language, t)];
        }
      }
      j := j + 1;
    }
  }

  // ---------------------------------------------------------------------
  // Running
  // ---------------------------------------------------------------------

  /** `Run` reads the main codes of both locales, so both must exist. */
  predicate Runnable(c: Command) {
    c.from.locale.Some? && c.to.locale.Some?
  }

  /** The effect of one command on its entry's phrases: the oracle
      translates the current source text; a null or empty answer changes
      nothing, otherwise it is put under the target language. */
  function RunOn(c: Command, ps: PhraseList, oracle: Oracle): PhraseList
    requires Runnable(c)
  {
    var text := oracle(c.from.locale.value.mainTranslationCode, c.to.locale.value.mainTranslationCode, Lookup(ps, c.from));
    if IsNullOrEmpty(text) then ps else Put(ps, c.to, text)
  }

  /** A command writes the oracle's answer into the target language when it
      is non-empty and leaves the target's text alone otherwise; the texts
      of languages with other ids never change. */
  lemma RunWritesAnswer(c: Command, ps: PhraseList, oracle: Oracle, query: Language)
    requires Runnable(c)
    ensures var text := oracle(c.from.locale.value.mainTranslationCode, c.to.locale.value.mainTranslationCode, Lookup(ps, c.from));
      (query.id == c.to.id && !IsNullOrEmpty(text) ==> Lookup(RunOn(c, ps, oracle), query) == text) &&
      (IsNullOrEmpty(text) ==> RunOn(c, ps, oracle) == ps) &&
      (query.id != c.to.id ==> Lookup(RunOn(c, ps, oracle), query) == Lookup(ps, query))
  {
    var text := oracle(c.from.locale.value.mainTranslationCode, c.to.locale.value.mainTranslationCode, Lookup(ps, c.from));
    if !IsNullOrEmpty(text) {
      if query.id == c.to.id {
        PutThenLookup(ps, c.to, text, query);
      } else {
        PutKeepsOtherLanguages(ps, c.to, text, query);
      }
    }
  }

  predicate AllRunnable(cmds: seq<Command>) {
    forall j :: 0 <= j < |cmds| ==> Runnable(cmds[j])
  }

  /** The phrases of entry `t` after the commands `cmds` ran, in order,
      from `ps`: only the commands of `t` act on them. */
  function Replay(cmds: seq<Command>, t: Translation, ps: PhraseList, oracle: Oracle): PhraseList
    requires AllRunnable(cmds)
    decreases |cmds|
  {
    if cmds == [] then ps
    else
      var prior := Replay(cmds[..|cmds| - 1], t, ps, oracle);
      var c := cmds[|cmds| - 1];
      if c.translation == t then RunOn(c, prior, oracle) else prior
  }

  /** An entry that no command names keeps its phrases. */
  lemma {:induction false} ReplayUntouched(cmds: seq<Command>, t: Translation, ps: PhraseList, oracle: Oracle)
    requires AllRunnable(cmds)
    requires forall j :: 0 <= j < |cmds| ==> cmds[j].translation != t
    ensures Replay(cmds, t, ps, oracle) == ps
    decreases |cmds|
  {
    if cmds != [] {
      ReplayUntouched(cmds[..|cmds| - 1], t, ps, oracle);
    }
  }

  /** Running the commands of other entries in between changes nothing for
      `t`: only the subsequence of its own commands matters. */
  lemma {:induction false} ReplayAppend(a: seq<Command>, b: seq<Command>, t: Translation, ps: PhraseList, oracle: Oracle)
    requires AllRunnable(a) && AllRunnable(b)
    ensures AllRunnable(a + b)
    ensures Replay(a + b, t, ps, oracle) == Replay(b, t, Replay(a, t, ps, oracle), oracle)
    decreases |b|
  {
    assert forall j :: 0 <= j < |a + b| ==> (a + b)[j] == if j < |a| then a[j] else b[j - |a|];
    if b == [] {
      assert a + b == a;
    } else {
      ReplayAppend(a, b[..|b| - 1], t, ps, oracle);
      assert (a + b)[..|a + b| - 1] == a + b[..|b| - 1];
    }
  }

  /** The command the loop stops at: the first one the user cancels or
      that lacks a locale, or the end of the plan. */
  function Stop(plan: seq<Command>, cancel: nat -> bool, i: nat): (k: nat)
    requires i <= |plan|
    ensures i <= k <= |plan|
    ensures forall j :: i <= j < k ==> !cancel(j) && Runnable(plan[j])
    ensures k < |plan| ==> cancel(k) || !Runnable(plan[k])
    decreases |plan| - i
  {
    if i == |plan| || cancel(i) || !Runnable(plan[i]) then i else Stop(plan, cancel, i + 1)
  }

  /** How a run over `plan` ends. */
  function OutcomeOf(plan: seq<Command>, cancel: nat -> bool): Outcome {
    var k := Stop(plan, cancel, 0);
    if k == |plan| then Finished else if cancel(k) then Cancelled(k) else Faulted(k)
  }

  /** `TranslateCommand.Run`. */
  method Run(c: Command, oracle: Oracle)
    requires Runnable(c)
    modifies c.translation`phrases
    ensures c.translation.phrases == RunOn(c, old(c.translation.phrases), oracle)
  {
    var text := oracle(c.from.locale.value.mainTranslationCode, c.to.locale.value.mainTranslationCode,
                       c.translation.GetTranslation(c.from));
    if !IsNullOrEmpty(text) {
      c.translation.PutTranslation(c.to, text);
    }
  }

  /** Every entry of `ts` holds the replay of `cmds` from its phrases in
      `initial`. */
  ghost predicate Replayed(ts: seq<Translation>, initial: map<Translation, PhraseList>, cmds: seq<Command>, oracle: Oracle)
    requires AllRunnable(cmds)
    reads ts
  {
    forall t :: t in ts ==> t in initial && t.phrases == Replay(cmds, t, initial[t], oracle)
  }

  /** One more command extends the replay of its own entry only. */
  lemma ReplayStep(plan: seq<Command>, i: nat, t: Translation, ps: PhraseList, oracle: Oracle)
    requires i < |plan| && AllRunnable(plan[..i + 1])
    ensures AllRunnable(plan[..i])
    ensures Replay(plan[..i + 1], t, ps, oracle) ==
      if plan[i].translation == t then RunOn(plan[i], Replay(plan[..i], t, ps, oracle), oracle)
      else Replay(plan[..i], t, ps, oracle)
  {
    assert plan[..i + 1][..i] == plan[..i];
  }

  /** The body of the run loop for a command that is neither cancelled nor
      faulting. */
  method RunStep(ts: seq<Translation>, ghost initial: map<Translation, PhraseList>, plan: seq<Command>, i: nat, oracle: Oracle)
    requires i < |plan| && AllRunnable(plan[..i + 1]) && plan[i].translation in ts
    requires AllRunnable(plan[..i]) && Replayed(ts, initial, plan[..i], oracle)
    modifies plan[i].translation`phrases
    ensures Replayed(ts, initial, plan[..i + 1], oracle)
  {
    var c := plan[i];
    assert Runnable(plan[..i + 1][i]);
    Run(c, oracle);
    forall t | t in ts
      ensures t in initial && t.phrases == Replay(plan[..i + 1], t, initial[t], oracle)
    {
      ReplayStep(plan, i, t, initial[t], oracle);
    }
  }

  /** `Translate(profile)`: without a default language nothing happens.
      Otherwise the plan is built from the profile as it is, and its
      commands run in order up to the first cancelled or faulting one; each
      entry's phrases end as the replay of the commands that ran. The
      user's answer to the progress dialog before command `i` is
      `cancel(i)`. */
  method Translate(profile: Profile, cancel: nat -> bool, oracle: Oracle) returns (outcome: Outcome, plan: seq<Command>)
    modifies set t | t in profile.translations
    ensures profile.defaultLanguage == null ==>
      outcome == NoDefault && plan == [] &&
      forall t :: t in profile.translations ==> t.phrases == old(t.phrases)
    ensures profile.defaultLanguage != null ==>
      plan == old(Plan(profile.translations, profile.defaultLanguage, profile.languages, profile.translateOnlyEmptyFields)) &&
      outcome == OutcomeOf(plan, cancel) &&
      forall t :: t in profile.translations ==>
        t.phrases == Replay(plan[..Stop(plan, cancel, 0)], t, old(t.phrases), oracle)
  {
    var d := profile.defaultLanguage;
    if d == null {
      return NoDefault, [];
    }
    var ts := profile.translations;
    plan := PlanCommands(ts, d, profile.languages, profile.translateOnlyEmptyFields);
    PlanInProfile(ts, d, profile.languages, profile.translateOnlyEmptyFields, plan);
    outcome := RunCommands(ts, plan, cancel, oracle);
  }

  /** The run loop: before command `i` the user may cancel; a command
      without locales faults and ends the run. */
  method RunCommands(ts: seq<Translation>, plan: seq<Command>, cancel: nat -> bool, oracle: Oracle) returns (outcome: Outcome)
    requires forall j :: 0 <= j < |plan| ==> plan[j].translation in ts
    modifies set t | t in ts
    ensures outcome == OutcomeOf(plan, cancel)
    ensures forall t :: t in ts ==> t.phrases == Replay(plan[..Stop(plan, cancel, 0)], t, old(t.phrases), oracle)
  {
    ghost var initial := map t | t in ts :: t.phrases;
    outcome := Finished;
    var i := 0;
    while i < |plan|
      invariant 0 <= i <= |plan|
      invariant Stop(plan, cancel, i) == Stop(plan, cancel, 0)
      invariant outcome == Finished
      invariant AllRunnable(plan[..i]) && Replayed(ts, initial, plan[..i], oracle)
    {
      if cancel(i) {
        outcome := Cancelled(i);
        break;
      }
      if plan[i].from.locale.None? || plan[i].to.locale.None? {
        outcome := Faulted(i);
        break;
      }
      RunStep(ts, initial, plan, i, oracle);
      i := i + 1;
    }
  }

  /** Every planned command acts on an entry of the profile. */
  lemma PlanInProfile(ts: seq<Translation>, d: Language, ls: seq<Language>, onlyEmpty: bool, plan: seq<Command>)
    requires plan == Plan(ts, d, ls, onlyEmpty)
    ensures forall j :: 0 <= j < |plan| ==> plan[j].translation in ts
  {
    forall j | 0 <= j < |plan|
      ensures plan[j].translation in ts
    {
      PlanMember(ts, d, ls, onlyEmpty, plan[j]);
    }
  }
}
