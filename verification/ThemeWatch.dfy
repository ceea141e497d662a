/**
 * The theme hot-reload machine (`cyclops-theme` select).
 *
 * Every answer the filesystem can give during one refresh is a separate field
 * of a `Look`, so files may change between any two of the calls. `vocabulary`
 * is the token list; a loaded theme sets tokens of that list only.
 */
module ThemeWatch {
  import opened Wrappers
  import opened Palette

  datatype Theme = Theme(name: string, overrides: map<string, Rgb>)

  const DEFAULT_THEME := Theme("", map[])

  predicate Defines(theme: Theme, token: string) {
    token in theme.overrides
  }

  datatype Warning =
    | KeyWarning(text: string)
    | FileWarning(text: string)
    | BuiltInColors
    | NoSuchTheme(name: string)
    | Missing(path: string)
    | Unloadable(path: string)
    | StoppedSetting(path: string, first: string, more: nat)

  // Modification time and length; None when the file is not there.
  type Stamp = Option<(nat, nat)>

  datatype LoadResult = Loaded(theme: Theme, warnings: seq<Warning>) | NotFound | Broken

  datatype Choice = Choice(name: string, path: Option<string>, explicit: bool, warnings: seq<Warning>)

  datatype Look = Look(
    configStamp: Stamp,
    choice: Choice,
    isFile: string -> bool,
    load: string -> LoadResult,
    stamp: string -> Stamp)

  datatype Watch = Watch(config: Stamp, path: Option<string>, file: Stamp, theme: Theme, warnings: seq<Warning>)

  // ---------------------------------------------------------------------
  // The machine, on values
  // ---------------------------------------------------------------------

  // Load the chosen file with the tolerance of a fresh start.
  function LoadChoice(choice: Choice, look: Look): (Theme, seq<Warning>) {
    if choice.path.Some? && look.isFile(choice.path.value) then
      match look.load(choice.path.value)
      case Loaded(theme, warnings) => (theme, choice.warnings + warnings)
      case _ => (DEFAULT_THEME, choice.warnings + [BuiltInColors])
    else (DEFAULT_THEME, choice.warnings + if choice.explicit then [NoSuchTheme(choice.name)] else [])
  }

  function Switch(w: Watch, choice: Choice, look: Look): Watch {
    var (theme, warnings) := LoadChoice(choice, look);
    Watch(w.config, choice.path, if choice.path.Some? then look.stamp(choice.path.value) else None, theme, warnings)
  }

  // The chosen file is there and loads.
  predicate Loads(choice: Choice, look: Look) {
    choice.path.Some? && look.isFile(choice.path.value) && look.load(choice.path.value).Loaded?
  }

  // The watch is on the chosen file and shows it: whole when it loads, the
  // built-in theme otherwise. What the config said comes first among the
  // warnings, and a choice that does not load adds one unless nothing was asked
  // for by name and no file is there.
  ghost predicate Shows(w: Watch, choice: Choice, look: Look) {
    && w.path == choice.path && choice.warnings <= w.warnings
    && (Loads(choice, look) ==>
          && w.theme == look.load(choice.path.value).theme
          && w.warnings == choice.warnings + look.load(choice.path.value).warnings)
    && (!Loads(choice, look) ==>
          && w.theme == DEFAULT_THEME
          && (w.warnings == choice.warnings <==>
                !choice.explicit && (choice.path.Some? ==> !look.isFile(choice.path.value))))
  }

  // Nothing has moved since the watch last looked.
  predicate Unmoved(w: Watch, look: Look) {
    look.configStamp == w.config && (w.path.Some? ==> look.stamp(w.path.value) == w.file)
  }

  // The tokens on screen that `next` no longer sets, in vocabulary order.
  function Lost(vocabulary: seq<string>, current: Theme, next: Theme): (lost: seq<string>)
    ensures forall t :: t in lost <==> t in vocabulary && Defines(current, t) && !Defines(next, t)
    ensures lost != [] ==> exists i :: 0 <= i < |vocabulary| && vocabulary[i] == lost[0]
                                    && forall j :: 0 <= j < i ==> vocabulary[j] !in lost
  {
    if vocabulary == [] then []
    else
      var t := vocabulary[0];
      (if Defines(current, t) && !Defines(next, t) then [t] else []) + Lost(vocabulary[1..], current, next)
  }

  // Take a reloaded palette, or refuse it because it stopped setting a token.
  function Adopt(w: Watch, vocabulary: seq<string>, path: string, next: Theme, warnings: seq<Warning>): (Watch, bool) {
    var lost := Lost(vocabulary, w.theme, next);
    if lost == [] then (w.(theme := next, warnings := warnings), true)
    else (w.(warnings := [StoppedSetting(path, lost[0], |lost| - 1)]), false)
  }

  // The file the watch is on, checked after the config.
  function CheckFile(w: Watch, vocabulary: seq<string>, look: Look): (Watch, bool) {
    if w.path.None? || look.stamp(w.path.value) == w.file then (w, false)
    else
      var path := w.path.value;
      var seen := w.(file := look.stamp(path));
      match look.load(path)
      case Loaded(theme, warnings) => Adopt(seen, vocabulary, path, theme, warnings)
      case NotFound => (seen.(warnings := [Missing(path)]), false)
      case Broken => (seen.(warnings := [Unloadable(path)]), false)
  }

  // The config key now names a different file.
  predicate Switches(w: Watch, look: Look) {
    look.configStamp != w.config && look.choice.path != w.path
  }

  function Refresh(w: Watch, vocabulary: seq<string>, look: Look): (Watch, bool) {
    if look.configStamp == w.config then CheckFile(w, vocabulary, look)
    else
      var moved := w.(config := look.configStamp);
      if look.choice.path != w.path then (Switch(moved, look.choice, look), true)
      else CheckFile(if look.choice.warnings == [] then moved else moved.(warnings := look.choice.warnings), vocabulary, look)
  }

  // ---------------------------------------------------------------------
  // The watch object
  // ---------------------------------------------------------------------

  class WatchedTheme {
    const vocabulary: seq<string>
    var config: Stamp
    var path: Option<string>
    var file: Stamp
    var theme: Theme
    var warnings: seq<Warning>

    constructor (vocabulary: seq<string>, look: Look)
      ensures this.vocabulary == vocabulary
      ensures State() == Switch(Watch(look.configStamp, None, None, DEFAULT_THEME, []), look.choice, look)
      ensures Shows(State(), look.choice, look) && Unmoved(State(), look)
    {
      var (loaded, notes) := LoadChoice(look.choice, look);
      this.vocabulary := vocabulary;
      config, path := look.configStamp, look.choice.path;
      file := if look.choice.path.Some? then look.stamp(look.choice.path.value) else None;
      theme, warnings := loaded, notes;
    }

    function State(): Watch
      reads this
    {
      Watch(config, path, file, theme, warnings)
    }

    method TakeWarnings() returns (taken: seq<Warning>)
      modifies this`warnings
      ensures taken == old(warnings) && warnings == []
    {
      taken := warnings;
      warnings := [];
    }

    method RefreshTheme(look: Look) returns (changed: bool)
      modifies this
      ensures (State(), changed) == Refresh(old(State()), vocabulary, look)
    {
      if look.configStamp != config {
        config := look.configStamp;
        if look.choice.path != path {
          changed := SwitchTo(look.choice, look);
          return;
        }
        if look.choice.warnings != [] {
          warnings := look.choice.warnings;
        }
      }
      if path.None? { return false; }
      var now := look.stamp(path.value);
      if now == file { return false; }
      file := now;
      match look.load(path.value) {
        case Loaded(next, notes) => changed := AdoptTheme(path.value, next, notes);
        case NotFound =>
          warnings := [Missing(path.value)];
          changed := false;
        case Broken =>
          warnings := [Unloadable(path.value)];
          changed := false;
      }
    }

    method SwitchTo(choice: Choice, look: Look) returns (changed: bool)
      modifies this
      ensures changed && State() == Switch(old(State()), choice, look)
      ensures Shows(State(), choice, look) && Unmoved(State(), look.(configStamp := config))
    {
      var (loaded, notes) := LoadChoice(choice, look);
      file := if choice.path.Some? then look.stamp(choice.path.value) else None;
      path, theme, warnings := choice.path, loaded, notes;
      changed := true;
    }

    method AdoptTheme(path: string, next: Theme, notes: seq<Warning>) returns (changed: bool)
      modifies this`theme, this`warnings
      ensures (State(), changed) == Adopt(old(State()), vocabulary, path, next, notes)
    {
      var lost := Lost(vocabulary, theme, next);
      if lost == [] {
        theme, warnings := next, notes;
        return true;
      }
      warnings := [StoppedSetting(path, lost[0], |lost| - 1)];
      return false;
    }
  }

  // ---------------------------------------------------------------------
  // What every run of refreshes keeps
  // ---------------------------------------------------------------------

  ghost predicate InVocabulary(theme: Theme, vocabulary: seq<string>) {
    forall t :: Defines(theme, t) ==> t in vocabulary
  }

  // What theme parsing promises of every file it loads.
  ghost predicate Honest(look: Look, vocabulary: seq<string>) {
    forall p :: look.load(p).Loaded? ==> InVocabulary(look.load(p).theme, vocabulary)
  }

  // The watches after each of a run of refreshes.
  ghost predicate IsRun(vocabulary: seq<string>, watches: seq<Watch>, looks: seq<Look>) {
    && |watches| == |looks| + 1
    && InVocabulary(watches[0].theme, vocabulary)
    && forall i :: 0 <= i < |looks| ==>
         Honest(looks[i], vocabulary) && watches[i + 1] == Refresh(watches[i], vocabulary, looks[i]).0
  }

  // The on-screen theme sets at least every token the earlier one did.
  ghost predicate SetsAll(earlier: Theme, later: Theme) {
    forall t :: Defines(earlier, t) ==> Defines(later, t)
  }

  lemma StepKeepsTokens(w: Watch, vocabulary: seq<string>, look: Look)
    requires InVocabulary(w.theme, vocabulary) && Honest(look, vocabulary)
    ensures var (w', changed) := Refresh(w, vocabulary, look);
      && InVocabulary(w'.theme, vocabulary)
      && (!Switches(w, look) ==> SetsAll(w.theme, w'.theme) && w'.path == w.path)
      && (!changed ==> w'.theme == w.theme && !Switches(w, look))
  {
    if w.path.Some? && look.load(w.path.value).Loaded? {
      var next := look.load(w.path.value).theme;
      if Lost(vocabulary, w.theme, next) == [] {
        assert forall t :: t in vocabulary && Defines(w.theme, t) ==> t in Lost(vocabulary, w.theme, next) || Defines(next, t);
      }
    }
  }

  lemma {:induction false} VocabularyAlways(vocabulary: seq<string>, watches: seq<Watch>, looks: seq<Look>, i: nat)
    requires IsRun(vocabulary, watches, looks) && i < |watches|
    ensures InVocabulary(watches[i].theme, vocabulary)
  {
    if i > 0 {
      VocabularyAlways(vocabulary, watches, looks, i - 1);
      StepKeepsTokens(watches[i - 1], vocabulary, looks[i - 1]);
    }
  }

  // THEOREM. Over any run against an arbitrarily changing filesystem, between
  // two selection switches the tokens the on-screen theme defines never shrink.
  lemma {:induction false} TokensNeverShrink(vocabulary: seq<string>, watches: seq<Watch>, looks: seq<Look>, i: nat, j: nat)
    requires IsRun(vocabulary, watches, looks) && i <= j < |watches|
    requires forall k :: i <= k < j ==> !Switches(watches[k], looks[k])
    ensures SetsAll(watches[i].theme, watches[j].theme)
    decreases j
  {
    if i < j {
      TokensNeverShrink(vocabulary, watches, looks, i, j - 1);
      VocabularyAlways(vocabulary, watches, looks, j - 1);
      StepKeepsTokens(watches[j - 1], vocabulary, looks[j - 1]);
    }
  }

  // THEOREM. A refresh that reports no change leaves the theme, and a run of
  // such refreshes leaves it throughout.
  lemma {:induction false} FalseLeavesTheme(vocabulary: seq<string>, watches: seq<Watch>, looks: seq<Look>, i: nat, j: nat)
    requires IsRun(vocabulary, watches, looks) && i <= j < |watches|
    requires forall k :: i <= k < j ==> !Refresh(watches[k], vocabulary, looks[k]).1
    ensures watches[j].theme == watches[i].theme
    decreases j
  {
    if i < j {
      FalseLeavesTheme(vocabulary, watches, looks, i, j - 1);
      VocabularyAlways(vocabulary, watches, looks, j - 1);
      StepKeepsTokens(watches[j - 1], vocabulary, looks[j - 1]);
    }
  }

  // THEOREM. Every refresh leaves the watch unmoved with respect to what it
  // saw, so refreshing again with nothing moved returns false and changes
  // nothing, warnings included.
  lemma SecondRefreshIsQuiet(w: Watch, vocabulary: seq<string>, look: Look, again: Look)
    requires again.configStamp == look.configStamp && forall p :: again.stamp(p) == look.stamp(p)
    ensures Unmoved(Refresh(w, vocabulary, look).0, again)
    ensures Refresh(Refresh(w, vocabulary, look).0, vocabulary, again) == (Refresh(w, vocabulary, look).0, false)
  {
  }

  // THEOREM. A reload applies exactly when the watched file has moved, loads,
  // and still sets every token on screen. A switch always applies, whatever was
  // on screen, and shows the choice.
  lemma RefreshAppliesExactly(w: Watch, vocabulary: seq<string>, look: Look)
    requires InVocabulary(w.theme, vocabulary)
    ensures Refresh(w, vocabulary, look).1 <==>
      || Switches(w, look)
      || (&& w.path.Some? && look.stamp(w.path.value) != w.file
          && look.load(w.path.value).Loaded? && SetsAll(w.theme, look.load(w.path.value).theme))
    ensures Switches(w, look) ==> Shows(Refresh(w, vocabulary, look).0, look.choice, look)
    ensures !Switches(w, look) && Refresh(w, vocabulary, look).1 ==>
      && Refresh(w, vocabulary, look).0.theme == look.load(w.path.value).theme
      && Refresh(w, vocabulary, look).0.warnings == look.load(w.path.value).warnings
  {
    if w.path.Some? && look.load(w.path.value).Loaded? {
      LostExactly(vocabulary, w.theme, look.load(w.path.value).theme);
    }
  }

  lemma LostExactly(vocabulary: seq<string>, current: Theme, next: Theme)
    requires InVocabulary(current, vocabulary)
    ensures Lost(vocabulary, current, next) == [] <==> SetsAll(current, next)
  {
    var lost := Lost(vocabulary, current, next);
    if lost == [] {
      forall t | Defines(current, t)
        ensures Defines(next, t)
      {
        assert t in vocabulary && t !in lost;
      }
    } else {
      assert lost[0] in lost;
    }
  }

  // THEOREM. What a refresh without a switch says: the config's warnings if it
  // moved and has any; then, if the file moved, what loading it said, that it is
  // gone, that it cannot be loaded, or the first token it stopped setting and
  // how many more. Otherwise what was said before stands.
  lemma RefreshWarnsExactly(w: Watch, vocabulary: seq<string>, look: Look)
    requires InVocabulary(w.theme, vocabulary) && !Switches(w, look)
    ensures var said := Refresh(w, vocabulary, look).0.warnings;
      if w.path == None || look.stamp(w.path.value) == w.file then
        said == if look.configStamp != w.config && look.choice.warnings != [] then look.choice.warnings else w.warnings
      else match look.load(w.path.value)
        case NotFound => said == [Missing(w.path.value)]
        case Broken => said == [Unloadable(w.path.value)]
        case Loaded(next, notes) =>
          if SetsAll(w.theme, next) then said == notes
          else NamesLost(said, w.path.value, vocabulary, w.theme, next)
  {
    if w.path.Some? && look.load(w.path.value).Loaded? {
      var next := look.load(w.path.value).theme;
      LostExactly(vocabulary, w.theme, next);
      LostSize(vocabulary, w.theme, next);
      var lost := Lost(vocabulary, w.theme, next);
      if lost != [] {
        assert lost[0] in lost;
        assert FirstLost(vocabulary, w.theme, next, lost[0]);
      }
    }
  }

  // One warning: the first token lost, and how many more.
  ghost predicate NamesLost(said: seq<Warning>, path: string, vocabulary: seq<string>, current: Theme, next: Theme) {
    && |said| == 1 && said[0].StoppedSetting? && said[0].path == path
    && FirstLost(vocabulary, current, next, said[0].first)
    && said[0].more + 1 == LostTokens(vocabulary, current, next)
  }

  // The first token of the vocabulary that is on screen and no longer set.
  ghost predicate FirstLost(vocabulary: seq<string>, current: Theme, next: Theme, first: string) {
    && Defines(current, first) && !Defines(next, first)
    && exists i :: 0 <= i < |vocabulary| && vocabulary[i] == first
                && forall j :: 0 <= j < i ==> !Defines(current, vocabulary[j]) || Defines(next, vocabulary[j])
  }

  ghost function LostTokens(vocabulary: seq<string>, current: Theme, next: Theme): nat {
    if vocabulary == [] then 0
    else
      var t := vocabulary[|vocabulary| - 1];
      LostTokens(vocabulary[..|vocabulary| - 1], current, next)
      + if t in current.overrides && t !in next.overrides then 1 else 0
  }

  lemma {:induction false} LostSize(vocabulary: seq<string>, current: Theme, next: Theme)
    ensures |Lost(vocabulary, current, next)| == LostTokens(vocabulary, current, next)
    decreases |vocabulary|
  {
    if vocabulary != [] {
      var n := |vocabulary| - 1;
      LostSize(vocabulary[..n], current, next);
      LostSnoc(vocabulary[..n], vocabulary[n], current, next);
      assert vocabulary == vocabulary[..n] + [vocabulary[n]];
    }
  }

  lemma {:induction false} LostSnoc(vocabulary: seq<string>, t: string, current: Theme, next: Theme)
    ensures Lost(vocabulary + [t], current, next) ==
      Lost(vocabulary, current, next) + if Defines(current, t) && !Defines(next, t) then [t] else []
    decreases |vocabulary|
  {
    var more := vocabulary + [t];
    if vocabulary == [] {
      assert more[1..] == [];
    } else {
      assert more[1..] == vocabulary[1..] + [t];
      LostSnoc(vocabulary[1..], t, current, next);
    }
  }

  // THEOREM. A deliberate edit that drops a token is refused on every save, not
  // only on the first: while no switch happens and every load of the watched
  // file lacks a token on screen, the theme never changes and every refresh
  // says so.
  lemma {:induction false} RefusalPersists(vocabulary: seq<string>, watches: seq<Watch>, looks: seq<Look>,
                                           token: string, i: nat, j: nat)
    requires IsRun(vocabulary, watches, looks) && i <= j < |watches|
    requires Defines(watches[i].theme, token)
    requires forall k :: i <= k < j ==> !Switches(watches[k], looks[k]) && FileLacks(watches[k], looks[k], token)
    ensures watches[j].theme == watches[i].theme
    ensures i < j ==> !Refresh(watches[j - 1], vocabulary, looks[j - 1]).1
    decreases j
  {
    if i < j {
      RefusalPersists(vocabulary, watches, looks, token, i, j - 1);
      VocabularyAlways(vocabulary, watches, looks, j - 1);
      RefreshAppliesExactly(watches[j - 1], vocabulary, looks[j - 1]);
      StepKeepsTokens(watches[j - 1], vocabulary, looks[j - 1]);
    }
  }

  // Should the watched file load, it does not set the token.
  predicate FileLacks(w: Watch, look: Look, token: string) {
    w.path.Some? && look.load(w.path.value).Loaded? ==> !Defines(look.load(w.path.value).theme, token)
  }
}
