/** Properties of the theme controller over single events and over whole
    sequences of events dispatched after the page has booted. */
module ControllerProofs {
  import opened Storage
  import opened Theme
  import opened Controller

  /** On the two real themes, switching is an involution. */
  lemma OppositeInvolution(t: string)
    requires IsTheme(t)
    ensures Opposite(Opposite(t)) == t
  {
  }

  /** Clicking twice restores a light or dark attribute and leaves that same
      value in storage; from any other string two clicks end at light. Storage
      keys other than `theme` are untouched. */
  lemma ClickTwice(p: Page)
    requires p.button.Some?
    ensures var q := ClickButton(ClickButton(p).page).page;
      && (IsTheme(p.theme) ==> q.theme == p.theme && GetItem(q.store, ThemeKey) == Some(p.theme))
      && (!IsTheme(p.theme) ==> q.theme == Light && GetItem(q.store, ThemeKey) == Some(Light))
      && (forall k :: k != ThemeKey ==> GetItem(q.store, k) == GetItem(p.store, k))
  {
  }

  /** The shortcut performs exactly the click transition, before and after DOM
      ready alike, and suppresses the default action once the listener exists. */
  lemma ShortcutActsAsClick(p: Page, k: KeyPress)
    requires IsShortcut(k)
    ensures PressKey(p, k).page == ClickButton(p).page
    ensures PressKey(p, k).announcement == ClickButton(p).announcement
    ensures PressKey(p, k).defaultPrevented == p.button.Some?
  {
  }

  /** Every event keeps a faithful label faithful and leaves the listener flag alone. */
  lemma StepKeepsLabelFaithful(p: Page, e: Event)
    requires LabelFaithful(p)
    ensures LabelFaithful(Step(p, e).page)
    ensures Step(p, e).page.osListener == p.osListener
  {
  }

  lemma {:induction false} RunKeepsLabelFaithful(p: Page, events: seq<Event>)
    requires LabelFaithful(p)
    ensures LabelFaithful(Run(p, events))
    ensures Run(p, events).osListener == p.osListener
    decreases |events|
  {
    if |events| > 0 {
      StepKeepsLabelFaithful(p, events[0]);
      RunKeepsLabelFaithful(Step(p, events[0]).page, events[1..]);
    }
  }

  /** On every reachable page the button offers exactly the theme that the next
      click switches to. */
  lemma ReachableLabelPredictsClick(store: Store, env: Env, events: seq<Event>)
    ensures var p := Run(Boot(store, env), events);
      && LabelFaithful(p)
      && Offered(p.button.value) == Some(ClickButton(p).page.theme)
      && p.button.value.title == p.button.value.ariaLabel
      && (p.button.value.title == SwitchToLight <==> p.theme == Dark)
  {
    RunKeepsLabelFaithful(Boot(store, env), events);
  }

  /** The only storage write anywhere is the click's write of `theme`. */
  lemma StepWritesOnlyTheme(p: Page, e: Event)
    ensures forall k :: k != ThemeKey ==> GetItem(Step(p, e).page.store, k) == GetItem(p.store, k)
  {
  }

  lemma {:induction false} RunWritesOnlyTheme(p: Page, events: seq<Event>)
    ensures forall k :: k != ThemeKey ==> GetItem(Run(p, events).store, k) == GetItem(p.store, k)
    decreases |events|
  {
    if |events| > 0 {
      StepWritesOnlyTheme(p, events[0]);
      RunWritesOnlyTheme(Step(p, events[0]).page, events[1..]);
    }
  }

  /** Nothing the controller does ever writes `theme-manual`: after any
      sequence of its own events it reads exactly as it read at load. */
  lemma ManualMarkerNeverWritten(store: Store, env: Env, events: seq<Event>)
    ensures GetItem(Run(Boot(store, env), events).store, ManualKey) == GetItem(store, ManualKey)
  {
    RunWritesOnlyTheme(Boot(store, env), events);
  }

  /** Without a marker at load (and with `matchMedia`), an OS colour-scheme change
      sets the attribute to the OS preference after any history, including
      manual clicks, and leaves storage as it was. */
  lemma SystemChangeOverridesAfterAnyHistory(store: Store, env: Env, events: seq<Event>, matches: bool)
    requires env.hasMatchMedia && !Truthy(GetItem(store, ManualKey))
    ensures var p := Run(Boot(store, env), events);
      var q := ChangeSystemScheme(p, matches).page;
      && (q.theme == Dark <==> matches)
      && IsTheme(q.theme)
      && q.store == p.store
      && LabelFaithful(q)
  {
    RunKeepsLabelFaithful(Boot(store, env), events);
    ManualMarkerNeverWritten(store, env, events);
  }

  /** A click followed by an OS change: the OS preference wins on the page,
      while storage keeps the clicked theme for the next load. */
  lemma ClickThenSystemChange(store: Store, env: Env, matches: bool)
    requires env.hasMatchMedia && !Truthy(GetItem(store, ManualKey))
    ensures var p := Boot(store, env);
      var clicked := ClickButton(p).page;
      var q := ChangeSystemScheme(clicked, matches).page;
      && (q.theme == Dark <==> matches)
      && GetItem(q.store, ThemeKey) == Some(Opposite(p.theme))
      && Load(q.store, env).theme == Opposite(p.theme)
  {
  }

  /** With a truthy marker at load, and no storage writer but this script,
      every later OS colour-scheme change is ignored. */
  lemma ManualMarkerFreezesSystemChanges(store: Store, env: Env, events: seq<Event>, matches: bool)
    requires Truthy(GetItem(store, ManualKey))
    ensures var p := Run(Boot(store, env), events);
      ChangeSystemScheme(p, matches) == Ignored(p)
  {
    ManualMarkerNeverWritten(store, env, events);
  }

  lemma {:induction false} RunKeepsThemeValid(p: Page, events: seq<Event>)
    requires IsTheme(p.theme)
    ensures IsTheme(Run(p, events).theme)
    decreases |events|
  {
    if |events| > 0 {
      RunKeepsThemeValid(Step(p, events[0]).page, events[1..]);
    }
  }

  /** A page that boots on a real theme (any stored value that is empty, absent,
      `light` or `dark`) shows a real theme forever after. A junk stored value
      is shown until the first click or OS change. */
  lemma ReachableThemeValid(store: Store, env: Env, events: seq<Event>)
    requires !Truthy(GetItem(store, ThemeKey)) || IsTheme(store[ThemeKey])
    ensures IsTheme(Run(Boot(store, env), events).theme)
  {
    RunKeepsThemeValid(Boot(store, env), events);
  }

  /** With no saved theme and no dark system preference, the page boots light;
      a click makes it dark, stores dark, announces dark and offers light. */
  lemma FreshLightThenClick(store: Store, env: Env)
    requires !Truthy(GetItem(store, ThemeKey)) && !(env.hasMatchMedia && env.prefersDark)
    ensures Boot(store, env).theme == Light
    ensures var r := ClickButton(Boot(store, env));
      && r.page.theme == Dark
      && GetItem(r.page.store, ThemeKey) == Some(Dark)
      && r.page.button == Some(Button(SwitchToLight, SwitchToLight))
      && r.announcement == Some(Announcement(Dark))
  {
  }
}
