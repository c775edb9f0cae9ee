/** The theme controller as a state machine. The state is what the script can
    observe or change: the root element's `data-theme` attribute, the storage,
    the toggle button's texts (absent until the DOM-ready callback has run) and
    whether the OS colour-scheme listener was registered. Each event handler is a
    pure function from a page to a `Reaction`: the next page, the announcement it
    makes (if any) and whether it suppressed the browser's default action. */
module Controller {
  import opened Storage
  import opened Theme

  /** What the host offers at load: `window.matchMedia`, and its `prefers-dark` answer. */
  datatype Env = Env(hasMatchMedia: bool, prefersDark: bool)

  datatype Page = Page(
    theme: string,           // the `data-theme` attribute of the root element
    store: Store,            // localStorage
    button: Option<Button>,  // the toggle button; None before DOM ready
    osListener: bool)        // whether the colour-scheme listener is registered

  /** The fields of a `keydown` event the shortcut test reads. */
  datatype KeyPress = KeyPress(key: string, ctrl: bool, meta: bool, shift: bool)

  datatype Event = Click | KeyDown(press: KeyPress) | SystemChange(matches: bool)

  datatype Reaction = Reaction(page: Page, announcement: Option<string>, defaultPrevented: bool)

  /** The button exists, its title and aria-label agree, and they offer the
      opposite of the active theme: the theme a click would switch to. */
  predicate LabelFaithful(p: Page)
  {
    && p.button.Some?
    && p.button.value.title == p.button.value.ariaLabel
    && Offered(p.button.value) == Some(Opposite(p.theme))
  }

  /** An event that finds no listener: nothing changes, nothing is announced. */
  function Ignored(p: Page): (r: Reaction)
    ensures r.page == p && r.announcement == None && !r.defaultPrevented
  {
    Reaction(p, None, false)
  }

  /** Script evaluation, before DOM ready: the resolved initial theme is put on
      the root element at once; storage is only read. */
  function Load(store: Store, env: Env): (p: Page)
    ensures p.store == store && p.button == None && !p.osListener
    ensures Truthy(GetItem(store, ThemeKey)) ==> p.theme == store[ThemeKey]
    ensures !Truthy(GetItem(store, ThemeKey)) ==> IsTheme(p.theme)
    ensures !Truthy(GetItem(store, ThemeKey)) ==>
              (p.theme == Dark <==> env.hasMatchMedia && env.prefersDark)
  {
    var saved := GetItem(store, ThemeKey);
    var initial := ResolveInitial(saved, SystemPrefersDark(env.hasMatchMedia, env.prefersDark));
    Page(initial, store, None, false)
  }

  /** The DOM-ready callback: creates the button, labels it from the initial
      theme, and registers the colour-scheme listener when `matchMedia` exists.
      The keydown listener is registered too; its presence is `button.Some?`. */
  function Ready(p: Page, initialTheme: string, env: Env): (q: Page)
    ensures q.theme == p.theme && q.store == p.store
    ensures q.button.Some? && Offered(q.button.value) == Some(Opposite(initialTheme))
    ensures q.button.value.title == q.button.value.ariaLabel
    ensures q.osListener <==> env.hasMatchMedia
  {
    Page(p.theme, p.store, Some(ToggleTitle(initialTheme)), env.hasMatchMedia)
  }

  /** Script evaluation followed by the DOM-ready callback: the attribute is
      the theme resolved at load, storage is untouched, and the new button's
      label is faithful to the attribute. */
  function Boot(store: Store, env: Env): (p: Page)
    ensures LabelFaithful(p)
    ensures p.theme == Load(store, env).theme
    ensures p.store == store
    ensures p.osListener == env.hasMatchMedia
  {
    var p := Load(store, env);
    Ready(p, p.theme, env)
  }

  /** The click handler: switch to the opposite theme, write it to the
      attribute and to storage under `theme`, relabel the button and announce
      it. Before DOM ready there is no button to click. */
  function ClickButton(p: Page): (r: Reaction)
    ensures p.button.None? ==> r == Ignored(p)
    ensures p.button.Some? ==> (r.page.theme == Light <==> p.theme == Dark)
    ensures p.button.Some? ==> IsTheme(r.page.theme)
    ensures p.button.Some? ==> GetItem(r.page.store, ThemeKey) == Some(r.page.theme)
    ensures forall k :: k != ThemeKey ==> GetItem(r.page.store, k) == GetItem(p.store, k)
    ensures p.button.Some? ==> LabelFaithful(r.page)
    ensures p.button.Some? ==> r.announcement.Some? && AnnouncedTheme(r.announcement.value) == Some(r.page.theme)
    ensures r.page.osListener == p.osListener && !r.defaultPrevented
  {
    if p.button.None? then Ignored(p)
    else
      var next := Opposite(p.theme);
      Reaction(
        Page(next, SetItem(p.store, ThemeKey, next), Some(ToggleTitle(next)), p.osListener),
        Some(Announcement(next)),
        false)
  }

  /** The keyboard shortcut: Ctrl or Cmd, with Shift, on key `"D"`. Without
      Shift, or on any other key (a lower-case `"d"` included), it never fires;
      with both, either modifier suffices. */
  function IsShortcut(k: KeyPress): (b: bool)
    ensures !k.shift ==> !b
    ensures k.key != "D" ==> !b
    ensures k.shift && k.key == "D" ==> (b <==> k.ctrl || k.meta)
  {
    (k.ctrl || k.meta) && k.shift && k.key == "D"
  }

  /** The keydown handler: the shortcut suppresses the default action and clicks
      the button; any other key, or any key before DOM ready, does nothing. */
  function PressKey(p: Page, k: KeyPress): (r: Reaction)
    ensures p.button.Some? && IsShortcut(k) ==>
              r.page == ClickButton(p).page && r.announcement == ClickButton(p).announcement
    ensures r.defaultPrevented <==> p.button.Some? && IsShortcut(k)
    ensures !(p.button.Some? && IsShortcut(k)) ==> r == Ignored(p)
  {
    if p.button.Some? && IsShortcut(k) then ClickButton(p).(defaultPrevented := true)
    else Ignored(p)
  }

  /** The colour-scheme listener: unless the `theme-manual` marker is truthy,
      follow the OS preference on the attribute and the button, without writing
      storage. */
  function ChangeSystemScheme(p: Page, matches: bool): (r: Reaction)
    ensures !p.osListener || Truthy(GetItem(p.store, ManualKey)) ==> r == Ignored(p)
    ensures p.osListener && !Truthy(GetItem(p.store, ManualKey)) ==>
              && (r.page.theme == Dark <==> matches)
              && IsTheme(r.page.theme)
              && LabelFaithful(r.page)
    ensures r.page.store == p.store && r.page.osListener == p.osListener
    ensures r.announcement == None && !r.defaultPrevented
  {
    if !p.osListener || Truthy(GetItem(p.store, ManualKey)) then Ignored(p)
    else
      var systemTheme := if matches then Dark else Light;
      Reaction(p.(theme := systemTheme, button := Some(ToggleTitle(systemTheme))), None, false)
  }

  function Step(p: Page, e: Event): Reaction
  {
    match e
    case Click => ClickButton(p)
    case KeyDown(k) => PressKey(p, k)
    case SystemChange(m) => ChangeSystemScheme(p, m)
  }

  /** The page after dispatching the events in order, one at a time. */
  function Run(p: Page, events: seq<Event>): Page
    decreases |events|
  {
    if |events| == 0 then p else Run(Step(p, events[0]).page, events[1..])
  }
}
