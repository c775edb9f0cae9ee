/** The pure decisions of the dark-mode controller: which theme the page starts
    in, which theme a toggle switches to, what the toggle button says and what is
    announced to screen readers. Themes are plain strings, as in the page's
    `data-theme` attribute, so that an arbitrary stored value flows through. */
module Theme {
  import opened Storage

  const Dark: string := "dark"
  const Light: string := "light"

  /** Storage key of the persisted theme. */
  const ThemeKey: string := "theme"
  /** Storage key of the manual-override marker consulted on OS changes. */
  const ManualKey: string := "theme-manual"

  const SwitchToLight: string := "Switch to light mode"
  const SwitchToDark: string := "Switch to dark mode"

  const AnnouncePrefix: string := "Switched to "
  const AnnounceSuffix: string := " mode"

  predicate IsTheme(t: string)
  {
    t == Light || t == Dark
  }

  /** The theme a toggle switches to. The current value is compared with
      `"dark"` only, so every other string, a junk stored one included, goes
      to dark. */
  function Opposite(current: string): (r: string)
    ensures IsTheme(r)
    ensures r == Light <==> current == Dark
    ensures IsTheme(current) ==> r != current
  {
    if current == Dark then Light else Dark
  }

  /** The `prefers-dark` reading at load: false when `matchMedia` is missing. */
  function SystemPrefersDark(hasMatchMedia: bool, prefersDark: bool): (r: bool)
    ensures r ==> hasMatchMedia
    ensures hasMatchMedia ==> r == prefersDark
  {
    hasMatchMedia && prefersDark
  }

  /** The initial theme: a truthy (non-null, non-empty) saved value wins;
      otherwise dark exactly when the system prefers dark. */
  function ResolveInitial(saved: Option<string>, systemPrefersDark: bool): (r: string)
    ensures Truthy(saved) ==> r == saved.value
    ensures !Truthy(saved) ==> IsTheme(r)
    ensures !Truthy(saved) ==> (r == Dark <==> systemPrefersDark)
    ensures r != ""
  {
    if Truthy(saved) then saved.value
    else if systemPrefersDark then Dark
    else Light
  }

  /** The toggle button's two accessible texts. */
  datatype Button = Button(title: string, ariaLabel: string)

  /** The theme a button's text offers to switch to, or `None` for any text the
      controller never writes. */
  function Offered(b: Button): Option<string>
  {
    if b.title == SwitchToLight then Some(Light)
    else if b.title == SwitchToDark then Some(Dark)
    else None
  }

  /** `updateToggleTitle`: both texts are equal and offer the opposite of the
      given theme. */
  function ToggleTitle(theme: string): (b: Button)
    ensures b.title == b.ariaLabel
    ensures b.title == SwitchToLight <==> theme == Dark
    ensures b.title == SwitchToDark <==> theme != Dark
    ensures Offered(b) == Some(Opposite(theme))
  {
    if theme == Dark then Button(SwitchToLight, SwitchToLight)
    else Button(SwitchToDark, SwitchToDark)
  }

  /** The theme named by an announcement text, or `None` for text of another shape. */
  function AnnouncedTheme(s: string): Option<string>
  {
    if |s| >= |AnnouncePrefix| + |AnnounceSuffix|
       && s[..|AnnouncePrefix|] == AnnouncePrefix
       && s[|s| - |AnnounceSuffix|..] == AnnounceSuffix
    then Some(s[|AnnouncePrefix|..|s| - |AnnounceSuffix|])
    else None
  }

  /** The text of the screen-reader announcement made after a toggle; it names
      the new theme and reads back as exactly that theme. */
  function Announcement(theme: string): (s: string)
    ensures |s| == |AnnouncePrefix| + |theme| + |AnnounceSuffix|
    ensures AnnouncedTheme(s) == Some(theme)
  {
    var s := AnnouncePrefix + theme + AnnounceSuffix;
    assert s[..|AnnouncePrefix|] == AnnouncePrefix;
    assert s[|s| - |AnnounceSuffix|..] == AnnounceSuffix;
    assert s[|AnnouncePrefix|..|s| - |AnnounceSuffix|] == theme;
    s
  }
}
