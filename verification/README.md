# Dark-mode theme controller, modelled in Dafny

The documentation site ships one script with logic, `docs/source/_static/dark-mode.js`.
It resolves a light/dark theme at load from the stored `theme` value or the system
colour-scheme preference. It writes that theme to the root element's `data-theme`
attribute and adds a toggle button once the DOM is ready. It follows OS colour-scheme
changes unless a non-empty `theme-manual` is stored, and it offers the Ctrl/Cmd+Shift+D
shortcut.

The model is a state machine over pure functions:

- `storage.dfy` (module `Storage`): `localStorage` as a `map<string, string>`.
  `getItem` returns `Option<string>`. JavaScript truthiness of `string | null` is
  `Truthy`: `null` and `""` are falsy.
- `theme.dfy` (module `Theme`): the decisions. These are the theme a toggle switches
  to, the initial theme, the button texts of `updateToggleTitle`, and the announcement
  text. Themes are strings, as the attribute is. An arbitrary stored string is applied
  as-is at load. Because the toggle compares only with `"dark"`, such a string toggles
  to dark.
- `controller.dfy` (module `Controller`): the page state `Page`. It holds the
  attribute, the storage, the button (absent until the DOM-ready callback has run) and
  whether the colour-scheme listener is registered. The file also has the handlers
  `Load`, `Ready`, `ClickButton`, `PressKey` and `ChangeSystemScheme`, plus `Step` and
  `Run` for dispatching events one at a time.
- `proofs.dfy` (module `ControllerProofs`): properties over single events and over
  arbitrary event sequences after boot.

Host capabilities are parameters: `Env` carries whether `window.matchMedia` exists and
what it answers at load, and an OS change carries `e.matches`.

The click handler writes only `theme`. Nothing in the script ever writes
`theme-manual`. So when the marker is absent or empty at load, and nothing outside the
script writes storage, every OS colour-scheme change overrides the attribute, even
right after a manual click (`SystemChangeOverridesAfterAnyHistory`,
`ClickThenSystemChange`). The stored clicked
theme still wins on the next load. The model states this as the script's behaviour.

Two facts about the script shape the model:

- `localStorage` is not feature-detected: lines 6, 39 and 56 call it directly, so the model always has a store.
- Themes are not a closed set: line 8 applies any non-empty stored string as the attribute.

## Model

| member | source | states |
|---|---|---|
| Storage.GetItem | docs/source/_static/dark-mode.js:6 | `getItem` yields a value exactly when the key is stored, and that value is the stored string; otherwise `null` (also used at line 56) |
| Storage.Truthy | docs/source/_static/dark-mode.js:8 | the `||` at line 8 and the `!` at line 56 treat a stored string as present exactly when it is neither `null` nor the empty string |
| Storage.SetItem | docs/source/_static/dark-mode.js:39 | the written key reads back as the new value; every other key reads back as before |
| Theme.Opposite | docs/source/_static/dark-mode.js:34-35 | the new theme is light exactly when the current attribute is dark, and dark for every other string; it is always light or dark, and differs from a light/dark input |
| Theme.SystemPrefersDark | docs/source/_static/dark-mode.js:7 | without `matchMedia` the system never counts as preferring dark; with it, the media query's answer is used |
| Theme.ResolveInitial | docs/source/_static/dark-mode.js:6-8 | a truthy saved value wins; otherwise the theme is light or dark, and dark exactly when the system prefers dark; the result is never empty |
| Theme.ToggleTitle | docs/source/_static/dark-mode.js:74-82 | title and aria-label are equal; they read "Switch to light mode" exactly when the theme is dark, "Switch to dark mode" otherwise; they offer the theme a toggle would produce |
| Theme.Announcement | docs/source/_static/dark-mode.js:95 | the announcement text reads back, through its "Switched to … mode" frame, as exactly the given theme |
| Controller.Load | docs/source/_static/dark-mode.js:6-11 | at load a truthy stored `theme` becomes the attribute; otherwise the attribute is dark exactly when `matchMedia` exists and prefers dark, else light; storage is not written and no button exists yet |
| Controller.Ready | docs/source/_static/dark-mode.js:22-72 | DOM ready leaves attribute and storage alone, creates a button whose equal texts offer the opposite of the initial theme, and registers the OS listener exactly when `matchMedia` exists |
| Controller.Boot | docs/source/_static/dark-mode.js:6-30 | after script evaluation and the DOM-ready callback the attribute is the theme resolved at load, storage is untouched, the OS listener exists exactly when `matchMedia` does, and the button's equal texts offer the opposite of the attribute |
| Controller.ClickButton | docs/source/_static/dark-mode.js:33-46 | a click makes the attribute light exactly when it was dark; it stores the new theme under `theme` and changes no other key; it relabels the button faithfully and announces the new theme |
| Controller.IsShortcut | docs/source/_static/dark-mode.js:67 | the shortcut never fires without Shift or on a key other than `"D"` (lower-case `"d"` included); with Shift and `"D"` it fires exactly when Ctrl or Meta is held |
| Controller.PressKey | docs/source/_static/dark-mode.js:65-71 | once the listener exists, Ctrl/Cmd+Shift+"D" gives the click's page and announcement and prevents the default; any other key, or any key before ready, changes nothing |
| Controller.ChangeSystemScheme | docs/source/_static/dark-mode.js:52-61 | with the listener registered and no truthy `theme-manual`, the attribute becomes dark exactly when `e.matches`, with a faithful label; otherwise nothing changes; storage is never written |
| ControllerProofs.OppositeInvolution | docs/source/_static/dark-mode.js:35 | on light and dark, toggling twice returns the original theme |
| ControllerProofs.ClickTwice | docs/source/_static/dark-mode.js:34-39 | two clicks restore a light/dark attribute and leave it in storage; from any other string they end at light; other keys are unchanged |
| ControllerProofs.ShortcutActsAsClick | docs/source/_static/dark-mode.js:67-69 | the shortcut yields the click's page and announcement, and suppresses the default exactly when the listener exists |
| ControllerProofs.StepKeepsLabelFaithful | docs/source/_static/dark-mode.js:33-71 | every click, key press and OS change keeps the label faithful to the attribute |
| ControllerProofs.RunKeepsLabelFaithful | docs/source/_static/dark-mode.js:33-71 | any sequence of events keeps the label faithful and the listener registration unchanged |
| ControllerProofs.ReachableLabelPredictsClick | docs/source/_static/dark-mode.js:30-82 | on every page reachable after boot, title equals aria-label, reads "Switch to light mode" exactly when the attribute is dark, and offers the theme the next click produces |
| ControllerProofs.StepWritesOnlyTheme | docs/source/_static/dark-mode.js:39 | no event changes any storage key other than `theme` |
| ControllerProofs.RunWritesOnlyTheme | docs/source/_static/dark-mode.js:33-71 | no sequence of events changes any storage key other than `theme` |
| ControllerProofs.ManualMarkerNeverWritten | docs/source/_static/dark-mode.js:39-56 | after any sequence of the script's own events, `theme-manual` reads exactly as it did at load |
| ControllerProofs.SystemChangeOverridesAfterAnyHistory | docs/source/_static/dark-mode.js:54-59 | with no marker at load and `matchMedia` present, an OS change after any events sets the attribute to the OS preference, keeps the label faithful and writes no storage |
| ControllerProofs.ClickThenSystemChange | docs/source/_static/dark-mode.js:33-59 | after a click, an OS change overrides the attribute, while storage keeps the clicked theme, which the next load applies |
| ControllerProofs.ManualMarkerFreezesSystemChanges | docs/source/_static/dark-mode.js:55-56 | with a truthy marker at load, every OS change after any sequence of the script's own events is ignored |
| ControllerProofs.RunKeepsThemeValid | docs/source/_static/dark-mode.js:33-59 | once the attribute is light or dark, no event sequence makes it anything else |
| ControllerProofs.ReachableThemeValid | docs/source/_static/dark-mode.js:6-59 | if the stored theme is absent, empty, light or dark, every reachable attribute is light or dark |
| ControllerProofs.FreshLightThenClick | docs/source/_static/dark-mode.js:6-45 | with no saved theme and no dark preference, the page boots light; a click makes it dark, stores dark, labels "Switch to light mode" and announces dark |

## Left out

- Button construction and styling are not modelled. This covers `createElement`, `className`, appending to the body, and the placeholder texts at lines 26-27 that line 30 overwrites at once.
- The announcement node's live-region attributes, off-screen styling and insertion (lines 86-96) are not modelled. Only its text is.
- The `setTimeout` that removes the announcement after 1000 ms (lines 99-101) is not modelled, because it is timer scheduling.
- The `DOMContentLoaded` readiness wrapper (lines 14-20) is not modelled. `Boot` runs `Load` and then `Ready`. Before ready there is no button and no listener, so clicks and key presses change nothing.
- Listener registration (`addListener`, `addEventListener`) becomes the `osListener` flag and the presence of the button. The `matchMedia` feature test becomes `Env.hasMatchMedia`.
- Storage exceptions are not modelled. An unavailable or throwing `localStorage` is outside the code's handling.
- Only the script's own writes change `data-theme`. A `getAttribute` returning `null` cannot happen in the model.
- Controller.Ready: the model takes the initial theme as a parameter. Line 30 uses the closure constant from line 8, and `Boot` passes the attribute set at line 11, which nothing changes before ready.
- Storage writes from outside this script are not modelled: other tabs of the site, other scripts, or clearing site data. Line 56 re-reads `theme-manual` on every OS change, so on a real page such a write can re-enable or freeze OS following. ManualMarkerNeverWritten, ManualMarkerFreezesSystemChanges and SystemChangeOverridesAfterAnyHistory hold only while nothing but this script writes storage.
- `docs/source/conf.py` is not part of this model. It is static Sphinx configuration.
