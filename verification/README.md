# Portfolio page interactions, modelled in Dafny

This project models the decision logic of `script.js`, the behaviour layer of a
static portfolio page. Three pieces of it are deterministic and free of floating
point once the page's elements are abstracted to values:

- **Typed-text cycler** (`TypedText`, `TypedTextCycle`). A timer chain types a
  role string one character at a time, pauses, deletes it, pauses, and moves to
  the next role. One run of the `tick` closure is the pure function
  `TypedText.Step`. It maps the role index, character index and deleting flag
  to their next values, the text written into the element, and the delay before
  the next tick (80 ms typing, 2000 ms end pause, 40 ms deleting, 500 ms start
  pause; the first tick runs 1000 ms after load). `Run` and `Elapsed` iterate it.
  JavaScript's `slice(0, end)` is modelled exactly, including a negative end
  and an end past the length, so `Step` is total. The requirement that no role
  is empty sits on the lemmas that need it.
- **Navigation scroll listener** (`NavScroll`). `OnScroll` takes the scroll
  offset, whether the navigation bar exists, the sections in document order
  (`id`, `offsetTop`) and the navigation links (`href`, `active` class). It
  returns the bar's style, the current section id and the recomputed links.
  `LastReached` is an independent reference definition of the active section.
  `ScanFindsLastReached` proves that the handler's forward scan agrees with it.
- **Hamburger toggle** (`Menu`). `ToggleMenu` flips the menu's and the icon's
  `open` classes and derives the body's `overflow` from the menu.

Offsets are integers. The handler only compares them and subtracts 120.

Three consequences of the code are worth stating plainly:

- When no section is reached, the code compares every `href` with `"#" + ""`.
  So links whose `href` is exactly `#` become active
  (`NavScroll.NoSectionMarksBareHash`). When the last reached section has an
  empty `id`, the effect is the same (`NavScroll.EmptyIdSectionMarksBareHash`).
- The code marks every link whose `href` matches. Only distinct `href`s
  guarantee at most one active link (`NavScroll.AtMostOneActive`); links that
  share the matching `href` are all marked.
- The cycler has no pause states: a pause is only a longer delay before the
  next tick, and that is how it is modelled.

## Model

| member | source | states |
|---|---|---|
| TypedText.Step | script.js:42-65 | one tick keeps the role index valid, shows a prefix of the role it started on, moves the character index by exactly one in the mode's direction, and changes role only when deleting flips back to typing |
| TypedText.SliceTo | script.js:46 | `slice(0, end)` returns a prefix of the string: of length `end` when `end` is within bounds, the whole string when `end` is past the end, and `len + end` characters (at least 0) when `end` is negative |
| TypedText.Run | script.js:50-63 | the timer chain of ticks keeps the role index valid after any number of ticks |
| TypedText.Elapsed | script.js:50-63 | `k` ticks schedule between `40 * k` and `2000 * k` ms in total, the shortest and longest delays a tick can pick |
| TypedText.PageRolesWellFormed | script.js:25-30 | the page's four roles form a non-empty list of non-empty strings |
| TypedText.InitialInv | script.js:34-36 | the start state (role 0, index 0, typing) satisfies the cycler invariant |
| TypedText.StepPreservesInv | script.js:45-64 | with no empty role, a tick keeps the invariant and `0 <= charIndex <= len(current role)` |
| TypedText.RunPreservesInv | script.js:42-65 | the invariant holds after any number of ticks |
| TypedText.ReachableInv | script.js:34-67 | every state reached from page load satisfies the invariant and its character-index bounds |
| TypedText.StepShowsPrefix | script.js:45-56 | the text a tick writes is `role[r][..charIndex]`, with `r` the role index before the tick and `charIndex` the index after it |
| TypedText.StepFlipsAtBoundaries | script.js:46-58 | typing flips to deleting iff the tick shows the whole role, that is iff the new index equals the role's length; deleting flips to typing iff the tick shows nothing, that is iff the new index is 0 |
| TypedText.StepRoleAndDelay | script.js:47-63 | typing keeps the role and waits 80 ms, or 2000 ms on the flip; deleting keeps the role and waits 40 ms, or on the flip moves to `(r + 1) % len(roles)` and waits 500 ms |
| TypedText.EmptyRoleTypesForever | script.js:46-53 | with an empty role the equality test never fires: the index grows by one per tick and typing never ends |
| TypedTextCycle.TypingPhase | script.js:45-53 | short of the role's end, `k` ticks type `k` characters and take `80 * k` ms |
| TypedTextCycle.DeletingPhase | script.js:54-63 | short of erasing the role, `k` ticks delete `k` characters and take `40 * k` ms |
| TypedTextCycle.Trajectory | script.js:42-65 | the exact state after each of the `2 * len` ticks of one role's cycle |
| TypedTextCycle.RoleCycle | script.js:42-65 | from `(r, 0, typing)` exactly `2 * len(roles[r])` ticks reach `((r + 1) % len(roles), 0, typing)`; no earlier tick leaves role `r` or reaches that state |
| TypedTextCycle.CycleDuration | script.js:37-63 | one role's cycle lasts `(len - 1) * (80 + 40) + 2000 + 500` ms |
| TypedTextCycle.VisitsInOrder | script.js:57-60 | after `m` whole cycles from the start of role `from`, the cycler starts role `(from + m) % len(roles)` |
| TypedTextCycle.VisitsFromLoad | script.js:34-67 | from page load, after `m` whole cycles the cycler starts role `m % len(roles)` |
| TypedTextCycle.PageVisitsRolesInOrder | script.js:25-67 | the page's four roles are shown in their listed order, wrapping after the last |
| TypedTextCycle.TickTime | script.js:50-67 | tick `k` runs between `1000 + 40 * k` and `1000 + 2000 * k` ms after load |
| TypedTextCycle.FirstRoleFullyShown | script.js:45-67 | the first role is shown in full by the tick that runs `1000 + (len - 1) * 80` ms after load |
| NavScroll.StyleFor | script.js:102-105 | the bar takes the scrolled background and shadow iff the offset is strictly above 50, and the resting style otherwise |
| NavScroll.StyleBoundary | script.js:103-104 | offsets 0 and 50 give the resting style; 51 gives the scrolled one |
| NavScroll.StyleMonotone | script.js:103-104 | once the bar is scrolled, a larger offset keeps it scrolled |
| NavScroll.LastReached | script.js:108-114 | the index of the last section in document order with `scroll >= offsetTop - 120`, or -1 when no section qualifies |
| NavScroll.Scan | script.js:108-114 | the forward scan ends either on its starting value or on the id of some reached section |
| NavScroll.ScanFindsLastReached | script.js:108-114 | the handler's forward scan ends on the id of the last reached section, and keeps its starting value when none is reached |
| NavScroll.ActiveSectionId | script.js:108-114 | the current id is that of the last reached section, or `""` when none is reached |
| NavScroll.LastReachedMonotone | script.js:110-111 | scrolling further down never moves the active section back up the page |
| NavScroll.ActiveSectionExample | script.js:108-114 | sections at 0, 800 and 1600 with the reader at 900 make the section at 800 active |
| NavScroll.MarkLinks | script.js:116-121 | every link keeps its `href`, and has `active` afterwards iff its `href` equals `"#" + current` |
| NavScroll.MarkLinksForgetsPrevious | script.js:116-121 | the links' earlier `active` classes do not affect the result |
| NavScroll.AtMostOneActive | script.js:116-121 | when the links' `href`s are distinct, at most one link ends up active |
| NavScroll.NoSectionMarksBareHash | script.js:108-121 | when no section is reached, the handler's current id is `""` and exactly the links whose `href` is `#` become active |
| NavScroll.EmptyIdSectionMarksBareHash | script.js:108-121 | when the last reached section has an empty `id`, the current id is `""` and exactly the `#` links become active |
| NavScroll.OnScroll | script.js:99-122 | the bar is styled only when it exists, with the scrolled style iff the offset is above 50 and the resting style otherwise; the current id is that of the last reached section, or `""`; links keep their `href`s and are active iff they point at that section, or are `#` when none is reached |
| NavScroll.OnScrollForgetsHistory | script.js:99-122 | the result of a scroll event does not depend on any earlier scroll event |
| Menu.ToggleMenu | script.js:15-21 | a click flips the menu's and the icon's `open` flags, and the body's overflow is `hidden` iff the menu is now open, `""` otherwise |
| Menu.ToggleTwice | script.js:18-20 | two clicks restore both flags, and restore the whole state iff its overflow agreed with the menu |
| Menu.ToggleKeepsIconInStep | script.js:18-19 | a click keeps the icon's flag equal to the menu's when they were equal |
| Menu.Toggles | script.js:15-21 | after at least one click, the body's overflow agrees with the menu |
| Menu.ToggleParity | script.js:15-21 | from the page as loaded, the menu and icon are open and scrolling is locked exactly after an odd number of clicks |

## Left out

- Particle field (script.js:155-226): random seeding, floating-point motion, square-root distances, canvas drawing and the animation-frame loop. Its mouse tracking is never read.
- Parallax (script.js:143-152): floating-point products turned into CSS transform strings.
- Scroll reveal (script.js:71-90): a thin wrapper over the browser's intersection observer, a timer and an attribute parse.
- Smooth scrolling (script.js:125-133) and the footer year (script.js:137-140): DOM calls and a wall-clock read.
- Timers and event wiring: `setTimeout` becomes the delay a tick returns. The page-ready listener and the scroll listener registration are not modelled.
- Element lookups: the cycler's early exit when its element is missing is not modelled. The navigation bar's absence is the `hasNav` flag. `toggleMenu` on a page without the menu elements throws, and that is not modelled.
- Number representation: scroll offsets and section tops are integers, so fractional `scrollY` values are not modelled. The character index is an unbounded integer, which matches JavaScript numbers for these small values.
- Strings are sequences of characters. JavaScript's UTF-16 code units are not modelled; the page's role strings are ASCII.
- TypedText.Step: requires a valid role index. Out of range, the source reads `undefined` and throws, and that case is not modelled.
- Page markup: the menu's starting state `Closed` has both `open` classes absent and no inline `overflow`. This is an assumption about the markup, which is not part of this model. `Menu.ToggleParity` starts from it.
