# SkyrimLikeLoader, modelled in Dafny

`SkyrimLikeLoader` is a React component that shows a loading screen in the
style of Skyrim: an optional progress bar, an optional image with one of four
animation variants, and a caption. It is either a full-screen overlay placed
in `document.body` through a portal, or inline where it is used. When the host
sets `willUnmount`, the root gets the class `skl-close`, which starts the exit
animation, and 2100 ms later the component calls the host's `canDelete`.

With the JSX and DOM calls removed, the decision logic is what this project
models:

- `NumberText.dfy` (module `NumberText`): the text a template literal gives an
  integer of magnitude below 10^21 (`${k}`), with the parser that reads it back.
- `SkyrimLikeLoader.dfy` (module `SkyrimLikeLoader`): the props; the
  `randomNumber` helper, with the `Math.random()` draw given as a fraction
  `draw / scale` in [0, 1); the variant class `skl-animation-k`; how
  `percentValue` is resolved and clamped; the root class list, built by pushes
  as in the source; and one render as an abstract record: target, classes,
  progress bar width, image block and caption.
- `Lifecycle.dfy` (module `Lifecycle`): class `Loader`. It holds the two
  memoised draws as `const` fields set at mount, the props of the latest
  render, the clock, the pending timers and a count of `canDelete` calls.
  The `useEffect` keyed on `willUnmount` runs at mount and whenever
  `willUnmount` differs from the previous render. Each run with
  `willUnmount` true arms one timer due 2100 units later. Timers are never
  cancelled. `Tick(dt)` moves time on and fires every timer that is due.
- `Wrappers.dfy`: `Option`, standing for JavaScript's `null` beside a value.

Three behaviours of the code are worth stating outright:
- The effect runs at mount and at every change of `willUnmount`, and each
  run with `willUnmount` true arms a timer. So closing, reopening and closing
  again arms two timers, and `canDelete` is called twice (`ReopenScenario`).
- The clamp at line 53 is from above only: 0 and `null` are falsy, and
  negative values pass through.
- The clamp at line 53 runs whether or not the bar is enabled. When the bar
  is off, the clamped value is simply never shown.

## Model

| member | source | states |
|---|---|---|
| `NumberText.Text` | SkyrimLikeLoader/SkyrimLikeLoader.jsx:35 | the text of `${n}` is non-empty and starts with a minus sign iff n is negative |
| `NumberText.TextRoundTrip` | SkyrimLikeLoader/SkyrimLikeLoader.jsx:35 | parsing the text of an interpolated integer gives the integer back |
| `NumberText.TextInjective` | SkyrimLikeLoader/SkyrimLikeLoader.jsx:55 | two integers interpolate to the same text iff they are equal |
| `SkyrimLikeLoader.DefaultProps` | SkyrimLikeLoader/SkyrimLikeLoader.jsx:20-28 | with only `willUnmount` passed, every render is a full-screen portal with no progress bar, no image and an empty caption |
| `SkyrimLikeLoader.RandomNumber` | SkyrimLikeLoader/SkyrimLikeLoader.jsx:30-32 | for any draw in [0, 1), computed exactly, the helper yields an integer in [1, max]; with max 0 it yields 1 |
| `SkyrimLikeLoader.RandomNumberUniform` | SkyrimLikeLoader/SkyrimLikeLoader.jsx:30-32 | when the draw's resolution is m * max, the result is k exactly for the m draws in [(k-1)m, km), so every k in [1, max] is equally likely |
| `SkyrimLikeLoader.RandomNumberCovers` | SkyrimLikeLoader/SkyrimLikeLoader.jsx:30-32 | every k in [1, max] is produced by some draw whenever the resolution is at least max |
| `SkyrimLikeLoader.AnimationVersion` | SkyrimLikeLoader/SkyrimLikeLoader.jsx:35 | the variant class is the prefix `skl-animation-` followed by something non-empty |
| `SkyrimLikeLoader.AnimationVersionInjective` | SkyrimLikeLoader/SkyrimLikeLoader.jsx:35 | distinct variant numbers give distinct classes |
| `SkyrimLikeLoader.VariantIsOneOfFour` | SkyrimLikeLoader/SkyrimLikeLoader.jsx:34-36 | in exact arithmetic, the memoised draw is k in [1, 4] and its class is one of `skl-animation-1` .. `skl-animation-4` |
| `SkyrimLikeLoader.Truthy` | SkyrimLikeLoader/SkyrimLikeLoader.jsx:47-53 | a `percentValue` is falsy exactly when it is `null` or 0 |
| `SkyrimLikeLoader.ResolvedPercent` | SkyrimLikeLoader/SkyrimLikeLoader.jsx:47-53 | a value exists iff the bar is on or a value was passed; it never exceeds 100; a truthy value above 100 becomes 100, and any other truthy value, negatives included, is kept; with the bar on, a falsy value is replaced by the fallback; with the bar off, a falsy value is kept |
| `SkyrimLikeLoader.ResolvePercent` | SkyrimLikeLoader/SkyrimLikeLoader.jsx:47-53 | reassigning `percentValue` in place ends in ResolvedPercent's value |
| `SkyrimLikeLoader.WidthStyle` | SkyrimLikeLoader/SkyrimLikeLoader.jsx:55 | the width style ends in `%`; for a value, what precedes the `%` reads back as that value; for `null` it is `null%` |
| `SkyrimLikeLoader.WidthStyleInjective` | SkyrimLikeLoader/SkyrimLikeLoader.jsx:55 | the bar's width style `${p}%` determines the resolved value p |
| `SkyrimLikeLoader.RootClasses` | SkyrimLikeLoader/SkyrimLikeLoader.jsx:57-60 | the list starts with `skyrimLikeLoader`, has `skl-fullscreen` iff fullScreen and `skl-included` iff not, and `skl-close` iff willUnmount, always last; no class appears twice |
| `SkyrimLikeLoader.BuildClassNames` | SkyrimLikeLoader/SkyrimLikeLoader.jsx:57-60 | the successive pushes build exactly RootClasses |
| `SkyrimLikeLoader.Render` | SkyrimLikeLoader/SkyrimLikeLoader.jsx:55-83 | the target is the portal iff fullScreen; the root classes are RootClasses; the progress bar is present iff useLoadPercent, with the width of a resolved value at most 100; the image block is present iff an image is given and carries `skyrimLikeLoader_image`, the image style and the variant class; the caption is the text |
| `SkyrimLikeLoader.BranchesRenderSameChildren` | SkyrimLikeLoader/SkyrimLikeLoader.jsx:62-83 | the portal and the inline branch render the same progress bar, image and caption, and differ only in the second root class |
| `SkyrimLikeLoader.FullScreenClampScenario` | SkyrimLikeLoader/SkyrimLikeLoader.jsx:47-73 | with caption "Loading...", the bar on, the value 150 and fullScreen, the render is a portal with width `100%`, no image and no `skl-close` |
| `Lifecycle.Deadlines` | SkyrimLikeLoader/SkyrimLikeLoader.jsx:41-43 | there is one deadline per armed timer |
| `Lifecycle.DeadlineAt` | SkyrimLikeLoader/SkyrimLikeLoader.jsx:41-43 | each timer is due exactly 2100 units after it was armed |
| `Lifecycle.Waiting` | SkyrimLikeLoader/SkyrimLikeLoader.jsx:41-43 | there are never more timers waiting than were armed (which ones wait is stated by WaitingMember) |
| `Lifecycle.WaitingMember` | SkyrimLikeLoader/SkyrimLikeLoader.jsx:41-43 | a deadline is still waiting at time t iff it belongs to an armed timer and lies after t |
| `Lifecycle.Fired` | SkyrimLikeLoader/SkyrimLikeLoader.jsx:41-43 | every armed timer has either fired or is still waiting, never both, so each calls `canDelete` at most once |
| `Lifecycle.NoneFiredEarly` | SkyrimLikeLoader/SkyrimLikeLoader.jsx:41-43 | before every deadline, nothing has fired and every timer waits |
| `Lifecycle.AllFiredLate` | SkyrimLikeLoader/SkyrimLikeLoader.jsx:41-43 | after every deadline, all timers have fired and none waits |
| `Lifecycle.FiredLater` | SkyrimLikeLoader/SkyrimLikeLoader.jsx:41-43 | moving time from t1 to t2 fires exactly the timers still waiting at t1 that are due by t2 |
| `Lifecycle.TimerFiredIff` | SkyrimLikeLoader/SkyrimLikeLoader.jsx:39-44 | a timer armed at s has fired at t iff s + 2100 <= t |
| `Lifecycle.NoCallBeforeDelay` | SkyrimLikeLoader/SkyrimLikeLoader.jsx:39-44 | before 2100 units have passed since every arming, `canDelete` has not been called |
| `Lifecycle.SplitDue` | SkyrimLikeLoader/SkyrimLikeLoader.jsx:41-43 | one pass over the pending timers at time t keeps, in order, exactly the timers that wait at t and counts exactly the ones that fire |
| `Lifecycle.ArmKeeps` | SkyrimLikeLoader/SkyrimLikeLoader.jsx:41-43 | arming a timer at the current time keeps the pending list and the call count in agreement with the arming history: the new deadline joins the end of the list and no call is added |
| `Lifecycle.TickKeeps` | SkyrimLikeLoader/SkyrimLikeLoader.jsx:41-43 | moving the clock forward keeps that agreement: the timers left waiting and the calls added are those that the history fixes for the new time |
| `Lifecycle.EveryTimerCallsOnce` | SkyrimLikeLoader/SkyrimLikeLoader.jsx:39-44 | once 2100 units have passed since the last arming, `canDelete` has been called exactly once per armed timer |
| `Lifecycle.Loader.constructor` | SkyrimLikeLoader/SkyrimLikeLoader.jsx:30-44 | at mount, the variant and the fallback are drawn with `randomNumber(4)` and `randomNumber(100)`; the effect's first run arms one timer due at 2100 iff willUnmount, and none otherwise |
| `Lifecycle.Loader.RunEffect` | SkyrimLikeLoader/SkyrimLikeLoader.jsx:39-44 | an effect run with willUnmount false arms nothing; with willUnmount true it arms exactly one timer due 2100 units from now; only the pending timers and the arming history can change |
| `Lifecycle.Loader.Arm` | SkyrimLikeLoader/SkyrimLikeLoader.jsx:41-43 | `setTimeout` appends one timer due 2100 units from now after the pending ones and records the arming; props, clock and call count are unchanged |
| `Lifecycle.Loader.Rerender` | SkyrimLikeLoader/SkyrimLikeLoader.jsx:39-44 | a re-render keeps the memoised draws, the clock and the call count, and arms one timer exactly when willUnmount turns from false to true; turning it false cancels nothing |
| `Lifecycle.Loader.Tick` | SkyrimLikeLoader/SkyrimLikeLoader.jsx:41-43 | after dt units, the due timers have left the pending list and each has added one `canDelete` call; the rest still wait; props and history are unchanged |
| `Lifecycle.Loader.View` | SkyrimLikeLoader/SkyrimLikeLoader.jsx:47-60 | in every render, a falsy value with the bar on shows the same memoised fallback width; the image carries one of the four variant classes; `skl-close` is present iff willUnmount |
| `Lifecycle.ClosingInlineScenario` | SkyrimLikeLoader/SkyrimLikeLoader.jsx:39-75 | mounted with willUnmount and not fullScreen, the first render is inline with `skl-close`; `canDelete` has not been called at 2099 and has been called exactly once at 2100 |
| `Lifecycle.ReopenScenario` | SkyrimLikeLoader/SkyrimLikeLoader.jsx:39-44 | mounted closing, then reopened and closed again 100 units later, the loader calls `canDelete` twice once the second timer is due, because timers are not cancelled |
| `Lifecycle.StayOpenScenario` | SkyrimLikeLoader/SkyrimLikeLoader.jsx:39-44 | while willUnmount stays false, no timer is armed and `canDelete` is never called |

## Left out

- JSX, React rendering, `createPortal` and `document.body`: a render is the record `Rendered` (target, root classes, optional progress bar, optional image block, caption), not a DOM tree.
- `classNames.join(' ')` and the image block's class string: both are kept as sequences of class names; the space-joined strings are not built.
- `Math.random()`: it becomes an exact fraction `draw / scale` with `0 <= draw < scale`, and `RandomNumber` computes `floor(draw * max / scale) + 1` in exact arithmetic. Floating-point rounding is not modelled, and the one that changes the result is the `+ 1`: with `Math.random()` at 1 - 2^-53 (a value the language allows), `Math.random() * 4` is exactly 4 - 2^-51, adding 1 is a tie that rounds to even, and `Math.floor` gives 5.
- `RandomNumber`: its [1, max] bound holds in exact arithmetic only. For the one draw 1 - 2^-53 and max 4 the source's double arithmetic gives 5, as said above.
- `VariantIsOneOfFour`: for the same draw the source emits `skl-animation-5`, which is not one of the four classes this lemma states.
- `percentValue`: modelled as `null` or an integer. Fractional numbers, `NaN` and non-number values are not modelled, and neither is the width text they would give.
- `NumberText.Text`: always prints plain decimal digits. JavaScript prints exponent notation once |n| >= 10^21 (`${-1e21}` is `-1e+21`), and numbers beyond 2^53 are not exact integers; neither is modelled, so for such a `percentValue` the width text differs from the source's.
- `image`: modelled as `null` or an element, and elements are always truthy. Other falsy values a caller could pass (`false`, `0`, `''`) are not modelled.
- `canDelete`: modelled as a call counter. The model does not tell apart the closures of different renders: a timer calls the `canDelete` captured when it was armed. What the host does in response, such as unmounting, is outside the component.
- `setTimeout` and the event loop: time is the explicit `Tick(dt)`. All timers due in one tick fire in that tick, and the order among them is not modelled.
- Unmounting: the source registers no cleanup, so nothing cancels a timer when the component is removed. The model has no unmount operation, and pending timers fire whatever the host does.
- Hook rules: the `useMemo` at line 48 runs only when `useLoadPercent && !percentValue` holds, and React throws at any later render where that condition differs from the previous render's ("Rendered more hooks than during the previous render" or "Rendered fewer hooks than expected"; for example, the bar on with 0 and then 30). So the fallback width is drawn at mount or never. The model draws it at mount, stores it, and renders every case: `Loader.Rerender` followed by `Loader.View` does not model the throw, and shows `30%` in that example.
- The SCSS import and the CSS animations: styling only.
