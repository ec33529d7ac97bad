# Festival landing page: countdown and gallery carousel

The repository is a single-page promotional site for a college festival
(`src/App.jsx`). Nearly all of it is markup. Two pieces of it hold logic, and
this project models both:

- **The countdown** of the schedule section. `useCountdown`'s `calc` takes the
  target instant and the current instant in milliseconds. It clamps their
  difference at zero and splits it into days, hours, minutes and seconds, plus a
  `done` flag. Each tile shows its field as `String(val).padStart(2, '0')`.
  Module `Countdown` (`countdown.dfy`) holds `calc`. Module `TileDisplay`
  (`tile_display.dfy`) holds the tile text.
- **The gallery carousel.** It keeps one state cell, `index`, over a fixed list
  of four images. The cell starts at 0. An interval tick sets it to
  `(p + 1) % imgs.length`. A click on indicator `i` sets it to `i`. Exactly the
  image and the indicator with `i === index` are drawn active. Module `Gallery`
  (`gallery.dfy`) models the cell as class `Carousel`, with a constant `n` and a
  mutable `index`. Each tick is one call of `Advance` and each click one call of
  `Select`.

Module `DivMod` (`divmod.dfy`) holds helper facts about `/` and `%` with a
variable divisor.

Instants are integers (milliseconds since the epoch, as `Date.getTime()`
returns them). `calc` reads the clock itself. Here the current instant is a
parameter `now`, and the target is a parameter `target`. `calc` divides with
JavaScript's real-valued `/` and truncating `%`, then applies `Math.floor`. The
model gives it in two forms:

- `Countdown.Calc` uses integer division.
- `Countdown.CalcExact` follows the source expression over exact real numbers.

`CalcExact`'s contract says that the two forms return the same record for every
input.

## Model

| member | source | states |
|---|---|---|
| `Countdown.Diff` | src/App.jsx:254 | The difference is never negative and is at least `target - now`; it is either 0 or exactly `target - now` (so it is their maximum). |
| `Countdown.Calc` | src/App.jsx:252-260 | Hours are below 24, minutes and seconds below 60; `done` holds exactly when `now >= target`; once `now >= target` every field is zero and `done` is true. |
| `Countdown.Recomposition` | src/App.jsx:254-258 | `d*86400 + h*3600 + m*60 + s` equals the clamped difference divided by 1000 (integer division). |
| `Countdown.WithinOneSecond` | src/App.jsx:254-258 | The recomposed seconds, times 1000, never exceed the time left and fall short of it by less than one second. |
| `Countdown.Uniqueness` | src/App.jsx:255-258 | Any days, hours, minutes and seconds within the field bounds that add up to the whole seconds left are exactly the ones `calc` returns. |
| `Countdown.DoneIsStable` | src/App.jsx:254-259 | Once a recomputation reads `done`, every recomputation at a later instant reads `done` with all fields zero. |
| `Countdown.ClockSetBack` | src/App.jsx:253-259 | For every target, a reading at any instant at or after it is done and a reading at any instant before it is not, so a clock set back from the first to the second leaves `done`: `done` is stable only for a clock that does not go back. |
| `Countdown.NonIncreasing` | src/App.jsx:254-258 | At a later instant, the recomposed seconds left are never larger. |
| `Countdown.OneOfEach` | src/App.jsx:255-259 | 90 061 000 ms to go gives one day, one hour, one minute, one second, not done. |
| `Countdown.AlreadyPast` | src/App.jsx:254-259 | A target 5 000 ms in the past gives all fields zero and `done`. |
| `Countdown.Trunc` | src/App.jsx:256-258 | Rounding toward zero: for `x >= 0` the result lies in `(x - 1, x]`, for `x < 0` in `[x, x + 1)`. |
| `Countdown.JsRem` | src/App.jsx:256-258 | JavaScript's `%`: the dividend less the result is a whole multiple of the divisor `y`; for a positive `y`, a non-negative dividend gives a result in `[0, y)` and a negative one a result in `(-y, 0]`. Together these fix the result. |
| `Countdown.ExactField` | src/App.jsx:256-258 | `Math.floor((diff / unit) % modulus)`, over exact reals with a truncating remainder, equals `(diff / unit) % modulus` in integers. |
| `Countdown.ExactDays` | src/App.jsx:255 | `Math.floor(diff / 86400000)` over exact reals equals integer division by 86 400 000. |
| `Countdown.CalcExact` | src/App.jsx:252-260 | `calc` as written, over exact reals, returns the same record as the integer `Calc` for every target and instant. |
| `TileDisplay.DecimalString` | src/App.jsx:299 | `String(n)` for a non-negative integer is a non-empty string of decimal digits. It starts with '0' only for 0, and it is one character long exactly for values below 10. |
| `TileDisplay.DecimalRoundTrip` | src/App.jsx:299 | The decimal string of `n` reads back as `n`. |
| `TileDisplay.PadStart` | src/App.jsx:299 | `padStart(width, fill)` gives the larger of `width` and the length of `s`. The result ends with `s`, and every character before `s` is the fill character. |
| `TileDisplay.TileLength` | src/App.jsx:299 | A tile is at least two characters long: exactly two for values below 10, otherwise as long as the value's digits. |
| `TileDisplay.TileBelowTen` | src/App.jsx:299 | A value below 10 is shown as exactly one '0' followed by its digit. |
| `TileDisplay.TileAtLeastTen` | src/App.jsx:299 | A value of 10 or more is shown without padding. |
| `TileDisplay.Tile` | src/App.jsx:299 | `String(v).padStart(2, '0')` is at least two characters long, all digits, and reads back as `v`, padding included. |
| `TileDisplay.TwoDigitsBelowHundred` | src/App.jsx:299 | A value below 100 fills a tile with exactly two characters. |
| `TileDisplay.Tiles` | src/App.jsx:297-299 | The schedule shows four tiles, in order days, hours, minutes, seconds; each is all digits and reads back as the field it shows. |
| `TileDisplay.ClockTiles` | src/App.jsx:254-258 | For any target and instant, the hours, minutes and seconds tiles are exactly two characters, and each of the four tiles reads back as the field it shows. |
| `Gallery.Next` | src/App.jsx:218 | One tick keeps the index below `n`. It moves index `i < n - 1` to `i + 1` and wraps `n - 1` to 0. |
| `Gallery.AdvanceByWraps` | src/App.jsx:218 | `k` ticks from a valid index land on `(index + k) % n`. |
| `Gallery.FullCycle` | src/App.jsx:210-218 | From a valid index, `k` ticks come back to it exactly when `k` is a multiple of `n`; in particular `n` ticks always do. |
| `Gallery.ActiveMask` | src/App.jsx:228-243 | There is one entry per image. For a valid index, the entry at `index` is active and exactly one entry is active. An index out of range would make none active. |
| `Gallery.Carousel.constructor` | src/App.jsx:210-216 | A freshly mounted carousel over a non-empty list of images has index 0. |
| `Gallery.Carousel.Advance` | src/App.jsx:217-218 | A tick keeps the index valid and sets it to `Next` of the old index. |
| `Gallery.Carousel.Select` | src/App.jsx:241-242 | A click on indicator `i` keeps the state valid and leaves `index == i`. |
| `Gallery.Carousel.Active` | src/App.jsx:228-243 | The rendered state has one entry per image, the one at `index` is active, and exactly one entry is active. |

## Left out

- The `setInterval` and `clearInterval` scheduling and teardown (src/App.jsx:217-220, 262). This is timer and lifecycle plumbing. Each tick is an explicit call (`Carousel.Advance`, or `Calc` at a new `now`), and teardown simply means no further calls.
- The `useState(calc())` cell of `useCountdown` (src/App.jsx:261-262). It always holds the latest `Calc` result, so it is not modelled as an object. `Countdown.DoneIsStable` and `Countdown.NonIncreasing` cover successive recomputations only under the assumption that successive ticks read non-decreasing instants. `calc` reads the wall clock (src/App.jsx:253), which can be set back. A clock set back before the target takes the source out of `done` again: `Countdown.ClockSetBack` shows that for every target a reading at or after it is done and a reading before it is not (for instance `Calc(10, 20)` and `Calc(10, 0)`).
- Reading the clock (`new Date().getTime()`) and parsing the local-time target string (src/App.jsx:253, 268). Both depend on the environment, so they are the parameters `now` and `target`.
- Countdown.CalcExact: keeps exact real arithmetic and does not model IEEE double rounding in `diff / unit`.
- Gallery.Carousel: keeps the image count `n`, not the image URLs. The model allows any `n > 0`. The source's four images are `Gallery.ImageCount`, used by `Gallery.GalleryRun`.
- JavaScript numbers are doubles; the model uses unbounded integers. This is exact for the values involved. Instants from `getTime()` stay far below 2^53, so `targetDate - now` is an exact integer. `String(val)` switches to exponent notation only from 1e21, far above any countdown field.
- Gallery.Carousel.Select: requires `i < n`. The source renders one indicator per image, so its only callers pass `0..n-1`. A call with any other value is a caller error, and the model does not describe what would be rendered after one.
- `scrollToId` (DOM lookup and scrolling), `useHoverSound` (WebAudio), the registration form's `alert`, the map and 3D scene embeds, animations, the navbar toggle and all markup. These are UI only and state no property.
