# Mesh canvas: pixel placement, modelled in Dafny

Mesh is a shared pixel canvas. Signed-in users place one coloured cell at a time on a
200 by 100 board, then wait out a cooldown before placing the next. This project models
the placement logic of the canvas page (`src/app/canvas/page.js`) and the user record
created at sign-up (`src/app/firebase.js`) as pure functions over immutable data, and
proves what they promise.

The model is arranged by concern, one module per file:

- `Options` (`options.dfy`): the optional value used for `null`.
- `Numeral` (`numeral.dfy`): digit strings in a radix and their values.
- `JsString` (`jsstring.dfy`): JavaScript's `trim`, `substring`, `replace` of the
  first match, `split` on one character, and `padStart`.
- `JsNumber` (`jsnumber.dfy`): `String(i)`, `Number(s)` and `parseInt(s, radix)` on
  integers.
- `CellKey` (`cellkey.dfy`): the `"x,y"` cell key, built and read back.
- `Grid` (`grid.dfy`): the board bounds, the `canvas/grid` document (cell colours and
  metadata), and the write a placement makes.
- `Countdown` (`countdown.dfy`): `canPlace` and `timeRemaining`; the once-per-second tick;
  the eligibility check made when the stored `placeTimer` is read.
- `Clock` (`clock.dfy`): the `m:ss` rendering of the countdown and its inverse reading.
- `Color` (`color.dfy`): the hover tooltip's hex-to-RGB decoding, and the random colour
  a new swatch starts with.
- `Palette` (`palette.dfy`): the swatches, the selection, the picker's editing index.
- `CanvasPage` (`page.dfy`): user records, the page state, and the stored documents as
  one world. Loading, hovering, clicking and every other event are steps on that world,
  and runs are sequences of events. It also holds the invariants these steps keep.

The cooldown is a parameter (`CanvasPage.Config`, a positive number of seconds). The page
itself uses 60 seconds twice:
- for the local countdown (`COOLDOWN_TIME`, `src/app/canvas/page.js:59`);
- for the stored `placeTimer`, set to "one minute later"
  (`src/app/canvas/page.js:412-413`).

`CanvasPage.PageConfig` is that setting. Times are integer milliseconds, passed in as
`now`. The random draw of `addNewColor` is passed in as an integer below 16777215.

What the code does, and the model with it:
- **Two writes.** The cell and the user's cooldown are written as two separate updates,
  not as one transaction.
- **Local eligibility.** Whether a click may place is decided from the page's local
  `canPlace`, not from the stored timer.
- **Any colour.** The selected colour is written as it is, without validation.
- **Silent refusal.** A refused click only logs to the console (line 392); the header's `m:ss`
  countdown is what tells the user when placing is possible again.
- **60-second cooldown.** The countdown and the stored timer both use 60 seconds.

A click is modelled as one step. When the user's record is missing, the code's grid
write has already happened when the record update fails. So in that case the model
writes the cell and changes nothing else (`CanvasPage.Click`). What treating a click as one
step hides is listed under "## Left out".

## Model

| member | source | states |
|---|---|---|
| `Grid.Locate` | src/app/canvas/page.js:371-375 | a cell position is accepted exactly when 0 <= x < 200 and 0 <= y < 100, and the accepted cell's key reads back as the same coordinates |
| `CellKey.DecodeEncode` | src/app/canvas/page.js:221-222 | reading a key `${x},${y}` back with `split(",").map(Number)` gives (x, y) for every pair of integers |
| `CellKey.EncodeKey` | src/app/canvas/page.js:387 | the key is the numeral of x, a comma and the numeral of y, and that comma is the only one in the key |
| `CellKey.EncodeInjective` | src/app/canvas/page.js:387 | two cells share a key if and only if they are the same cell |
| `JsNumber.NumberOfString` | src/app/canvas/page.js:222 | `Number(String(i))` is `i` for every integer, so each coordinate survives the key |
| `JsString.SplitJoin` | src/app/canvas/page.js:222 | splitting pieces joined by a separator they do not contain gives the pieces back |
| `JsNumber.ParseIntDigits` | src/app/canvas/page.js:286-288 | `parseInt` of a string made only of digits of the radix is the value of those digits |
| `Grid.Paint` | src/app/canvas/page.js:401-408 | a placement sets the cell's colour and metadata, creating or overwriting it; both key sets grow by exactly that key; every other cell and metadata entry is unchanged |
| `Grid.PaintLastWriterWins` | src/app/canvas/page.js:401-408 | of two placements on one cell the later one is what remains, whoever made the earlier |
| `Grid.PaintIdempotent` | src/app/canvas/page.js:401-408 | repeating the same write changes nothing |
| `Grid.PaintCommutes` | src/app/canvas/page.js:401-408 | writes to different cells can be applied in either order |
| `Grid.EmptyCanvasWellKeyed` | src/app/canvas/page.js:173-177 | the document created when none exists has matching colour and metadata keys, all cells of the board |
| `Grid.PaintKeepsWellKeyed` | src/app/canvas/page.js:387-408 | placing on a cell of the board keeps colour and metadata keys in step and every key a canonical cell of the board |
| `Countdown.Tick` | src/app/canvas/page.js:426-435 | a firing takes exactly one second off while more than one is left, never going below zero; at one second or less it unblocks placing and stops the interval; a stopped interval does nothing; the settled shape is kept |
| `Countdown.TicksCountdown` | src/app/canvas/page.js:98-106 | after n firings n seconds are gone, floored at zero, and placing is allowed exactly when n reached the seconds left |
| `Countdown.CeilSeconds` | src/app/canvas/page.js:89 | `Math.ceil(ms / 1000)` is the least whole number of seconds covering the span |
| `Countdown.LoadTimer` | src/app/canvas/page.js:86-113 | on load, placing is allowed exactly when there is no stored timer or it is due; otherwise the countdown runs from the seconds left, rounded up, which are at least one |
| `Countdown.Restart` | src/app/canvas/page.js:421-423 | after a placement placing is blocked and the countdown runs from the full cooldown |
| `Countdown.ReloadMatchesCountdown` | src/app/canvas/page.js:410-435 | reading the stored timer k seconds after a placement gives the state the running countdown reaches after k firings |
| `Clock.JsRemainder` | src/app/canvas/page.js:453 | JavaScript's `%` with a positive divisor: for a non-negative dividend, the Euclidean remainder; for a negative one, minus the remainder of its magnitude, which lies in (-divisor, 0] |
| `Clock.FormatTimeRemaining` | src/app/canvas/page.js:451-455 | for a non-negative count the clock has a colon three characters from the end |
| `Clock.FormatTimeRemainingShape` | src/app/canvas/page.js:451-455 | for a non-negative count the clock is decimal minutes, a colon and two digits of seconds below 60, and 60 times the minutes plus the seconds is the count |
| `Clock.FormatTimeRemainingRoundTrip` | src/app/canvas/page.js:451-455 | reading the clock back gives the count it was made from |
| `Color.HexToRgb` | src/app/canvas/page.js:284-288 | whatever the string, each decoded channel is NaN or within 255 of zero |
| `Color.HexColorChannels` | src/app/canvas/page.js:284-288 | a `#` followed by six hex digits decodes to the three bytes its digit pairs spell |
| `Color.RandomColor` | src/app/canvas/page.js:338-340 | the random colour is always `#` and six hex digits, and decodes to the three bytes of the draw |
| `Palette.SelectSwatch` | src/app/canvas/page.js:357-361 | clicking a swatch selects its colour and opens the picker on that swatch |
| `Palette.PickColor` | src/app/canvas/page.js:323-333 | with a swatch being edited only that swatch changes, to the new colour, which is selected, and the length is kept; with none being edited nothing changes |
| `Palette.AddColor` | src/app/canvas/page.js:336-345 | the colour built from the draw, always well formed, is appended after the kept swatches and becomes the selection and the swatch being edited |
| `Palette.ClosePicker` | src/app/canvas/page.js:458-461 | closing the picker hides it and ends editing, keeping swatches and selection |
| `CanvasPage.EmailName` | src/app/firebase.js:99 | the name taken from an email is its part before the first `@`, the whole email when it has none |
| `CanvasPage.SignupRecord` | src/app/firebase.js:43-49 | a new account's record has the chosen name and email, no placement timer and nothing placed |
| `CanvasPage.GoogleRecord` | src/app/firebase.js:98-104 | a first Google sign-in's record takes the display name or else the email name, stores the account's email, and has no placement timer and nothing placed |
| `CanvasPage.Load` | src/app/canvas/page.js:62-119 | reading the user's record sets the count, a saved palette, the name (falling back to the email name) and the countdown `LoadTimer` derives from the stored timer, and ends loading; the selection, picker, last clicked cell and drag state are kept; without a record only the user is set |
| `CanvasPage.LoadAsWritten` | src/app/canvas/page.js:86-119 | as written, loading stays on exactly when the record holds a timer still in the future |
| `CanvasPage.ReloadDuringCooldownStaysLoading` | src/app/canvas/page.js:98-119 | reloading at any second of a placement's cooldown leaves the page as written on the loading screen |
| `CanvasPage.FreshUserCanPlace` | src/app/canvas/page.js:111-113 | a brand-new account may place at once and has placed nothing |
| `CanvasPage.LoadConsistent` | src/app/canvas/page.js:62-119 | loading an existing record gives a page whose count agrees with the record and whose countdown is settled |
| `CanvasPage.Place` | src/app/canvas/page.js:396-435 | a placement paints the cell; gives the user's record the end of the cooldown and the count plus one, no other record changing; shows the new count and a running countdown from the full cooldown; nothing else on the page changes |
| `CanvasPage.Click` | src/app/canvas/page.js:379-439 | a drag or a position off the board does nothing; otherwise the cell is remembered; a blocked click changes nothing else; an allowed one places |
| `CanvasPage.ClickPlaces` | src/app/canvas/page.js:396-435 | an allowed click colours the cell, adds one to the count, restarts the countdown and keeps user, palette and drag state |
| `CanvasPage.ClickRefused` | src/app/canvas/page.js:390-394 | a click while placing is blocked changes only the last clicked cell |
| `CanvasPage.Hover` | src/app/canvas/page.js:266-307 | the tooltip shows exactly over a cell with a non-empty colour, with that colour, its hex-to-RGB decoding (three bytes for a well-formed colour), the placer's name or else "Unknown", and the placement time when the cell has metadata |
| `CanvasPage.Step` | src/app/canvas/page.js:254-361 | a left-button press starts a drag and a release ends it; a canvas click is the click handler; a firing is one tick; a swatch click, a picker change, the add button and closing the picker are `SelectSwatch`, `PickColor`, `AddColor` and `ClosePicker` on the palette and change nothing else; only a click writes the stores or touches the user, the count or the last clicked cell |
| `CanvasPage.StepConsistent` | src/app/canvas/page.js:254-461 | every event keeps the record's count equal to the page's, the countdown settled, the picker on an existing swatch, and the grid well keyed |
| `CanvasPage.ClickConsistent` | src/app/canvas/page.js:379-439 | a click keeps the page and the stores consistent |
| `CanvasPage.PlaceConsistent` | src/app/canvas/page.js:396-435 | a placement on a cell of the board keeps the page and the stores consistent |
| `CanvasPage.RunConsistent` | src/app/canvas/page.js:254-461 | any sequence of events keeps the page and the stores consistent |
| `CanvasPage.RunTotalPlacedMonotone` | src/app/canvas/page.js:421 | the placed count never goes down |
| `CanvasPage.NoPlacementDuringCooldown` | src/app/canvas/page.js:391-394 | while fewer firings than seconds left have happened, no event changes the stores or the count and placing stays blocked |
| `CanvasPage.CooldownExpires` | src/app/canvas/page.js:426-435 | once as many firings as seconds left have happened, placing is allowed again unless a pixel was placed meanwhile |
| `CanvasPage.StepTimer` | src/app/canvas/page.js:426-435 | an event that places nothing moves the countdown by one firing if it is one, and leaves it alone otherwise |
| `CanvasPage.StoredTimerMatchesCountdown` | src/app/canvas/page.js:410-435 | reloading k seconds after a placement shows the countdown the placing page reached after k firings |
| `CanvasPage.CooldownRunsOut` | src/app/canvas/page.js:426-435 | a whole cooldown of firings after a placement unblocks placing and changes nothing else |
| `CanvasPage.FirstPlacementScenario` | src/app/canvas/page.js:379-439 | a fresh user places at (5, 5), is refused at (6, 6) straight away, and places at (6, 6) after the cooldown has run |
| `CanvasPage.SmallKeys` | src/app/canvas/page.js:387 | the cells (5, 5) and (6, 6) are stored under `"5,5"` and `"6,6"` |

## Left out

- JsNumber.IntToString: prints every integer in plain decimal, whereas JavaScript's
  `String` switches to exponent form from 10^21 and is no longer exact beyond 2^53; no value
  the page formats (coordinates below 200, small counts and seconds, millisecond timestamps
  near 1.7e12) comes near either limit.
- Firestore and authentication calls (`getDoc`, `setDoc`, `updateDoc`, `onSnapshot`,
  `onAuthStateChanged`) are not modelled as I/O. The documents are maps in the world,
  and each write is a map update.
- Errors such as a failing network write are not modelled. Neither are the listener's
  error callback or the sign-out redirect.
- Concurrency between users, and the snapshot listener that mirrors the grid document
  into the page, are left out. The page reads the stored grid directly.
- The debounced save of the palette (`src/app/canvas/page.js:130-146`) is left out.
  Saving is I/O on a timer; the saved palette is read back by `CanvasPage.Load`.
- Drawing, dragging, panning and zooming are left out. So is the floating-point
  division of mouse position by cell size in `calculateGridCoordinates`. The model
  starts from the integer cell the mouse is over. `MouseDown` and `MouseUp` only
  set and clear the drag flag.
- `setInterval` and `setTimeout` scheduling and React effect cleanup are left out. One
  firing of the countdown interval is the `TimerFired` event.
- The interval started on load and the one started by a placement are not told apart.
  In the model at most one runs: a placement needs `canPlace`, which holds only once the
  countdown has stopped (`Countdown.Settled`). Overlapping clicks break this in the code;
  see the next line.
- `CanvasPage.Click` treats a click as one step. In the code the two writes are awaited
  (`src/app/canvas/page.js:401`, `415`) before `canPlace` is cleared (`422`). A second
  click in that window passes the check at line 391 and places as well. Both clicks store
  the same count, `totalPlaced + 1` (line 417), while the page adds one twice (line 421).
  Two intervals then run (line 426), so the countdown falls two seconds per second.
  `CanvasPage.Consistent`, with its equal counts and single countdown, holds only for
  clicks that do not overlap.
- `CanvasPage.Place` uses one `now` for the cell's timestamp and for the stored timer.
  The code reads the clock again for the timer (line 412), after the grid write has been
  awaited, so the stored timer is later than the timestamp by that write's latency.
- `CanvasPage.StoredTimerMatchesCountdown` is exact only under that single clock
  reading. It also assumes each firing of the countdown comes exactly 1000 ms after the
  last; browsers delay and throttle intervals, background tabs especially.
- `Countdown.ReloadMatchesCountdown` makes the same two assumptions: a placement time
  that is also the start of the countdown, and firings exactly one second apart.
- The tooltip's `toLocaleString` time, its `RGB: r, g, b` text and its screen position
  are left out. The tooltip keeps the raw timestamp and the three decoded channels.
- "One minute later" is computed with `setMinutes`. It is modelled as the cooldown in
  milliseconds, ignoring clock changes such as daylight saving.
- A missing grid document is not modelled. The store always holds one, and
  `Grid.EmptyCanvas` is the one `initializeGrid` creates.
- The other pages (login, password reset, the root router) are left out.
- `JsNumber.StringToNumber` models `Number(s)` only on integer literals. Fractions,
  exponents, hexadecimal literals and `Infinity` read as NaN here. Keys written by the
  page are always integer pairs.
- `JsNumber.ParseInt` models `parseInt` for radices 2 to 36. It skips leading white
  space and one sign, and in radix 16 a `0x` prefix, then reads the longest digit prefix.
  A missing radix or radix 0, and out-of-range radices, are not modelled; the page always
  passes 16. Negative zero is read as 0.
- `Palette.PickColor` takes the colour string from the picker as given. The picker
  component is not part of this model.

## Findings

| source | as written | input that shows it | evidently intended | confidence | as-written member | corrected member |
|---|---|---|---|---|---|---|
| src/app/canvas/page.js:86-119 | when the stored `placeTimer` is still in the future, the auth callback returns at line 109 right after starting the countdown, so `setLoading(false)` at line 119 never runs and the page stays on "Loading canvas..." | place a pixel, then reload the page at any point within the next 60 seconds | loading ends once the record has been read, whether or not the cooldown is running | high (not executed) | `CanvasPage.LoadAsWritten`, `CanvasPage.ReloadDuringCooldownStaysLoading` | `CanvasPage.Load` |
