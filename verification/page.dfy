/**
 The canvas page as a state machine: the signed-in user's view (name, count, palette,
 cooldown countdown, last clicked cell, dragging) together with the two stored documents
 it writes, the shared grid and the user records. Each event of the page is one step.
 */
module CanvasPage {
  import opened Options
  import opened JsString
  import opened CellKey
  import opened Grid
  import opened Countdown
  import opened Color
  import opened Palette

  /** The cooldown, in seconds, used both for the countdown shown on the page and for the
      `placeTimer` stored with the user. */
  datatype Config = Config(cooldown: Seconds)

  /** The values the page is written with: `COOLDOWN_TIME = 60` and "one minute later". */
  const PageConfig := Config(60)

  /** The signed-in account as the authentication provider reports it. */
  datatype AuthUser = AuthUser(uid: string, email: string, displayName: string)

  /** A `users/{uid}` document. An empty `username` is a missing one. */
  datatype UserRecord = UserRecord(
    username: string,
    email: string,
    placeTimer: Option<int>,
    totalPlaced: nat,
    customColors: Option<seq<string>>)

  /** `email.split("@")[0]`: everything before the first `@`. */
  function EmailName(email: string): (name: string)
    ensures '@' !in name && |name| <= |email| && name == email[..|name|]
    ensures '@' !in email ==> name == email
    ensures '@' in email ==> |name| < |email| && email[|name|] == '@'
  {
    var parts := Split(email, '@');
    SplitNoSeparatorIsWhole(email, '@');
    JoinStartsWithFirst(parts, '@');
    parts[0]
  }

  lemma SplitNoSeparatorIsWhole(s: string, sep: char)
    ensures sep !in s ==> Split(s, sep) == [s]
  {
    if sep !in s {
      SplitNoSeparator(s, sep);
    }
  }

  /** The joined string starts with the first piece, followed by the separator when there
      is a second piece; with one piece it is that piece. */
  lemma JoinStartsWithFirst(parts: seq<string>, sep: char)
    requires |parts| >= 1
    ensures |parts[0]| <= |Join(parts, sep)| && Join(parts, sep)[..|parts[0]|] == parts[0]
    ensures |parts| == 1 ==> Join(parts, sep) == parts[0]
    ensures |parts| >= 2 ==> |parts[0]| < |Join(parts, sep)| && Join(parts, sep)[|parts[0]|] == sep
  {
  }

  /** The record `signup` creates: no placement timer and nothing placed yet. */
  function SignupRecord(username: string, email: string): (r: UserRecord)
    ensures r.placeTimer.None? && r.totalPlaced == 0 && r.customColors.None?
    ensures r.username == username && r.email == email
  {
    UserRecord(username, email, None, 0, None)
  }

  /** The record the first Google sign-in creates: the display name, or failing that the
      part of the email before the `@`; no placement timer and nothing placed yet. */
  function GoogleRecord(u: AuthUser): (r: UserRecord)
    ensures r.placeTimer.None? && r.totalPlaced == 0 && r.customColors.None?
    ensures u.displayName != "" ==> r.username == u.displayName
    ensures u.displayName == "" ==> r.username == EmailName(u.email)
    ensures r.email == u.email
  {
    SignupRecord(if u.displayName != "" then u.displayName else EmailName(u.email), u.email)
  }

  datatype Store = Store(grid: Canvas, users: map<string, UserRecord>)

  datatype Page = Page(
    user: Option<AuthUser>,
    username: string,
    totalPlaced: nat,
    palette: Palette,
    timer: Timer,
    lastCellClicked: Option<string>,
    dragging: bool,
    loading: bool)

  /** The page as first rendered, before the auth callback has run. */
  const InitialPage := Page(None, "", 0, InitialPalette, Initial, None, false, true)

  datatype World = World(page: Page, store: Store)

  /** The auth callback for a signed-in user: reads the user's record, if there is one,
      for the display name (falling back to the email name), the placed count, a saved
      palette, and the placement timer checked against `now`. Without a record only the
      user is set. */
  function Load(p: Page, st: Store, u: AuthUser, now: int): (r: Page)
    ensures r.user == Some(u) && !r.loading
    ensures u.uid !in st.users ==> r == p.(user := Some(u), loading := false)
    ensures u.uid in st.users ==>
      var rec := st.users[u.uid];
      && r.totalPlaced == rec.totalPlaced
      && (r.timer.canPlace <==> rec.placeTimer.None? || rec.placeTimer.value <= now)
      && (rec.username != "" ==> r.username == rec.username)
      && (rec.username == "" ==> r.username == EmailName(u.email))
      && (rec.customColors.Some? ==> r.palette.colors == rec.customColors.value)
      && (rec.customColors.None? ==> r.palette == p.palette)
      && r.timer == LoadTimer(p.timer, rec.placeTimer, now)
    ensures r == p.(user := Some(u), loading := false, username := r.username, totalPlaced := r.totalPlaced,
                    palette := p.palette.(colors := r.palette.colors), timer := r.timer)
  {
    var p1 := p.(user := Some(u), loading := false);
    if u.uid !in st.users then p1
    else
      var rec := st.users[u.uid];
      p1.(username := if rec.username != "" then rec.username else EmailName(u.email),
          totalPlaced := rec.totalPlaced,
          palette := if rec.customColors.Some? then p.palette.(colors := rec.customColors.value) else p.palette,
          timer := LoadTimer(p.timer, rec.placeTimer, now))
  }

  /** The auth callback as written: when the stored `placeTimer` is still in the future, the
      callback returns (handing back the interval's cleanup, which nobody calls) right after
      starting the countdown, before `loading` is cleared. Everything else is as in `Load`. */
  function LoadAsWritten(p: Page, st: Store, u: AuthUser, now: int): (r: Page)
    ensures r == Load(p, st, u, now).(loading := r.loading)
    ensures r.loading <==>
      u.uid in st.users && st.users[u.uid].placeTimer.Some? && st.users[u.uid].placeTimer.value > now
  {
    var q := Load(p, st, u, now);
    q.(loading := u.uid in st.users && !q.timer.canPlace)
  }

  /** Reloading the page at any time during the cooldown of a placement leaves it on the
      loading screen: the user record read back still holds a timer in the future. */
  lemma ReloadDuringCooldownStaysLoading(w: World, key: string, now: int, cfg: Config, k: nat)
    requires HasRecord(w) && k < cfg.cooldown
    ensures var r := Place(w, key, now, cfg);
      LoadAsWritten(InitialPage, r.store, w.page.user.value, now + k * 1000).loading
  {
  }

  /** What the click handler checks before writing: not in a drag, a cell of the board,
      placing allowed, and a signed-in user. */
  predicate CanPlaceAt(w: World, x: int, y: int) {
    && !w.page.dragging
    && Locate(x, y).Some?
    && w.page.timer.canPlace
    && w.page.user.Some?
  }

  /** The signed-in user has a record to update. */
  predicate HasRecord(w: World) {
    w.page.user.Some? && w.page.user.value.uid in w.store.users
  }

  /** The writes of one placement by the signed-in user on cell `key` at time `now`: the
      cell takes the selected colour and the user's metadata, no other cell changes; the
      user's stored record gets the end of the cooldown and the count plus one, no other
      record changes; the page shows the new count and starts the countdown. */
  function Place(w: World, key: string, now: int, cfg: Config): (r: World)
    requires HasRecord(w)
    ensures key in r.store.grid.cells && r.store.grid.cells[key] == w.page.palette.selected
    ensures key in r.store.grid.metadata
    ensures r.store.grid.metadata[key] == CellMeta(w.page.user.value.uid, w.page.username, now)
    ensures r.store.grid.cells.Keys == w.store.grid.cells.Keys + {key}
    ensures r.store.grid.metadata.Keys == w.store.grid.metadata.Keys + {key}
    ensures forall k :: k in w.store.grid.cells && k != key ==> r.store.grid.cells[k] == w.store.grid.cells[k]
    ensures forall k :: k in w.store.grid.metadata && k != key ==> r.store.grid.metadata[k] == w.store.grid.metadata[k]
    ensures r.store.users.Keys == w.store.users.Keys
    ensures forall v :: v in w.store.users && v != w.page.user.value.uid ==> r.store.users[v] == w.store.users[v]
    ensures w.page.user.value.uid in r.store.users
    ensures r.store.users[w.page.user.value.uid].placeTimer == Some(now + cfg.cooldown * 1000)
    ensures r.store.users[w.page.user.value.uid].totalPlaced == w.page.totalPlaced + 1
    ensures var rec := r.store.users[w.page.user.value.uid];
      rec == w.store.users[w.page.user.value.uid].(placeTimer := rec.placeTimer, totalPlaced := rec.totalPlaced)
    ensures r.page.totalPlaced == w.page.totalPlaced + 1
    ensures Settled(r.page.timer) && !r.page.timer.canPlace && r.page.timer.timeRemaining == cfg.cooldown
    ensures r.page == w.page.(totalPlaced := r.page.totalPlaced, timer := r.page.timer)
  {
    var p := w.page;
    var uid := p.user.value.uid;
    var grid := Paint(w.store.grid, key, p.palette.selected, CellMeta(uid, p.username, now));
    var record := w.store.users[uid].(
      placeTimer := Some(now + cfg.cooldown * 1000),
      totalPlaced := p.totalPlaced + 1);
    World(p.(totalPlaced := p.totalPlaced + 1, timer := Restart(cfg.cooldown)),
          Store(grid, w.store.users[uid := record]))
  }

  /** `handleCanvasClick` at cell (x, y) and time `now` (milliseconds). A drag or a position
      off the board does nothing. Otherwise the cell is remembered as the last clicked one;
      then, if placing is allowed for a signed-in user, the grid write is made, and with it,
      when the user has a record to update, the rest of the placement. When the record is
      missing its update fails after the grid write, and nothing else changes. */
  function Click(w: World, x: int, y: int, now: int, cfg: Config): (r: World)
    ensures w.page.dragging || Locate(x, y).None? ==> r == w
    ensures !w.page.dragging && Locate(x, y).Some? ==> r.page.lastCellClicked == Some(EncodeKey(x, y))
    ensures !CanPlaceAt(w, x, y) ==> r == World(w.page.(lastCellClicked := r.page.lastCellClicked), w.store)
    ensures CanPlaceAt(w, x, y) && HasRecord(w) ==>
      r == Place(World(w.page.(lastCellClicked := Some(EncodeKey(x, y))), w.store), EncodeKey(x, y), now, cfg)
    ensures CanPlaceAt(w, x, y) && !HasRecord(w) ==>
      && r.page == w.page.(lastCellClicked := Some(EncodeKey(x, y)))
      && r.store.users == w.store.users
      && r.store.grid == Paint(w.store.grid, EncodeKey(x, y), w.page.palette.selected,
                               CellMeta(w.page.user.value.uid, w.page.username, now))
  {
    var p := w.page;
    if p.dragging then w
    else
      match Locate(x, y)
      case None => w
      case Some(c) =>
        var key := KeyOf(c);
        var clicked := World(p.(lastCellClicked := Some(key)), w.store);
        if !p.timer.canPlace || p.user.None? then clicked
        else if p.user.value.uid in w.store.users then Place(clicked, key, now, cfg)
        else
          var grid := Paint(w.store.grid, key, p.palette.selected, CellMeta(p.user.value.uid, p.username, now));
          World(clicked.page, w.store.(grid := grid))
  }

  /** The tooltip shown while hovering over a coloured cell. */
  datatype HoverInfo = HoverInfo(color: string, rgb: Rgb, username: string, timestamp: Option<int>)

  /** `handleMouseMove` when not dragging: over a cell that has a (non-empty) colour, the
      colour, its RGB decoding, who placed it ("Unknown" when there is no name) and when;
      anywhere else, no tooltip. */
  function Hover(w: World, x: int, y: int): (r: Option<HoverInfo>)
    ensures r.Some? <==>
      && !w.page.dragging && Locate(x, y).Some?
      && EncodeKey(x, y) in w.store.grid.cells && w.store.grid.cells[EncodeKey(x, y)] != ""
    ensures r.Some? ==> r.value.color == w.store.grid.cells[EncodeKey(x, y)]
    ensures r.Some? ==> ChannelRange(r.value.rgb.r) && ChannelRange(r.value.rgb.g) && ChannelRange(r.value.rgb.b)
    ensures r.Some? ==> r.value.rgb == HexToRgb(r.value.color)
    ensures r.Some? && IsHexColor(r.value.color) ==>
      IsByte(r.value.rgb.r) && IsByte(r.value.rgb.g) && IsByte(r.value.rgb.b)
    ensures r.Some? ==> r.value.username != ""
    ensures r.Some? ==> var meta := w.store.grid.metadata;
      && (EncodeKey(x, y) in meta && meta[EncodeKey(x, y)].username != "" ==>
            r.value.username == meta[EncodeKey(x, y)].username)
      && (EncodeKey(x, y) !in meta || meta[EncodeKey(x, y)].username == "" ==> r.value.username == "Unknown")
      && (EncodeKey(x, y) in meta ==> r.value.timestamp == Some(meta[EncodeKey(x, y)].timestamp))
      && (EncodeKey(x, y) !in meta ==> r.value.timestamp.None?)
  {
    if w.page.dragging then None
    else
      match Locate(x, y)
      case None => None
      case Some(c) =>
        var key := KeyOf(c);
        if key !in w.store.grid.cells || w.store.grid.cells[key] == "" then None
        else
          var color := w.store.grid.cells[key];
          var meta := if key in w.store.grid.metadata then Some(w.store.grid.metadata[key]) else None;
          HexColorBytes(color);
          Some(HoverInfo(
            color,
            HexToRgb(color),
            if meta.Some? && meta.value.username != "" then meta.value.username else "Unknown",
            if meta.Some? then Some(meta.value.timestamp) else None))
  }

  lemma HexColorBytes(c: string)
    ensures IsHexColor(c) ==> IsByte(HexToRgb(c).r) && IsByte(HexToRgb(c).g) && IsByte(HexToRgb(c).b)
  {
    if IsHexColor(c) {
      HexColorChannels(c);
    }
  }

  /** The page's events. `TimerFired` is one firing of the one-second countdown interval;
      `AddSwatch` carries the random draw of `addNewColor`. */
  datatype Event =
    | MouseDown(button: int)
    | MouseUp
    | CanvasClick(x: int, y: int, now: int)
    | TimerFired
    | SwatchClick(index: nat)
    | PickerChange(color: string)
    | AddSwatch(random: nat)
    | PickerClose

  /** The events the rendered page can produce: swatches that exist, a random draw in
      range, and colour changes while the picker edits an existing swatch. */
  predicate Possible(w: World, e: Event) {
    match e
    case SwatchClick(i) => i < |w.page.palette.colors|
    case AddSwatch(n) => n < 16777215
    case PickerChange(_) => EditingInRange(w.page.palette)
    case _ => true
  }

  /** One event of the page: a left-button press starts a drag (`handleMouseDown`) and a
      release ends it (`handleMouseUp`); a canvas click is `Click`; a firing of the countdown
      is one `Tick`; the swatch and picker events edit the palette. Only a canvas click
      writes the stores or touches the user, the count or the last clicked cell. */
  function Step(w: World, e: Event, cfg: Config): (r: World)
    requires Possible(w, e)
    ensures e.CanvasClick? ==> r == Click(w, e.x, e.y, e.now, cfg)
    ensures !e.CanvasClick? ==> r.store == w.store
    ensures !e.CanvasClick? ==>
      r.page == w.page.(dragging := r.page.dragging, timer := r.page.timer, palette := r.page.palette)
    ensures e.MouseDown? ==> (r.page.dragging <==> w.page.dragging || e.button == 0)
    ensures e.MouseUp? ==> !r.page.dragging
    ensures !e.MouseDown? && !e.MouseUp? && !e.CanvasClick? ==> r.page.dragging == w.page.dragging
    ensures e.TimerFired? ==> r.page.timer == Tick(w.page.timer)
    ensures !e.TimerFired? && !e.CanvasClick? ==> r.page.timer == w.page.timer
    ensures e.MouseDown? || e.MouseUp? || e.TimerFired? ==> r.page.palette == w.page.palette
    ensures e.SwatchClick? ==> r.page.palette == SelectSwatch(w.page.palette, e.index)
    ensures e.PickerChange? ==> r.page.palette == PickColor(w.page.palette, e.color)
    ensures e.AddSwatch? ==> r.page.palette == AddColor(w.page.palette, e.random)
    ensures e.PickerClose? ==> r.page.palette == ClosePicker(w.page.palette)
  {
    var p := w.page;
    match e
    case MouseDown(button) => if button == 0 then World(p.(dragging := true), w.store) else w
    case MouseUp => World(p.(dragging := false), w.store)
    case CanvasClick(x, y, now) => Click(w, x, y, now, cfg)
    case TimerFired => World(p.(timer := Tick(p.timer)), w.store)
    case SwatchClick(i) => World(p.(palette := SelectSwatch(p.palette, i)), w.store)
    case PickerChange(color) => World(p.(palette := PickColor(p.palette, color)), w.store)
    case AddSwatch(n) => World(p.(palette := AddColor(p.palette, n)), w.store)
    case PickerClose => World(p.(palette := ClosePicker(p.palette)), w.store)
  }

  /** The page after a sequence of events; an event the page cannot produce is skipped. */
  function Run(w: World, events: seq<Event>, cfg: Config): World
    decreases |events|
  {
    if |events| == 0 then w
    else
      var next := if Possible(w, events[0]) then Step(w, events[0], cfg) else w;
      Run(next, events[1..], cfg)
  }

  function CountTicks(events: seq<Event>): nat
  {
    if |events| == 0 then 0
    else (if events[0].TimerFired? then 1 else 0) + CountTicks(events[1..])
  }

  /** What holds of the page and the stores once the user's record has been read: the
      record exists and agrees with the page's count, the countdown is settled, the
      picker edits an existing swatch, and the grid is well keyed. */
  predicate Consistent(w: World) {
    && HasRecord(w)
    && w.store.users[w.page.user.value.uid].totalPlaced == w.page.totalPlaced
    && Settled(w.page.timer)
    && EditingInRange(w.page.palette)
    && WellKeyed(w.store.grid)
  }

  /** Reading an existing record into the fresh page makes everything consistent. */
  lemma LoadConsistent(st: Store, u: AuthUser, now: int)
    requires u.uid in st.users && WellKeyed(st.grid)
    ensures Consistent(World(Load(InitialPage, st, u, now), st))
  {
  }

  /** A brand-new account can place at once and has placed nothing. */
  lemma FreshUserCanPlace(st: Store, u: AuthUser, now: int)
    requires u.uid in st.users && st.users[u.uid] == SignupRecord(st.users[u.uid].username, u.email)
    ensures Load(InitialPage, st, u, now).timer.canPlace
    ensures Load(InitialPage, st, u, now).totalPlaced == 0
  {
  }

  /** Every event keeps the page and the stores consistent. */
  lemma StepConsistent(w: World, e: Event, cfg: Config)
    requires Consistent(w) && Possible(w, e)
    ensures Consistent(Step(w, e, cfg))
  {
    match e
    case CanvasClick(x, y, now) => ClickConsistent(w, x, y, now, cfg);
    case _ =>
  }

  lemma ClickConsistent(w: World, x: int, y: int, now: int, cfg: Config)
    requires Consistent(w)
    ensures Consistent(Click(w, x, y, now, cfg))
  {
    if CanPlaceAt(w, x, y) {
      var c := Locate(x, y).value;
      assert HasRecord(w);
      PlaceConsistent(World(w.page.(lastCellClicked := Some(EncodeKey(x, y))), w.store), c, now, cfg);
    }
  }

  /** A placement on a cell of the board keeps everything consistent. */
  lemma PlaceConsistent(w: World, c: Coord, now: int, cfg: Config)
    requires Consistent(w) && InBounds(c)
    ensures Consistent(Place(w, KeyOf(c), now, cfg))
  {
    var meta := CellMeta(w.page.user.value.uid, w.page.username, now);
    PaintKeepsWellKeyed(w.store.grid, c, w.page.palette.selected, meta);
    assert Place(w, KeyOf(c), now, cfg).store.grid == Paint(w.store.grid, KeyOf(c), w.page.palette.selected, meta);
  }

  lemma {:induction false} RunConsistent(w: World, events: seq<Event>, cfg: Config)
    requires Consistent(w)
    ensures Consistent(Run(w, events, cfg))
    decreases |events|
  {
    if |events| > 0 {
      if Possible(w, events[0]) {
        StepConsistent(w, events[0], cfg);
      }
      var next := if Possible(w, events[0]) then Step(w, events[0], cfg) else w;
      RunConsistent(next, events[1..], cfg);
    }
  }

  /** The placed count never goes down. */
  lemma {:induction false} RunTotalPlacedMonotone(w: World, events: seq<Event>, cfg: Config)
    ensures Run(w, events, cfg).page.totalPlaced >= w.page.totalPlaced
    decreases |events|
  {
    if |events| > 0 {
      var next := if Possible(w, events[0]) then Step(w, events[0], cfg) else w;
      RunTotalPlacedMonotone(next, events[1..], cfg);
    }
  }

  /** The cooldown holds: while fewer countdown firings have happened than there were
      seconds left, no click places anything, whatever else the user does. */
  lemma {:induction false} NoPlacementDuringCooldown(w: World, events: seq<Event>, cfg: Config)
    requires Settled(w.page.timer) && !w.page.timer.canPlace
    requires CountTicks(events) < w.page.timer.timeRemaining
    ensures Run(w, events, cfg).store == w.store
    ensures Run(w, events, cfg).page.totalPlaced == w.page.totalPlaced
    ensures !Run(w, events, cfg).page.timer.canPlace
    decreases |events|
  {
    if |events| > 0 {
      var next := if Possible(w, events[0]) then Step(w, events[0], cfg) else w;
      assert next.store == w.store && next.page.totalPlaced == w.page.totalPlaced;
      if events[0].TimerFired? {
        assert next.page.timer == Tick(w.page.timer);
        assert next.page.timer.timeRemaining == w.page.timer.timeRemaining - 1;
      } else {
        assert next.page.timer == w.page.timer;
      }
      NoPlacementDuringCooldown(next, events[1..], cfg);
    }
  }

  /** The cooldown ends: once as many countdown firings have happened as there were seconds
      left, placing is allowed again, unless a pixel has been placed in the meantime. */
  lemma {:induction false} CooldownExpires(w: World, events: seq<Event>, cfg: Config)
    requires Settled(w.page.timer)
    requires CountTicks(events) >= w.page.timer.timeRemaining
    ensures var r := Run(w, events, cfg);
      r.page.timer.canPlace || r.page.totalPlaced > w.page.totalPlaced
    decreases |events|
  {
    if |events| > 0 {
      var e := events[0];
      var next := if Possible(w, e) then Step(w, e, cfg) else w;
      if next.page.totalPlaced > w.page.totalPlaced {
        RunTotalPlacedMonotone(next, events[1..], cfg);
      } else {
        if Possible(w, e) {
          StepTimer(w, e, cfg);
        }
        CooldownExpires(next, events[1..], cfg);
      }
    }
  }

  /** An event that places nothing moves the countdown by one firing if it is one, and
      leaves it alone otherwise. */
  lemma StepTimer(w: World, e: Event, cfg: Config)
    requires Possible(w, e)
    ensures var r := Step(w, e, cfg);
      r.page.totalPlaced == w.page.totalPlaced ==>
        r.page.timer == if e.TimerFired? then Tick(w.page.timer) else w.page.timer
  {
    if e.CanvasClick? && CanPlaceAt(w, e.x, e.y) && HasRecord(w) {
      ClickPlaces(w, e.x, e.y, e.now, cfg);
    }
  }

  /** Reloading the page k seconds after a placement shows exactly the countdown the page
      that placed it has reached after k firings. */
  lemma StoredTimerMatchesCountdown(w: World, key: string, now: int, cfg: Config, k: nat)
    requires HasRecord(w)
    ensures var r := Place(w, key, now, cfg);
      LoadTimer(Initial, r.store.users[w.page.user.value.uid].placeTimer, now + k * 1000)
        == Ticks(r.page.timer, k)
  {
    ReloadMatchesCountdown(cfg.cooldown, now, k);
  }

  function Repeat(e: Event, n: nat): (events: seq<Event>)
    ensures |events| == n && CountTicks(events) == if e.TimerFired? then n else 0
  {
    if n == 0 then [] else [e] + Repeat(e, n - 1)
  }

  lemma {:induction false} RunTicks(w: World, n: nat, cfg: Config)
    ensures Run(w, Repeat(TimerFired, n), cfg) == World(w.page.(timer := Ticks(w.page.timer, n)), w.store)
    decreases n
  {
    if n > 0 {
      var events := Repeat(TimerFired, n);
      assert events[1..] == Repeat(TimerFired, n - 1);
      RunTicks(World(w.page.(timer := Tick(w.page.timer)), w.store), n - 1, cfg);
    }
  }

  /** A click that may place does place: the cell takes the selected colour, the count goes
      up by one, and the countdown restarts; who is signed in and the palette stay. */
  lemma ClickPlaces(w: World, x: int, y: int, now: int, cfg: Config)
    requires CanPlaceAt(w, x, y) && HasRecord(w)
    ensures var r := Click(w, x, y, now, cfg);
      && EncodeKey(x, y) in r.store.grid.cells && r.store.grid.cells[EncodeKey(x, y)] == w.page.palette.selected
      && r.page.totalPlaced == w.page.totalPlaced + 1
      && r.page.timer == Restart(cfg.cooldown)
      && r.page.user == w.page.user && r.page.palette == w.page.palette
      && r.page.dragging == w.page.dragging && r.store.users.Keys == w.store.users.Keys
  {
    var key := EncodeKey(x, y);
    var clicked := World(w.page.(lastCellClicked := Some(key)), w.store);
    assert HasRecord(clicked) && clicked.page.user == w.page.user;
    assert Click(w, x, y, now, cfg) == Place(clicked, key, now, cfg);
    var r := Place(clicked, key, now, cfg);
    assert r.page.timer == Restart(cfg.cooldown);
  }

  /** A click while placing is blocked changes nothing but the last clicked cell. */
  lemma ClickRefused(w: World, x: int, y: int, now: int, cfg: Config)
    requires !w.page.timer.canPlace
    ensures var r := Click(w, x, y, now, cfg);
      r.store == w.store && r.page == w.page.(lastCellClicked := r.page.lastCellClicked)
  {
  }

  lemma SmallKeys()
    ensures EncodeKey(5, 5) == "5,5" && EncodeKey(6, 6) == "6,6"
  {
  }

  /** A fresh user places a pixel at (5, 5), is refused at (6, 6) straight away, and is let
      through at (6, 6) once the countdown has run for the whole cooldown. */
  lemma FirstPlacementScenario(st: Store, u: AuthUser, now: int, cfg: Config)
    requires u.uid in st.users && st.users[u.uid] == SignupRecord(st.users[u.uid].username, u.email)
    ensures var w0 := World(Load(InitialPage, st, u, now), st);
      var w1 := Click(w0, 5, 5, now, cfg);
      var w2 := Click(w1, 6, 6, now, cfg);
      var w3 := Run(w2, Repeat(TimerFired, cfg.cooldown), cfg);
      var w4 := Click(w3, 6, 6, now + cfg.cooldown * 1000, cfg);
      && EncodeKey(5, 5) in w1.store.grid.cells && w1.store.grid.cells[EncodeKey(5, 5)] == w0.page.palette.selected
      && w1.page.totalPlaced == 1
      && w2.store == w1.store && w2.page.totalPlaced == 1
      && EncodeKey(6, 6) in w4.store.grid.cells && w4.store.grid.cells[EncodeKey(6, 6)] == w0.page.palette.selected
      && w4.page.totalPlaced == 2
  {
    FreshPlaceWaitPlace(st, u, 5, 5, 6, 6, now, cfg);
  }

  /** A fresh user's first page, then a placement at (x1, y1), a refusal at (x2, y2) and a
      placement at (x2, y2) once the countdown has run out. */
  lemma FreshPlaceWaitPlace(st: Store, u: AuthUser, x1: int, y1: int, x2: int, y2: int, now: int, cfg: Config)
    requires u.uid in st.users && st.users[u.uid] == SignupRecord(st.users[u.uid].username, u.email)
    requires Locate(x1, y1).Some? && Locate(x2, y2).Some?
    ensures var w0 := World(Load(InitialPage, st, u, now), st);
      var w1 := Click(w0, x1, y1, now, cfg);
      var w2 := Click(w1, x2, y2, now, cfg);
      var w3 := Run(w2, Repeat(TimerFired, cfg.cooldown), cfg);
      var w4 := Click(w3, x2, y2, now + cfg.cooldown * 1000, cfg);
      && EncodeKey(x1, y1) in w1.store.grid.cells && w1.store.grid.cells[EncodeKey(x1, y1)] == w0.page.palette.selected
      && w1.page.totalPlaced == 1
      && w2.store == w1.store && w2.page.totalPlaced == 1
      && EncodeKey(x2, y2) in w4.store.grid.cells && w4.store.grid.cells[EncodeKey(x2, y2)] == w0.page.palette.selected
      && w4.page.totalPlaced == 2
  {
    FreshStart(st, u, now);
    PlaceWaitPlace(World(Load(InitialPage, st, u, now), st), x1, y1, x2, y2, now, cfg);
  }

  /** A fresh user's first page is ready to place on any cell of the board, with nothing
      placed. */
  lemma FreshStart(st: Store, u: AuthUser, now: int)
    requires u.uid in st.users && st.users[u.uid] == SignupRecord(st.users[u.uid].username, u.email)
    ensures var w0 := World(Load(InitialPage, st, u, now), st);
      && w0.page.timer.canPlace && !w0.page.dragging && w0.page.user.Some?
      && HasRecord(w0) && w0.page.totalPlaced == 0
  {
    FreshUserCanPlace(st, u, now);
  }

  /** From a world ready to place: a placement at (x1, y1), a refusal at (x2, y2) straight
      after, and a placement at (x2, y2) once the countdown has run out. */
  lemma PlaceWaitPlace(w0: World, x1: int, y1: int, x2: int, y2: int, now: int, cfg: Config)
    requires CanPlaceAt(w0, x1, y1) && Locate(x2, y2).Some? && HasRecord(w0)
    ensures var w1 := Click(w0, x1, y1, now, cfg);
      var w2 := Click(w1, x2, y2, now, cfg);
      var w3 := Run(w2, Repeat(TimerFired, cfg.cooldown), cfg);
      var w4 := Click(w3, x2, y2, now + cfg.cooldown * 1000, cfg);
      && EncodeKey(x1, y1) in w1.store.grid.cells && w1.store.grid.cells[EncodeKey(x1, y1)] == w0.page.palette.selected
      && w1.page.totalPlaced == w0.page.totalPlaced + 1
      && w2.store == w1.store && w2.page.totalPlaced == w1.page.totalPlaced
      && EncodeKey(x2, y2) in w4.store.grid.cells && w4.store.grid.cells[EncodeKey(x2, y2)] == w0.page.palette.selected
      && w4.page.totalPlaced == w0.page.totalPlaced + 2
  {
    ClickPlaces(w0, x1, y1, now, cfg);
    var w1 := Click(w0, x1, y1, now, cfg);
    WaitAndPlaceAgain(w1, x2, y2, now, now + cfg.cooldown * 1000, cfg);
  }

  /** Right after a placement: a click on a cell is refused, and after a whole cooldown of
      countdown firings a click there places. */
  lemma WaitAndPlaceAgain(w1: World, x: int, y: int, now: int, later: int, cfg: Config)
    requires HasRecord(w1) && !w1.page.dragging && w1.page.timer == Restart(cfg.cooldown)
    requires Locate(x, y).Some?
    ensures var w2 := Click(w1, x, y, now, cfg);
      var w3 := Run(w2, Repeat(TimerFired, cfg.cooldown), cfg);
      var w4 := Click(w3, x, y, later, cfg);
      && w2.store == w1.store && w2.page.totalPlaced == w1.page.totalPlaced
      && EncodeKey(x, y) in w4.store.grid.cells && w4.store.grid.cells[EncodeKey(x, y)] == w1.page.palette.selected
      && w4.page.totalPlaced == w1.page.totalPlaced + 1
  {
    ClickRefused(w1, x, y, now, cfg);
    var w2 := Click(w1, x, y, now, cfg);
    CooldownRunsOut(w2, cfg);
    var w3 := Run(w2, Repeat(TimerFired, cfg.cooldown), cfg);
    assert CanPlaceAt(w3, x, y) && HasRecord(w3);
    ClickPlaces(w3, x, y, later, cfg);
  }

  /** A whole cooldown of countdown firings after a placement unblocks placing and
      changes nothing else. */
  lemma CooldownRunsOut(w: World, cfg: Config)
    requires w.page.timer == Restart(cfg.cooldown)
    ensures var r := Run(w, Repeat(TimerFired, cfg.cooldown), cfg);
      r.store == w.store && r.page == w.page.(timer := r.page.timer) && r.page.timer.canPlace
  {
    RunTicks(w, cfg.cooldown, cfg);
    TicksCountdown(w.page.timer, cfg.cooldown);
  }
}
