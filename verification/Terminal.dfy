/**
 The terminal of kernel/drivers/video/vga.c: a 1000-line buffer, a 25-line viewport on it, and a
 screen that is updated cell by cell or, when the viewport moved, redrawn as a whole later.

 Cells and characters are numbers (16 and 8 bits); the buffer and video memory are flat, row by
 row, as they are in memory.
 */
module Terminal {

  const WIDTH: nat := 80
  const HEIGHT: nat := 25
  const LINES: nat := 1000
  const BUFFER: nat := 80000
  const SCREEN: nat := 2000
  const BLANK: nat := 0x20              // VGA_CLEAR: a space, black on black

  const TAB: nat := 9
  const NEWLINE: nat := 10
  const RETURN: nat := 13
  const BACKSPACE: nat := 8

  datatype Term = Term(buf: seq<nat>, video: seq<nat>, x: nat, y: nat, view: nat, pending: bool, color: nat)

  ghost predicate Shape(t: Term) {
    |t.buf| == BUFFER && |t.video| == SCREEN && t.x < WIDTH && t.y < LINES
  }

  function Blanks(n: nat): (r: seq<nat>)
    ensures |r| == n && forall i :: 0 <= i < n ==> r[i] == BLANK
  {
    seq(n, _ => BLANK)
  }

  /** One cell of the full render: off the end of the buffer the screen is blank. */
  function RenderCell(buf: seq<nat>, view: nat, i: nat): nat
    requires |buf| == BUFFER
  {
    if view + i / WIDTH < LINES && view * WIDTH + i < BUFFER then buf[view * WIDTH + i] else BLANK
  }

  function Render(buf: seq<nat>, view: nat): (r: seq<nat>)
    requires |buf| == BUFFER
    ensures |r| == SCREEN && forall i :: 0 <= i < SCREEN ==> r[i] == RenderCell(buf, view, i)
  {
    seq(SCREEN, i requires 0 <= i < SCREEN => RenderCell(buf, view, i))
  }

  /** The lowest position of the viewport: the cursor on the last line of the screen. */
  function MaxView(y: nat): nat {
    if y >= HEIGHT then y - HEIGHT + 1 else 0
  }

  // ----- Writing one character -----

  function Entry(c: nat, color: nat): nat {
    c % 256 + color % 256 * 256
  }

  /** Store a cell in the buffer and, unless a redraw is due, on the screen if visible. */
  function Poke(t: Term, entry: nat): (r: Term)
    requires Shape(t)
    ensures Shape(r)
  {
    var i := t.y * WIDTH + t.x;
    var shown := !t.pending && t.view <= t.y < t.view + HEIGHT;
    t.(buf := t.buf[i := entry],
       video := if shown then t.video[(t.y - t.view) * WIDTH + t.x := entry] else t.video)
  }

  /** Move the buffer up by one line when the cursor has left it. */
  function ScrollBuffer(t: Term): Term
    requires |t.buf| == BUFFER
  {
    if t.y >= LINES then t.(buf := t.buf[WIDTH..] + Blanks(WIDTH), y := LINES - 1, pending := true) else t
  }

  function Follow(t: Term): Term {
    if t.y >= t.view + HEIGHT then t.(view := t.y - HEIGHT + 1, pending := true) else t
  }

  function NewLine(t: Term): (r: Term)
    requires Shape(t)
    ensures r.buf == t.buf
  {
    t.(x := 0, y := t.y + 1)
  }

  /** The switch of `vga_putchar_raw`; the cursor may be left one line below the buffer. */
  function Type(t: Term, c: nat): (r: Term)
    requires Shape(t)
    ensures |r.buf| == BUFFER && |r.video| == SCREEN && r.x < WIDTH && r.y <= LINES && r.view == t.view
  {
    if c == TAB then
      var x := (t.x + 4) / 4 * 4;
      if x >= WIDTH then NewLine(t) else t.(x := x)
    else if c == NEWLINE then NewLine(t)
    else if c == RETURN then t.(x := 0)
    else if c == BACKSPACE then
      if t.x > 0 then Poke(t.(x := t.x - 1), BLANK) else t
    else
      var p := Poke(t, Entry(c, t.color));
      if t.x + 1 >= WIDTH then NewLine(p) else p.(x := t.x + 1)
  }

  function PutRaw(t: Term, c: nat): (r: Term)
    requires Shape(t)
    ensures Shape(r)
  {
    Follow(ScrollBuffer(Type(t, c)))
  }

  function PutAll(t: Term, s: seq<nat>): (r: Term)
    requires Shape(t)
    ensures Shape(r)
    decreases s
  {
    if s == [] then t else PutAll(PutRaw(t, s[0]), s[1..])
  }

  function Flush(t: Term): (r: Term)
    requires Shape(t)
    ensures Shape(r)
  {
    if t.pending then t.(video := Render(t.buf, t.view), pending := false) else t
  }

  /**
   Cell `at` of the buffer, if it is one, was set to `cell`, and the cursor to column `x` of line `y`; if
   that is below the buffer, everything has moved up by a line and the last line is blank.
   */
  ghost predicate Typed(t: Term, r: Term, at: int, cell: nat, x: nat, y: nat)
    requires |t.buf| == 80000
  {
    var up := if y >= 1000 then 1 else 0;
    && r.x == x && r.y == y - up && r.color == t.color && |r.buf| == 80000
    && forall i :: 0 <= i < 80000 ==>
         r.buf[i] == if i + 80 * up >= 80000 then 0x20 else if i + 80 * up == at then cell else t.buf[i + 80 * up]
  }

  /** The low byte of a cell is the character and the high byte the colour. */
  predicate IsCell(cell: nat, c: nat, color: nat) {
    cell % 256 == c % 256 && cell / 256 == color % 256
  }

  /**
   What each character does: a tab goes to the next multiple of 4, or to the next line from column 76
   on; a newline to the start of the next line; a return to the start of this one; a backspace wipes
   the cell before, if there is one on this line; any other is stored, and the cursor moves on by one.
   */
  lemma PutRawMeaning(t: Term, c: nat)
    requires Shape(t)
    ensures var r := PutRaw(t, c);
      && (c == 9 && t.x < 76 ==> t.x < r.x <= t.x + 4 && r.x % 4 == 0 && Typed(t, r, -1, 0, r.x, t.y))
      && (c == 9 && t.x >= 76 ==> Typed(t, r, -1, 0, 0, t.y + 1))
      && (c == 10 ==> Typed(t, r, -1, 0, 0, t.y + 1))
      && (c == 13 ==> Typed(t, r, -1, 0, 0, t.y))
      && (c == 8 && t.x == 0 ==> Typed(t, r, -1, 0, 0, t.y))
      && (c == 8 && t.x > 0 ==> Typed(t, r, t.y * 80 + t.x - 1, 0x20, t.x - 1, t.y))
      && (c != 8 && c != 9 && c != 10 && c != 13 ==>
          exists cell :: IsCell(cell, c, t.color) &&
            Typed(t, r, t.y * 80 + t.x, cell, if t.x == 79 then 0 else t.x + 1, if t.x == 79 then t.y + 1 else t.y))
  {
    if c != 8 && c != 9 && c != 10 && c != 13 {
      var cell := Entry(c, t.color);
      assert IsCell(cell, c, t.color);
      CharacterTyped(t, c);
    }
  }

  lemma CharacterTyped(t: Term, c: nat)
    requires Shape(t) && c != 8 && c != 9 && c != 10 && c != 13
    ensures Typed(t, PutRaw(t, c), t.y * 80 + t.x, Entry(c, t.color), if t.x == 79 then 0 else t.x + 1,
                  if t.x == 79 then t.y + 1 else t.y)
  {
    hide Entry;
  }

  // ----- The public operations -----

  datatype Op =
    | Clear
    | PutChar(c: nat)
    | Write(s: seq<nat>)
    | RawWrite(s: seq<nat>)      // `vvga_write`, which does not flush
    | SetColor(color: nat)
    | ScrollUp | ScrollDown | PageUp | PageDown

  function Redraw(t: Term, view: nat): (r: Term)
    requires Shape(t)
    ensures Shape(r)
  {
    t.(view := view, video := Render(t.buf, view))
  }

  function Apply(t: Term, op: Op): (r: Term)
    requires Shape(t)
    ensures Shape(r)
  {
    match op
    case Clear => t.(buf := Blanks(BUFFER), video := Blanks(SCREEN), x := 0, y := 0, view := 0)
    case PutChar(c) => Flush(PutRaw(t, c))
    case Write(s) => Flush(PutAll(t, s))
    case RawWrite(s) => PutAll(t, s)
    case SetColor(color) => t.(color := color)
    case ScrollUp => if t.view > 0 then Redraw(t, t.view - 1) else t
    case ScrollDown => if t.view < MaxView(t.y) then Redraw(t, t.view + 1) else t
    case PageUp => Redraw(t, if t.view >= HEIGHT then t.view - HEIGHT else 0)
    case PageDown =>
      Redraw(t, if t.view + HEIGHT > MaxView(t.y) then MaxView(t.y) else t.view + HEIGHT)
  }

  function ApplyAll(t: Term, ops: seq<Op>): (r: Term)
    requires Shape(t)
    ensures Shape(r)
    decreases ops
  {
    if ops == [] then t else ApplyAll(Apply(t, ops[0]), ops[1..])
  }

  // ----- The screen agrees with the buffer -----

  /** Unless a redraw is due, the screen is the full render; and the viewport is never below the cursor's. */
  ghost predicate Synced(t: Term) {
    Shape(t) && t.view <= MaxView(t.y) && (t.pending || t.video == Render(t.buf, t.view))
  }

  /** The same when nothing is due. */
  ghost predicate AtRest(t: Term) {
    Synced(t) && !t.pending
  }

  /** In a synced state every line of the screen lies in the buffer: the blank branch is never taken. */
  lemma RenderInsideBuffer(t: Term, i: nat)
    requires Synced(t) && i < SCREEN
    ensures t.view + i / WIDTH < LINES
    ensures Render(t.buf, t.view)[i] == t.buf[t.view * WIDTH + i]
  {
    assert i / WIDTH < HEIGHT;
  }

  lemma PokeSynced(t: Term, entry: nat)
    requires Synced(t)
    ensures Synced(Poke(t, entry))
  {
    var r := Poke(t, entry);
    var at := t.y * WIDTH + t.x;
    if !t.pending {
      forall i | 0 <= i < SCREEN ensures r.video[i] == RenderCell(r.buf, r.view, i) {
        assert t.video[i] == RenderCell(t.buf, t.view, i);
        RenderInsideBuffer(t, i);
      }
    }
  }

  /** Typing keeps the agreement, and leaves the viewport exactly on the cursor. */
  lemma PutRawSynced(t: Term, c: nat)
    requires Synced(t)
    ensures Synced(PutRaw(t, c)) && PutRaw(t, c).view == MaxView(PutRaw(t, c).y)
    ensures PutRaw(t, c).view == if PutRaw(t, c).y >= 25 then PutRaw(t, c).y - 24 else 0
  {
    hide Render, Poke;
    if c == BACKSPACE && t.x > 0 {
      PokeSynced(t.(x := t.x - 1), BLANK);
    } else if c != TAB && c != NEWLINE && c != RETURN && c != BACKSPACE {
      PokeSynced(t, Entry(c, t.color));
    }
  }

  lemma {:induction false} PutAllSynced(t: Term, s: seq<nat>)
    requires Synced(t)
    ensures Synced(PutAll(t, s)) && (s != [] ==> PutAll(t, s).view == MaxView(PutAll(t, s).y))
    decreases s
  {
    hide PutRaw, Render;
    if s != [] {
      PutRawSynced(t, s[0]);
      PutAllSynced(PutRaw(t, s[0]), s[1..]);
      assert s[1..] == [] ==> PutAll(t, s) == PutRaw(t, s[0]);
    }
  }

  lemma ApplySynced(t: Term, op: Op)
    requires Synced(t)
    ensures Synced(Apply(t, op))
    ensures !op.RawWrite? && !t.pending ==> !Apply(t, op).pending
    ensures op.PutChar? || op.Write? || op.PageUp? || op.PageDown? ==>
              Apply(t, op).video == Render(Apply(t, op).buf, Apply(t, op).view)
  {
    hide PutRaw, PutAll;
    match op
    case PutChar(c) => PutRawSynced(t, c);
    case Write(s) => PutAllSynced(t, s);
    case RawWrite(s) => PutAllSynced(t, s);
    case _ =>
  }

  /** At rest the screen is the 25 lines of the buffer from the viewport on. */
  lemma ScreenIsWindow(t: Term, i: nat)
    requires AtRest(t) && i < 2000
    ensures t.view * 80 + i < 80000 && t.video[i] == t.buf[t.view * 80 + i]
  {
    RenderInsideBuffer(t, i);
  }

  /** Where the four scrolling calls leave the viewport; they change nothing else but the screen. */
  lemma ScrollMeaning(t: Term, op: Op)
    requires Synced(t) && (op.ScrollUp? || op.ScrollDown? || op.PageUp? || op.PageDown?)
    ensures var r, limit := Apply(t, op), if t.y >= 25 then t.y - 24 else 0;
      && r.buf == t.buf && r.x == t.x && r.y == t.y && r.color == t.color && r.pending == t.pending
      && (op.ScrollUp? ==> r.view == if t.view == 0 then 0 else t.view - 1)
      && (op.ScrollDown? ==> r.view == if t.view == limit then limit else t.view + 1)
      && (op.PageUp? ==> r.view == if t.view < 25 then 0 else t.view - 25)
      && (op.PageDown? ==> r.view == if t.view + 25 > limit then limit else t.view + 25)
      && (r.view != t.view ==> r.video == Render(r.buf, r.view))
  {
  }

  /**
   After any sequence of calls, the screen is the full render of the buffer at the viewport, unless a
   bare `vvga_write` left a redraw due; and the viewport is never past the cursor's.
   */
  lemma {:induction false} RunSynced(t: Term, ops: seq<Op>)
    requires Synced(t)
    ensures Synced(ApplyAll(t, ops))
    ensures !t.pending && (forall op :: op in ops ==> !op.RawWrite?) ==> AtRest(ApplyAll(t, ops))
    decreases ops
  {
    hide Apply, Render;
    if ops != [] {
      ApplySynced(t, ops[0]);
      RunSynced(Apply(t, ops[0]), ops[1..]);
    }
  }

  // ----- One deferred redraw equals redrawing as you go -----

  /** Everything but the screen and the redraw flag. */
  ghost predicate SameContent(a: Term, b: Term) {
    a.buf == b.buf && a.x == b.x && a.y == b.y && a.view == b.view && a.color == b.color
  }

  lemma TypeContent(a: Term, b: Term, c: nat)
    requires Shape(a) && Shape(b) && SameContent(a, b)
    ensures SameContent(Type(a, c), Type(b, c))
  {
  }

  lemma PutRawContent(a: Term, b: Term, c: nat)
    requires Shape(a) && Shape(b) && SameContent(a, b)
    ensures SameContent(PutRaw(a, c), PutRaw(b, c))
  {
    hide Type;
    TypeContent(a, b, c);
  }

  lemma {:induction false} FlushedContent(a: Term, b: Term)
    requires Synced(a) && Synced(b) && SameContent(a, b)
    ensures Flush(a) == Flush(b)
  {
  }

  function PutCharEach(t: Term, s: seq<nat>): (r: Term)
    requires Shape(t)
    ensures Shape(r)
    decreases s
  {
    if s == [] then t else PutCharEach(Apply(t, PutChar(s[0])), s[1..])
  }

  lemma {:induction false} EachContent(a: Term, b: Term, s: seq<nat>)
    requires Synced(a) && AtRest(b) && SameContent(a, b)
    ensures SameContent(PutAll(a, s), PutCharEach(b, s)) && AtRest(PutCharEach(b, s))
    decreases s
  {
    hide PutRaw, Render;
    if s != [] {
      var a', b' := PutRaw(a, s[0]), Apply(b, PutChar(s[0]));
      PutRawContent(a, b, s[0]);
      PutRawSynced(a, s[0]);
      PutRawSynced(b, s[0]);
      EachContent(a', b', s[1..]);
    }
  }

  /** `vga_write` of any string leaves exactly the state that `vga_putchar` of each character leaves. */
  lemma WriteIsPutCharEach(t: Term, s: seq<nat>)
    requires AtRest(t)
    ensures Apply(t, Write(s)) == PutCharEach(t, s)
  {
    EachContent(t, t, s);
    PutAllSynced(t, s);
    FlushedContent(PutAll(t, s), PutCharEach(t, s));
  }

  lemma {:induction false} PutAllConcat(t: Term, a: seq<nat>, b: seq<nat>)
    requires Shape(t)
    ensures PutAll(t, a + b) == PutAll(PutAll(t, a), b)
    decreases a
  {
    hide PutRaw;
    if a == [] {
      assert a + b == b;
    } else {
      PutAllConcat(PutRaw(t, a[0]), a[1..], b);
      assert (a + b)[1..] == a[1..] + b;
    }
  }

  // ----- The bounded buffer is a window on an unbounded terminal -----

  /** A terminal that forgets nothing: all cells ever, the cursor on its last line. */
  datatype Paper = Paper(cells: seq<nat>, x: nat, y: nat)

  ghost predicate PaperShape(u: Paper) {
    u.x < WIDTH && |u.cells| == (u.y + 1) * WIDTH
  }

  const FRESH: Paper := Paper(Blanks(WIDTH), 0, 0)

  function PaperLine(u: Paper): Paper {
    Paper(u.cells + Blanks(WIDTH), 0, u.y + 1)
  }

  function PaperPoke(u: Paper, x: nat, entry: nat): Paper
    requires u.y * WIDTH + x < |u.cells|
  {
    u.(cells := u.cells[u.y * WIDTH + x := entry])
  }

  /** Typing on the unbounded terminal. */
  function PaperPut(u: Paper, c: nat, color: nat): (r: Paper)
    requires PaperShape(u)
    ensures PaperShape(r)
  {
    if c == TAB then
      var x := (u.x + 4) / 4 * 4;
      if x >= WIDTH then PaperLine(u) else u.(x := x)
    else if c == NEWLINE then PaperLine(u)
    else if c == RETURN then u.(x := 0)
    else if c == BACKSPACE then
      if u.x > 0 then PaperPoke(u, u.x - 1, BLANK).(x := u.x - 1) else u
    else
      var p := PaperPoke(u, u.x, Entry(c, color));
      if u.x + 1 >= WIDTH then PaperLine(p) else p.(x := u.x + 1)
  }

  function PaperPutAll(u: Paper, s: seq<nat>, color: nat): (r: Paper)
    requires PaperShape(u)
    ensures PaperShape(r)
    decreases s
  {
    if s == [] then u else PaperPutAll(PaperPut(u, s[0], color), s[1..], color)
  }

  /** How many lines have scrolled out of the buffer. */
  function Lost(u: Paper): nat {
    if u.y < LINES then 0 else u.y - LINES + 1
  }

  /** Cell `i` of the last 1000 lines; below the cursor's line all is blank. */
  function WindowCell(u: Paper, i: nat): nat {
    var at := Lost(u) * WIDTH + i;
    if at < |u.cells| then u.cells[at] else BLANK
  }

  /** The buffer and cursor are the last 1000 lines of the unbounded terminal. */
  ghost predicate Shows(t: Term, u: Paper) {
    && Shape(t) && PaperShape(u) && t.x == u.x && t.y == u.y - Lost(u)
    && forall i :: 0 <= i < BUFFER ==> t.buf[i] == WindowCell(u, i)
  }

  /** The same, when the cursor may be one line below the buffer (before it is scrolled). */
  ghost predicate ShowsBelow(t: Term, u: Paper, lost: nat) {
    && |t.buf| == BUFFER && PaperShape(u) && t.x == u.x && t.y == u.y - lost && lost <= Lost(u) <= lost + 1
    && (t.y >= LINES ==> forall i :: u.y * WIDTH <= i < |u.cells| ==> u.cells[i] == BLANK)
    && forall i :: 0 <= i < BUFFER ==>
         t.buf[i] == if lost * WIDTH + i < |u.cells| then u.cells[lost * WIDTH + i] else BLANK
  }

  lemma PokeShows(t: Term, u: Paper, entry: nat)
    requires Shows(t, u)
    ensures u.y * WIDTH + u.x < |u.cells| && Shows(Poke(t, entry), PaperPoke(u, u.x, entry))
  {
    var at := t.y * WIDTH + t.x;
    assert at + Lost(u) * WIDTH == u.y * WIDTH + u.x;
  }

  lemma LineShows(t: Term, u: Paper)
    requires Shows(t, u)
    ensures ShowsBelow(NewLine(t), PaperLine(u), Lost(u))
  {
  }

  lemma ScrollShows(t: Term, u: Paper, lost: nat)
    requires ShowsBelow(t, u, lost) && |t.video| == SCREEN && t.x < WIDTH
    ensures Shows(ScrollBuffer(t), u)
  {
    var r := ScrollBuffer(t);
    if t.y >= LINES {
      assert Lost(u) == lost + 1;
      forall i | 0 <= i < BUFFER ensures r.buf[i] == WindowCell(u, i) {
        if i < BUFFER - WIDTH {
          assert r.buf[i] == t.buf[i + WIDTH];
        }
      }
    }
  }

  lemma StayShows(t: Term, u: Paper, x: nat)
    requires Shows(t, u) && x < WIDTH
    ensures Shows(t.(x := x), u.(x := x)) && ShowsBelow(t.(x := x), u.(x := x), Lost(u))
  {
  }

  lemma TypeShows(t: Term, u: Paper, c: nat)
    requires Shape(t) && PaperShape(u) && t.x == u.x && Shows(t, u)
    ensures ShowsBelow(Type(t, c), PaperPut(u, c, t.color), Lost(u))
  {
    hide Shows, ShowsBelow, Poke;
    var entry := Entry(c, t.color);
    if c == BACKSPACE && t.x > 0 {
      StayShows(t, u, t.x - 1);
      PokeShows(t.(x := t.x - 1), u.(x := u.x - 1), BLANK);
      StayShows(Poke(t.(x := t.x - 1), BLANK), PaperPoke(u.(x := u.x - 1), u.x - 1, BLANK), t.x - 1);
      assert Poke(t.(x := t.x - 1), BLANK).x == t.x - 1 by { PokeKeeps(t.(x := t.x - 1), BLANK); }
    } else if c == TAB && (t.x + 4) / 4 * 4 < WIDTH {
      StayShows(t, u, (t.x + 4) / 4 * 4);
    } else if c == TAB || c == NEWLINE {
      LineShows(t, u);
    } else if c == RETURN || c == BACKSPACE {
      StayShows(t, u, 0);
      StayShows(t, u, t.x);
    } else {
      PokeShows(t, u, entry);
      PokeKeeps(t, entry);
      if t.x + 1 >= WIDTH {
        LineShows(Poke(t, entry), PaperPoke(u, u.x, entry));
      } else {
        StayShows(Poke(t, entry), PaperPoke(u, u.x, entry), t.x + 1);
      }
    }
  }

  lemma PokeKeeps(t: Term, entry: nat)
    requires Shape(t)
    ensures Poke(t, entry).x == t.x && Poke(t, entry).y == t.y
  {
  }

  lemma PutRawShows(t: Term, u: Paper, c: nat)
    requires Shows(t, u)
    ensures Shows(PutRaw(t, c), PaperPut(u, c, t.color)) && PutRaw(t, c).color == t.color
  {
    hide PaperPut;
    TypeShows(t, u, c);
    ScrollShows(Type(t, c), PaperPut(u, c, t.color), Lost(u));
  }

  /**
   For every text: the buffer and cursor are the last 1000 lines of the unbounded terminal, with
   every line below the cursor blank.
   */
  lemma {:induction false} PutAllShows(t: Term, u: Paper, s: seq<nat>)
    requires Shows(t, u)
    ensures Shows(PutAll(t, s), PaperPutAll(u, s, t.color))
    decreases s
  {
    hide PutRaw, PaperPut, WindowCell;
    if s != [] {
      PutRawShows(t, u, s[0]);
      PutAllShows(PutRaw(t, s[0]), PaperPut(u, s[0], t.color), s[1..]);
    }
  }

  /** What a call does to the unbounded terminal: scrolling and colours do nothing to it. */
  function PaperApply(u: Paper, op: Op, color: nat): (r: Paper)
    requires PaperShape(u)
    ensures PaperShape(r)
  {
    match op
    case Clear => FRESH
    case PutChar(c) => PaperPut(u, c, color)
    case Write(s) => PaperPutAll(u, s, color)
    case RawWrite(s) => PaperPutAll(u, s, color)
    case _ => u
  }

  function PaperApplyAll(u: Paper, ops: seq<Op>, color: nat): (r: Paper)
    requires PaperShape(u)
    ensures PaperShape(r)
    decreases ops
  {
    if ops == [] then u else
    PaperApplyAll(PaperApply(u, ops[0], color), ops[1..], if ops[0].SetColor? then ops[0].color else color)
  }

  lemma {:induction false} PutAllColor(t: Term, s: seq<nat>)
    requires Shape(t)
    ensures PutAll(t, s).color == t.color
    decreases s
  {
    if s != [] { PutAllColor(PutRaw(t, s[0]), s[1..]); }
  }

  lemma ApplyShows(t: Term, u: Paper, op: Op)
    requires Shows(t, u)
    ensures Shows(Apply(t, op), PaperApply(u, op, t.color))
    ensures Apply(t, op).color == if op.SetColor? then op.color else t.color
  {
    hide PutRaw, PaperPut, PutAll, PaperPutAll, Render;
    match op
    case PutChar(c) => PutRawShows(t, u, c);
    case Write(s) => PutAllShows(t, u, s); PutAllColor(t, s);
    case RawWrite(s) => PutAllShows(t, u, s); PutAllColor(t, s);
    case _ =>
  }

  /**
   After any sequence of calls, the buffer and cursor are the last 1000 lines of the unbounded
   terminal on which the same calls were made.
   */
  lemma {:induction false} RunShows(t: Term, u: Paper, ops: seq<Op>)
    requires Shows(t, u)
    ensures Shows(ApplyAll(t, ops), PaperApplyAll(u, ops, t.color))
    decreases ops
  {
    hide Apply, PaperApply, WindowCell;
    if ops != [] {
      ApplyShows(t, u, ops[0]);
      RunShows(Apply(t, ops[0]), PaperApply(u, ops[0], t.color), ops[1..]);
    }
  }

  /** In particular every line below the cursor is blank. */
  lemma BelowCursorBlank(t: Term, u: Paper, i: nat)
    requires Shows(t, u) && (t.y + 1) * WIDTH <= i < BUFFER
    ensures t.buf[i] == 0x20
  {
    assert t.buf[i] == WindowCell(u, i);
  }

  /** `vga_init` clears, and a cleared terminal is synced and shows fresh paper. */
  lemma ClearStarts(t: Term)
    requires Shape(t)
    ensures Synced(Apply(t, Clear)) && Shows(Apply(t, Clear), FRESH)
    ensures var c := Apply(t, Clear);
      && c.x == 0 && c.y == 0 && c.view == 0 && c.color == t.color
      && (forall i :: 0 <= i < 80000 ==> c.buf[i] == 0x20) && (forall i :: 0 <= i < 2000 ==> c.video[i] == 0x20)
  {
    var c := Apply(t, Clear);
    assert c.video == Render(c.buf, c.view);
  }
}
