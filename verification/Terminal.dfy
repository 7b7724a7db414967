/** The virtual terminal `vt.c`: a character buffer that scrolls, and a screen that is
    redrawn only where it changed. */
module Terminal {
  import MemoryCopy

  const SCROLL_STEP := 4

  /** The graphic rendition that characters are printed with. */
  datatype Rendering = Rendering(bold: bool, dim: bool, reverse: bool, fg: nat, bg: nat)
  type Rendition = g: Rendering | g.fg < 8 && g.bg < 8 witness Rendering(false, false, false, 7, 0)

  /** A character with its colours; the cleared buffer holds only `BLANK`. */
  datatype Cell = Cell(unicode: int, fg: int, bg: int)

  const BLANK := Cell(0, 0, 0)

  /** What a cell of the screen shows. */
  datatype Drawn = Glyph(unicode: int, fg: int, bg: int) | Filled(color: int)

  /** `vt_draw_char`. */
  function Draw(c: Cell): Drawn {
    if c.unicode != 0 then Glyph(c.unicode, c.fg, c.bg) else Filled(c.bg)
  }

  const NORMAL_COLORS: seq<int> := [0x000000, 0xd32f2f, 0xafb42b, 0xfbc02d, 0x512da8, 0x7b1fa2, 0xfbc02d, 0xeeeeee]
  const DIM_COLORS: seq<int> := [0x000000, 0xb71c1c, 0x827717, 0xf57f17, 0x311b92, 0x4a148c, 0xf57f17, 0x9e9e9e]
  const BRIGHT_COLORS: seq<int> := [0x7f7f7f, 0xf44336, 0xcddc39, 0xffeb3b, 0x673ab7, 0x8e24aa, 0xffeb3b, 0xffffff]

  function PlainFg(g: Rendition): int
  {
    if g.bold then BRIGHT_COLORS[g.fg] else if g.dim then DIM_COLORS[g.fg] else NORMAL_COLORS[g.fg]
  }

  /** `ansi_convert_fg` and `ansi_convert_bg`. */
  function Foreground(g: Rendition): int
  {
    if g.reverse then NORMAL_COLORS[g.bg] else PlainFg(g)
  }

  function Background(g: Rendition): int
  {
    if g.reverse then PlainFg(g) else NORMAL_COLORS[g.bg]
  }

  /** The character after BEL changes the rendition. */
  function Recolor(g: Rendition, c: int): Rendition
  {
    if c == 0x01 then Rendering(false, false, false, 7, 0)
    else if c == 0x02 then g.(dim := true)
    else if c == 0x03 then g.(bold := true)
    else if c == 0x04 then g.(reverse := true)
    else if c == 0x05 then g.(dim := false)
    else if c == 0x06 then g.(bold := false)
    else if c == 0x07 then g.(reverse := false)
    else if 0x11 <= c <= 0x18 then g.(fg := c - 0x11)
    else if 0x21 <= c <= 0x28 then g.(bg := c - 0x21)
    else g
  }

  const BEL := 0x07
  const BS := 0x08
  const TAB := 0x09
  const LF := 0x0a
  const CR := 0x0d

  // ----- The reference: paper without end

  /** A terminal of the same width with lines without end: cells by position, counted along
      the lines, and the cursor. */
  datatype Paper = Paper(cells: int -> Cell, row: nat, col: nat, gr: Rendition, termcode: bool)

  const PLAIN: Rendition := Rendering(false, false, false, 7, 0)

  function NewPaper(gr: Rendition, termcode: bool): Paper {
    Paper((i: int) => BLANK, 0, 0, gr, termcode)
  }

  function PutCell(f: int -> Cell, at: int, c: Cell): int -> Cell {
    (i: int) => if i == at then c else f(i)
  }

  function Written(p: Paper, width: nat, c: int): Paper {
    p.(cells := PutCell(p.cells, p.row * width + p.col, Cell(c, Foreground(p.gr), Background(p.gr))))
  }

  function AdvanceX(p: Paper, width: nat): Paper {
    if p.col + 1 >= width then p.(col := 0, row := p.row + 1) else p.(col := p.col + 1)
  }

  function AdvanceBy(p: Paper, width: nat, n: nat): Paper
    decreases n
  {
    if n == 0 then p else AdvanceBy(AdvanceX(p, width), width, n - 1)
  }

  /** A backspace may not come at column zero, where the cursor of `vt.c` wraps. */
  predicate Printable(p: Paper, c: int) {
    !p.termcode && c == BS ==> p.col > 0
  }

  function PaperStep(p: Paper, width: nat, c: int): Paper
    requires Printable(p, c)
  {
    if p.termcode then p.(gr := Recolor(p.gr, c), termcode := false)
    else if c == LF then p.(row := p.row + 1)
    else if c == CR then p.(col := 0)
    else if c == BS then p.(col := p.col - 1)
    else if c == BEL then p.(termcode := true)
    else if c == TAB then AdvanceBy(p, width, 8)
    else
      AdvanceX(Written(p, width, c), width)
  }

  predicate PrintableString(p: Paper, width: nat, s: seq<int>)
    decreases |s|
  {
    s == [] || (Printable(p, s[0]) && PrintableString(PaperStep(p, width, s[0]), width, s[1..]))
  }

  function PaperRun(p: Paper, width: nat, s: seq<int>): Paper
    requires PrintableString(p, width, s)
    decreases |s|
  {
    if s == [] then p else PaperRun(PaperStep(p, width, s[0]), width, s[1..])
  }

  /** Printing a string in two parts prints the whole. */
  lemma {:induction false} PrintInParts(p: Paper, width: nat, s: seq<int>, t: seq<int>)
    requires PrintableString(p, width, s) && PrintableString(PaperRun(p, width, s), width, t)
    ensures PrintableString(p, width, s + t)
    ensures PaperRun(p, width, s + t) == PaperRun(PaperRun(p, width, s), width, t)
    decreases |s|
  {
    if s == [] {
      assert s + t == t;
    } else {
      assert (s + t)[1..] == s[1..] + t;
      PrintInParts(PaperStep(p, width, s[0]), width, s[1..], t);
    }
  }

  predicate Plaintext(s: seq<int>) {
    forall i :: 0 <= i < |s| ==> s[i] !in {BEL, BS, TAB, LF, CR}
  }

  /** Text without control characters fills the lines from the cursor on, in the current
      colours, and touches nothing else. */
  lemma {:induction false} TextFillsLines(p: Paper, width: nat, s: seq<int>)
    requires Plaintext(s) && !p.termcode && p.col < width
    ensures PrintableString(p, width, s)
    ensures var q, from := PaperRun(p, width, s), p.row * width + p.col;
            && q.row * width + q.col == from + |s| && q.col < width && q.gr == p.gr && !q.termcode
            && (forall i :: 0 <= i < |s| ==> q.cells(from + i) == Cell(s[i], Foreground(p.gr), Background(p.gr)))
            && (forall j :: !(from <= j < from + |s|) ==> q.cells(j) == p.cells(j))
    decreases |s|
  {
    if s != [] {
      var q, from := PaperStep(p, width, s[0]), p.row * width + p.col;
      assert (p.row + 1) * width == p.row * width + width;
      TextFillsLines(q, width, s[1..]);
      forall i | 0 <= i < |s|
        ensures PaperRun(p, width, s).cells(from + i) == Cell(s[i], Foreground(p.gr), Background(p.gr))
      {
        if i > 0 {
          assert s[1..][i - 1] == s[i] && from + i == from + 1 + (i - 1);
        }
      }
    }
  }

  /** The first line shown once the cursor is on line `row`: the window follows the cursor in
      steps of `SCROLL_STEP` lines. */
  function Top(row: nat, height: nat): (t: nat)
    requires height >= SCROLL_STEP
    ensures t % SCROLL_STEP == 0 && t <= row < t + height
    ensures t > 0 ==> row >= t + height - SCROLL_STEP
  {
    if row < height then 0 else ((row - height) / SCROLL_STEP + 1) * SCROLL_STEP
  }

  lemma TopOfNext(row: nat, height: nat)
    requires height >= SCROLL_STEP
    ensures var t := Top(row, height);
            Top(row + 1, height) == (if row + 1 - t >= height then t + 4 else t) && (row < height ==> t == 0)
  {}

  lemma CellInside(width: nat, height: nat, x: nat, y: nat)
    requires x < width && y < height
    ensures y * width + x < width * height
  {
    assert (y + 1) * width <= height * width;
  }

  lemma {:induction false} AdvanceKeepsCells(p: Paper, width: nat, n: nat)
    ensures AdvanceBy(p, width, n).cells == p.cells
    decreases n
  {
    if n > 0 { AdvanceKeepsCells(AdvanceX(p, width), width, n - 1); }
  }

  lemma {:induction false} AdvanceSplits(p: Paper, width: nat, n: nat)
    ensures AdvanceBy(p, width, n + 1) == AdvanceX(AdvanceBy(p, width, n), width)
    decreases n
  {
    if n > 0 { AdvanceSplits(AdvanceX(p, width), width, n - 1); }
  }

  /** The buffer holds the paper from position `base` on. */
  ghost predicate Shows(b: seq<Cell>, f: int -> Cell, base: int) {
    forall i :: 0 <= i < |b| ==> b[i] == f(base + i)
  }

  ghost predicate Empty(f: int -> Cell, from: int) {
    forall j :: j >= from ==> f(j) == BLANK
  }

  lemma PutShows(b: seq<Cell>, f: int -> Cell, base: int, from: int, at: nat, c: Cell)
    requires Shows(b, f, base) && Empty(f, from) && at < |b| && base + at < from
    ensures Shows(b[at := c], PutCell(f, base + at, c), base) && Empty(PutCell(f, base + at, c), from)
  {}

  lemma PlaceOnPaper(width: nat, height: nat, top: nat, x: nat, y: nat)
    requires x < width && y < height
    ensures y * width + x < width * height
    ensures (top + y) * width + x == top * width + (y * width + x) < (top + height) * width
  {
    CellInside(width, height, x, y);
    assert (top + y) * width == top * width + y * width;
    assert (top + height) * width == top * width + height * width;
  }

  lemma ScrollShows(b: seq<Cell>, b': seq<Cell>, f: int -> Cell, top: nat, width: nat, height: nat)
    requires height >= SCROLL_STEP && |b| == |b'| == width * height
    requires Shows(b, f, top * width) && Empty(f, (top + height) * width)
    requires forall i :: 0 <= i < width * (height - SCROLL_STEP) ==> b'[i] == b[i + width * SCROLL_STEP]
    requires forall i :: width * (height - SCROLL_STEP) <= i < |b'| ==> b'[i] == BLANK
    ensures Shows(b', f, (top + SCROLL_STEP) * width) && Empty(f, (top + SCROLL_STEP + height) * width)
  {}

  // ----- The terminal

  class Terminal {
    const width: nat
    const height: nat
    const buf: array<Cell>      // _vt_buffer
    const screen: array<Drawn>  // what the frame buffer shows, cell by cell
    var x: nat
    var y: nat
    var dirtyStart: nat
    var dirtyEnd: nat
    var dirty: bool
    var fullRedraw: bool
    var gr: Rendition
    var termcode: bool
    var attached: bool          // a process owns the screen: nothing may be drawn

    ghost predicate Shape()
      reads this
    {
      && width >= 1 && height >= SCROLL_STEP
      && buf.Length == screen.Length == width * height
      && x < width && y < height
    }

    /** Each cell of the screen shows the buffer, or will be redrawn by the next flush. */
    ghost predicate Coherent()
      reads this, buf, screen
    {
      buf.Length == screen.Length && forall i :: 0 <= i < buf.Length ==>
        screen[i] == Draw(buf[i]) || fullRedraw || (dirty && dirtyStart <= i <= dirtyEnd)
    }

    /** The screen is the picture of the buffer. */
    ghost predicate Shown()
      reads this, buf, screen
    {
      buf.Length == screen.Length && forall i :: 0 <= i < buf.Length ==> screen[i] == Draw(buf[i])
    }

    /** The buffer is the window of `height` lines of the paper that `Top` says, and nothing
        is printed below it. */
    ghost predicate Window(p: Paper)
      reads this, buf
    {
      && height >= SCROLL_STEP && buf.Length == width * height
      && p.col == x && p.row == Top(p.row, height) + y && p.gr == gr && p.termcode == termcode
      && Shows(buf[..], p.cells, Top(p.row, height) * width)
      && Empty(p.cells, (Top(p.row, height) + height) * width)
    }

    ghost predicate Valid()
      reads this, buf, screen
    {
      Shape() && Coherent()
    }

    /** `vt_init`, with whatever the new pages hold in the buffer. */
    constructor (width: nat, height: nat, buf: array<Cell>, screen: array<Drawn>, attached: bool)
      requires width >= 1 && height >= SCROLL_STEP && buf.Length == screen.Length == width * height
      modifies buf, screen
      ensures this.buf == buf && this.screen == screen && this.width == width && this.height == height
      ensures Valid() && this.attached == attached && (!attached ==> Shown())
      ensures Window(NewPaper(PLAIN, false))
    {
      this.width, this.height, this.buf, this.screen := width, height, buf, screen;
      this.attached := attached;
      x, y, dirtyStart, dirtyEnd, dirty, fullRedraw := 0, 0, 0, 0, false, false;
      gr := PLAIN;
      termcode := false;
      new;
      Clear();
    }

    /** `vt_clear`. */
    method Clear()
      requires width >= 1 && height >= SCROLL_STEP && buf.Length == screen.Length == width * height
      modifies this`x, this`y, this`dirty, this`dirtyStart, this`dirtyEnd, this`fullRedraw, buf, screen
      ensures Valid() && (!attached ==> Shown())
      ensures Window(NewPaper(gr, termcode))
    {
      x, y := 0, 0;
      forall i | 0 <= i < buf.Length { buf[i] := BLANK; }
      fullRedraw := true;
      CellInside(width, height, 0, 0);
      Flush();
    }

    /** `vt_flush`. */
    method Flush()
      requires Valid()
      modifies this`dirty, this`dirtyStart, this`dirtyEnd, this`fullRedraw, screen
      ensures Valid() && (!attached ==> Shown() && !fullRedraw && !dirty)
      ensures attached ==> screen[..] == old(screen[..])
    {
      if attached { return; }
      if fullRedraw {
        forall i | 0 <= i < screen.Length { screen[i] := Filled(0); }
        for i := 0 to width * height
          modifies screen
          invariant forall j :: 0 <= j < i ==> screen[j] == Draw(buf[j])
        {
          screen[i] := Draw(buf[i]);
        }
        fullRedraw := false;
        dirty := false;
      }
      if dirty {
        var i := dirtyStart;
        while i <= dirtyEnd && i < width * height
          modifies screen
          invariant dirtyStart <= i
          invariant forall j :: 0 <= j < buf.Length ==> screen[j] == Draw(buf[j]) || i <= j <= dirtyEnd
          decreases dirtyEnd + 1 - i
        {
          screen[i] := Draw(buf[i]);
          i := i + 1;
        }
        dirty := false;
      }
      dirtyStart := width * height;
      dirtyEnd := 1;
    }

    /** `vt_redraw`: whatever the screen held, it shows just what any flush shows. */
    method Redraw()
      requires Shape()
      modifies this`dirty, this`dirtyStart, this`dirtyEnd, this`fullRedraw, screen
      ensures Valid() && (!attached ==> Shown() && !fullRedraw && !dirty)
    {
      fullRedraw := true;
      Flush();
    }

    /** `kmemmove` of `kept` cells to the front, on records what `MemoryCopy.MoveRecords` does on
        their bytes. */
    method MoveUp(kept: nat, shift: nat)
      requires kept + shift <= buf.Length
      modifies buf
      ensures buf[..] == MemoryCopy.Copied(old(buf[..]), 0, old(buf[..]), shift, kept)
      ensures forall i :: 0 <= i < kept ==> buf[i] == old(buf[..])[i + shift]
    {
      forall i | 0 <= i < kept { buf[i] := buf[i + shift]; }
    }

    /** Move the cells up, and clear the rest with `kmemset`. */
    method Shift(kept: nat, shift: nat)
      requires kept + shift == buf.Length
      modifies buf
      ensures forall i :: 0 <= i < kept ==> buf[i] == old(buf[..])[i + shift]
      ensures forall i :: kept <= i < buf.Length ==> buf[i] == BLANK
    {
      hide MemoryCopy.Copied;
      MoveUp(kept, shift);
      forall i | kept <= i < kept + shift { buf[i] := BLANK; }
    }

    /** The scrolling of `vt_advance_y`. */
    method Scroll(ghost f: int -> Cell, ghost top: nat)
      requires width >= 1 && height >= SCROLL_STEP && buf.Length == width * height
      requires Shows(buf[..], f, top * width) && Empty(f, (top + height) * width)
      modifies buf
      ensures Shows(buf[..], f, (top + SCROLL_STEP) * width) && Empty(f, (top + SCROLL_STEP + height) * width)
    {
      hide Shows, Empty;
      ghost var was := buf[..];
      Shift(width * (height - SCROLL_STEP), width * SCROLL_STEP);
      ScrollShows(was, buf[..], f, top, width, height);
    }

    /** `vt_advance_y`. */
    method AdvanceDown(ghost p: Paper)
      requires Valid() && Window(p)
      modifies this`y, this`dirty, this`dirtyStart, this`dirtyEnd, this`fullRedraw, buf, screen
      ensures Valid() && Window(p.(row := p.row + 1))
    {
      hide Shows, Empty, Top;
      TopOfNext(p.row, height);
      y := y + 1;
      dirty := true;
      if y >= height {
        y := y - SCROLL_STEP;
        Scroll(p.cells, Top(p.row, height));
        fullRedraw := true;
      }
      Flush();
    }

    /** `vt_advance_x`. */
    method AdvanceRight(ghost p: Paper)
      requires Valid() && Window(p)
      modifies this`x, this`y, this`dirty, this`dirtyStart, this`dirtyEnd, this`fullRedraw, buf, screen
      ensures Valid() && Window(AdvanceX(p, width))
    {
      hide Shows, Empty, Top;
      x := x + 1;
      if x >= width {
        x := 0;
        AdvanceDown(p.(col := 0));
      }
    }

    method Touch()
      requires Shape()
      modifies this`dirtyStart, this`dirtyEnd
      ensures dirtyStart <= y * width + x <= dirtyEnd
      ensures dirtyStart <= old(dirtyStart) && old(dirtyEnd) <= dirtyEnd
    {
      var at := y * width + x;
      dirtyStart := if at < dirtyStart then at else dirtyStart;
      dirtyEnd := if at > dirtyEnd then at else dirtyEnd;
    }

    /** The default case of `kprintc`. */
    method Put(ghost p: Paper, c: int)
      requires Valid() && Window(p)
      modifies this`x, this`y, this`dirty, this`dirtyStart, this`dirtyEnd, this`fullRedraw, buf, screen
      ensures Valid() && Window(AdvanceX(Written(p, width, c), width))
    {
      hide Shows, Empty, Top, PutCell;
      Touch();
      PlaceOnPaper(width, height, Top(p.row, height), x, y);
      var at, cell := y * width + x, Cell(c, Foreground(gr), Background(gr));
      PutShows(buf[..], p.cells, Top(p.row, height) * width, (Top(p.row, height) + height) * width, at, cell);
      buf[at] := cell;
      dirty := true;
      Touch();
      AdvanceRight(Written(p, width, c));
    }

    /** `kprintc`. */
    method Kprintc(ghost p: Paper, c: int)
      requires Valid() && Window(p) && Printable(p, c)
      modifies this`x, this`y, this`dirty, this`dirtyStart, this`dirtyEnd, this`fullRedraw, this`gr, this`termcode,
               buf, screen
      ensures Valid() && Window(PaperStep(p, width, c))
    {
      hide Shows, Empty, Top;
      if termcode {
        gr := Recolor(gr, c);
        termcode := false;
      } else if c == LF {
        dirty := true;
        Touch();
        Flush();
        AdvanceDown(p);
      } else if c == CR {
        x := 0;
      } else if c == BS {
        x := x - 1;
      } else if c == BEL {
        termcode := true;
      } else if c == TAB {
        for i := 0 to 8
          invariant Valid() && Window(AdvanceBy(p, width, i)) && gr == old(gr) && termcode == old(termcode)
        {
          AdvanceSplits(p, width, i);
          AdvanceRight(AdvanceBy(p, width, i));
        }
      } else {
        Put(p, c);
      }
    }

    /** `kprint`, with the string given without its final NUL. */
    method Kprint(ghost p: Paper, s: seq<int>)
      requires Valid() && Window(p) && PrintableString(p, width, s)
      modifies this`x, this`y, this`dirty, this`dirtyStart, this`dirtyEnd, this`fullRedraw, this`gr, this`termcode,
               buf, screen
      ensures Valid() && Window(PaperRun(p, width, s))
      ensures !attached ==> Shown()
    {
      hide Shows, Empty, Top, Printable, PaperStep;
      ghost var q := p;
      for i := 0 to |s|
        invariant Valid() && Window(q)
        invariant PrintableString(q, width, s[i..]) && PaperRun(q, width, s[i..]) == PaperRun(p, width, s)
      {
        assert s[i..][1..] == s[i + 1..];
        Kprintc(q, s[i]);
        q := PaperStep(q, width, s[i]);
      }
      Flush();
    }
  }
}
