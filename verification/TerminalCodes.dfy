/** What the rendition codes of `kprint` look like on the screen, and where its control
    characters move the cursor. */
module TerminalCodes {
  import opened Terminal

  /** A character that is drawn rather than obeyed. */
  predicate Inked(ch: int) { ch !in {0x00, 0x07, 0x08, 0x09, 0x0a, 0x0d} }

  lemma PrintOne(p: Paper, width: nat, c: int)
    requires Printable(p, c)
    ensures PrintableString(p, width, [c]) && PaperRun(p, width, [c]) == PaperStep(p, width, c)
  {
    assert [c][1..] == [];
    assert PaperRun(PaperStep(p, width, c), width, []) == PaperStep(p, width, c);
  }

  /** The code behind a BEL changes the rendition for what follows, and nothing else. */
  lemma CodeChanges(p: Paper, width: nat, code: int)
    requires !p.termcode
    ensures PrintableString(p, width, [0x07, code])
    ensures var q := PaperRun(p, width, [0x07, code]); q == p.(gr := q.gr)
    ensures var g, r := p.gr, PaperRun(p, width, [0x07, code]).gr;
            && (r.dim <==> code == 0x02 || (g.dim && code !in {0x01, 0x05}))
            && (r.bold <==> code == 0x03 || (g.bold && code !in {0x01, 0x06}))
            && (r.reverse <==> code == 0x04 || (g.reverse && code !in {0x01, 0x07}))
            && r.fg == (if code == 0x01 then 7 else if 0x11 <= code <= 0x18 then code - 0x11 else g.fg)
            && r.bg == (if code == 0x01 then 0 else if 0x21 <= code <= 0x28 then code - 0x21 else g.bg)
  {
    PrintOne(p, width, 0x07);
    PrintOne(PaperStep(p, width, 0x07), width, code);
    PrintInParts(p, width, [0x07], [code]);
    assert [0x07, code] == [0x07] + [code];
  }

  /** The colours a character is drawn in: bold over dim over normal for the foreground, normal
      for the background, and the two exchanged in reverse. */
  lemma InkShows(p: Paper, width: nat, ch: int)
    requires !p.termcode && Inked(ch)
    ensures PrintableString(p, width, [ch])
    ensures var g, d := p.gr, Draw(PaperRun(p, width, [ch]).cells(p.row * width + p.col));
            var normal := [0x000000, 0xd32f2f, 0xafb42b, 0xfbc02d, 0x512da8, 0x7b1fa2, 0xfbc02d, 0xeeeeee];
            var dark := [0x000000, 0xb71c1c, 0x827717, 0xf57f17, 0x311b92, 0x4a148c, 0xf57f17, 0x9e9e9e];
            var bright := [0x7f7f7f, 0xf44336, 0xcddc39, 0xffeb3b, 0x673ab7, 0x8e24aa, 0xffeb3b, 0xffffff];
            var ink := if g.bold then bright[g.fg] else if g.dim then dark[g.fg] else normal[g.fg];
            d == if g.reverse then Glyph(ch, normal[g.bg], ink) else Glyph(ch, ink, normal[g.bg])
    ensures forall i :: i != p.row * width + p.col ==> PaperRun(p, width, [ch]).cells(i) == p.cells(i)
  {
    PrintOne(p, width, ch);
  }

  /** BEL, a code and a character: the character is drawn as the code says. */
  lemma CodePrints(p: Paper, width: nat, code: int, ch: int)
    requires !p.termcode && Inked(ch)
    ensures PrintableString(p, width, [0x07, code]) && PrintableString(p, width, [0x07, code, ch])
    ensures var q := PaperRun(p, width, [0x07, code]);
            PrintableString(q, width, [ch]) && PaperRun(p, width, [0x07, code, ch]) == PaperRun(q, width, [ch])
  {
    hide PaperStep, PaperRun;
    CodeChanges(p, width, code);
    InkShows(PaperRun(p, width, [0x07, code]), width, ch);
    PrintInParts(p, width, [0x07, code], [ch]);
    assert [0x07, code, ch] == [0x07, code] + [ch];
  }

  /** All codes, on a fresh terminal. */
  lemma CodesOnBlank(width: nat, code: int, ch: int)
    requires Inked(ch)
    ensures PrintableString(NewPaper(PLAIN, false), width, [0x07, code, ch])
    ensures var d := Draw(PaperRun(NewPaper(PLAIN, false), width, [0x07, code, ch]).cells(0));
            && (code in {0x01, 0x05, 0x06, 0x07} ==> d == Glyph(ch, 0xeeeeee, 0x000000))
            && (code == 0x02 ==> d == Glyph(ch, 0x9e9e9e, 0x000000))
            && (code == 0x03 ==> d == Glyph(ch, 0xffffff, 0x000000))
            && (code == 0x04 ==> d == Glyph(ch, 0x000000, 0xeeeeee))
            && (code == 0x11 ==> d == Glyph(ch, 0x000000, 0x000000))
            && (code == 0x12 ==> d == Glyph(ch, 0xd32f2f, 0x000000))
            && (code == 0x13 ==> d == Glyph(ch, 0xafb42b, 0x000000))
            && (code == 0x14 ==> d == Glyph(ch, 0xfbc02d, 0x000000))
            && (code == 0x15 ==> d == Glyph(ch, 0x512da8, 0x000000))
            && (code == 0x16 ==> d == Glyph(ch, 0x7b1fa2, 0x000000))
            && (code == 0x17 ==> d == Glyph(ch, 0xfbc02d, 0x000000))
            && (code == 0x18 ==> d == Glyph(ch, 0xeeeeee, 0x000000))
            && (code == 0x21 ==> d == Glyph(ch, 0xeeeeee, 0x000000))
            && (code == 0x22 ==> d == Glyph(ch, 0xeeeeee, 0xd32f2f))
            && (code == 0x23 ==> d == Glyph(ch, 0xeeeeee, 0xafb42b))
            && (code == 0x24 ==> d == Glyph(ch, 0xeeeeee, 0xfbc02d))
            && (code == 0x25 ==> d == Glyph(ch, 0xeeeeee, 0x512da8))
            && (code == 0x26 ==> d == Glyph(ch, 0xeeeeee, 0x7b1fa2))
            && (code == 0x27 ==> d == Glyph(ch, 0xeeeeee, 0xfbc02d))
            && (code == 0x28 ==> d == Glyph(ch, 0xeeeeee, 0xeeeeee))
  {
    hide PaperStep, PaperRun, PrintableString, Draw;
    var p := NewPaper(PLAIN, false);
    CodePrints(p, width, code, ch);
    CodeChanges(p, width, code);
    InkShows(PaperRun(p, width, [0x07, code]), width, ch);
  }

  // ----- Control characters

  lemma {:induction false} AdvanceMoves(p: Paper, width: nat, n: nat)
    requires p.col < width
    ensures var q := AdvanceBy(p, width, n);
            q == p.(row := q.row, col := q.col) && q.col < width && q.row * width + q.col == p.row * width + p.col + n
    decreases n
  {
    if n > 0 {
      assert (p.row + 1) * width == p.row * width + width;
      AdvanceMoves(AdvanceX(p, width), width, n - 1);
    }
  }

  /** TAB goes eight columns right, onto the next line where it must; LF one line down in the same
      column; CR to the start of the line; BS one column left.  None of them prints or erases
      anything or changes the colours. */
  lemma ControlsMove(p: Paper, width: nat)
    requires !p.termcode && p.col < width
    ensures forall c :: c in {0x09, 0x0a, 0x0d} ==> PrintableString(p, width, [c])
    ensures var q := PaperRun(p, width, [0x09]);
            q == p.(row := q.row, col := q.col) && q.col < width && q.row * width + q.col == p.row * width + p.col + 8
    ensures PaperRun(p, width, [0x0a]) == p.(row := p.row + 1)
    ensures PaperRun(p, width, [0x0d]) == p.(col := 0)
    ensures if p.col > 0 then PrintableString(p, width, [0x08]) && PaperRun(p, width, [0x08]) == p.(col := p.col - 1)
            else !PrintableString(p, width, [0x08])
  {
    PrintOne(p, width, 0x09);
    PrintOne(p, width, 0x0a);
    PrintOne(p, width, 0x0d);
    if p.col > 0 { PrintOne(p, width, 0x08); }
    AdvanceMoves(p, width, 8);
  }

  /** A cleared terminal is black, with the cursor in its corner. */
  lemma BlankIsBlack(gr: Rendition, i: int)
    ensures var p := NewPaper(gr, false); p.row == 0 == p.col && Draw(p.cells(i)) == Filled(0x000000)
  {}
}
