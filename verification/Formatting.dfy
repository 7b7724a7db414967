/** `kvfprintf`: formatted output into a buffer that grows as it fills. */
module Formatting {
  import opened Machine
  import opened MemoryCopy
  import opened NumberText

  datatype Arg = Number(n: int) | Chars(text: seq<Byte>)

  // The characters of the format language.
  const PERCENT: Byte := 37
  const D: Byte := 100
  const I: Byte := 105
  const L: Byte := 108
  const O: Byte := 111
  const S: Byte := 115
  const U: Byte := 117
  const W: Byte := 119
  const X: Byte := 120

  type Directive = c: Byte | c in {D, I, L, O, U, X} witness D

  /** How a number is written. */
  datatype Style = Style(base: nat, places: nat, unsign: bool, pad: bool)

  /** The buffer for one number has room for all places and the final NUL. */
  predicate SoundStyle(s: Style) {
    2 <= s.base <= 16 && 1 <= s.places <= 128 && (s.unsign || s.places < 128)
  }

  /** `%d` is binary and unsigned, `%o` and `%i` carry a sign, `%l` is padded. */
  function StyleOf(c: Directive): (s: Style)
    ensures SoundStyle(s)
  {
    if c == D then Style(2, 128, true, false)
    else if c == O then Style(8, 32, false, false)
    else if c == I then Style(10, 30, false, false)
    else if c == U then Style(10, 30, true, false)
    else if c == X then Style(16, 16, true, false)
    else Style(16, 16, true, true)
  }

  /** A format string is a list of pieces. */
  datatype Piece = Literal(c: Byte) | NumberField(d: Directive) | StringField | WordField

  /** The piece that a character makes, if any: after `%`, a character that is no directive is
      passed over. */
  function PieceOf(c: Byte, inside: bool): seq<Piece> {
    if !inside then if c == PERCENT then [] else [Literal(c)]
    else if c in {D, I, L, O, U, X} then [NumberField(c)]
    else if c == S then [StringField]
    else if c == W then [WordField]
    else []
  }

  predicate InsideAfter(c: Byte, inside: bool) {
    if inside then PieceOf(c, true) == [] else c == PERCENT
  }

  function Pieces(fmt: seq<Byte>, inside: bool): seq<Piece>
    decreases |fmt|
  {
    if fmt == [] then [] else PieceOf(fmt[0], inside) + Pieces(fmt[1..], InsideAfter(fmt[0], inside))
  }

  /** Is the reader inside a field after `fmt`? */
  predicate Inside(fmt: seq<Byte>, inside: bool)
    decreases |fmt|
  {
    if fmt == [] then inside else Inside(fmt[1..], InsideAfter(fmt[0], inside))
  }

  /** Fields use up one argument each. */
  function Uses(p: Piece): nat { if p.Literal? then 0 else 1 }

  /** The next argument is of the kind that the piece asks for; `%w` is not modelled. */
  predicate Fits(p: Piece, args: seq<Arg>) {
    match p
    case Literal(_) => true
    case NumberField(_) => args != [] && args[0].Number? && -U64 / 2 <= args[0].n < U64 / 2
    case StringField => args != [] && args[0].Chars? && 0 !in args[0].text
    case WordField => false
  }

  /** There are arguments enough, of the right kinds. */
  predicate Matches(ps: seq<Piece>, args: seq<Arg>)
    decreases |ps|
  {
    ps == [] || (Fits(ps[0], args) && Uses(ps[0]) <= |args| && Matches(ps[1..], args[Uses(ps[0])..]))
  }

  function FieldText(style: Style, n: int): seq<Byte>
    requires -U64 / 2 <= n < U64 / 2 && style.base >= 2 && style.places >= 1
  {
    Result(n, style.base, style.places, style.unsign, style.pad)
  }

  function PieceText(p: Piece, args: seq<Arg>): seq<Byte>
    requires Fits(p, args)
  {
    match p
    case Literal(c) => [c]
    case NumberField(d) => FieldText(StyleOf(d), args[0].n)
    case StringField => args[0].text
  }

  /** The text of the pieces, one after the other. */
  function Render(ps: seq<Piece>, args: seq<Arg>): seq<Byte>
    requires Matches(ps, args)
    decreases |ps|
  {
    if ps == [] then [] else PieceText(ps[0], args) + Render(ps[1..], args[Uses(ps[0])..])
  }

  /** The pieces of two format strings in a row. */
  lemma {:induction false} PiecesOfBoth(f: seq<Byte>, g: seq<Byte>, inside: bool)
    ensures Pieces(f + g, inside) == Pieces(f, inside) + Pieces(g, Inside(f, inside))
    decreases |f|
  {
    if f == [] {
      assert f + g == g;
    } else {
      assert (f + g)[1..] == f[1..] + g;
      PiecesOfBoth(f[1..], g, InsideAfter(f[0], inside));
    }
  }

  function Fields(ps: seq<Piece>): nat
    decreases |ps|
  {
    if ps == [] then 0 else Uses(ps[0]) + Fields(ps[1..])
  }

  lemma MoreArguments(p: Piece, args: seq<Arg>, more: seq<Arg>)
    requires Fits(p, args) && Uses(p) <= |args|
    ensures Fits(p, args + more) && PieceText(p, args + more) == PieceText(p, args)
    ensures (args + more)[Uses(p)..] == args[Uses(p)..] + more
  {}

  /** Pieces behind a piece. */
  lemma RenderHead(p: Piece, ps: seq<Piece>, args: seq<Arg>)
    ensures Matches([p] + ps, args) <==> Fits(p, args) && Uses(p) <= |args| && Matches(ps, args[Uses(p)..])
    ensures Matches([p] + ps, args) ==> Render([p] + ps, args) == PieceText(p, args) + Render(ps, args[Uses(p)..])
  {}

  lemma {:induction false} RenderOfBoth(ps: seq<Piece>, qs: seq<Piece>, args: seq<Arg>, more: seq<Arg>)
    requires Matches(ps, args) && Matches(qs, more) && |args| == Fields(ps)
    ensures Matches(ps + qs, args + more) && Render(ps + qs, args + more) == Render(ps, args) + Render(qs, more)
    decreases |ps|
  {
    if ps == [] {
      hide Fits, PieceText, FieldText, Uses;
      assert ps + qs == qs && args + more == more;
    } else {
      hide Fits, PieceText, Uses, Matches, Render, FieldText;
      var p, rest := ps[0], ps[1..];
      assert ps == [p] + rest && ps + qs == [p] + (rest + qs);
      RenderHead(p, rest, args);
      MoreArguments(p, args, more);
      RenderOfBoth(rest, qs, args[Uses(p)..], more);
      RenderHead(p, rest + qs, args + more);
    }
  }

  /** Formatting two format strings in a row is formatting each, and putting the texts in a row. */
  lemma FormatOfBoth(f: seq<Byte>, g: seq<Byte>, args: seq<Arg>, more: seq<Arg>)
    requires !Inside(f, false) && |args| == Fields(Pieces(f, false))
    requires Matches(Pieces(f, false), args) && Matches(Pieces(g, false), more)
    ensures Matches(Pieces(f + g, false), args + more)
    ensures Render(Pieces(f + g, false), args + more) == Render(Pieces(f, false), args) + Render(Pieces(g, false), more)
  {
    PiecesOfBoth(f, g, false);
    RenderOfBoth(Pieces(f, false), Pieces(g, false), args, more);
  }

  /** Text without `%` is copied out. */
  lemma {:induction false} LiteralText(fmt: seq<Byte>)
    requires 37 !in fmt
    ensures Matches(Pieces(fmt, false), []) && Render(Pieces(fmt, false), []) == fmt
    decreases |fmt|
  {
    if fmt != [] {
      LiteralText(fmt[1..]);
      var ps := Pieces(fmt, false);
      assert ps[1..] == Pieces(fmt[1..], false);
    }
  }

  lemma {:induction false} PowAdds(base: nat, j: nat, k: nat)
    ensures Pow(base, j + k) == Pow(base, j) * Pow(base, k)
    decreases j
  {
    if j > 0 {
      PowAdds(base, j - 1, k);
      assert base * (Pow(base, j - 1) * Pow(base, k)) == (base * Pow(base, j - 1)) * Pow(base, k);
    }
  }

  lemma ProductAtLeast(a: nat, b: nat, v: nat, w: nat)
    requires a >= v && b >= w
    ensures a * b >= v * w
  {}

  lemma SmallPowers()
    ensures Pow(2, 4) == 16 && Pow(8, 4) == 0x1000 && Pow(16, 4) == 0x1_0000 && Pow(10, 10) == 10_000_000_000
  {}

  lemma PlacesSuffice()
    ensures Pow(2, 128) >= U64 && Pow(8, 32) >= U64 && Pow(10, 30) >= U64 && Pow(16, 16) >= U64
  {
    hide Pow;
    SmallPowers();
    PowAdds(2, 4, 4);
    PowAdds(2, 8, 8);
    PowAdds(2, 16, 16);
    PowAdds(2, 32, 32);
    PowAdds(2, 64, 64);
    ProductAtLeast(Pow(2, 64), Pow(2, 64), U64, 1);
    PowAdds(8, 4, 4);
    PowAdds(8, 8, 8);
    PowAdds(8, 16, 16);
    PowAdds(10, 10, 10);
    PowAdds(10, 20, 10);
    PowAdds(16, 4, 4);
    PowAdds(16, 8, 8);
  }

  /** Every unsigned field reads back as its 64-bit argument: there are places enough. */
  lemma FieldReadsBack(c: Directive, n: int)
    requires c !in {I, O} && -U64 / 2 <= n < U64 / 2
    ensures ReadNumber(FieldText(StyleOf(c), n), StyleOf(c).base) == n % U64
  {
    hide CString, Written, ReadNumber, Pow;
    var s := StyleOf(c);
    PlacesSuffice();
    UnsignedReadsBack(n, s.base, s.places, s.pad);
    UniqueRemainder(Magnitude(n, true), Pow(s.base, s.places), 0, Magnitude(n, true));
  }

  lemma OneField(c: Byte, n: int)
    requires c in {D, I, L, O, U, X} && -U64 / 2 <= n < U64 / 2
    ensures Matches(Pieces([37, c], false), [Number(n)])
    ensures Render(Pieces([37, c], false), [Number(n)]) == FieldText(StyleOf(c), n)
  {
    hide FieldText;
    OneDirective(c);
    assert Pieces([37, c], false) == [NumberField(c)];
    assert [Number(n)][1..] == [];
  }

  lemma OneDirective(c: Byte)
    ensures Pieces([37, c], false) == PieceOf(c, true)
  {
    assert [37, c][1..] == [c] && [c][1..] == [];
    assert Pieces([c], true) == PieceOf(c, true) + Pieces([], InsideAfter(c, true));
  }

  /** `%d` is binary, `%u` decimal, `%x` and `%l` hexadecimal: each reads back, in that base, as
      the argument without its sign.  `%l` fills sixteen places; the others have no leading zero. */
  lemma UnsignedFields(c: Byte, n: int)
    requires c in {100, 117, 120, 108} && -0x8000_0000_0000_0000 <= n < 0x8000_0000_0000_0000
    ensures Matches(Pieces([37, c], false), [Number(n)])
    ensures var t, b := Render(Pieces([37, c], false), [Number(n)]), if c == 100 then 2 else if c == 117 then 10 else 16;
            && ReadNumber(t, b) == n % 0x1_0000_0000_0000_0000
            && (if c == 108 then |t| == 16 else if n == 0 then t == [48] else t != [] && t[0] != 48)
  {
    hide CString, Written, ReadNumber, Pow, Render, Pieces, Matches, Numeral, Result;
    OneField(c, n);
    FieldReadsBack(c, n);
    PlacesSuffice();
    var s := StyleOf(c);
    UnsignedReadsBack(n, s.base, s.places, s.pad);
    if c != 108 {
      UnpaddedText(n, s.base, s.places);
    }
  }

  lemma UnpaddedText(n: int, base: nat, places: nat)
    requires 2 <= base <= 60 && places >= 1 && -U64 / 2 <= n < U64 / 2 && Pow(base, places) >= U64
    ensures var t := Result(n, base, places, true, false); if n == 0 then t == [48] else t != [] && t[0] != 48
  {
    hide Result, Pow, Numeral;
    if n == 0 {
      ResultOfZero(base, places, true, false);
      assert Fill(48, 1) == [48];
    } else {
      ResultIsText(n, base, places, true, false);
      UnsignedText(n, base, places);
      NoLeadingZero(Magnitude(n, true), base, places);
    }
  }

  /** `%i` is decimal and `%o` octal, both with a sign, which is all that is left of a number
      below zero. */
  lemma SignedFields(c: Byte, n: int)
    requires c in {105, 111} && -0x8000_0000_0000_0000 <= n < 0x8000_0000_0000_0000
    ensures Matches(Pieces([37, c], false), [Number(n)])
    ensures var t, b := Render(Pieces([37, c], false), [Number(n)]), if c == 105 then 10 else 8;
            if n < 0 then t == [45]
            else if n == 0 then t == [48]
            else |t| > 1 && t[0] == 43 && t[1] != 48 && ReadNumber(t[1..], b) == n
  {
    hide CString, Written, ReadNumber, Pow, Render, Pieces, Matches, Numeral, Result;
    OneField(c, n);
    PlacesSuffice();
    var s := StyleOf(c);
    if n < 0 {
      NegativesLookAlike(n, s.base, s.places);
    } else {
      SignedReadsBack(n, s.base, s.places, false);
      UniqueRemainder(n, Pow(s.base, s.places), 0, n);
      if n == 0 {
        assert Fill(48, 1) == [48];
      } else {
        NoLeadingZero(n, s.base, s.places);
        var d := Numeral(n, s.base, s.places);
        assert ([43] + d)[1..] == d;
      }
    }
  }

  /** `%s` is the string; a character behind `%` that is no directive, another `%` among them,
      is passed over, and the field goes on. */
  lemma OtherFields(text: seq<Byte>, c: Byte, rest: seq<Byte>)
    requires 0 !in text && c !in {100, 105, 108, 111, 115, 117, 119, 120}
    ensures Matches(Pieces([37, 115], false), [Chars(text)]) && Render(Pieces([37, 115], false), [Chars(text)]) == text
    ensures Pieces([37, c] + rest, false) == Pieces([37] + rest, false)
  {
    OneDirective(115);
    assert [Chars(text)][1..] == [];
    var f := [37, c] + rest;
    assert f[0] == 37 && f[1..] == [c] + rest && f[1..][1..] == rest;
    assert ([37] + rest)[1..] == rest;
    assert Pieces(f, false) == [] + Pieces(f[1..], true);
    assert Pieces(f[1..], true) == [] + Pieces(rest, true);
  }

  // ----- The buffer

  /** `krealloc`, with memory in supply. */
  method Krealloc(p: array<Byte>, size: nat, was: nat) returns (n: array<Byte>)
    requires was <= p.Length
    ensures if size == was then n == p else fresh(n) && n.Length == size
    ensures size != was ==> forall i :: 0 <= i < size ==> n[i] == if i < was then p[i] else 0
  {
    if size == was { return p; }
    n := new Byte[size](_ => 0);
    var least := if size < was then size else was;
    Kmemcpy(n, 0, p, 0, least);
  }

  /** `_string_op`: grow by sixteen bytes at a time until `needed` bytes and four more fit. */
  method StringOp(s: array<Byte>, needed: nat) returns (n: array<Byte>)
    ensures n == s || fresh(n)
    ensures n.Length >= needed + 4 && n.Length >= s.Length && n[..s.Length] == old(s[..])
  {
    n := s;
    while n.Length < needed + 4
      invariant n == s || fresh(n)
      invariant n.Length >= s.Length && n[..s.Length] == old(s[..])
      decreases needed + 4 - n.Length
    {
      var m := Krealloc(n, n.Length + 16, n.Length);
      assert m[..s.Length] == n[..s.Length];
      n := m;
    }
  }

  /** Put the text in `src` behind the `used` bytes of the output. */
  method Append(s: array<Byte>, used: nat, src: array<Byte>, count: nat) returns (n: array<Byte>)
    requires used <= s.Length && count <= src.Length && s != src
    modifies s
    ensures n == s || fresh(n)
    ensures n.Length >= used + count + 4 && n[..used + count] == old(s[..used]) + old(src[..count])
  {
    n := StringOp(s, used + count);
    Kmemcpy(n, used, src, 0, count);
  }

  /** The cases of the directive, which fall through from one to the next. */
  method ReadDirective(c: Directive) returns (style: Style)
    ensures style == StyleOf(c)
  {
    var base, sign, pad := 0, true, false;
    if c == L { pad := true; }
    if c in {L, X} { base := base + 6; }
    if c in {L, X, U} { sign := false; }
    if c in {L, X, U, I} { base := base + 2; }
    if c in {L, X, U, I, O} { base := base + 6; }
    base := base + 2;
    if base == 2 { sign := false; }
    var places := if base == 2 then 128 else if base == 8 then 32 else if base == 10 then 30 else 16;
    return Style(base, places, !sign, pad);
  }

  lemma {:induction false} CStringStops(w: seq<Byte>, rest: seq<Byte>)
    requires rest == [] || rest[0] == 0
    ensures CString(w + rest) == CString(w)
    decreases |w|
  {
    if w != [] {
      assert (w + rest)[1..] == w[1..] + rest;
      CStringStops(w[1..], rest);
    }
  }

  lemma NumbufText(all: seq<Byte>, style: Style, n: int)
    requires -U64 / 2 <= n < U64 / 2 && 2 <= style.base && 1 <= style.places <= 128 && |all| == 129
    requires all[..style.places + 1] == Written(n, style.base, style.places, style.unsign, style.pad)
    requires forall i :: style.places < i < 129 ==> all[i] == 0
    ensures CString(all) == FieldText(style, n)
  {
    hide Written;
    CStringStops(all[..style.places + 1], all[style.places + 1..]);
    assert all == all[..style.places + 1] + all[style.places + 1..];
  }

  lemma TextEnds(all: seq<Byte>, style: Style, n: int)
    requires -U64 / 2 <= n < U64 / 2 && SoundStyle(style) && |all| == 129
    requires all[..style.places + 1] == Written(n, style.base, style.places, style.unsign, style.pad)
    requires forall i :: style.places < i < 129 ==> all[i] == 0
    ensures 0 in all
  {
    var w := Written(n, style.base, style.places, style.unsign, style.pad);
    assert all[style.places] == w[style.places] && (style.unsign ==> w[style.places] == 0);
    assert style.places < 128 ==> all[128] == 0;
  }

  /** The text of a number, in the 129 bytes set aside for it. */
  method FormatNumber(style: Style, n: int) returns (numbuf: array<Byte>, count: nat)
    requires -U64 / 2 <= n < U64 / 2 && SoundStyle(style)
    ensures fresh(numbuf) && count <= numbuf.Length && numbuf[..count] == FieldText(style, n)
  {
    hide Written, FieldText, CString;
    numbuf := NumberBuffer(style, n);
    NumbufText(numbuf[..], style, n);
    TextEnds(numbuf[..], style, n);
    count := Kstrlen(numbuf);
  }

  method NumberBuffer(style: Style, n: int) returns (numbuf: array<Byte>)
    requires -U64 / 2 <= n < U64 / 2 && 2 <= style.base <= 16 && 1 <= style.places <= 128
    ensures fresh(numbuf) && numbuf.Length == 129
    ensures numbuf[..style.places + 1] == Written(n, style.base, style.places, style.unsign, style.pad)
    ensures forall i :: style.places < i < 129 ==> numbuf[i] == 0
  {
    hide Written;
    numbuf := new Byte[129](_ => 0);
    var _ := Ntos(numbuf, n, style.base, style.places, style.unsign, style.pad);
  }

  // ----- The state machine, character by character

  /** No piece or one piece in front. */
  lemma RenderFront(now: seq<Piece>, next: seq<Piece>, args: seq<Arg>)
    requires |now| <= 1 && Matches(now + next, args)
    ensures Matches(now, args) && Fields(now) <= |args| && Matches(next, args[Fields(now)..])
    ensures Render(now + next, args) == Render(now, args) + Render(next, args[Fields(now)..])
  {
    if now == [] {
      hide PieceText, Fits, FieldText;
      assert now + next == next && args[0..] == args;
    } else {
      hide PieceText, Fits, Uses, Matches, Render, Fields;
      assert now == [now[0]];
      RenderHead(now[0], next, args);
      SingleField(now[0], args);
    }
  }

  /** One character of the format contributes the text of its piece to that of all. */
  lemma CharStep(rest: seq<Byte>, inside: bool, args: seq<Arg>)
    requires rest != [] && Matches(Pieces(rest, inside), args)
    ensures Matches(PieceOf(rest[0], inside), args) && Fields(PieceOf(rest[0], inside)) <= |args|
    ensures var next, left := Pieces(rest[1..], InsideAfter(rest[0], inside)), args[Fields(PieceOf(rest[0], inside))..];
            && Matches(next, left)
            && Render(Pieces(rest, inside), args) == Render(PieceOf(rest[0], inside), args) + Render(next, left)
  {
    hide *;
    FirstPiece(rest, inside);
    RenderFront(PieceOf(rest[0], inside), Pieces(rest[1..], InsideAfter(rest[0], inside)), args);
  }

  lemma FirstPiece(rest: seq<Byte>, inside: bool)
    requires rest != []
    ensures |PieceOf(rest[0], inside)| <= 1
    ensures Pieces(rest, inside) == PieceOf(rest[0], inside) + Pieces(rest[1..], InsideAfter(rest[0], inside))
  {}

  lemma SingleField(p: Piece, args: seq<Arg>)
    requires Fits(p, args) && Uses(p) <= |args|
    ensures Matches([p], args) && Render([p], args) == PieceText(p, args) && Fields([p]) == Uses(p)
  {}

  /** The body of the loop of `kvfprintf`. */
  method Emit(r: array<Byte>, used: nat, c: Byte, inside: bool, args: seq<Arg>) returns (n: array<Byte>, used': nat)
    requires used <= r.Length && Matches(PieceOf(c, inside), args)
    modifies r
    ensures (n == r || fresh(n)) && used' <= n.Length
    ensures n[..used'] == old(r[..used]) + Render(PieceOf(c, inside), args)
  {
    hide FieldText;
    n, used' := r, used;
    if inside {
      if c in {D, I, L, O, U, X} {
        var style := ReadDirective(c);
        var numbuf, count := FormatNumber(style, args[0].n);
        n := Append(r, used, numbuf, count);
        used' := used + count;
      } else if c == S {
        var text := args[0].text;
        var aps := new Byte[|text|](i requires 0 <= i < |text| => text[i]);
        assert aps[..] == text;
        n := Append(r, used, aps, |text|);
        used' := used + |text|;
      }
    } else if c != PERCENT {
      used' := used + 1;
      n := StringOp(r, used' + 1);
      assert n[..used] == old(r[..used]) by { assert n[..used] == n[..r.Length][..used]; }
      n[used] := c;
    }
  }

  /** `kvfprintf`: the buffer holds the text and its final NUL. */
  method Kvfprintf(fmt: seq<Byte>, args: seq<Arg>) returns (r: array<Byte>)
    requires 0 !in fmt && Matches(Pieces(fmt, false), args)
    ensures fresh(r)
    ensures var t := Render(Pieces(fmt, false), args); r.Length > |t| && r[..|t|] == t && r[|t|] == 0
  {
    hide Pieces, PieceOf, Fields, Matches, Render, InsideAfter;
    r := new Byte[16](_ => 0);
    var used, inside, a := 0, false, 0;
    ghost var text := Render(Pieces(fmt, false), args);
    assert fmt[0..] == fmt && args[0..] == args;
    for k := 0 to |fmt|
      invariant 0 <= a <= |args| && 0 <= used <= r.Length && fresh(r)
      invariant Matches(Pieces(fmt[k..], inside), args[a..])
      invariant r[..used] + Render(Pieces(fmt[k..], inside), args[a..]) == text
    {
      var c := fmt[k];
      CharStep(fmt[k..], inside, args[a..]);
      ghost var taken := Fields(PieceOf(c, inside));
      assert fmt[k..][1..] == fmt[k + 1..] && args[a..][taken..] == args[a + taken..];
      r, used := Emit(r, used, c, inside, args[a..]);
      inside, a := InsideAfter(c, inside), a + Fields(PieceOf(c, inside));
    }
    EmptyRest(fmt[|fmt|..], inside, args[a..]);
    ghost var done := r[..used];
    r := StringOp(r, used + 2);
    assert r[..used] == done;
    r[used] := 0;
  }

  lemma EmptyRest(rest: seq<Byte>, inside: bool, args: seq<Arg>)
    requires rest == []
    ensures Matches(Pieces(rest, inside), args) && Render(Pieces(rest, inside), args) == []
  {}
}
