/** Address arithmetic of the four-level page tables: the macros of `vmm.h`, `mm_fix`,
    and the fields the processor takes out of an address or a table entry.

    Words are unsigned 64-bit numbers.  A right shift by k is division by 2^k, a mask of
    low bits is a remainder, and setting bits that are clear is addition. */
module Addressing {
  import opened Machine

  const PT_SPAN := 0x20_0000          // what one page-table entry's parent covers
  const PD_SPAN := 0x4000_0000
  const PDP_SPAN := 0x80_0000_0000
  const FRACTAL_INDEX := 260
  const FRAMES := 0x100_0000_0000     // physical addresses have 52 bits

  const PRESENT := 1
  const WRITEABLE := 2
  const SIGN := 0x8000_0000_0000      // bit 47
  const LOW48 := 0x1_0000_0000_0000

  type Index = i: int | 0 <= i < 512

  /** `mm_fix`: copy bit 47 upwards. */
  function Fix(ptr: int): int {
    if ptr / SIGN % 2 == 1 then ptr % LOW48 + (U64 - LOW48) else ptr % LOW48
  }

  function Pmi2Addr(a: Index, b: Index, c: Index, d: Index): int {
    Fix(a * PDP_SPAN + b * PD_SPAN + c * PT_SPAN + d * PAGE)
  }

  function FractalPml4(): int { Pmi2Addr(FRACTAL_INDEX, FRACTAL_INDEX, FRACTAL_INDEX, FRACTAL_INDEX) }
  function FractalPdp(a: Index): int { Pmi2Addr(FRACTAL_INDEX, FRACTAL_INDEX, FRACTAL_INDEX, a) }
  function FractalPd(a: Index, b: Index): int { Pmi2Addr(FRACTAL_INDEX, FRACTAL_INDEX, a, b) }
  function FractalPt(a: Index, b: Index, c: Index): int { Pmi2Addr(FRACTAL_INDEX, a, b, c) }

  /** The address of entry `i` of a table. */
  function EntryAddress(table: int, i: Index): int { table + 8 * i }

  function Index4(v: int): Index { v / PDP_SPAN % 512 }
  function Index3(v: int): Index { v / PD_SPAN % 512 }
  function Index2(v: int): Index { v / PT_SPAN % 512 }
  function Index1(v: int): Index { v / PAGE % 512 }

  /** Which of the 512 words of its page an address lies in. */
  function WordIndex(v: int): Index { v % PAGE / 8 }

  predicate Canonical(v: int) { 0 <= v < SIGN || U64 - SIGN <= v < U64 }

  predicate Present(e: int) { e % 2 == 1 }
  predicate Writeable(e: int) { e / 2 % 2 == 1 }
  predicate Large(e: int) { e / 0x80 % 2 == 1 }

  /** `VMM_ADDRESS`, as a page number: everything above the low twelve bits. */
  function Address(e: int): int { e / PAGE }

  /** The page a table entry points to, for the processor: bits 51 to 12. */
  function Frame(e: int): int { e / PAGE % FRAMES }

  /** `VMM_ADDRESS(page << 12) | VMM_PRESENT | flags`. */
  function MakeEntry(page: int, flags: int): int {
    page * PAGE + (if flags % 2 == 1 then flags else flags + PRESENT)
  }

  /** A digit of a number written in base `base` above a unit of `unit`. */
  lemma Digit(q: int, digit: int, base: int, r: int, unit: int)
    requires 0 <= digit < base && 0 <= r < unit
    ensures ((q * base + digit) * unit + r) / unit % base == digit
  {
    DivMod(q * base + digit, r, unit);
    DivMod(q, digit, base);
  }

  /** A low bit of an entry is that of its low twelve bits; `b` is the bit's value. */
  lemma LowBit(page: int, f: int, b: int, c: int)
    requires 0 <= f < PAGE && b > 0 && PAGE == c * 2 * b
    ensures (page * PAGE + f) / b % 2 == f / b % 2
  {
    var g := f / b;
    assert page * PAGE == page * c * 2 * b;
    assert page * PAGE + f == ((page * c + g / 2) * 2 + g % 2) * b + f % b;
    Digit(page * c + g / 2, g % 2, 2, f % b, b);
  }

  lemma EntryBits(page: int, f: int)
    requires 0 <= f < PAGE
    ensures (page * PAGE + f) % 2 == f % 2 && (page * PAGE + f) / 2 % 2 == f / 2 % 2
    ensures (page * PAGE + f) / 0x80 % 2 == f / 0x80 % 2
  {
    LowBit(page, f, 1, 2048);
    LowBit(page, f, 2, 1024);
    LowBit(page, f, 0x80, 16);
  }

  /** An entry made of a frame number and flags holds the frame and, below it, the flags with
      the lowest bit set: it is present, and large or writeable as the flags say. */
  lemma EntryFields(page: int, flags: int)
    requires 0 <= page < FRAMES && 0 <= flags < PAGE
    ensures var e := MakeEntry(page, flags);
            && e == page * 0x1000 + flags / 2 * 2 + 1 && e / 0x1000 == page && e % 0x1000 == flags / 2 * 2 + 1
            && Present(e) && Frame(e) == Address(e) == page && 0 <= e < PAGE * FRAMES
            && (Large(e) <==> Large(flags)) && (Writeable(e) <==> Writeable(flags))
  {
    var f := MakeEntry(0, flags);
    assert f == flags / 2 * 2 + 1;
    assert f / 2 == flags / 2 && f / 0x80 == flags / 0x80;
    EntryBits(page, f);
    DivMod(page, f, PAGE);
  }

  /** Bit for bit: every flag is stored, and bit zero is set besides. */
  lemma EntryFlag(page: int, flags: int, b: int)
    requires 0 <= page < FRAMES && 0 <= flags < PAGE
    requires b in {2, 4, 8, 16, 32, 64, 128, 256, 512, 1024, 2048}
    ensures MakeEntry(page, flags) / b % 2 == flags / b % 2
  {
    var f := flags / 2 * 2 + 1;
    assert MakeEntry(page, flags) == page * PAGE + f;
    hide MakeEntry;
    if b == 2 { EvenBit(page, flags, 2, 1024); }
    if b == 4 { EvenBit(page, flags, 4, 512); }
    if b == 8 { EvenBit(page, flags, 8, 256); }
    if b == 16 { EvenBit(page, flags, 16, 128); }
    if b == 32 { EvenBit(page, flags, 32, 64); }
    if b == 64 { EvenBit(page, flags, 64, 32); }
    if b == 128 { EvenBit(page, flags, 128, 16); }
    if b == 256 { EvenBit(page, flags, 256, 8); }
    if b == 512 { EvenBit(page, flags, 512, 4); }
    if b == 1024 { EvenBit(page, flags, 1024, 2); }
    if b == 2048 { EvenBit(page, flags, 2048, 1); }
  }

  /** Setting bit zero changes no other bit. */
  lemma EvenBit(page: int, flags: int, b: int, c: int)
    requires 0 <= flags < PAGE && b > 0 && b % 2 == 0 && PAGE == c * 2 * b
    ensures (page * PAGE + (flags / 2 * 2 + 1)) / b % 2 == flags / b % 2
  {
    LowBit(page, flags / 2 * 2 + 1, b, c);
    Halves(flags / 2, 1, b / 2);
    Halves(flags / 2, flags % 2, b / 2);
  }

  lemma Halves(x: int, r: int, h: int)
    requires h > 0 && 0 <= r < 2
    ensures (x * 2 + r) / (2 * h) == x / h
  {
    assert x * 2 + r == x / h * (2 * h) + (x % h * 2 + r);
    DivMod(x / h, x % h * 2 + r, 2 * h);
  }

  lemma FixFields(a: Index, b: Index, c: Index, d: Index, k: Index)
    ensures var v := Pmi2Addr(a, b, c, d) + 8 * k;
            v == (if a >= 256 then U64 - LOW48 else 0) + a * PDP_SPAN + b * PD_SPAN + c * PT_SPAN + d * PAGE + 8 * k
  {}

  /** Shift-and-mask extraction inverts VMM_PMI2ADDR, and the address is canonical,
      whatever word of the page is meant. */
  lemma IndicesOfAddress(a: Index, b: Index, c: Index, d: Index, k: Index)
    ensures var v := Pmi2Addr(a, b, c, d) + 8 * k;
            Canonical(v) && Index4(v) == a && Index3(v) == b && Index2(v) == c && Index1(v) == d && WordIndex(v) == k
    ensures Pmi2Addr(a, b, c, d) == (if a >= 256 then 0xffff_0000_0000_0000 else 0)
              + a * 0x80_0000_0000 + b * 0x4000_0000 + c * 0x20_0000 + d * 0x1000
  {
    FixFields(a, b, c, d, k);
    var v := Pmi2Addr(a, b, c, d) + 8 * k;
    var a' := if a >= 256 then 0x1ff_fe00 + a else a;
    assert v == a' * PDP_SPAN + b * PD_SPAN + c * PT_SPAN + d * PAGE + 8 * k;
    AddressDigits(a', b, c, d, 8 * k);
    assert a' % 512 == a;
  }

  lemma AddressDigits(a: int, b: Index, c: Index, d: Index, r: int)
    requires 0 <= r < PAGE
    ensures var v := a * PDP_SPAN + b * PD_SPAN + c * PT_SPAN + d * PAGE + r;
            v / PDP_SPAN == a && Index3(v) == b && Index2(v) == c && Index1(v) == d && v % PAGE == r
  {
    DivMod(a, b * PD_SPAN + c * PT_SPAN + d * PAGE + r, PDP_SPAN);
    Digit(a, b, 512, c * PT_SPAN + d * PAGE + r, PD_SPAN);
    Digit(a * 512 + b, c, 512, d * PAGE + r, PT_SPAN);
    Digit((a * 512 + b) * 512 + c, d, 512, r, PAGE);
    DivMod(((a * 512 + b) * 512 + c) * 512 + d, r, PAGE);
  }

  /** Two canonical addresses with the same indices are in the same page. */
  lemma IndicesDeterminePage(v: int, w: int)
    requires Canonical(v) && Canonical(w)
    requires Index4(v) == Index4(w) && Index3(v) == Index3(w) && Index2(v) == Index2(w) && Index1(v) == Index1(w)
    ensures Address(v) == Address(w)
  {
    CanonicalPage(v);
    CanonicalPage(w);
  }

  /** The indices are digits of the page number. */
  lemma PageDigits(v: int)
    ensures v / PT_SPAN == v / PAGE / 512 && v / PD_SPAN == v / PAGE / 512 / 512 && v / PDP_SPAN == v / PAGE / 512 / 512 / 512
  {}

  /** The highest index, sign extension included. */
  lemma TopDigit(v: int)
    requires Canonical(v)
    ensures v / PDP_SPAN == (if Index4(v) >= 256 then (U64 - LOW48) / PDP_SPAN else 0) + Index4(v)
  {
    assert (U64 - LOW48) / PDP_SPAN == 0xffff * 512;
    assert 0 <= v < SIGN ==> 0 <= v / PDP_SPAN < 256;
    assert v >= U64 - SIGN ==> 0xffff * 512 + 256 <= v / PDP_SPAN < 0xffff * 512 + 512;
  }

  lemma CanonicalPage(v: int)
    requires Canonical(v)
    ensures v / PAGE == (if Index4(v) >= 256 then (U64 - LOW48) / PAGE else 0)
                        + ((Index4(v) * 512 + Index3(v)) * 512 + Index2(v)) * 512 + Index1(v)
  {
    TopDigit(v);
    PageDigits(v);
    hide Index4;
    var p := v / PAGE;
    var q := p / 512;
    var r := q / 512;
    assert p == q * 512 + Index1(v) && q == r * 512 + Index2(v) && r == v / PDP_SPAN * 512 + Index3(v);
    assert (U64 - LOW48) / PAGE == (U64 - LOW48) / PDP_SPAN * 512 * 512 * 512;
  }

  /** The four indices, in nine bits each, and the sign of a canonical address make up its page. */
  lemma PageOfIndices(v: int)
    requires 0 <= v < 0x8000_0000_0000 || 0xffff_8000_0000_0000 <= v < 0x1_0000_0000_0000_0000
    ensures Canonical(v) && (Index4(v) >= 256 <==> v >= 0x8000_0000_0000) && WordIndex(v) == v % 0x1000 / 8
    ensures v / 0x1000 == (if v >= 0x8000_0000_0000 then 0xf_fff0_0000_0000 else 0)
              + 0x800_0000 * Index4(v) + 0x4_0000 * Index3(v) + 0x200 * Index2(v) + Index1(v)
  {
    hide Index3, Index2, Index1;
    CanonicalPage(v);
    TopDigit(v);
  }
}
