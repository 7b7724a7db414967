/** What the modules share: the word and page size of the machine, min and max of `math/lib.h`,
    and two facts about division. */
module Machine {

  const U64 := 0x1_0000_0000_0000_0000
  const PAGE := 0x1000

  function Max(a: int, b: int): int { if a < b then b else a }

  function Min(a: int, b: int): int { if a < b then a else b }

  lemma MulGrows(k: int, d: int)
    requires d > 0
    ensures k >= 1 ==> k * d >= d
    ensures k <= -1 ==> k * d <= -d
  {
  }

  lemma DivMod(q: int, r: int, d: int)
    requires 0 <= r < d
    ensures (q * d + r) / d == q && (q * d + r) % d == r
  {
    var x := q * d + r;
    var y, z := x / d, x % d;
    assert x == y * d + z;
    assert (y - q) * d == r - z;
    MulGrows(y - q, d);
  }
}
