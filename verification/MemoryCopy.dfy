/** `kmemcpy` and `kmemmove`: copying bytes in chunks, and copying between ranges that overlap. */
module MemoryCopy {

  type Byte = b: int | 0 <= b < 256

  /** `d` with the `n` elements from `di` on replaced by those of `s` from `si` on, all at once. */
  function Copied<T>(d: seq<T>, di: nat, s: seq<T>, si: nat, n: nat): (r: seq<T>)
    requires di + n <= |d| && si + n <= |s|
    ensures |r| == |d|
  {
    d[..di] + s[si..si + n] + d[di + n..]
  }

  /** Copying a range in two pieces, front first, is copying it at once, whenever the first
      piece leaves the source of the second one alone. */
  lemma CopiedInPieces(d: seq<Byte>, di: nat, s: seq<Byte>, s': seq<Byte>, si: nat, n: nat, k: nat)
    requires di + n + k <= |d| && si + n + k <= |s| == |s'|
    requires s'[si + n..si + n + k] == s[si + n..si + n + k]
    ensures Copied(Copied(d, di, s, si, n), di + n, s', si + n, k) == Copied(d, di, s, si, n + k)
  {}

  /** A forward copy does not overwrite what it still has to read. */
  ghost predicate Forward(d: array<Byte>, di: nat, s: array<Byte>, si: nat, n: nat) {
    d != s || di <= si || si + n <= di
  }

  /** One load and one store of `k` bytes. */
  method CopyChunk(d: array<Byte>, di: nat, s: array<Byte>, si: nat, k: nat)
    requires di + k <= d.Length && si + k <= s.Length
    modifies d
    ensures d[..] == Copied(old(d[..]), di, old(s[..]), si, k)
  {
    forall i | 0 <= i < k { d[di + i] := s[si + i]; }
  }

  /** What a forward copy has yet to read is as it was. */
  lemma SourceAhead(d: seq<Byte>, di: nat, s: seq<Byte>, si: nat, n: nat, k: nat, s': seq<Byte>, same: bool)
    requires di + n + k <= |d| && si + n + k <= |s|
    requires if same then d == s && s' == Copied(d, di, s, si, n) && (di <= si || si + n + k <= di) else s' == s
    ensures |s'| == |s| && s'[si + n..si + n + k] == s[si + n..si + n + k]
  {
    assert forall j :: si + n <= j < si + n + k ==> s'[j] == s[j];
  }

  /** The loop of `kmemcpy` over chunks of `k` bytes; `n` of the bytes are copied. */
  method CopyChunks(d: array<Byte>, di: nat, s: array<Byte>, si: nat, count: nat, k: nat) returns (n: nat)
    requires k > 0 && di + count <= d.Length && si + count <= s.Length && Forward(d, di, s, si, count)
    modifies d
    ensures n <= count < n + k
    ensures d[..] == Copied(old(d[..]), di, old(s[..]), si, n)
  {
    hide Copied;
    ghost var d0, s0 := d[..], s[..];
    n := 0;
    CopiedNone(d0, di, s0, si);
    while count - n >= k
      invariant n <= count
      invariant d[..] == Copied(d0, di, s0, si, n)
      invariant d != s ==> s[..] == s0
    {
      SourceAhead(d0, di, s0, si, n, k, s[..], d == s);
      CopiedInPieces(d0, di, s0, s[..], si, n, k);
      CopyChunk(d, di + n, s, si + n, k);
      n := n + k;
    }
  }

  lemma CopiedNone(d: seq<Byte>, di: nat, s: seq<Byte>, si: nat)
    requires di <= |d| && si <= |s|
    ensures Copied(d, di, s, si, 0) == d
  {}

  /** `kmemcpy`: eight, four, two and one byte at a time. */
  method Kmemcpy(d: array<Byte>, di: nat, s: array<Byte>, si: nat, count: nat)
    requires di + count <= d.Length && si + count <= s.Length && Forward(d, di, s, si, count)
    modifies d
    ensures d[..] == Copied(old(d[..]), di, old(s[..]), si, count)
    ensures forall i :: 0 <= i < d.Length ==> d[i] == if di <= i < di + count then old(s[..])[si + (i - di)] else old(d[..])[i]
  {
    hide Copied;
    ghost var d0, s0 := d[..], s[..];
    var sizes := [8, 4, 2, 1];
    var n := 0;
    CopiedNone(d0, di, s0, si);
    for round := 0 to 4
      invariant 0 <= n <= count && (round == 4 ==> n == count)
      invariant d[..] == Copied(d0, di, s0, si, n)
      invariant d != s ==> s[..] == s0
    {
      ghost var s1 := s[..];
      var m := CopyChunks(d, di + n, s, si + n, count - n, sizes[round]);
      SourceAhead(d0, di, s0, si, n, m, s1, d == s);
      CopiedInPieces(d0, di, s0, s1, si, n, m);
      n := n + m;
    }
    CopiedElements(d0, di, s0, si, count, d[..]);
  }

  lemma CopiedElements(d: seq<Byte>, di: nat, s: seq<Byte>, si: nat, n: nat, r: seq<Byte>)
    requires di + n <= |d| && si + n <= |s| && r == Copied(d, di, s, si, n)
    ensures forall i :: 0 <= i < |d| ==> r[i] == if di <= i < di + n then s[si + (i - di)] else d[i]
  {}

  /** `kmemmove`: for ranges that overlap in any way, the result is that of a copy made at once. */
  method Kmemmove(mem: array<Byte>, dest: nat, src: nat, n: nat)
    requires dest + n <= mem.Length && src + n <= mem.Length
    modifies mem
    ensures mem[..] == Copied(old(mem[..]), dest, old(mem[..]), src, n)
    ensures forall i :: 0 <= i < mem.Length ==>
              mem[i] == old(mem[..])[if dest <= i < dest + n then src + (i - dest) else i]
  {
    ghost var m0 := mem[..];
    if src > dest {
      Kmemcpy(mem, dest, mem, src, n);
    } else if src < dest {
      for i := n downto 0
        invariant forall j :: 0 <= j < dest + i ==> mem[j] == m0[j]
        invariant forall j :: dest + n <= j < mem.Length ==> mem[j] == m0[j]
        invariant forall j :: dest + i <= j < dest + n ==> mem[j] == m0[src + (j - dest)]
      {
        mem[dest + i] := mem[src + i];
      }
    }
  }

  // ----- Records

  /** Records of `w` bytes each, one after the other. */
  function Flat<T>(bytes: T -> seq<Byte>, s: seq<T>): seq<Byte>
    decreases |s|
  {
    if s == [] then [] else bytes(s[0]) + Flat(bytes, s[1..])
  }

  ghost predicate RecordSize<T(!new)>(bytes: T -> seq<Byte>, w: nat) {
    forall x :: |bytes(x)| == w
  }

  /** The offset of record `i`. */
  function At(i: nat, w: nat): nat { i * w }

  lemma Offsets(i: nat, n: nat, w: nat)
    ensures At(i + n, w) == At(i, w) + At(n, w) && At(0, w) == 0 && At(1, w) == w
  {}

  lemma {:induction false} FlatLength<T(!new)>(bytes: T -> seq<Byte>, w: nat, s: seq<T>)
    requires RecordSize(bytes, w)
    ensures |Flat(bytes, s)| == At(|s|, w)
    decreases |s|
  {
    hide At;
    if s == [] {
      Offsets(0, 0, w);
    } else {
      FlatLength(bytes, w, s[1..]);
      Offsets(1, |s| - 1, w);
    }
  }

  lemma {:induction false} FlatConcat<T>(bytes: T -> seq<Byte>, a: seq<T>, b: seq<T>)
    ensures Flat(bytes, a + b) == Flat(bytes, a) + Flat(bytes, b)
    decreases |a|
  {
    if a == [] {
      assert a + b == b;
    } else {
      assert (a + b)[1..] == a[1..] + b;
      FlatConcat(bytes, a[1..], b);
    }
  }

  lemma FlatParts<T(!new)>(bytes: T -> seq<Byte>, w: nat, s: seq<T>, i: nat, n: nat)
    requires RecordSize(bytes, w) && i + n <= |s|
    ensures Flat(bytes, s) == Flat(bytes, s[..i]) + Flat(bytes, s[i..i + n]) + Flat(bytes, s[i + n..])
    ensures |Flat(bytes, s[..i])| == At(i, w) && |Flat(bytes, s[i..i + n])| == At(n, w)
  {
    hide At, Flat, RecordSize;
    var a, b, c := s[..i], s[i..i + n], s[i + n..];
    assert s == a + b + c;
    FlatConcat(bytes, a + b, c);
    FlatConcat(bytes, a, b);
    FlatLength(bytes, w, a);
    FlatLength(bytes, w, b);
  }

  lemma CopiedParts<T>(a: seq<T>, b: seq<T>, c: seq<T>, x: seq<T>, y: seq<T>, z: seq<T>)
    requires |b| == |y|
    ensures |a| + |y| <= |a + b + c| && |x| + |y| <= |x + y + z|
    ensures Copied(a + b + c, |a|, x + y + z, |x|, |y|) == a + y + c
  {}

  /** Copying the bytes of whole records copies the records: what `Kmemmove` does to the tag
      list and to the terminal's buffer. */
  lemma RecordsCopied<T(!new)>(bytes: T -> seq<Byte>, w: nat, d: seq<T>, di: nat, s: seq<T>, si: nat, n: nat)
    requires RecordSize(bytes, w) && di + n <= |d| && si + n <= |s|
    ensures At(di, w) + At(n, w) <= |Flat(bytes, d)| && At(si, w) + At(n, w) <= |Flat(bytes, s)|
    ensures Copied(Flat(bytes, d), At(di, w), Flat(bytes, s), At(si, w), At(n, w)) == Flat(bytes, Copied(d, di, s, si, n))
  {
    FlatParts(bytes, w, d, di, n);
    FlatParts(bytes, w, s, si, n);
    FlatConcat(bytes, d[..di] + s[si..si + n], d[di + n..]);
    FlatConcat(bytes, d[..di], s[si..si + n]);
    assert Copied(d, di, s, si, n) == d[..di] + s[si..si + n] + d[di + n..];
    hide *;
    CopiedParts(Flat(bytes, d[..di]), Flat(bytes, d[di..di + n]), Flat(bytes, d[di + n..]),
                Flat(bytes, s[..si]), Flat(bytes, s[si..si + n]), Flat(bytes, s[si + n..]));
  }

  /** `kmemmove` of whole records in a memory that holds nothing else. */
  method MoveRecords<T(!new)>(mem: array<Byte>, ghost bytes: T -> seq<Byte>, w: nat, ghost records: seq<T>,
                              di: nat, si: nat, n: nat)
    requires RecordSize(bytes, w) && di + n <= |records| && si + n <= |records| && mem[..] == Flat(bytes, records)
    modifies mem
    ensures mem[..] == Flat(bytes, Copied(records, di, records, si, n))
  {
    RecordsCopied(bytes, w, records, di, records, si, n);
    hide *;
    Kmemmove(mem, At(di, w), At(si, w), At(n, w));
  }
}
