/** `ntos` and `reverse`: writing a number in a base from 2 to 255 into a buffer. */
module NumberText {
  import opened Machine
  import opened MemoryCopy

  const STR_OK := 0
  const STR_NOBUF := 1
  const STR_OVERFLOW := 2
  const STR_LOWBASE := 3

  const ZERO: Byte := 48
  const PLUS: Byte := 43
  const MINUS: Byte := 45

  // ----- Digits, least significant first

  function Pow(base: nat, k: nat): nat
    decreases k
  {
    if k == 0 then 1 else base * Pow(base, k - 1)
  }

  lemma QuotientSmaller(n: nat, base: nat)
    requires base >= 2 && n > 0
    ensures 0 <= n / base < n && n == base * (n / base) + n % base
  {}

  /** The digits of `n`, at most `k` of them. */
  function Digits(n: nat, base: nat, k: nat): (ds: seq<nat>)
    requires base >= 2
    ensures |ds| <= k && forall i :: 0 <= i < |ds| ==> ds[i] < base
    decreases k
  {
    if n == 0 || k == 0 then [] else [n % base] + Digits(n / base, base, k - 1)
  }

  function Value(ds: seq<nat>, base: nat): nat
    decreases |ds|
  {
    if ds == [] then 0 else ds[0] + base * Value(ds[1..], base)
  }

  lemma SmallerQuotient(d: nat, q: nat, q': nat, r: nat)
    requires r < d && q < q'
    ensures d * q + r < d * q'
  {
    assert d * (q + 1) <= d * q';
  }

  lemma UniqueRemainder(n: nat, d: nat, q: nat, r: nat)
    requires n == d * q + r && r < d
    ensures n % d == r && n / d == q
  {
    var q', r' := n / d, n % d;
    assert n == d * q' + r';
    if q < q' {
      SmallerQuotient(d, q, q', r);
    } else if q' < q {
      SmallerQuotient(d, q', q, r');
    }
  }

  lemma ModOfProduct(n: nat, base: nat, m: nat)
    requires base >= 1 && m >= 1
    ensures base * m >= 1 && n % (base * m) == n % base + base * ((n / base) % m)
  {
    var k, low := n / base, n % base;
    var q, r := k / m, k % m;
    SmallerQuotient(base, r, m, low);
    calc {
      n;
      base * k + low;
      base * (m * q + r) + low;
      base * (m * q) + base * r + low;
      (base * m) * q + (base * r + low);
    }
    UniqueRemainder(n, base * m, q, base * r + low);
  }

  lemma {:induction false} PowPositive(base: nat, k: nat)
    requires base >= 1
    ensures Pow(base, k) >= 1
    decreases k
  {
    if k > 0 {
      PowPositive(base, k - 1);
      assert base * Pow(base, k - 1) >= Pow(base, k - 1);
    }
  }

  /** The digits read back as `n` modulo `base^k`. */
  lemma {:induction false} DigitsValue(n: nat, base: nat, k: nat)
    requires base >= 2
    ensures Pow(base, k) >= 1 && Value(Digits(n, base, k), base) == n % Pow(base, k)
    decreases k
  {
    PowPositive(base, k);
    if k > 0 {
      PowPositive(base, k - 1);
      DigitsValue(n / base, base, k - 1);
      ModOfProduct(n, base, Pow(base, k - 1));
      if n > 0 {
        assert Digits(n, base, k)[1..] == Digits(n / base, base, k - 1);
      } else {
        assert 0 / base == 0 && 0 % base == 0;
      }
    }
  }

  /** All `k` places are used exactly by the numbers from `base^(k-1)` on; a number that
      fits in them has no leading zero. */
  lemma {:induction false} DigitsLength(n: nat, base: nat, k: nat)
    requires base >= 2 && k >= 1
    ensures |Digits(n, base, k)| == k <==> n >= Pow(base, k - 1)
    ensures 0 < n < Pow(base, k) ==> var ds := Digits(n, base, k); ds != [] && ds[|ds| - 1] != 0
    decreases k
  {
    if n > 0 {
      QuotientSmaller(n, base);
      assert Digits(n, base, k)[1..] == Digits(n / base, base, k - 1);
      if k == 1 {
        assert Pow(base, 0) == 1 && Pow(base, 1) == base;
        if n < base { UniqueRemainder(n, base, 0, n); }
      } else {
        var p := Pow(base, k - 2);
        DigitsLength(n / base, base, k - 1);
        QuotientOrder(n, base, p);
        QuotientOrder(n, base, Pow(base, k - 1));
        if n < base { UniqueRemainder(n, base, 0, n); }
        assert n / base == 0 ==> Digits(n / base, base, k - 1) == [];
      }
    } else {
      PowPositive(base, k - 1);
    }
  }

  lemma QuotientOrder(n: nat, base: nat, p: nat)
    requires base >= 2
    ensures n / base >= p <==> n >= base * p
  {
    assert n == base * (n / base) + n % base;
    if n / base >= p { assert base * (n / base) >= base * p; }
    if n / base < p { assert base * (n / base) <= base * (p - 1) == base * p - base; }
  }

  // ----- Characters

  /** `d` is a signed character in the source, so digits from 128 on count as below ten. */
  function DigitChar(d: nat): Byte {
    if d < 10 || d >= 128 then (ZERO + d) % 256
    else if d < 35 then 97 + d - 10
    else if d < 60 then 65 + d - 35
    else 63
  }

  function CharDigit(c: Byte): nat {
    if 48 <= c < 58 then c - 48 else if 97 <= c < 122 then c - 97 + 10 else if 65 <= c < 90 then c - 65 + 35 else 0
  }

  function Chars(ds: seq<nat>): (r: seq<Byte>)
    ensures |r| == |ds| && forall i :: 0 <= i < |ds| ==> r[i] == DigitChar(ds[i])
  {
    seq(|ds|, i requires 0 <= i < |ds| => DigitChar(ds[i]))
  }

  /** Reading a numeral from left to right. */
  function ReadNumber(text: seq<Byte>, base: nat): nat
    decreases |text|
  {
    if text == [] then 0
    else ReadNumber(text[..|text| - 1], base) * base + CharDigit(text[|text| - 1])
  }

  function Reversed<T>(s: seq<T>): (r: seq<T>)
    ensures |r| == |s| && forall i :: 0 <= i < |s| ==> r[i] == s[|s| - 1 - i]
  {
    seq(|s|, i requires 0 <= i < |s| => s[|s| - 1 - i])
  }

  function Fill(c: Byte, n: nat): (r: seq<Byte>)
    ensures |r| == n && forall i :: 0 <= i < n ==> r[i] == c
  {
    seq(n, i => c)
  }

  /** The numeral of `n`: the digits in use, most significant first. */
  function Numeral(n: nat, base: nat, length: nat): (t: seq<Byte>)
    requires base >= 2
    ensures |t| <= length
  {
    Reversed(Chars(Digits(n, base, length)))
  }

  lemma ReversedChars(ds: seq<nat>)
    requires ds != []
    ensures Reversed(Chars(ds)) == Reversed(Chars(ds[1..])) + [DigitChar(ds[0])]
  {}

  lemma ReadLast(text: seq<Byte>, c: Byte, base: nat)
    ensures ReadNumber(text + [c], base) == ReadNumber(text, base) * base + CharDigit(c)
  {
    assert (text + [c])[..|text|] == text;
  }

  lemma {:induction false} ReadReversed(ds: seq<nat>, base: nat)
    requires 2 <= base <= 60 && forall i :: 0 <= i < |ds| ==> ds[i] < base
    ensures ReadNumber(Reversed(Chars(ds)), base) == Value(ds, base)
    decreases |ds|
  {
    hide Reversed, Chars, DigitChar, CharDigit;
    if ds == [] {
      NoChars();
    } else {
      ReversedChars(ds);
      DigitRead(ds[0]);
      ReadReversed(ds[1..], base);
      ReadLast(Reversed(Chars(ds[1..])), DigitChar(ds[0]), base);
      hide ReadNumber;
    }
  }

  lemma NoChars()
    ensures Reversed(Chars([])) == []
  {}

  lemma DigitRead(d: nat)
    requires d < 60
    ensures CharDigit(DigitChar(d)) == d
  {}

  /** The digits, up to base sixty: 0 to 9, then a to y, then A to Y. */
  lemma Alphabet(d: nat)
    requires d < 60
    ensures d < 16 ==> DigitChar(d) == "0123456789abcdef"[d] as int
    ensures d >= 10 ==> DigitChar(d) == if d < 35 then 'a' as int + (d - 10) else 'A' as int + (d - 35)
    ensures DigitChar(34) == 'y' as int && DigitChar(59) == 'Y' as int
  {}

  lemma {:induction false} ZerosReadNothing(z: nat, text: seq<Byte>, base: nat)
    ensures ReadNumber(Fill(ZERO, z) + text, base) == ReadNumber(text, base)
    decreases |text|, z
  {
    hide Fill, CharDigit;
    if text != [] {
      var front, c := text[..|text| - 1], text[|text| - 1];
      assert Fill(ZERO, z) + text == (Fill(ZERO, z) + front) + [c] && text == front + [c];
      ReadLast(Fill(ZERO, z) + front, c, base);
      ZerosReadNothing(z, front, base);
    } else if z > 0 {
      ZerosAreZeros(z);
      ReadLast(Fill(ZERO, z - 1) + text, ZERO, base);
      ZerosReadNothing(z - 1, text, base);
    } else {
      assert Fill(ZERO, 0) + text == text;
    }
  }

  lemma ZerosAreZeros(z: nat)
    requires z > 0
    ensures Fill(ZERO, z) == Fill(ZERO, z - 1) + [ZERO] && CharDigit(ZERO) == 0
    ensures Fill(ZERO, z) + [] == (Fill(ZERO, z - 1) + []) + [ZERO]
  {}

  /** The numeral, with any number of zeros before it, reads back as `n` modulo `base^length`;
      it is `n` itself exactly when `n` fits. */
  lemma NumeralReadsBack(n: nat, base: nat, length: nat, zeros: nat)
    requires 2 <= base <= 60
    ensures Pow(base, length) >= 1
    ensures ReadNumber(Fill(ZERO, zeros) + Numeral(n, base, length), base) == n % Pow(base, length)
    ensures ReadNumber(Numeral(n, base, length), base) == n <==> n < Pow(base, length)
  {
    var ds := Digits(n, base, length);
    DigitsValue(n, base, length);
    ReadReversed(ds, base);
    ZerosReadNothing(zeros, Numeral(n, base, length), base);
    if n < Pow(base, length) { UniqueRemainder(n, Pow(base, length), 0, n); }
  }

  /** A number that fits is written without leading zeros. */
  lemma NoLeadingZero(n: nat, base: nat, length: nat)
    requires 2 <= base <= 60 && length >= 1 && 0 < n < Pow(base, length)
    ensures var t := Numeral(n, base, length); t != [] && t[0] != 48
  {
    DigitsLength(n, base, length);
  }

  /** Different numbers that fit are written differently. */
  lemma NumeralsDiffer(n: nat, m: nat, base: nat, length: nat)
    requires 2 <= base <= 60 && n < Pow(base, length) && m < Pow(base, length)
    requires Numeral(n, base, length) == Numeral(m, base, length)
    ensures n == m
  {
    NumeralReadsBack(n, base, length, 0);
    NumeralReadsBack(m, base, length, 0);
  }

  // ----- The buffer

  /** `reverse`: exchange characters from both ends. */
  method Reverse(s: array<Byte>, len: nat) returns (code: int)
    requires len <= s.Length
    modifies s
    ensures s[..len] == Reversed(old(s[..len])) && forall k :: len <= k < s.Length ==> s[k] == old(s[k])
    ensures code == if len == 0 then STR_NOBUF else STR_OK
  {
    if len == 0 { return STR_NOBUF; }
    ghost var s0 := s[..];
    var i, j := 0, len - 1;
    while i < j
      invariant 0 <= i <= j + 1 && i + j == len - 1
      invariant forall k :: 0 <= k < i || j < k < len ==> s[k] == s0[len - 1 - k]
      invariant forall k :: i <= k <= j || len <= k < s.Length ==> s[k] == s0[k]
    {
      var c := s[i];
      s[i] := s[j];
      s[j] := c;
      i, j := i + 1, j - 1;
    }
    assert s[..len] == Reversed(s0[..len]);
    return STR_OK;
  }

  // ----- ntos

  /** The number whose digits are written: the signed form writes none for a negative number. */
  function Magnitude(i: int, unsign: bool): nat
    requires -U64 / 2 <= i < U64 / 2
  {
    if i >= 0 then i else if unsign then i + U64 else 0
  }

  function Sign(i: int, unsign: bool): seq<Byte> {
    if unsign then [] else if i < 0 then [MINUS] else [PLUS]
  }

  function Text(i: int, base: nat, length: nat, unsign: bool): seq<Byte>
    requires -U64 / 2 <= i < U64 / 2 && base >= 2
  {
    Sign(i, unsign) + Numeral(Magnitude(i, unsign), base, length)
  }

  /** What `ntos` leaves in the buffer, up to and including index `length`. A sign that does
      not fit any more takes the place of the final NUL. */
  function Written(i: int, base: nat, length: nat, unsign: bool, pad: bool): (w: seq<Byte>)
    requires -U64 / 2 <= i < U64 / 2 && base >= 2 && length >= 1
    ensures |w| == length + 1
  {
    var t := Text(i, base, length, unsign);
    if i == 0 then [ZERO] + Fill(if pad then ZERO else 0, length - 1) + [0]
    else if !pad then t + Fill(0, length + 1 - |t|)
    else if |t| <= length then Fill(ZERO, length - |t|) + t + [0]
    else t[1..] + t[..1]
  }

  /** Digits and sign as they are put down, and the rest of the buffer. */
  function Backwards(i: int, base: nat, length: nat, unsign: bool): (b: seq<Byte>)
    requires -U64 / 2 <= i < U64 / 2 && base >= 2
    ensures |b| == |Text(i, base, length, unsign)|
  {
    Chars(Digits(Magnitude(i, unsign), base, length)) + Sign(i, unsign)
  }

  /** Turning the digits round, with or without the zeros after them, gives the text. */
  lemma TurnedRound(raw: seq<Byte>, i: int, base: nat, length: nat, unsign: bool, pad: bool)
    requires -U64 / 2 <= i < U64 / 2 && base >= 2 && length >= 1 && i != 0 && |raw| == length + 1
    requires var b := Backwards(i, base, length, unsign);
             raw[..|b|] == b && forall k :: |b| <= k < |raw| ==> raw[k] == if pad && k < length then ZERO else 0
    ensures var k := if pad then length else |Text(i, base, length, unsign)|;
            Reversed(raw[..k]) + raw[k..] == Written(i, base, length, unsign, pad)
  {
    var b, t := Backwards(i, base, length, unsign), Text(i, base, length, unsign);
    assert Reversed(b) == t;
    if !pad {
      assert raw[|b|..] == Fill(0, length + 1 - |t|);
    } else if |t| <= length {
      assert raw[..length] == b + Fill(ZERO, length - |t|);
      assert Reversed(raw[..length]) == Fill(ZERO, length - |t|) + t;
      assert raw[length..] == [0];
    } else {
      assert raw == b;
      assert Reversed(raw[..length]) == t[1..] && raw[length..] == t[..1];
    }
  }

  lemma NextDigit(n: nat, base: nat, k: nat)
    requires base >= 2 && n > 0 && k > 0
    ensures Chars(Digits(n, base, k)) == [DigitChar(n % base)] + Chars(Digits(n / base, base, k - 1))
  {}

  lemma NoMoreDigits(n: nat, base: nat, k: nat)
    requires base >= 2 && (n == 0 || k == 0)
    ensures Chars(Digits(n, base, k)) == []
  {}

  method PutDigit(buf: array<Byte>, p: nat, d: nat)
    requires p < buf.Length
    modifies buf
    ensures buf[..] == old(buf[..])[p := DigitChar(d)]
  {
    if d < 10 || d >= 128 {
      buf[p] := (ZERO + d) % 256;
    } else if d < 35 {
      buf[p] := 97 + d - 10;
    } else if d < 60 {
      buf[p] := 65 + d - 35;
    } else {
      buf[p] := 63;
    }
  }

  method WriteDigits(buf: array<Byte>, i: nat, base: nat, length: nat) returns (p: nat)
    requires 2 <= base < 256 && length <= buf.Length
    modifies buf
    ensures p <= length && buf[..p] == Chars(Digits(i, base, length)) && buf[p..] == old(buf[p..])
  {
    hide Digits, Chars, DigitChar;
    var n: nat := i;
    p := 0;
    while n > 0 && p < length
      invariant 0 <= p <= length
      invariant buf[..p] + Chars(Digits(n, base, length - p)) == Chars(Digits(i, base, length))
      invariant buf[p..] == old(buf[p..])
      decreases length - p
    {
      QuotientSmaller(n, base);
      NextDigit(n, base, length - p);
      ghost var rest := Chars(Digits(n / base, base, length - p - 1));
      PutDigit(buf, p, n % base);
      assert buf[..p + 1] + rest == buf[..p] + ([DigitChar(n % base)] + rest);
      n := n / base;
      p := p + 1;
    }
    NoMoreDigits(n, base, length - p);
  }

  /** The buffer before the digits: `kmemset` twice and the final NUL. */
  method Prepare(buf: array<Byte>, length: nat, pad: bool)
    requires length < buf.Length
    modifies buf
    ensures forall k :: 0 <= k <= length ==> buf[k] == if pad && k < length then ZERO else 0
    ensures forall k :: length < k < buf.Length ==> buf[k] == old(buf[k])
  {
    forall k | 0 <= k < length { buf[k] := 0; }
    if pad {
      forall k | 0 <= k < length { buf[k] := ZERO; }
    }
    buf[length] := 0;
  }

  /** `ntos`. */
  method Ntos(buf: array?<Byte>, i: int, base: nat, length: nat, unsign: bool, pad: bool) returns (code: int)
    requires -U64 / 2 <= i < U64 / 2 && base < 256
    requires buf != null ==> length < buf.Length
    modifies buf
    ensures length == 0 || buf == null ==> code == 1
    ensures length > 0 && buf != null && base < 2 ==> code == 3
    ensures buf != null && (length == 0 || base < 2) ==> buf[..] == old(buf[..])
    ensures length > 0 && buf != null && base >= 2 ==>
              && buf[..length + 1] == Written(i, base, length, unsign, pad)
              && (forall k :: length < k < buf.Length ==> buf[k] == old(buf[k]))
              && code == if i != 0 && |Text(i, base, length, unsign)| >= length then 2 else 0
  {
    if length == 0 || buf == null { return STR_NOBUF; }
    if base < 2 { return STR_LOWBASE; }
    Prepare(buf, length, pad);
    if i == 0 {
      buf[0] := ZERO;
      return STR_OK;
    }
    code := NonZero(buf, i, base, length, unsign, pad);
  }

  /** `ntos` from the digit loops on. */
  method NonZero(buf: array<Byte>, i: int, base: nat, length: nat, unsign: bool, pad: bool) returns (code: int)
    requires -U64 / 2 <= i < U64 / 2 && 2 <= base < 256 && i != 0 && 0 < length < buf.Length
    requires forall k :: 0 <= k <= length ==> buf[k] == if pad && k < length then ZERO else 0
    modifies buf
    ensures buf[..length + 1] == Written(i, base, length, unsign, pad)
    ensures forall k :: length < k < buf.Length ==> buf[k] == old(buf[k])
    ensures code == if |Text(i, base, length, unsign)| >= length then STR_OVERFLOW else STR_OK
  {
    hide Written, Backwards, Text, Reversed;
    var p := WriteBackwards(buf, i, base, length, unsign);
    ghost var raw := buf[..length + 1];
    assert raw[..p] == buf[..p];
    TurnedRound(raw, i, base, length, unsign, pad);
    var k := if pad then length else p;
    var _ := Reverse(buf, k);
    assert buf[..length + 1] == Reversed(raw[..k]) + raw[k..];
    return if p < length then STR_OK else STR_OVERFLOW;
  }

  method WriteBackwards(buf: array<Byte>, i: int, base: nat, length: nat, unsign: bool) returns (p: nat)
    requires -U64 / 2 <= i < U64 / 2 && 2 <= base < 256 && length < buf.Length
    modifies buf
    ensures p == |Text(i, base, length, unsign)| <= length + 1
    ensures buf[..p] == Backwards(i, base, length, unsign) && forall k :: p <= k < buf.Length ==> buf[k] == old(buf[k])
  {
    hide Digits, Chars, Reversed;
    p := WriteDigits(buf, Magnitude(i, unsign), base, length);
    assert forall k :: p <= k < buf.Length ==> buf[k] == buf[p..][k - p];
    assert forall k :: p <= k < buf.Length ==> old(buf[k]) == old(buf[p..])[k - p];
    if !unsign {
      buf[p] := if i < 0 then MINUS else PLUS;
      p := p + 1;
    }
  }

  // ----- What a reader of the buffer finds

  /** The characters before the first NUL. */
  function CString(w: seq<Byte>): (t: seq<Byte>)
    ensures |t| <= |w| && w[..|t|] == t && (|t| < |w| ==> w[|t|] == 0)
    ensures forall i :: 0 <= i < |t| ==> t[i] != 0
    decreases |w|
  {
    if w == [] || w[0] == 0 then [] else [w[0]] + CString(w[1..])
  }

  lemma {:induction false} CStringIs(w: seq<Byte>, t: seq<Byte>)
    requires |t| <= |w| && w[..|t|] == t && (|t| < |w| ==> w[|t|] == 0)
    requires forall i :: 0 <= i < |t| ==> t[i] != 0
    ensures CString(w) == t
    decreases |w|
  {}

  lemma CharsNotNul(i: int, base: nat, length: nat, unsign: bool)
    requires -U64 / 2 <= i < U64 / 2 && 2 <= base <= 60
    ensures 0 !in Text(i, base, length, unsign)
  {}

  /** The string that `ntos` leaves in the buffer. */
  function Result(i: int, base: nat, length: nat, unsign: bool, pad: bool): seq<Byte>
    requires -U64 / 2 <= i < U64 / 2 && base >= 2 && length >= 1
  {
    CString(Written(i, base, length, unsign, pad))
  }

  /** Zero, one or all places. */
  lemma ResultOfZero(base: nat, length: nat, unsign: bool, pad: bool)
    requires base >= 2 && length >= 1
    ensures Result(0, base, length, unsign, pad) == Fill(ZERO, if pad then length else 1)
  {
    CStringIs(Written(0, base, length, unsign, pad), Fill(ZERO, if pad then length else 1));
  }

  /** Any other number: padding, sign and digits, but the digits in front of a sign that does
      not fit. */
  lemma ResultIsText(i: int, base: nat, length: nat, unsign: bool, pad: bool)
    requires -U64 / 2 <= i < U64 / 2 && 2 <= base <= 60 && length >= 1 && i != 0
    ensures var t := Text(i, base, length, unsign);
            Result(i, base, length, unsign, pad) ==
              if !pad then t else if |t| <= length then Fill(48, length - |t|) + t else t[1..] + t[..1]
  {
    var t := Text(i, base, length, unsign);
    CharsNotNul(i, base, length, unsign);
    hide Text, CString;
    CStringIs(Written(i, base, length, unsign, pad),
      if !pad then t else if |t| <= length then Fill(ZERO, length - |t|) + t else t[1..] + t[..1]);
  }

  /** Unsigned output, padded or not, reads back as the number modulo `base^length`; padding
      fills all places. */
  lemma UnsignedReadsBack(i: int, base: nat, length: nat, pad: bool)
    requires -U64 / 2 <= i < U64 / 2 && 2 <= base <= 60 && length >= 1
    ensures var t := Result(i, base, length, true, pad);
            && Pow(base, length) >= 1 && ReadNumber(t, base) == Magnitude(i, true) % Pow(base, length)
            && (pad ==> |t| == length)
  {
    hide Result, ReadNumber, Pow;
    var d := Numeral(Magnitude(i, true), base, length);
    if i == 0 {
      ResultOfZero(base, length, true, pad);
      NumeralOfZero(base, length, if pad then length else 1);
    } else {
      ResultIsText(i, base, length, true, pad);
      UnsignedText(i, base, length);
      NumeralReadsBack(Magnitude(i, true), base, length, if pad then length - |d| else 0);
      hide *;
      assert Fill(ZERO, 0) + d == d;
    }
  }

  lemma UnsignedText(i: int, base: nat, length: nat)
    requires -U64 / 2 <= i < U64 / 2 && base >= 2
    ensures Text(i, base, length, true) == Numeral(Magnitude(i, true), base, length)
  {}

  lemma NumeralOfZero(base: nat, length: nat, zeros: nat)
    requires 2 <= base <= 60
    ensures Numeral(0, base, length) == [] && Pow(base, length) >= 1 && ReadNumber(Fill(ZERO, zeros), base) == 0
  {
    NumeralReadsBack(0, base, length, zeros);
    hide ReadNumber, Pow;
    assert Fill(ZERO, zeros) + [] == Fill(ZERO, zeros);
  }

  /** `ntos` reports an overflow from `base^(length-1)` on, although all `length` places hold
      numbers up to `base^length`. */
  lemma OverflowIff(i: int, base: nat, length: nat)
    requires -U64 / 2 <= i < U64 / 2 && base >= 2 && length >= 1
    ensures |Text(i, base, length, true)| >= length <==> Magnitude(i, true) >= Pow(base, length - 1)
  {
    DigitsLength(Magnitude(i, true), base, length);
  }

  /** A number that is not negative, in the signed form: zero has no sign; otherwise the sign
      stands in front of the digits, behind the padding, and behind the digits if they leave
      it no place. */
  lemma SignedReadsBack(i: int, base: nat, length: nat, pad: bool)
    requires 0 <= i < U64 / 2 && 2 <= base <= 60 && length >= 1
    ensures var t, d := Result(i, base, length, false, pad), Numeral(i, base, length);
            && Pow(base, length) >= 1 && ReadNumber(d, base) == i % Pow(base, length)
            && t == if i == 0 then Fill(48, if pad then length else 1)
                    else if !pad then [43] + d
                    else if |d| < length then Fill(48, length - 1 - |d|) + ([43] + d)
                    else d + [43]
  {
    hide Result, ReadNumber, Pow, Numeral;
    var d := Numeral(i, base, length);
    NumeralReadsBack(i, base, length, 0);
    assert Fill(ZERO, 0) + d == d;
    if i == 0 {
      ResultOfZero(base, length, false, pad);
    } else {
      ResultIsText(i, base, length, false, pad);
      assert ([PLUS] + d)[1..] == d && ([PLUS] + d)[..1] == [PLUS];
    }
  }

  /** The digits of a negative number are lost in the signed form, whatever the base. */
  lemma NegativesLookAlike(i: int, base: nat, length: nat)
    requires -U64 / 2 <= i < 0 && base >= 2 && length >= 1
    ensures Result(i, base, length, false, false) == [45]
  {
    CStringIs(Written(i, base, length, false, false), [MINUS]);
  }

  /** `kstrlen`. */
  method Kstrlen(s: array<Byte>) returns (n: nat)
    requires 0 in s[..]
    ensures |CString(s[..])| == n < s.Length && s[..n] == CString(s[..]) && s[n] == 0
  {
    n := 0;
    while s[n] != 0
      invariant n < s.Length && 0 in s[n..] && forall i :: 0 <= i < n ==> s[i] != 0
      decreases s.Length - n
    {
      n := n + 1;
    }
    CStringIs(s[..], s[..n]);
  }
}
