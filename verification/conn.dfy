/** Model of `v2/utils/conn.go`: splitting a transfer among a bounded number of senders. */
module Conn {
  import opened Wrappers
  import opened Marshal

  function Sum(s: seq<nat>): nat {
    if s == [] then 0 else s[0] + Sum(s[1..])
  }

  /** As many full chunks as fit, then what is left over. */
  function Chunks(toSend: nat, chunk: nat): seq<nat>
    requires chunk > 0
  {
    seq(toSend / chunk, _ => chunk) + (if toSend % chunk != 0 then [toSend % chunk] else [])
  }

  lemma LeftoverIsRemainder(t: u64, m: u64)
    requires m > 0
    ensures Wrap64(t - Wrap64(t / m * m)) == t % m
  {
    DivisionFacts(t, m);
    var product, rest := t / m * m, t % m;
    assert t - product == rest;
    WrapIdentity(product);
    WrapIdentity(rest);
  }

  lemma WrapIdentity(x: int)
    requires 0 <= x < TWO_64
    ensures Wrap64(x) == x
  {
  }

  /** The chunks, or None for the panic of dividing by zero. */
  method ComputeSenders(toSend: u64, minSendSize: u64) returns (result: Option<seq<u64>>)
    ensures result.None? <==> minSendSize == 0
    ensures result.Some? ==> result.value == Chunks(toSend, minSendSize)
  {
    if minSendSize == 0 {
      return None;
    }
    var numSenders := toSend / minSendSize;
    QuotientIsSmaller(toSend, minSendSize);
    LeftoverIsRemainder(toSend, minSendSize);
    hide Wrap64;
    var full := new u64[numSenders];
    for i := 0 to numSenders
      invariant forall k :: 0 <= k < i ==> full[k] == minSendSize
    {
      full[i] := minSendSize;
    }
    var senders := full[..];
    assert senders == seq(numSenders, _ => minSendSize);
    var leftover := Wrap64(toSend - Wrap64(numSenders * minSendSize));
    if leftover != 0 {
      senders := senders + [leftover];
    }
    result := Some(senders);
  }

  lemma DivisionFacts(t: nat, m: nat)
    requires m > 0
    ensures t == t / m * m + t % m && t / m * m <= t
  {
  }

  lemma QuotientIsSmaller(t: nat, m: nat)
    requires m > 0
    ensures t / m <= t
  {
    var q := t / m;
    DivisionFacts(t, m);
    ScaleUp(q, m);
  }

  lemma ScaleUp(q: nat, m: nat)
    requires m > 0
    ensures q <= q * m
  {
  }

  /** More chunks than senders means exactly that the senders cannot carry it all. */
  lemma TooManyChunks(toSend: nat, chunk: nat, maxSenders: nat)
    requires chunk > 0
    ensures |Chunks(toSend, chunk)| > maxSenders <==> toSend > maxSenders * chunk
  {
  }

  lemma MulMonotone(a: nat, b: nat, m: nat)
    requires a <= b
    ensures a * m <= b * m
  {
  }

  /** The multiple of the initial chunk size the search ends at: max(1, ceil(T/(n*m))). */
  function Multiple(maxSenders: nat, toSend: nat, minSendSize: nat): (k: nat)
    requires maxSenders > 0 && minSendSize > 0
    ensures k >= 1
  {
    var c := maxSenders * minSendSize;
    PositiveProduct(maxSenders, minSendSize);
    if toSend <= c then 1 else (toSend + c - 1) / c
  }

  lemma PositiveProduct(a: nat, b: nat)
    requires a > 0 && b > 0
    ensures a * b > 0
  {
  }

  /** It is the least multiple that fits: a multiple j fits exactly when it is at least that. */
  lemma MultipleIsLeast(maxSenders: nat, toSend: nat, minSendSize: nat, j: nat)
    requires maxSenders > 0 && minSendSize > 0 && j >= 1
    ensures j * minSendSize > 0
    ensures |Chunks(toSend, j * minSendSize)| <= maxSenders <==> j >= Multiple(maxSenders, toSend, minSendSize)
  {
    var c := maxSenders * minSendSize;
    PositiveProduct(maxSenders, minSendSize);
    PositiveProduct(j, minSendSize);
    TooManyChunks(toSend, j * minSendSize, maxSenders);
    Reassociate(maxSenders, j, minSendSize);
    CeilExact(toSend, c, j);
  }

  lemma Reassociate(n: nat, j: nat, m: nat)
    ensures n * (j * m) == j * (n * m)
  {
  }

  lemma CeilExact(t: nat, c: nat, j: nat)
    requires c > 0 && j >= 1
    ensures t <= j * c <==> j >= (if t <= c then 1 else (t + c - 1) / c)
  {
    if t <= c {
      MulMonotone(1, j, c);
    } else {
      var k := (t + c - 1) / c;
      DivisionFacts(t + c - 1, c);
      if j >= k {
        MulMonotone(k, j, c);
      } else {
        MulMonotone(j + 1, k, c);
      }
    }
  }

  /** The search stops before its uint64 chunk size wraps. */
  predicate NoWrap(maxSenders: nat, toSend: nat, minSendSize: nat)
    requires maxSenders > 0 && minSendSize > 0
  {
    Multiple(maxSenders, toSend, minSendSize) * minSendSize < TWO_64
  }

  /** Some multiple of the initial size that a uint64 can hold gives few enough chunks. */
  ghost predicate SomeMultipleFits(maxSenders: nat, toSend: nat, minSendSize: nat)
    requires minSendSize > 0
  {
    exists j: nat :: j >= 1 && 0 < j * minSendSize < TWO_64 && |Chunks(toSend, j * minSendSize)| <= maxSenders
  }

  /** NoWrap is exactly what the search needs: without it, every chunk size it tries before the
    * wrap is too small. */
  lemma NoWrapExact(maxSenders: nat, toSend: nat, minSendSize: nat)
    requires maxSenders > 0 && minSendSize > 0
    ensures NoWrap(maxSenders, toSend, minSendSize) <==> SomeMultipleFits(maxSenders, toSend, minSendSize)
  {
    var k := Multiple(maxSenders, toSend, minSendSize);
    MultipleIsLeast(maxSenders, toSend, minSendSize, k);
    if SomeMultipleFits(maxSenders, toSend, minSendSize) {
      var j: nat :| j >= 1 && 0 < j * minSendSize < TWO_64 && |Chunks(toSend, j * minSendSize)| <= maxSenders;
      MultipleIsLeast(maxSenders, toSend, minSendSize, j);
      MulMonotone(k, j, minSendSize);
    }
  }

  /** The chunk size the search ends at. */
  function FinalChunk(maxSenders: nat, toSend: nat, minSendSize: nat): (chunk: u64)
    requires maxSenders > 0 && minSendSize > 0 && NoWrap(maxSenders, toSend, minSendSize)
    ensures chunk > 0
  {
    PositiveProduct(Multiple(maxSenders, toSend, minSendSize), minSendSize);
    Multiple(maxSenders, toSend, minSendSize) * minSendSize
  }

  /** The j-th chunk size the search tries, as a sum of uint64 values. */
  function Tried(minSendSize: u64, j: nat): u64 {
    Wrap64(j * minSendSize)
  }

  /** That chunk size ends the search: the division by it panics, or it gives few enough chunks. */
  predicate Ends(maxSenders: int, toSend: u64, minSendSize: u64, j: nat) {
    Tried(minSendSize, j) == 0 || |Chunks(toSend, Tried(minSendSize, j))| <= maxSenders
  }

  ghost predicate EndsFirstAt(maxSenders: int, toSend: u64, minSendSize: u64, j: nat) {
    && j >= 1 && Ends(maxSenders, toSend, minSendSize, j)
    && forall i :: 1 <= i < j ==> !Ends(maxSenders, toSend, minSendSize, i)
  }

  /** The search, for any arguments whatever: it ends at the first chunk size that will do, or
    * panics at the first that is zero. */
  method ComputeSenderSizes(maxSenders: int, toSend: u64, minSendSize: u64) returns (result: Option<seq<u64>>)
    ensures exists j: nat ::
              && EndsFirstAt(maxSenders, toSend, minSendSize, j)
              && (result.None? <==> Tried(minSendSize, j) == 0)
              && (result.Some? ==> result.value == Chunks(toSend, Tried(minSendSize, j)))
  {
    var chunk := minSendSize;
    var senders := ComputeSenders(toSend, chunk);
    var inc := chunk;
    ghost var j := 1;
    while senders.Some? && |senders.value| > maxSenders
      invariant 1 <= j <= TWO_64 && chunk == Tried(inc, j)
      invariant senders.None? <==> chunk == 0
      invariant senders.Some? ==> senders.value == Chunks(toSend, chunk)
      invariant forall i :: 1 <= i < j ==> !Ends(maxSenders, toSend, inc, i)
      decreases TWO_64 - j
    {
      NextTried(inc, j);
      chunk := Wrap64(chunk as int + inc);
      senders := ComputeSenders(toSend, chunk);
      j := j + 1;
    }
    result := senders;
    assert EndsFirstAt(maxSenders, toSend, inc, j);
  }

  lemma NextTried(m: u64, j: nat)
    ensures Tried(m, j + 1) == Wrap64(Tried(m, j) + m)
    ensures Tried(m, TWO_64) == 0
  {
    assert (j + 1) * m == m + j * m;
    WrapAdd(m, j * m);
    assert TWO_64 * m == 0x1_0000_0000_0000_0000 * m;
  }

  /** The search equals the direct formula exactly when it ends before its uint64 sum wraps. For
    * zero or fewer senders, or a minimal size of zero, it panics unless there is nothing to send
    * and nobody to send it. */
  lemma SearchOutcome(maxSenders: int, toSend: u64, minSendSize: u64, j: nat)
    requires EndsFirstAt(maxSenders, toSend, minSendSize, j)
    ensures maxSenders > 0 && minSendSize > 0 ==>
              && (NoWrap(maxSenders, toSend, minSendSize) <==> j * minSendSize < TWO_64)
              && (NoWrap(maxSenders, toSend, minSendSize) ==>
                    Tried(minSendSize, j) == FinalChunk(maxSenders, toSend, minSendSize))
    ensures maxSenders <= 0 || minSendSize == 0 ==>
              (Tried(minSendSize, j) != 0 <==> maxSenders == 0 && toSend == 0 && minSendSize > 0)
  {
    hide Chunks;
    if maxSenders > 0 && minSendSize > 0 {
      PositiveProduct(j, minSendSize);
      if NoWrap(maxSenders, toSend, minSendSize) {
        MultipleEndsFirst(maxSenders, toSend, minSendSize);
      } else if j * minSendSize < TWO_64 {
        WrapIdentity(j * minSendSize);
        assert SomeMultipleFits(maxSenders, toSend, minSendSize);
        NoWrapExact(maxSenders, toSend, minSendSize);
      }
    } else {
      DegenerateSearch(maxSenders, toSend, minSendSize, j);
    }
  }

  /** Without wrapping, the first chunk size that ends the search is the least multiple that fits. */
  lemma MultipleEndsFirst(maxSenders: nat, toSend: u64, minSendSize: u64)
    requires maxSenders > 0 && minSendSize > 0 && NoWrap(maxSenders, toSend, minSendSize)
    ensures EndsFirstAt(maxSenders, toSend, minSendSize, Multiple(maxSenders, toSend, minSendSize))
  {
    hide Chunks, Multiple;
    var k := Multiple(maxSenders, toSend, minSendSize);
    forall i | 1 <= i <= k
      ensures Ends(maxSenders, toSend, minSendSize, i) <==> i == k
    {
      MulMonotone(i, k, minSendSize);
      WrapIdentity(i * minSendSize);
      MultipleIsLeast(maxSenders, toSend, minSendSize, i);
    }
  }

  lemma DegenerateSearch(maxSenders: int, toSend: u64, minSendSize: u64, j: nat)
    requires EndsFirstAt(maxSenders, toSend, minSendSize, j) && (maxSenders <= 0 || minSendSize == 0)
    ensures Tried(minSendSize, j) != 0 <==> maxSenders == 0 && toSend == 0 && minSendSize > 0
  {
    var chunk := Tried(minSendSize, j);
    if chunk != 0 {
      TooManyChunks(toSend, chunk, 0);
    } else if maxSenders == 0 && toSend == 0 && minSendSize > 0 {
      assert Ends(0, 0, minSendSize, 1);
    }
  }

  /** With two senders or more the chunk size never wraps; with one it does not as long as
    * toSend + minSendSize fits in a uint64. */
  lemma NeverWraps(maxSenders: nat, toSend: u64, minSendSize: u64)
    requires maxSenders > 0 && minSendSize > 0
    requires maxSenders >= 2 || toSend + minSendSize < TWO_64
    ensures NoWrap(maxSenders, toSend, minSendSize)
  {
    var k := Multiple(maxSenders, toSend, minSendSize);
    if k > 1 {
      var c := (k - 1) * minSendSize;
      MultipleIsLeast(maxSenders, toSend, minSendSize, k - 1);
      TooManyChunks(toSend, c, maxSenders);
      assert k * minSendSize == c + minSendSize;
      MulMonotone(1, k - 1, minSendSize);
      if maxSenders >= 2 {
        MulMonotone(2, maxSenders, c);
      }
    }
  }

  /** The largest power of two that divides m. */
  function LowestBit(m: nat): (g: nat)
    requires m > 0
    ensures 1 <= g <= m
  {
    if m % 2 == 1 then 1 else 2 * LowestBit(m / 2)
  }

  function Pow2(n: nat): (p: nat)
    ensures p >= 1
  {
    if n == 0 then 1 else 2 * Pow2(n - 1)
  }

  /** Its quotient is odd, and below 2^n it divides 2^n as well. */
  lemma {:induction false} LowestBitDivides(m: nat, n: nat) returns (odd: nat, rest: nat)
    requires 0 < m < Pow2(n)
    ensures odd % 2 == 1 && m == odd * LowestBit(m) && Pow2(n) == rest * LowestBit(m)
  {
    if m % 2 == 1 {
      odd, rest := m, Pow2(n);
    } else {
      odd, rest := LowestBitDivides(m / 2, n - 1);
      Doubled(odd, LowestBit(m / 2));
      Doubled(rest, LowestBit(m / 2));
    }
  }

  lemma Doubled(a: nat, b: nat)
    ensures 2 * (a * b) == a * (2 * b) == (2 * a) * b
    ensures a * b == b * a
  {
  }

  /** An odd number has a multiple that is one less than a multiple of 2^n. */
  lemma {:induction false} OddReachesMinusOne(odd: nat, n: nat) returns (x: nat, q: nat)
    requires odd % 2 == 1
    ensures odd * x + 1 == Pow2(n) * q
  {
    if n == 0 {
      x, q := 0, 1;
    } else {
      var y, r := OddReachesMinusOne(odd, n - 1);
      if r % 2 == 0 {
        x, q := y, r / 2;
        Doubled(Pow2(n - 1), q);
      } else {
        x, q := y + Pow2(n - 1), (r + odd) / 2;
        NextPower(odd, y, Pow2(n - 1), r, q);
      }
    }
  }

  lemma NextPower(odd: nat, y: nat, p: nat, r: nat, h: nat)
    requires odd * y + 1 == p * r && r + odd == 2 * h
    ensures odd * (y + p) + 1 == (2 * p) * h
  {
    Distribute(odd, y, p);
    Distribute(p, r, odd);
    Doubled(p, h);
  }

  lemma Distribute(a: nat, b: nat, c: nat)
    ensures a * (b + c) == a * b + a * c
    ensures a * c == c * a
  {
  }

  lemma Associate(a: nat, b: nat, c: nat)
    ensures (a * b) * c == a * (b * c)
  {
  }

  /** Some size the search would come to is the largest multiple of the lowest bit. */
  lemma TopIsTried(m: u64) returns (x: nat)
    requires m > 0
    ensures Tried(m, x) == TWO_64 - LowestBit(m)
  {
    hide LowestBit, Pow2;
    SixtyFour();
    var odd, rest := LowestBitDivides(m, 64);
    var q;
    x, q := OddReachesMinusOne(odd, 64);
    TopProduct(odd, x, q, LowestBit(m), m);
  }

  lemma TopProduct(odd: nat, x: nat, q: nat, g: nat, m: nat)
    requires odd * x + 1 == 0x1_0000_0000_0000_0000 * q && m == odd * g && 1 <= g <= m < TWO_64
    ensures Wrap64(x * m) == TWO_64 - g
  {
    Associate(x, odd, g);
    Distribute(x, 0, odd);
    Distribute(g, odd * x, 1);
    Distribute(q, 0, g);
    Associate(0x1_0000_0000_0000_0000, q, g);
    assert x * m == 0x1_0000_0000_0000_0000 * (q * g) - g;
    TopWraps(q * g, g);
  }

  lemma TopWraps(k: nat, g: nat)
    requires 1 <= g < TWO_64
    ensures Wrap64(0x1_0000_0000_0000_0000 * k - g) == TWO_64 - g
  {
  }

  lemma SixtyFour()
    ensures Pow2(64) == TWO_64
  {
    hide Pow2;
    PowersToEight();
    Pow2Doubles(8);
    Pow2Doubles(16);
    Pow2Doubles(32);
  }

  lemma PowersToEight()
    ensures Pow2(8) == 0x100
  {
    Pow2Doubles(2);
    Pow2Doubles(4);
  }

  lemma Pow2Doubles(n: nat)
    ensures Pow2(n + n) == Pow2(n) * Pow2(n)
  {
    Pow2Adds(n, n);
  }

  lemma {:induction false} Pow2Adds(a: nat, b: nat)
    ensures Pow2(a + b) == Pow2(a) * Pow2(b)
  {
    if a == 0 {
    } else {
      Pow2Adds(a - 1, b);
      Doubled(Pow2(a - 1), Pow2(b));
    }
  }

  /** No size tried is larger than that one. */
  lemma TriedBelowTop(m: u64, j: nat)
    requires m > 0
    ensures Tried(m, j) <= TWO_64 - LowestBit(m)
  {
    hide LowestBit, Pow2;
    SixtyFour();
    var odd, rest := LowestBitDivides(m, 64);
    var c := j * m / 0x1_0000_0000_0000_0000;
    assert Tried(m, j) == j * m - 0x1_0000_0000_0000_0000 * c;
    MultipleBelow(j * odd, c, rest, LowestBit(m), j, odd);
  }

  /** A multiple of g below another one is below it by g at least. */
  lemma MultipleBelow(a: nat, c: nat, rest: nat, g: nat, j: nat, odd: nat)
    requires g >= 1 && a == j * odd && 0 <= j * (odd * g) - (rest * g) * c < rest * g
    ensures j * (odd * g) - (rest * g) * c <= rest * g - g
  {
    Associate(j, odd, g);
    Distribute(0, rest, g);
    Distribute(g, rest, 0);
    Associate(rest, g, c);
    Distribute(0, g, c);
    Associate(rest, c, g);
    var d := a - rest * c;
    assert j * (odd * g) - (rest * g) * c == d * g;
    if d >= rest {
      MulMonotone(rest, d, g);
    } else if d <= rest - 1 {
      MulMonotone(if d < 0 then 0 else d, rest - 1, g);
    }
  }

  /** After a zero the sizes tried come round again. */
  lemma TriedComesRound(m: u64, j: nat, x: nat)
    requires j >= 1 && Tried(m, j) == 0
    ensures Tried(m, x % j) == Tried(m, x)
  {
    var c, k := j * m / 0x1_0000_0000_0000_0000, x / j;
    assert j * m == 0x1_0000_0000_0000_0000 * c;
    DivisionFacts(x, j);
    assert x * m == k * j * m + x % j * m;
    Associate(k, j, m);
    assert k * (0x1_0000_0000_0000_0000 * c) == 0x1_0000_0000_0000_0000 * (k * c);
    WholeTurns(k * c, x % j * m);
  }

  lemma WholeTurns(k: nat, r: nat)
    ensures Wrap64(0x1_0000_0000_0000_0000 * k + r) == Wrap64(r)
  {
  }

  /** When the search panics rather than returns, wrapped or not: with one sender, and more to
    * send than the largest chunk size that can be tried. */
  lemma SearchPanics(maxSenders: int, toSend: u64, minSendSize: u64, j: nat)
    requires EndsFirstAt(maxSenders, toSend, minSendSize, j) && maxSenders > 0 && minSendSize > 0
    ensures Tried(minSendSize, j) == 0 <==> maxSenders == 1 && toSend > TWO_64 - LowestBit(minSendSize)
  {
    hide LowestBit, Chunks, Tried;
    if maxSenders >= 2 {
      NeverWraps(maxSenders, toSend, minSendSize);
      SearchOutcome(maxSenders, toSend, minSendSize, j);
    } else {
      TriedBelowTop(minSendSize, j);
      if Tried(minSendSize, j) != 0 {
        TooManyChunks(toSend, Tried(minSendSize, j), 1);
      } else {
        var x := TopIsTried(minSendSize);
        TriedComesRound(minSendSize, j, x);
        ZeroIsZero(minSendSize);
        var i := x % j;
        assert !Ends(1, toSend, minSendSize, i);
        TooManyChunks(toSend, Tried(minSendSize, i), 1);
      }
    }
  }

  lemma ZeroIsZero(m: u64)
    ensures Tried(m, 0) == 0
  {
  }

  /** One sender, 2^64 - 1 bytes, chunks of 1 MB: the first chunk size that ends the search is
    * the 2^44th, which is zero, so that the search divides by zero. */
  lemma SearchDividesByZero()
    ensures EndsFirstAt(1, 0xFFFF_FFFF_FFFF_FFFF, 0x10_0000, 0x1000_0000_0000)
    ensures Tried(0x10_0000, 0x1000_0000_0000) == 0 && !NoWrap(1, 0xFFFF_FFFF_FFFF_FFFF, 0x10_0000)
  {
  }

  /** The sizes add up to the whole transfer; each is positive; all but the last are full
    * chunks, and the last is no larger. */
  lemma ChunksPartition(toSend: nat, chunk: nat)
    requires chunk > 0
    ensures var s := Chunks(toSend, chunk);
            && Sum(s) == toSend
            && (forall i :: 0 <= i < |s| ==> 1 <= s[i] <= chunk)
            && (forall i :: 0 <= i < |s| - 1 ==> s[i] == chunk)
  {
    var q, r := toSend / chunk, toSend % chunk;
    DivisionFacts(toSend, chunk);
    SumRepeated(q, chunk);
    if r != 0 {
      SumAppend(seq(q, _ => chunk), r);
    } else {
      assert Chunks(toSend, chunk) == seq(q, _ => chunk);
    }
  }

  lemma {:induction false} SumRepeated(q: nat, chunk: nat)
    ensures Sum(seq(q, _ => chunk)) == q * chunk
  {
    if q == 0 {
    } else {
      SumRepeated(q - 1, chunk);
      assert seq(q, _ => chunk)[1..] == seq(q - 1, _ => chunk);
    }
  }

  lemma {:induction false} SumAppend(s: seq<nat>, x: nat)
    ensures Sum(s + [x]) == Sum(s) + x
  {
    if s == [] {
      assert s + [x] == [x];
    } else {
      SumAppend(s[1..], x);
      assert (s + [x])[1..] == s[1..] + [x];
    }
  }

  /** The partition ComputeSenderSizes returns: no more senders than allowed, and the whole
    * transfer among them. */
  lemma PartitionWithinLimit(maxSenders: nat, toSend: u64, minSendSize: u64)
    requires maxSenders > 0 && minSendSize > 0 && NoWrap(maxSenders, toSend, minSendSize)
    ensures var senders := Chunks(toSend, FinalChunk(maxSenders, toSend, minSendSize));
            |senders| <= maxSenders && (toSend > 0 ==> |senders| > 0) && Sum(senders) == toSend
  {
    var k := Multiple(maxSenders, toSend, minSendSize);
    MultipleIsLeast(maxSenders, toSend, minSendSize, k);
    ChunksPartition(toSend, k * minSendSize);
  }
}
