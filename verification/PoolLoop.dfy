/** For which block masks the loop that generates the pool ends, on a 64-bit machine. */
module PoolLoop {
  import opened Addressing

  const HALF: int := 0x8000_0000_0000_0000

  /** A sum as a signed 64-bit number. */
  function Wrapped(x: int): int {
    (x + HALF) % (2 * HALF) - HALF
  }

  /** `1 << k` as a signed 64-bit number. */
  function OneShifted(k: nat): int {
    if k < 63 then Shl(1, k) else if k == 63 then -HALF else 0
  }

  /** `1 << (32 - mask)`, the difference being an unsigned 64-bit number. */
  function LoopBlockSize(mask: int): int {
    OneShifted((32 - mask) % (2 * HALF))
  }

  /** The loop's counter after n rounds. */
  function Counter(size: int, n: nat): int {
    if n == 0 then size else Wrapped(Counter(size, n - 1) + size)
  }

  ghost predicate LoopEnds(netLen: PrefixLen, mask: int) {
    exists n: nat :: Counter(LoopBlockSize(mask), n) >= BlockSize(netLen)
  }

  lemma {:induction false} CounterStays(size: int, n: nat)
    requires size == 0 || size == -HALF
    ensures Counter(size, n) in {0, -HALF}
  {
    if n > 0 { CounterStays(size, n - 1); }
  }

  lemma SmallSizes(netLen: PrefixLen)
    ensures 1 <= BlockSize(netLen) <= ADDRESSES
  {
    ContainsIsRange(Cidr(0, netLen), 0);
    ShlAdds(1, 0, 32 - netLen);
  }

  lemma SmallIsKept(x: nat)
    ensures x <= ADDRESSES ==> Wrapped(x) == x
  {
  }

  lemma {:induction false} CounterCounts(k: nat, bits: nat, n: nat)
    requires k < 63 && Shl(1, k + bits) <= ADDRESSES && n < Shl(1, bits)
    ensures Counter(Shl(1, k), n) == Shl(n + 1, k)
  {
    hide Shl, Wrapped;
    if n > 0 {
      CounterCounts(k, bits, n - 1);
      SmallIsKept(Shl(n, k) + Shl(1, k));
      ShlAdds(n, 1, k);
      ShlShl(1, bits, k);
      if n + 1 < Shl(1, bits) { ShlMonotone(n + 1, Shl(1, bits), k); }
    }
  }

  /** The loop ends exactly for masks from -30 to 32; from 0 on its step is the size of a block. */
  lemma LoopEndsIff(netLen: PrefixLen, mask: int)
    requires -HALF <= mask < HALF
    ensures LoopEnds(netLen, mask) <==> -30 <= mask <= 32
    ensures 0 <= mask <= 32 ==> LoopBlockSize(mask) == BlockSize(mask)
  {
    hide Shl;
    SmallSizes(netLen);
    var size := LoopBlockSize(mask);
    if -30 <= mask <= 32 {
      var k := 32 - mask;
      assert k % (2 * HALF) == k;
      if k >= 32 - netLen {
        ShlShl(1, 32 - netLen, k - (32 - netLen));
        ShlAdds(BlockSize(netLen), 0, k - (32 - netLen));
        assert Counter(size, 0) >= BlockSize(netLen);
      } else {
        var bits := 32 - netLen - k;
        ShlAdds(1, 0, bits);
        ShlShl(1, bits, k);
        CounterCounts(k, bits, Shl(1, bits) - 1);
        assert Counter(size, Shl(1, bits) - 1) >= BlockSize(netLen);
      }
    } else {
      assert size == 0 || size == -HALF by {
        if mask > 32 { assert (32 - mask) % (2 * HALF) == 32 - mask + 2 * HALF; }
      }
      forall n: nat ensures Counter(size, n) < BlockSize(netLen) {
        CounterStays(size, n);
      }
    }
  }
}
