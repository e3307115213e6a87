/** The waiting time between two attempts of a transaction. */
module Retransmit {
  import opened TimeVal
  import opened Power
  import MsgId

  type uint32 = MsgId.uint32

  const MAX_ATTEMPTS := 15
  const ACK_TIMEOUT: cms := 1500
  const MAX_RETRANSMIT: cms := 14000

  /** 1500 ms, doubled for every attempt so far, times 512 times the random factor, before it is cut. */
  function Product(retries: nat, random: uint32): nat {
    ACK_TIMEOUT * Pow2(retries) * (512 + random % 256)
  }

  /** The delay before the next attempt.  The product is made in 32 bits. */
  function Delay(retries: nat, random: uint32): (delay: cms)
    ensures delay <= MAX_RETRANSMIT
  {
    var delay := Quot(Int32(Product(retries, random)), 512);
    if delay > MAX_RETRANSMIT then MAX_RETRANSMIT else delay
  }

  lemma Scaled(p: nat, x: nat)
    requires 1 <= p <= 1024 && x < 256
    ensures 512 * (1500 * p) <= 1500 * p * (512 + x) <= 512 * (2250 * p) - 1 <= 0x7fff_ffff
  {
    assert 1500 * p * (512 + x) == 512 * (1500 * p) + 1500 * (p * x);
    assert p * x <= p * 255;
  }

  /** Up to ten attempts nothing overflows: the delay is at least 1500 ms * 2^r and less than half more, up to the cap. */
  lemma DelayBounds(r: nat, random: uint32)
    requires r <= 10
    ensures var least := ACK_TIMEOUT * Pow2(r);
            var raw := Product(r, random) / 512;
            && Product(r, random) < 0x8000_0000
            && least <= raw && 2 * raw < 3 * least
            && Delay(r, random) == if raw > MAX_RETRANSMIT then MAX_RETRANSMIT else raw
  {
    Pow2Grows(0, r);
    Pow2Grows(r, 10);
    Pow2Of10();
    Scaled(Pow2(r), random % 256);
  }

  /** The first delay is 1.5 s times the random factor, and every further one twice as long, to the millisecond, up to the cap. */
  lemma BacksOff(r: nat, random: uint32)
    requires r < 10
    ensures Delay(0, random) == 1500 + 1500 * (random % 256) / 512
    ensures Delay(r, random) <= 14000
    ensures Delay(r, random) < 7000 ==> Delay(r + 1, random) - 2 * Delay(r, random) in {0, 1}
    ensures Delay(r, random) >= 7000 ==> Delay(r + 1, random) == 14000
  {
    DelayBounds(0, random);
    DelayBounds(r, random);
    DelayBounds(r + 1, random);
    Doubled(r, random);
  }

  lemma Doubled(r: nat, random: uint32)
    ensures Product(r + 1, random) == 2 * Product(r, random)
    ensures Product(0, random) == 1500 * 512 + 1500 * (random % 256)
  {
    var p, x := Pow2(r), 512 + random % 256;
    assert 1500 * (2 * p) * x == 2 * (1500 * p * x);
  }

  lemma Pow2Of10()
    ensures Pow2(10) == 1024 && Pow2(11) == 2048
  {
    assert Pow2(5) == 32;
  }

  /** The twelfth delay overflows for the upper quarter of the random factors, and then it is negative. */
  lemma TwelfthDelay(random: uint32)
    ensures random % 256 < 188 <==> Product(11, random) < 0x8000_0000
    ensures random % 256 < 188 <==> Delay(11, random) == MAX_RETRANSMIT
    ensures random % 256 >= 188 <==> Delay(11, random) < 0
  {
    hide Pow2;
    Pow2Of10();
    assert Product(11, random) == 3072000 * (512 + random % 256);
  }
}
