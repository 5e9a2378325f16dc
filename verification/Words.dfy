/** Fixed-width counters, clock readings and optional values. */
module Words {

  datatype Option<+T> = None | Some(value: T)

  const TWO32: int := 0x1_0000_0000

  type Uint32 = x: int | 0 <= x < 0x1_0000_0000
  type Uint64 = x: int | 0 <= x < 0x1_0000_0000_0000_0000

  /** `x++` on a uint32 */
  function Inc32(x: Uint32): Uint32 {
    if x == 0xFFFF_FFFF then 0 else x + 1
  }

  /** `x++` on a uint64 */
  function Inc64(x: Uint64): Uint64 {
    if x == 0xFFFF_FFFF_FFFF_FFFF then 0 else x + 1
  }

  function Wrap32(n: nat): Uint32 {
    n % 0x1_0000_0000
  }

  function Wrap64(n: nat): Uint64 {
    n % 0x1_0000_0000_0000_0000
  }

  /** A clock reading in nanoseconds; 0 is Go's zero `time.Time`, which precedes every reading. */
  type Time = int

  const ZERO_TIME: Time := 0

  // ----- division -----

  lemma ProductAtLeast(d: int, w: nat)
    requires d != 0
    ensures w <= d * w || d * w + w <= 0
  {
    if d >= 1 {
      assert (d - 1) * w >= 0;
    } else {
      assert (-d - 1) * w >= 0;
    }
  }

  /** Quotient and remainder are unique. */
  lemma Division(x: nat, q: nat, r: nat, w: nat)
    requires r < w && x == q * w + r
    ensures x / w == q && x % w == r
  {
    var d := x / w - q;
    assert x == x / w * w + x % w;
    assert d * w == r - x % w;
    if d != 0 {
      ProductAtLeast(d, w);
    }
  }

  /** Adding a multiple leaves the remainder. */
  lemma AddMultiple(n: nat, k: nat, w: nat)
    requires 0 < w
    ensures (n + k * w) / w == n / w + k && (n + k * w) % w == n % w
  {
    var q, r := n / w, n % w;
    assert n + k * w == (q + k) * w + r;
    Division(n + k * w, q + k, r, w);
  }
}
