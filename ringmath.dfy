/** Modular arithmetic shared by the ring buffers of the model. */
module RingMath {

  lemma MulAtLeast(d: int, cap: int)
    requires cap > 0 && d >= 1
    ensures d * cap >= cap
  {
    if d > 1 { MulAtLeast(d - 1, cap); assert d * cap == (d - 1) * cap + cap; }
  }

  /** Division with remainder is unique. */
  lemma ModOf(a: int, q: int, x: int, cap: int)
    requires cap > 0 && a == q * cap + x && 0 <= x < cap
    ensures a % cap == x && a / cap == q
  {
    var q2, x2 := a / cap, a % cap;
    assert a == q2 * cap + x2;
    var d := q - q2;
    assert d * cap == x2 - x by { assert q * cap - q2 * cap == (q - q2) * cap; }
    if d >= 1 { MulAtLeast(d, cap); }
    else if d <= -1 { assert (-d) * cap == -(d * cap); MulAtLeast(-d, cap); }
  }

  /** Two ring positions less than `cap` apart land in different slots. */
  lemma ModApart(h: int, m: nat, k: nat, cap: nat)
    requires m < cap && k < cap && m != k
    ensures (h + m) % cap != (h + k) % cap
  {
    var q, r := h / cap, h % cap;
    assert h == q * cap + r;
    if r + m < cap { ModOf(h + m, q, r + m, cap); } else { ModOf(h + m, q + 1, r + m - cap, cap); }
    if r + k < cap { ModOf(h + k, q, r + k, cap); } else { ModOf(h + k, q + 1, r + k - cap, cap); }
  }

  /** Advancing a slot index by one, modulo `cap`, equals advancing the
      position it stands for. */
  lemma ModSucc(h: int, k: int, cap: nat)
    requires cap > 0
    ensures (h % cap + k) % cap == (h + k) % cap
  {
    var q, r := h / cap, h % cap;
    assert h == q * cap + r;
    var q2, r2 := (r + k) / cap, (r + k) % cap;
    assert r + k == q2 * cap + r2;
    assert h + k == (q + q2) * cap + r2 by {
      assert (q + q2) * cap == q * cap + q2 * cap;
    }
    ModOf(h + k, q + q2, r2, cap);
  }

  /** `x % c` by repeated subtraction.  Being recursive, it is unfolded
      only as far as a proof asks, which keeps modular arithmetic out of
      the proofs about the queues. */
  function Wrap(x: nat, c: nat): (r: nat)
    requires c > 0
    ensures r < c
    decreases x
  {
    if x < c then x else Wrap(x - c, c)
  }

  lemma {:induction false} WrapMod(x: nat, c: nat)
    requires c > 0
    ensures Wrap(x, c) == x % c
    decreases x
  {
    if x < c {
      ModOf(x, 0, x, c);
    } else {
      WrapMod(x - c, c);
      var q, r := (x - c) / c, (x - c) % c;
      assert x - c == q * c + r;
      assert x == (q + 1) * c + r by { assert (q + 1) * c == q * c + c; }
      ModOf(x, q + 1, r, c);
    }
  }

  /** Two ring positions less than `cap` apart occupy different slots. */
  lemma WrapApart(h: nat, m: nat, k: nat, cap: nat)
    requires m < cap && k < cap && m != k
    ensures Wrap(h + m, cap) != Wrap(h + k, cap)
  {
    WrapMod(h + m, cap);
    WrapMod(h + k, cap);
    ModApart(h, m, k, cap);
  }

  /** Advancing a slot index by one, modulo `cap`, gives the slot of the
      next position. */
  lemma WrapNext(h: nat, cap: nat)
    requires cap > 0
    ensures (Wrap(h, cap) + 1) % cap == Wrap(h + 1, cap)
  {
    WrapMod(h, cap);
    WrapMod(h + 1, cap);
    ModSucc(h, 1, cap);
  }
}
