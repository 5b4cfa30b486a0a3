/**
  Products, quotients and remainders.
 */
module Arithmetic {

  lemma MulStep(i: nat, w: nat)
    ensures (i + 1) * w == i * w + w && i * w >= 0
  {
  }

  lemma {:induction false} MulMono(a: nat, b: nat, w: nat)
    requires a < b
    ensures a * w + w <= b * w
    decreases b
  {
    if a + 1 < b { MulMono(a, b - 1, w); }
  }

  lemma MulLeast(a: nat, b: nat, w: nat)
    requires a <= b
    ensures a * w <= b * w
  {
    if a < b { MulMono(a, b, w); }
  }

  lemma DivMod(k: nat, w: nat, q: nat, r: nat)
    requires k == q * w + r && r < w
    ensures k / w == q && k % w == r
  {
    var q', r' := k / w, k % w;
    assert k == q' * w + r' && 0 <= r' < w;
    if q < q' { MulMono(q, q', w); }
    if q' < q { MulMono(q', q, w); }
  }

  lemma DivModDiffer(i: nat, j: nat, w: nat)
    requires w > 0 && i != j
    ensures i / w != j / w || i % w != j % w
  {
    assert i == i / w * w + i % w && j == j / w * w + j % w;
  }

  // How row k / w and column k % w move on.
  lemma NextCell(k: nat, w: nat)
    requires w > 0
    ensures (k + 1) % w == if k % w + 1 < w then k % w + 1 else 0
    ensures (k + 1) / w == if k % w + 1 < w then k / w else k / w + 1
  {
    var q, r := k / w, k % w;
    assert k == q * w + r;
    if r + 1 < w {
      DivMod(k + 1, w, q, r + 1);
    } else {
      assert (q + 1) * w == q * w + w;
      DivMod(k + 1, w, q + 1, 0);
    }
  }

  lemma DivMono(k: nat, k': nat, w: nat)
    requires k <= k' && w > 0
    ensures k / w <= k' / w
  {
    var q, q' := k / w, k' / w;
    assert k == q * w + k % w && k' == q' * w + k' % w;
    if q' < q { MulMono(q', q, w); }
  }
}
