/** Arithmetic of ring buffers: cursors that wrap at the capacity. */
module Ring {
  /** How far slot `s` lies behind the cursor `head`. */
  function Behind(cap: nat, head: nat, s: nat): (r: nat)
    requires head < cap && s < cap
    ensures r < cap
  {
    if s >= head then s - head else s + cap - head
  }

  /** The slot `k` places behind the cursor. */
  function Slot(cap: nat, head: nat, k: nat): (r: nat)
    requires head < cap && k <= cap
    ensures r < cap && (k < cap ==> Behind(cap, head, r) == k)
  {
    if head + k < cap then head + k else head + k - cap
  }

  /** The `%` that the code uses is this wrap. */
  lemma SlotIsMod(cap: nat, head: nat, k: nat)
    requires head < cap && k <= cap
    ensures (head + k) % cap == Slot(cap, head, k)
  {
  }
}
