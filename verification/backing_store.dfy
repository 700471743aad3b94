/**
 * The "physical" store `large_memory`: a byte buffer in which a byte is bad
 * (`'X'`), claimed by an allocation (`'1'`) or usable (anything else).
 */
module BackingStore {
  import opened Wrappers

  /** Length of `large_memory` in the source (1 MiB); the model takes the buffer's length as given. */
  const LARGE_MEMORY_SIZE: nat := 0x10_0000

  /** The mark of a bad byte (`BAD_BLOCK`). */
  const BAD_BLOCK: char := 'X'

  /** The mark of a byte that backs an allocation. */
  const CLAIMED: char := '1'

  /** The byte is neither bad nor claimed. */
  predicate Usable(c: char) {
    c != BAD_BLOCK && c != CLAIMED
  }

  /**
   * The scan's `good_count` on reaching index `i`: the length of the run of
   * usable bytes that ends just before `i`, counted up to `n`.
   */
  function Run(s: seq<char>, i: nat, n: nat): (r: nat)
    requires i <= |s|
    ensures r <= n && r <= i
    ensures forall j :: i - r <= j < i ==> Usable(s[j])
    ensures r < n && r < i ==> !Usable(s[i - r - 1])
  {
    if i == 0 || !Usable(s[i - 1]) then 0
    else if Run(s, i - 1, n) < n then Run(s, i - 1, n) + 1
    else n
  }

  /**
   * The scan claims at index `i`: the `n` bytes before `i` and byte `i` itself
   * are all usable. The claimed range is `[i - n, i)`; byte `i` is only looked at.
   */
  predicate Claimable(s: seq<char>, n: nat, i: nat) {
    n <= i < |s| && forall j :: i - n <= j <= i ==> Usable(s[j])
  }

  /** The scan claims at `i` exactly when `good_count` has reached `n` and byte `i` is usable. */
  lemma ClaimableByRun(s: seq<char>, n: nat, i: nat)
    requires i < |s|
    ensures Claimable(s, n, i) <==> Run(s, i, n) == n && Usable(s[i])
  {
  }

  /** The first index from `from` on at which the scan claims, if any. */
  function FirstClaim(s: seq<char>, n: nat, from: nat): (r: Option<nat>)
    decreases |s| - from
    ensures r.Some? ==> from <= r.value && Claimable(s, n, r.value)
    ensures r.Some? ==> forall j :: from <= j < r.value ==> !Claimable(s, n, j)
    ensures r.None? ==> forall j :: from <= j ==> !Claimable(s, n, j)
  {
    if from >= |s| then None
    else if Claimable(s, n, from) then Some(from)
    else FirstClaim(s, n, from + 1)
  }

  /**
   * The scan's quirk: it claims only after seeing one more usable byte past
   * the run, so when the only usable bytes are the last `n` of the store, a
   * request for `n` bytes finds nothing.
   */
  lemma FinalRunNeverClaimed(s: seq<char>, n: nat)
    requires n <= |s|
    requires forall j :: 0 <= j < |s| ==> (Usable(s[j]) <==> |s| - n <= j)
    ensures FirstClaim(s, n, 0) == None
  {
    forall i | 0 <= i
      ensures !Claimable(s, n, i)
    {
      if n <= i < |s| {
        assert !Usable(s[i - n]);
      }
    }
  }

  /** The store with the bytes in `[lo, hi)` marked claimed. */
  function Claim(s: seq<char>, lo: nat, hi: nat): seq<char> {
    seq(|s|, j requires 0 <= j < |s| => if lo <= j < hi then CLAIMED else s[j])
  }

  /**
   * Claiming the range the scan found: every byte in it was usable and is now
   * claimed, every other byte is unchanged, and no bad byte is overwritten.
   */
  lemma ClaimSafe(s: seq<char>, n: nat, i: nat)
    requires Claimable(s, n, i)
    ensures |Claim(s, i - n, i)| == |s|
    ensures forall j :: i - n <= j < i ==> Usable(s[j]) && Claim(s, i - n, i)[j] == CLAIMED
    ensures forall j :: 0 <= j < |s| && !(i - n <= j < i) ==> Claim(s, i - n, i)[j] == s[j]
    ensures forall j :: 0 <= j < |s| && s[j] == BAD_BLOCK ==> Claim(s, i - n, i)[j] == BAD_BLOCK
  {
  }

  /** Some pick lands on byte `j` once reduced modulo the store's length. */
  predicate Picked(picks: seq<nat>, size: nat, j: nat)
    requires size > 0
  {
    exists k :: 0 <= k < |picks| && picks[k] % size == j
  }

  /**
   * `markBadBlocks`: every pick, reduced modulo the buffer's length, marks that
   * byte bad; the picks stand for the values of `rand()`.
   */
  method MarkBadBlocks(mem: array<char>, picks: seq<nat>)
    requires mem.Length > 0
    modifies mem
    ensures forall j :: 0 <= j < mem.Length ==> mem[j] == if Picked(picks, mem.Length, j) then BAD_BLOCK else old(mem[j])
  {
    for i := 0 to |picks|
      invariant forall j :: 0 <= j < mem.Length ==> mem[j] == if Picked(picks[..i], mem.Length, j) then BAD_BLOCK else old(mem[j])
    {
      mem[picks[i] % mem.Length] := BAD_BLOCK;
      forall j | 0 <= j < mem.Length
        ensures Picked(picks[..i + 1], mem.Length, j) <==> Picked(picks[..i], mem.Length, j) || picks[i] % mem.Length == j
      {
        if Picked(picks[..i + 1], mem.Length, j) {
          var k :| 0 <= k < i + 1 && picks[..i + 1][k] % mem.Length == j;
          if k < i { assert picks[..i][k] == picks[..i + 1][k]; }
        }
        if Picked(picks[..i], mem.Length, j) {
          var k :| 0 <= k < i && picks[..i][k] % mem.Length == j;
          assert picks[..i + 1][k] == picks[..i][k];
        }
        if picks[i] % mem.Length == j {
          assert picks[..i + 1][i] == picks[i];
        }
      }
    }
    assert picks[..|picks|] == picks;
  }
}
