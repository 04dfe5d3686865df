/** The contiguous length while logged entries are replayed (`update_contiguous_length` in src/core.rs). */
module Hints {
  import opened Storage
  import opened CoreState

  /** The bits that replay has reached before entry `k`. */
  ghost function BitsBefore(es: seq<Entry>, stored: iset<nat>, k: nat): iset<nat>
    requires k <= |es|
  {
    iset i: nat | AfterUpdates(es[..k], i, i in stored)
  }

  lemma {:induction false} NextBits(es: seq<Entry>, stored: iset<nat>, k: nat, i: nat)
    requires k < |es|
    ensures i in BitsBefore(es, stored, k + 1) <==> ApplyUpdate(es[k], i, i in BitsBefore(es, stored, k))
  {
    assert es[..k + 1] == es[..k] + [es[k]];
    AfterUpdatesSnoc(es[..k], es[k], i, i in stored);
  }

  lemma {:induction false} NoneBefore(es: seq<Entry>, stored: iset<nat>)
    ensures BitsBefore(es, stored, 0) == stored
  {
    assert es[..0] == [];
  }

  /** The hint moves from `c` to `c'` when an entry has been replayed that leaves `bits`. */
  ghost predicate HintMoves(e: Entry, bits: iset<nat>, c: nat, c': nat) {
    if e.bitfield.None? then c' == c
    else
      var u := e.bitfield.value;
      var end := u.start + u.length;
      if u.drop then c' == AfterReplayedClear(c, u.start, end)
      else if u.start <= c <= end then RunEnds(bits, end, c')
      else c' == c
  }

  /** `cs` are the hints before the first entry, between any two and after the last. */
  ghost predicate Traced(es: seq<Entry>, stored: iset<nat>, cs: seq<nat>) {
    |cs| == |es| + 1 && forall k :: 0 <= k < |es| ==> HintMoves(es[k], BitsBefore(es, stored, k + 1), cs[k], cs[k + 1])
  }

  /** ... and up to entry `k`. */
  ghost predicate TracedTo(es: seq<Entry>, stored: iset<nat>, cs: seq<nat>, k: nat) {
    && |cs| == k + 1 && k <= |es|
    && forall j :: 0 <= j < k ==> HintMoves(es[j], BitsBefore(es, stored, j + 1), cs[j], cs[j + 1])
  }

  lemma {:induction false} TracedNext(es: seq<Entry>, stored: iset<nat>, cs: seq<nat>, k: nat, c: nat)
    requires TracedTo(es, stored, cs, k) && k < |es| && HintMoves(es[k], BitsBefore(es, stored, k + 1), cs[k], c)
    ensures TracedTo(es, stored, cs + [c], k + 1)
  {
  }

  /** The entry is not a clear that ends before the hint. */
  predicate ReachesHint(e: Entry, c: nat) {
    e.bitfield.Some? && e.bitfield.value.drop && e.bitfield.value.length > 0 ==>
      c <= e.bitfield.value.start + e.bitfield.value.length
  }

  predicate Clears(e: Entry, i: nat) {
    e.bitfield.Some? && e.bitfield.value.drop
    && e.bitfield.value.start <= i < e.bitfield.value.start + e.bitfield.value.length
  }

  predicate Sets(e: Entry, i: nat) {
    e.bitfield.Some? && !e.bitfield.value.drop
    && e.bitfield.value.start <= i < e.bitfield.value.start + e.bitfield.value.length
  }

  /** Clear `k` ends before the hint and drops block `i`, which no later entry sets again. */
  predicate LeftBehind(es: seq<Entry>, cs: seq<nat>, n: nat, k: nat, i: nat)
    requires n <= |es| < |cs|
  {
    k < n && !ReachesHint(es[k], cs[k]) && Clears(es[k], i) && forall j :: k < j < n ==> !Sets(es[j], i)
  }

  lemma {:induction false} LeftIsUnset(es: seq<Entry>, stored: iset<nat>, cs: seq<nat>, n: nat, k: nat, i: nat)
    requires n <= |es| < |cs| && LeftBehind(es, cs, n, k, i)
    ensures i !in BitsBefore(es, stored, n)
    decreases n
  {
    NextBits(es, stored, n - 1, i);
    if k < n - 1 {
      LeftIsUnset(es, stored, cs, n - 1, k, i);
    }
  }

  /**
   One entry more: a block below the new hint that is missing was missing below the old one, or was just left behind.
   */
  lemma {:induction false} StaleStep(e: Entry, was: iset<nat>, now: iset<nat>, c: nat, c': nat, i: nat)
    requires forall j: nat :: j in now <==> ApplyUpdate(e, j, j in was)
    requires HintMoves(e, now, c, c') && i < c' && i !in now
    ensures i < c && !Sets(e, i) && (i in was ==> !ReachesHint(e, c) && Clears(e, i))
  {
  }

  /** Every block that is missing below the hint was left behind by some clear. */
  lemma {:induction false} StaleFrom(es: seq<Entry>, stored: iset<nat>, cs: seq<nat>, n: nat, i: nat) returns (k: nat)
    requires Traced(es, stored, cs) && FirstUnset(stored, cs[0]) && n <= |es| && i < cs[n]
             && i !in BitsBefore(es, stored, n)
    ensures LeftBehind(es, cs, n, k, i)
    decreases n
  {
    NoneBefore(es, stored);
    if n > 0 {
      forall j: nat
        ensures j in BitsBefore(es, stored, n) <==> ApplyUpdate(es[n - 1], j, j in BitsBefore(es, stored, n - 1))
      {
        NextBits(es, stored, n - 1, j);
      }
      StaleStep(es[n - 1], BitsBefore(es, stored, n - 1), BitsBefore(es, stored, n), cs[n - 1], cs[n], i);
      if i in BitsBefore(es, stored, n - 1) {
        k := n - 1;
      } else {
        k := StaleFrom(es, stored, cs, n - 1, i);
      }
    }
  }

  /** The hint never names a block that is held. */
  lemma {:induction false} HintIsUnset(es: seq<Entry>, stored: iset<nat>, cs: seq<nat>, n: nat)
    requires Traced(es, stored, cs) && cs[0] !in stored && n <= |es|
    ensures cs[n] !in BitsBefore(es, stored, n)
  {
    if n == 0 {
      NoneBefore(es, stored);
    } else {
      HintIsUnset(es, stored, cs, n - 1);
      NextBits(es, stored, n - 1, cs[n - 1]);
      NextBits(es, stored, n - 1, cs[n]);
    }
  }

  /** Some block below the last hint was left behind. */
  predicate SomeLeftBehind(es: seq<Entry>, cs: seq<nat>)
    requires |cs| == |es| + 1
  {
    exists k, i :: 0 <= k < |es| && 0 <= i < cs[|es|] && LeftBehind(es, cs, |es|, k, i)
  }

  /**
   The hint after a replay is right if and only if no replayed clear that ended before the hint of its time dropped a block
   below the final hint that no later entry set again.
   */
  lemma {:induction false} ReplayedHintIsRight(es: seq<Entry>, stored: iset<nat>, cs: seq<nat>)
    requires Traced(es, stored, cs) && FirstUnset(stored, cs[0])
    ensures FirstUnset(BitsBefore(es, stored, |es|), cs[|es|]) <==> !SomeLeftBehind(es, cs)
  {
    var n := |es|;
    HintIsUnset(es, stored, cs, n);
    if !FirstUnset(BitsBefore(es, stored, n), cs[n]) {
      var i: nat :| i < cs[n] && i !in BitsBefore(es, stored, n);
      var k := StaleFrom(es, stored, cs, n, i);
      assert SomeLeftBehind(es, cs);
    } else if SomeLeftBehind(es, cs) {
      var k, i :| 0 <= k < |es| && 0 <= i < cs[|es|] && LeftBehind(es, cs, |es|, k, i);
      LeftIsUnset(es, stored, cs, n, k, i);
    }
  }
}
