/**
 * The value-level view of a gesture detector's smoothing history: a ring of
 * `BufferLength` samples, the write cursor, the full-scan count of `true`
 * samples and the "exactly half" trigger that advances the background.
 */
module Smoothing {

  /** Length of `backgroundBuffer`. */
  const BufferLength: nat := 20
  /** A continuous sample counts as active above this progress. */
  const ProgressThreshold: real := 0.7
  /** The discrete gesture is shown above this confidence. */
  const ConfidenceThreshold: real := 0.8

  /** Number of `true` entries of `s`, counted from the front. */
  function CountTrue(s: seq<bool>): (n: nat)
    ensures n <= |s|
  {
    if s == [] then 0 else CountTrue(s[..|s| - 1]) + (if s[|s| - 1] then 1 else 0)
  }

  /** Overwriting one entry changes the count by what was removed and what was written. */
  lemma {:induction false} CountTrueUpdate(s: seq<bool>, i: nat, b: bool)
    requires i < |s|
    ensures CountTrue(s[i := b]) == CountTrue(s) - (if s[i] then 1 else 0) + (if b then 1 else 0)
  {
    var t := s[i := b];
    if i == |s| - 1 {
      assert t[..|t| - 1] == s[..|s| - 1];
    } else {
      assert t[..|t| - 1] == s[..|s| - 1][i := b];
      CountTrueUpdate(s[..|s| - 1], i, b);
    }
  }

  /** `n` entries of which exactly the first `k` are `true` hold `min(k, n)` trues. */
  lemma {:induction false} CountTruePrefix(n: nat, k: nat)
    ensures CountTrue(seq(n, j => j < k)) == if k < n then k else n
  {
    if n > 0 {
      assert seq(n, j => j < k)[..n - 1] == seq(n - 1, j => j < k);
      CountTruePrefix(n - 1, k);
    }
  }

  /** The samples and the write cursor of one detector. */
  datatype Ring = Ring(samples: seq<bool>, cursor: int)

  predicate WellFormed(r: Ring) {
    |r.samples| == BufferLength && 0 <= r.cursor < BufferLength
  }

  /** A freshly constructed detector: all samples false, cursor at 0. */
  function Initial(): (r: Ring)
    ensures WellFormed(r)
    ensures forall j :: 0 <= j < |r.samples| ==> !r.samples[j]
    ensures r.cursor == 0
  {
    Ring(seq(BufferLength, _ => false), 0)
  }

  /** The sample recorded for a continuous result of this progress. */
  predicate Active(progress: real) {
    progress > ProgressThreshold
  }

  /** Visibility chosen for a discrete result of this confidence. */
  predicate SummonVisible(confidence: real) {
    confidence > ConfidenceThreshold
  }

  /**
   * One continuous sample: written at the cursor, which then moves on
   * circularly. The count moves by at most one.
   */
  function Push(r: Ring, sample: bool): (r': Ring)
    requires WellFormed(r)
    ensures WellFormed(r')
    ensures r'.samples[r.cursor] == sample
    ensures forall j :: 0 <= j < BufferLength && j != r.cursor ==> r'.samples[j] == r.samples[j]
    ensures r'.cursor == if r.cursor == BufferLength - 1 then 0 else r.cursor + 1
    ensures CountTrue(r'.samples) <= CountTrue(r.samples) + 1
    ensures CountTrue(r.samples) <= CountTrue(r'.samples) + 1
  {
    CountTrueUpdate(r.samples, r.cursor, sample);
    Ring(r.samples[r.cursor := sample], (r.cursor + 1) % BufferLength)
  }

  /** The background advances after a push exactly when half the samples are true. */
  predicate Fires(r: Ring) {
    CountTrue(r.samples) == BufferLength / 2
  }

  /** The ring after pushing `samples` in order. */
  function PushAll(r: Ring, samples: seq<bool>): (r': Ring)
    requires WellFormed(r)
    ensures WellFormed(r')
    decreases |samples|
  {
    if samples == [] then r else Push(PushAll(r, samples[..|samples| - 1]), samples[|samples| - 1])
  }

  /** `k` consecutive pushes of `true` from the initial ring. */
  function Trues(k: nat): seq<bool> {
    seq(k, _ => true)
  }

  /**
   * From the initial ring, `k <= BufferLength` pushes of `true` fill the
   * first `k` entries and place the cursor at `k` (wrapping at the end).
   */
  lemma {:induction false} PushTruesFromInitial(k: nat)
    requires k <= BufferLength
    ensures PushAll(Initial(), Trues(k)) == Ring(seq(BufferLength, j => j < k), k % BufferLength)
  {
    var s := seq(BufferLength, j => j < k);
    if k == 0 {
      assert Initial().samples == s;
    } else {
      PushTruesFromInitial(k - 1);
      var r := PushAll(Initial(), Trues(k - 1));
      assert Trues(k)[..k - 1] == Trues(k - 1);
      assert PushAll(Initial(), Trues(k)) == Push(r, true);
      assert r.samples[k - 1 := true] == s;
    }
  }

  /** From the initial ring, `k <= BufferLength` pushes of `true` give count `k`. */
  lemma CountAfterTrues(k: nat)
    requires k <= BufferLength
    ensures CountTrue(PushAll(Initial(), Trues(k)).samples) == k
  {
    PushTruesFromInitial(k);
    CountTruePrefix(BufferLength, k);
  }

  /** Among the first `BufferLength` pushes of `true`, only the tenth fires. */
  lemma FiresOnlyOnTenthTrue(k: nat)
    requires 1 <= k <= BufferLength
    ensures Fires(PushAll(Initial(), Trues(k))) <==> k == BufferLength / 2
  {
    CountAfterTrues(k);
  }

  /**
   * The trigger is a level test: a push that leaves the count at half the
   * buffer fires again, e.g. when it overwrites a sample with an equal one.
   */
  lemma RefiresWhileCountStaysAtHalf(r: Ring, sample: bool)
    requires WellFormed(r) && Fires(r)
    requires r.samples[r.cursor] == sample
    ensures Fires(Push(r, sample))
  {
    CountTrueUpdate(r.samples, r.cursor, sample);
  }

  /** Ten trues followed by a false fires on both the tenth and the eleventh push. */
  lemma TenTruesThenFalseFiresTwice()
    ensures Fires(PushAll(Initial(), Trues(10)))
    ensures Fires(PushAll(Initial(), Trues(10) + [false]))
  {
    PushTruesFromInitial(10);
    CountAfterTrues(10);
    var r := PushAll(Initial(), Trues(10));
    assert (Trues(10) + [false])[..10] == Trues(10);
    assert !r.samples[r.cursor];
    RefiresWhileCountStaysAtHalf(r, false);
  }

  /** The discrete decision is strict at the threshold. */
  lemma SummonThresholdIsStrict()
    ensures !SummonVisible(0.8)
    ensures SummonVisible(0.8000001)
    ensures forall c: real :: SummonVisible(c) <==> c > 0.8
  {
  }
}
