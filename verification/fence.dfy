/** The CPU/GPU fence protocol shared by ImageLoader, ResourceManager and App: an
    ID3D12Fence whose completed value the GPU raises, and the owner's CPU-side counter
    `m_fenceValue`, which names the next value to signal.

    The GPU runs concurrently, so what the CPU observes of it (GetCompletedValue, the
    value a wait returns at) is passed in as a parameter; the model only asks that the
    GPU never moves the completed value backwards nor beyond the last value signalled. */
module Fences {

  /** Every element is larger than the one before it. */
  predicate StrictlyIncreasing(s: seq<nat>)
  {
    forall i, j :: 0 <= i < j < |s| ==> s[i] < s[j]
  }

  /** The values lo, lo + 1, ..., hi - 1, in that order. */
  function Counting(lo: nat, hi: nat): (s: seq<nat>)
    ensures |s| == if hi <= lo then 0 else hi - lo
    decreases hi
  {
    if hi <= lo then [] else Counting(lo, hi - 1) + [hi - 1]
  }

  /** The signals of a counter that starts at lo and is bumped once per signal: element i
      is lo + i, so they strictly increase and all lie in [lo, hi). */
  lemma {:induction false} CountingValues(lo: nat, hi: nat)
    ensures forall i :: 0 <= i < |Counting(lo, hi)| ==> Counting(lo, hi)[i] == lo + i
    ensures StrictlyIncreasing(Counting(lo, hi))
    ensures forall v :: v in Counting(lo, hi) <==> lo <= v < hi
    decreases hi
  {
    if lo < hi {
      CountingValues(lo, hi - 1);
    }
  }

  /** Signalling the current counter value and then bumping the counter extends the
      sequence of signalled values by exactly that value. */
  lemma CountingNext(lo: nat, hi: nat)
    requires lo <= hi
    ensures Counting(lo, hi + 1) == Counting(lo, hi) + [hi]
  {
  }

  /** ID3D12Fence as the CPU sees it. */
  class Fence {
    /** The value CreateFence was given. */
    const initialValue: nat
    /** GetCompletedValue(): the last value the GPU has reached. */
    var completed: nat
    /** The values passed to ID3D12CommandQueue::Signal, in submission order. */
    var signals: seq<nat>

    /** The value the GPU will reach once all submitted work is done. */
    function Latest(): nat
      reads this
    {
      if |signals| == 0 then initialValue else signals[|signals| - 1]
    }

    /** The completed value is one the GPU can have reached. */
    ghost predicate Valid()
      reads this
    {
      completed <= Latest()
    }

    /** CreateFence(initialValue): the fence starts completed at its initial value. */
    constructor (initialValue: nat)
      ensures Valid()
      ensures this.initialValue == initialValue && completed == initialValue && signals == []
    {
      this.initialValue := initialValue;
      completed := initialValue;
      signals := [];
    }

    /** ID3D12CommandQueue::Signal(fence, value): queued after the submitted work. */
    method Signal(value: nat)
      requires Valid() && Latest() <= value
      modifies this
      ensures Valid()
      ensures signals == old(signals) + [value] && completed == old(completed)
    {
      signals := signals + [value];
    }

    /** GetCompletedValue() returning `reading`: what the GPU has reached by now. */
    method Observe(reading: nat) returns (value: nat)
      requires Valid() && completed <= reading <= Latest()
      modifies this
      ensures Valid() && signals == old(signals)
      ensures value == reading && completed == reading
    {
      completed := reading;
      value := reading;
    }

    /** SetEventOnCompletion(value) followed by an infinite wait on the event: returns once
        the GPU has reached `value`, at `reached`. */
    method WaitFor(value: nat, reached: nat)
      requires Valid() && value <= Latest()
      requires completed <= reached <= Latest() && value <= reached
      modifies this
      ensures Valid() && signals == old(signals)
      ensures completed == reached && value <= completed
    {
      completed := reached;
    }
  }

  /** `while (m_fence->GetCompletedValue() < value) sleep`: reads successive completed
      values until one reaches `value`. The loop stops at the first such reading, and
      every reading before it was below `value`. */
  method PollUntilReached(value: nat, readings: seq<nat>) returns (polls: nat)
    requires exists k :: 0 <= k < |readings| && value <= readings[k]
    ensures polls < |readings| && value <= readings[polls]
    ensures forall k :: 0 <= k < polls ==> readings[k] < value
  {
    polls := 0;
    while readings[polls] < value
      invariant polls < |readings|
      invariant forall k :: 0 <= k < polls ==> readings[k] < value
      invariant exists k :: polls <= k < |readings| && value <= readings[k]
      decreases |readings| - polls
    {
      polls := polls + 1;
    }
  }
}
