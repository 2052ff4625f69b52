/**
 * The ring of frame slots both renderers cycle through: `MAX_FRAMES_IN_FLIGHT` slots, each
 * owning an image-available semaphore, a render-finished semaphore, an in-flight fence and a
 * command buffer. Semaphores and command buffers are opaque identities; a fence is the one
 * bit the host can observe, "signaled".
 */
module FrameSync {

  /** `MAX_FRAMES_IN_FLIGHT`. */
  const MaxFramesInFlight: nat := 2

  /** A `vk::Semaphore`; only its identity matters to the host. */
  class Semaphore {
    constructor () {}
  }

  /** A primary `vk::CommandBuffer` allocated from the graphics command pool. */
  class CommandBuffer {
    constructor () {}
  }

  /** No element occurs twice. */
  predicate Distinct<T(==)>(s: seq<T>) {
    forall i, j :: 0 <= i < j < |s| ==> s[i] != s[j]
  }

  /** The slot used by the next frame: consecutive frames never share a slot. */
  function NextFrame(frame: nat): (next: nat)
    requires frame < MaxFramesInFlight
    ensures next < MaxFramesInFlight
    ensures next != frame
    ensures next == 0 <==> frame == MaxFramesInFlight - 1
  {
    (frame + 1) % MaxFramesInFlight
  }

  /** The slot in use after `ticks` completed frames, starting from slot `frame`. */
  function Advance(frame: nat, ticks: nat): (slot: nat)
    requires frame < MaxFramesInFlight
    ensures slot < MaxFramesInFlight
  {
    if ticks == 0 then frame else NextFrame(Advance(frame, ticks - 1))
  }

  /** Stepping the cursor one slot at a time is counting frames modulo the ring size. */
  lemma {:induction false} AdvanceIsModular(frame: nat, ticks: nat)
    requires frame < MaxFramesInFlight
    ensures Advance(frame, ticks) == (frame + ticks) % MaxFramesInFlight
  {
    if ticks > 0 {
      AdvanceIsModular(frame, ticks - 1);
    }
  }

  /** A slot, and so its fence and semaphores, comes back into use exactly every ring length. */
  lemma SlotReturnsAfterRing(frame: nat, ticks: nat)
    requires frame < MaxFramesInFlight
    ensures Advance(frame, ticks) == frame <==> ticks % MaxFramesInFlight == 0
  {
    AdvanceIsModular(frame, ticks);
  }

  /**
   * `createSyncObjects` / `createSynchronizationObjects`: one image-available semaphore, one
   * render-finished semaphore and one fence per slot, every fence created signaled so that the
   * first wait on it returns at once.
   */
  method CreateSyncObjects() returns (imageAvailable: seq<Semaphore>, renderFinished: seq<Semaphore>,
                                      fences: array<bool>)
    ensures |imageAvailable| == |renderFinished| == fences.Length == MaxFramesInFlight
    ensures fresh(fences)
    ensures forall s :: 0 <= s < fences.Length ==> fences[s]
    ensures Distinct(imageAvailable) && Distinct(renderFinished)
    ensures forall i, j :: 0 <= i < |imageAvailable| && 0 <= j < |renderFinished| ==>
      imageAvailable[i] != renderFinished[j]
    ensures forall i :: 0 <= i < |imageAvailable| ==> fresh(imageAvailable[i]) && fresh(renderFinished[i])
  {
    imageAvailable, renderFinished := [], [];
    fences := new bool[MaxFramesInFlight];
    for i := 0 to MaxFramesInFlight
      invariant |imageAvailable| == |renderFinished| == i
      invariant forall s :: 0 <= s < i ==> fences[s]
      invariant Distinct(imageAvailable) && Distinct(renderFinished)
      invariant forall k, j :: 0 <= k < i && 0 <= j < i ==> imageAvailable[k] != renderFinished[j]
      invariant forall k :: 0 <= k < i ==> fresh(imageAvailable[k]) && fresh(renderFinished[k])
    {
      var available := new Semaphore();
      var finished := new Semaphore();
      imageAvailable := imageAvailable + [available];
      renderFinished := renderFinished + [finished];
      fences[i] := true;
    }
  }
}
