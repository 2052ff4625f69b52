/**
 * `HelloTriangle`, the renderer that actually draws: a ring of frame slots, a swapchain that is
 * rebuilt when the surface changes, and the window events that stop the loop, suspend
 * rendering or trigger a rebuild.
 *
 * The driver and the window are inputs. What the surface reports when a swapchain is built is a
 * `Surface` value; the results of `acquireNextImage` and `presentKHR` are parameters of the
 * methods that issue those calls. The calls the host issues to the driver are recorded, in
 * order, in the `calls` field, and `Valid()` states the frame protocol over that record.
 */
module HelloTriangleApp {
  import opened Wrappers
  import opened VkTypes
  import Negotiation
  import opened FrameSync
  import opened EngineEvents

  // ---------------------------------------------------------------------------
  // The swapchain and its views

  /** What the physical device and the window report while a swapchain is (re)built. */
  datatype Surface = Surface(
    capabilities: SurfaceCapabilities,
    formats: seq<SurfaceFormat>,
    presentModes: seq<PresentMode>,
    window: Extent2D,       // the window's pixel size
    images: seq<Image>)     // what `getImages` returns for the new swapchain

  /**
   * A swapchain can be negotiated: the surface lists a format (Vulkan guarantees at least one)
   * and, when it leaves the extent to the swapchain, its extent bounds are ordered.
   */
  predicate Negotiable(s: Surface) {
    && s.formats != []
    && (Negotiation.ExtentUndefined(s.capabilities) ==> Negotiation.ExtentBoundsOrdered(s.capabilities))
  }

  /** `recreateSwapchain` stops before negotiating anything when the window has no area. */
  predicate Recreatable(s: Surface) {
    ZeroExtent(s.window) || Negotiable(s)
  }

  /**
   * The parameters `createSwapchain` passes to the driver: the preferred format when listed,
   * FIFO or IMMEDIATE by the vsync setting, the negotiated extent and image count, and
   * concurrent sharing exactly when graphics and present are different families.
   */
  function SwapchainFor(s: Surface, useVsync: bool, graphicsFamily: Uint32, presentFamily: Uint32)
    : (c: SwapchainConfig)
    requires Negotiable(s)
    ensures c.surfaceFormat in s.formats
    ensures Negotiation.PreferredSurfaceFormat in s.formats ==> c.surfaceFormat == Negotiation.PreferredSurfaceFormat
    ensures c.presentMode == Fifo <==> useVsync
    ensures c.presentMode == Immediate <==> !useVsync
    ensures s.capabilities.maxImageCount > 0 ==> c.minImageCount <= s.capabilities.maxImageCount
    ensures !Negotiation.ExtentUndefined(s.capabilities) ==> c.extent == s.capabilities.currentExtent
    ensures c.sharing.Exclusive? <==> graphicsFamily == presentFamily
  {
    Negotiation.ConfigFor(s.capabilities, Negotiation.ChooseSwapchainFormat(s.formats),
                          Negotiation.ChooseFixedPresentMode(s.presentModes, useVsync), s.window,
                          graphicsFamily, presentFamily)
  }

  /** One view per swapchain image, in the same order, each in the swapchain's format. */
  predicate ViewsOver(views: seq<ImageView>, images: seq<Image>, format: Format) {
    && |views| == |images|
    && forall i :: 0 <= i < |images| ==> views[i] == ImageView(images[i], format)
  }

  /** `createImageViews`: a 2D colour view over each swapchain image, in order. */
  method CreateImageViews(images: seq<Image>, format: Format) returns (views: seq<ImageView>)
    ensures ViewsOver(views, images, format)
  {
    views := [];
    for i := 0 to |images|
      invariant ViewsOver(views, images[..i], format)
    {
      views := views + [ImageView(images[i], format)];
    }
  }

  // ---------------------------------------------------------------------------
  // The commands recorded for one frame

  /** The image layouts a frame moves a swapchain image through. */
  datatype Layout = Undefined | ColorAttachmentOptimal | PresentSrc

  /** The recorded commands that matter to the image's layout and to what is drawn. */
  datatype Command =
    | Barrier(image: Image, oldLayout: Layout, newLayout: Layout)
    | BeginRendering(view: ImageView, renderArea: Extent2D)
    | Draw(vertexCount: nat)
    | EndRendering

  /**
   * The command buffer `renderFrame` records for swapchain image `imageIndex`: move the image to
   * COLOR_ATTACHMENT_OPTIMAL, render the triangle into its view over the whole extent, then move
   * it to PRESENT_SRC.
   */
  function RecordFrame(images: seq<Image>, views: seq<ImageView>, imageIndex: nat, extent: Extent2D)
    : (cmds: seq<Command>)
    requires imageIndex < |images| && imageIndex < |views|
  {
    [ Barrier(images[imageIndex], Undefined, ColorAttachmentOptimal),
      BeginRendering(views[imageIndex], extent),
      Draw(3),
      EndRendering,
      Barrier(images[imageIndex], ColorAttachmentOptimal, PresentSrc) ]
  }

  /**
   * The layout of `image` once `cmds` have executed, starting from `layout`; `None` when a
   * command is out of place: a barrier on the image must name its current layout as the old one
   * (UNDEFINED may always be named, discarding the contents), and rendering into the image's view
   * needs COLOR_ATTACHMENT_OPTIMAL.
   */
  function LayoutAfter(cmds: seq<Command>, image: Image, layout: Layout): Option<Layout>
  {
    if cmds == [] then Some(layout)
    else
      var next :=
        match cmds[0]
        case Barrier(target, from, to) =>
          if target != image then Some(layout)
          else if from == layout || from == Undefined then Some(to)
          else None
        case BeginRendering(view, _) =>
          if view.image != image || layout == ColorAttachmentOptimal then Some(layout) else None
        case _ => Some(layout);
      if next.None? then None else LayoutAfter(cmds[1..], image, next.value)
  }

  /**
   * Whatever layout the acquired image is in, the recorded frame renders into it only in
   * COLOR_ATTACHMENT_OPTIMAL and leaves it in PRESENT_SRC, ready for `presentKHR`.
   */
  lemma RecordedFrameLeavesImagePresentable(images: seq<Image>, views: seq<ImageView>, format: Format,
                                            imageIndex: nat, extent: Extent2D, start: Layout)
    requires ViewsOver(views, images, format) && imageIndex < |images|
    ensures LayoutAfter(RecordFrame(images, views, imageIndex, extent), images[imageIndex], start)
         == Some(PresentSrc)
  {
    var cmds := RecordFrame(images, views, imageIndex, extent);
    var image := images[imageIndex];
    assert LayoutAfter(cmds[4..], image, ColorAttachmentOptimal) == Some(PresentSrc);
    assert LayoutAfter(cmds[3..], image, ColorAttachmentOptimal) == Some(PresentSrc);
    assert LayoutAfter(cmds[2..], image, ColorAttachmentOptimal) == Some(PresentSrc);
    assert LayoutAfter(cmds[1..], image, ColorAttachmentOptimal) == Some(PresentSrc);
  }

  /** The recorded frame touches no other image: each keeps its layout. */
  lemma RecordedFrameLeavesOtherImages(images: seq<Image>, views: seq<ImageView>, format: Format,
                                       imageIndex: nat, extent: Extent2D, other: Image, layout: Layout)
    requires ViewsOver(views, images, format) && imageIndex < |images|
    requires other != images[imageIndex]
    ensures LayoutAfter(RecordFrame(images, views, imageIndex, extent), other, layout) == Some(layout)
  {
    var cmds := RecordFrame(images, views, imageIndex, extent);
    assert LayoutAfter(cmds[4..], other, layout) == Some(layout);
    assert LayoutAfter(cmds[3..], other, layout) == Some(layout);
    assert LayoutAfter(cmds[2..], other, layout) == Some(layout);
    assert LayoutAfter(cmds[1..], other, layout) == Some(layout);
  }

  // ---------------------------------------------------------------------------
  // The driver calls of the frame loop and the protocol they follow

  /** A call the host issues to the driver; results are what the driver answered. */
  datatype Call =
    | WaitForFence(slot: nat)
    | AcquireNextImage(signal: Semaphore, result: VkResult, imageIndex: Uint32)
    | ResetFence(slot: nat)
    | Submit(commandBuffer: CommandBuffer, commands: seq<Command>, wait: Semaphore, signal: Semaphore,
             fence: nat)
    | Present(imageIndex: Uint32, wait: Semaphore, result: VkResult)
    | WaitIdle

  /**
   * A fence is reset only right after a wait on it and a usable acquire (SUCCESS or SUBOPTIMAL)
   * that signals the same slot's image-available semaphore.
   */
  predicate ResetsFollowUsableAcquire(calls: seq<Call>, imageAvailable: seq<Semaphore>) {
    forall k :: 0 <= k < |calls| && calls[k].ResetFence? ==>
      && 2 <= k
      && calls[k].slot < |imageAvailable|
      && calls[k - 2] == WaitForFence(calls[k].slot)
      && calls[k - 1].AcquireNextImage?
      && Usable(calls[k - 1].result)
      && calls[k - 1].signal == imageAvailable[calls[k].slot]
  }

  /**
   * A submit comes right after the reset of the fence it passes, records into that slot's command
   * buffer, waits on that slot's image-available semaphore and signals its render-finished one.
   */
  predicate SubmitsFollowReset(calls: seq<Call>, imageAvailable: seq<Semaphore>,
                               renderFinished: seq<Semaphore>, commandBuffers: seq<CommandBuffer>) {
    forall k :: 0 <= k < |calls| && calls[k].Submit? ==>
      && 1 <= k
      && calls[k - 1] == ResetFence(calls[k].fence)
      && calls[k].fence < |imageAvailable|
      && calls[k].fence < |renderFinished|
      && calls[k].fence < |commandBuffers|
      && calls[k].commandBuffer == commandBuffers[calls[k].fence]
      && calls[k].wait == imageAvailable[calls[k].fence]
      && calls[k].signal == renderFinished[calls[k].fence]
  }

  /**
   * A present comes right after a submit, waits on the semaphore that submit signals and presents
   * the image the frame's acquire returned.
   */
  predicate PresentsFollowSubmit(calls: seq<Call>) {
    forall k :: 0 <= k < |calls| && calls[k].Present? ==>
      && 3 <= k
      && calls[k - 1].Submit?
      && calls[k].wait == calls[k - 1].signal
      && calls[k - 3].AcquireNextImage?
      && calls[k].imageIndex == calls[k - 3].imageIndex
  }

  predicate FrameProtocol(calls: seq<Call>, imageAvailable: seq<Semaphore>, renderFinished: seq<Semaphore>,
                          commandBuffers: seq<CommandBuffer>) {
    && ResetsFollowUsableAcquire(calls, imageAvailable)
    && SubmitsFollowReset(calls, imageAvailable, renderFinished, commandBuffers)
    && PresentsFollowSubmit(calls)
  }

  /** Waits, acquires and device-wide waits may be issued at any point of the protocol. */
  lemma NeutralCallKeepsProtocol(calls: seq<Call>, c: Call, imageAvailable: seq<Semaphore>,
                                 renderFinished: seq<Semaphore>, commandBuffers: seq<CommandBuffer>)
    requires FrameProtocol(calls, imageAvailable, renderFinished, commandBuffers)
    requires c.WaitForFence? || c.AcquireNextImage? || c.WaitIdle?
    ensures FrameProtocol(calls + [c], imageAvailable, renderFinished, commandBuffers)
  {
    var next := calls + [c];
    assert forall k :: 0 <= k < |calls| ==> next[k] == calls[k];
    assert !next[|calls|].ResetFence? && !next[|calls|].Submit? && !next[|calls|].Present?;
  }

  /** A fence may be reset right after a wait on it and a usable acquire for its slot. */
  lemma ResetKeepsProtocol(calls: seq<Call>, slot: nat, imageAvailable: seq<Semaphore>,
                           renderFinished: seq<Semaphore>, commandBuffers: seq<CommandBuffer>)
    requires FrameProtocol(calls, imageAvailable, renderFinished, commandBuffers)
    requires 2 <= |calls| && slot < |imageAvailable|
    requires calls[|calls| - 2] == WaitForFence(slot)
    requires calls[|calls| - 1].AcquireNextImage? && Usable(calls[|calls| - 1].result)
    requires calls[|calls| - 1].signal == imageAvailable[slot]
    ensures FrameProtocol(calls + [ResetFence(slot)], imageAvailable, renderFinished, commandBuffers)
  {
    var next := calls + [ResetFence(slot)];
    assert forall k :: 0 <= k < |calls| ==> next[k] == calls[k];
  }

  /** The slot's submit may follow the reset of its fence. */
  lemma SubmitKeepsProtocol(calls: seq<Call>, slot: nat, commands: seq<Command>, imageAvailable: seq<Semaphore>,
                            renderFinished: seq<Semaphore>, commandBuffers: seq<CommandBuffer>)
    requires FrameProtocol(calls, imageAvailable, renderFinished, commandBuffers)
    requires 1 <= |calls| && calls[|calls| - 1] == ResetFence(slot)
    requires slot < |imageAvailable| && slot < |renderFinished| && slot < |commandBuffers|
    ensures FrameProtocol(calls + [Submit(commandBuffers[slot], commands, imageAvailable[slot], renderFinished[slot], slot)],
                          imageAvailable, renderFinished, commandBuffers)
  {
    var next := calls + [Submit(commandBuffers[slot], commands, imageAvailable[slot], renderFinished[slot], slot)];
    assert forall k :: 0 <= k < |calls| ==> next[k] == calls[k];
  }

  /** A present may follow a submit, waiting on what it signals, for the image acquired before. */
  lemma PresentKeepsProtocol(calls: seq<Call>, imageIndex: Uint32, result: VkResult, imageAvailable: seq<Semaphore>,
                             renderFinished: seq<Semaphore>, commandBuffers: seq<CommandBuffer>)
    requires FrameProtocol(calls, imageAvailable, renderFinished, commandBuffers)
    requires 3 <= |calls| && calls[|calls| - 1].Submit?
    requires calls[|calls| - 3].AcquireNextImage? && calls[|calls| - 3].imageIndex == imageIndex
    ensures FrameProtocol(calls + [Present(imageIndex, calls[|calls| - 1].signal, result)],
                          imageAvailable, renderFinished, commandBuffers)
  {
    var next := calls + [Present(imageIndex, calls[|calls| - 1].signal, result)];
    assert forall k :: 0 <= k < |calls| ==> next[k] == calls[k];
  }

  /** `n` device-wide waits. */
  function WaitIdles(n: nat): (ws: seq<Call>)
    ensures |ws| == n
    ensures forall k :: 0 <= k < n ==> ws[k] == WaitIdle
  {
    if n == 0 then [] else WaitIdles(n - 1) + [WaitIdle]
  }

  // ---------------------------------------------------------------------------
  // Event processing, as a value

  /** An event `SDL_PollEvent` returned, with what the surface reports should it trigger a rebuild. */
  datatype Polled = Polled(event: WindowEvent, surface: Surface)

  /** The flags `processEvents` updates. */
  datatype EventFlags = EventFlags(
    isRunning: bool,
    isRenderingEnabled: bool,
    isFramebufferResized: bool,
    windowExtent: Extent2D)

  /**
   * One case of the switch in `processEvents`. A pixel-size change re-reads the window size, sets
   * the resized flag, and the rebuild that follows clears it again unless the window has no area.
   */
  function Step(flags: EventFlags, p: Polled): EventFlags {
    match p.event
    case Quit => flags.(isRunning := false)
    case PixelSizeChanged =>
      flags.(windowExtent := p.surface.window, isFramebufferResized := ZeroExtent(p.surface.window))
    case Minimized => flags.(isRenderingEnabled := false)
    case Restored => flags.(isRenderingEnabled := true)
    case Maximized => flags
    case OtherEvent => flags
  }

  /** The flags after the polled events, handled in order. */
  function AfterEvents(flags: EventFlags, polled: seq<Polled>): EventFlags
    decreases |polled|
  {
    if polled == [] then flags else Step(AfterEvents(flags, polled[..|polled| - 1]), polled[|polled| - 1])
  }

  /** How many events asked for a rebuild (each one waits for the device to go idle). */
  function ResizeCount(polled: seq<Polled>): nat
    decreases |polled|
  {
    if polled == [] then 0
    else ResizeCount(polled[..|polled| - 1]) + (if polled[|polled| - 1].event == PixelSizeChanged then 1 else 0)
  }

  /** The surface of the last rebuild that went through (a pixel-size change to a window with area). */
  function LastRebuild(polled: seq<Polled>): Option<Surface>
    decreases |polled|
  {
    if polled == [] then None
    else
      var p := polled[|polled| - 1];
      if p.event == PixelSizeChanged && !ZeroExtent(p.surface.window) then Some(p.surface)
      else LastRebuild(polled[..|polled| - 1])
  }

  /** The loop keeps running after the events exactly when it was running and none of them was QUIT. */
  lemma {:induction false} QuitStopsTheLoop(flags: EventFlags, polled: seq<Polled>)
    ensures AfterEvents(flags, polled).isRunning
        <==> flags.isRunning && forall k :: 0 <= k < |polled| ==> polled[k].event != Quit
    decreases |polled|
  {
    if polled != [] {
      var prefix := polled[..|polled| - 1];
      QuitStopsTheLoop(flags, prefix);
      assert forall k :: 0 <= k < |prefix| ==> prefix[k] == polled[k];
    }
  }

  /** MINIMIZED and RESTORED are the only events that change whether rendering is enabled. */
  predicate TogglesRendering(e: WindowEvent) {
    e == Minimized || e == Restored
  }

  /** The last MINIMIZED or RESTORED decides: rendering is enabled exactly when it was RESTORED. */
  lemma {:induction false} LastToggleDecidesRendering(flags: EventFlags, polled: seq<Polled>, k: nat)
    requires k < |polled| && TogglesRendering(polled[k].event)
    requires forall j :: k < j < |polled| ==> !TogglesRendering(polled[j].event)
    ensures AfterEvents(flags, polled).isRenderingEnabled <==> polled[k].event == Restored
    decreases |polled|
  {
    if k < |polled| - 1 {
      LastToggleDecidesRendering(flags, polled[..|polled| - 1], k);
    }
  }

  /** Without MINIMIZED or RESTORED, whether rendering is enabled does not change. */
  lemma {:induction false} NoToggleKeepsRendering(flags: EventFlags, polled: seq<Polled>)
    requires forall j :: 0 <= j < |polled| ==> !TogglesRendering(polled[j].event)
    ensures AfterEvents(flags, polled).isRenderingEnabled == flags.isRenderingEnabled
    decreases |polled|
  {
    if polled != [] {
      NoToggleKeepsRendering(flags, polled[..|polled| - 1]);
    }
  }

  /**
   * After a pixel-size change with no later one, the window extent is the size it reported, the
   * resized flag is set exactly when that size has no area, and otherwise the swapchain was last
   * rebuilt from that event's surface.
   */
  lemma {:induction false} LastResizeDecidesExtent(flags: EventFlags, polled: seq<Polled>, k: nat)
    requires k < |polled| && polled[k].event == PixelSizeChanged
    requires forall j :: k < j < |polled| ==> polled[j].event != PixelSizeChanged
    ensures AfterEvents(flags, polled).windowExtent == polled[k].surface.window
    ensures AfterEvents(flags, polled).isFramebufferResized == ZeroExtent(polled[k].surface.window)
    ensures !ZeroExtent(polled[k].surface.window) ==> LastRebuild(polled) == Some(polled[k].surface)
    decreases |polled|
  {
    if k < |polled| - 1 {
      LastResizeDecidesExtent(flags, polled[..|polled| - 1], k);
    }
  }

  /** Without a pixel-size change the extent, the resized flag and the swapchain stay as they were. */
  lemma {:induction false} NoResizeKeepsSwapchain(flags: EventFlags, polled: seq<Polled>)
    requires forall j :: 0 <= j < |polled| ==> polled[j].event != PixelSizeChanged
    ensures AfterEvents(flags, polled).windowExtent == flags.windowExtent
    ensures AfterEvents(flags, polled).isFramebufferResized == flags.isFramebufferResized
    ensures LastRebuild(polled) == None && ResizeCount(polled) == 0
    decreases |polled|
  {
    if polled != [] {
      NoResizeKeepsSwapchain(flags, polled[..|polled| - 1]);
    }
  }

  // ---------------------------------------------------------------------------
  // The application

  /** `renderFrame` throws `std::runtime_error` on these. */
  datatype FrameError = AcquireFailed(acquireResult: VkResult) | PresentFailed(presentResult: VkResult)

  class HelloTriangle {
    // One per frame slot.
    const commandBuffers: seq<CommandBuffer>
    const imageAvailableSemaphores: seq<Semaphore>
    const renderFinishedSemaphores: seq<Semaphore>
    const inFlightFences: array<bool>     // signaled?

    const useVsync: bool
    const graphicsFamily: Uint32
    const presentFamily: Uint32

    // The swapchain (format and extent included) and its images and views.
    var swapchain: SwapchainConfig
    var swapchainImages: seq<Image>
    var swapchainImageViews: seq<ImageView>

    // Runtime state.
    var windowExtent: Extent2D
    var isRunning: bool
    var isFramebufferResized: bool
    var isRenderingEnabled: bool
    var currentFrame: nat
    var currentImage: Uint32

    // The driver calls issued so far.
    var calls: seq<Call>

    /**
     * One object per slot, the cursor on a slot, the views matching the images, and the frame
     * protocol kept by every call issued.
     */
    predicate Valid()
      reads this
    {
      && |commandBuffers| == MaxFramesInFlight
      && |imageAvailableSemaphores| == MaxFramesInFlight
      && |renderFinishedSemaphores| == MaxFramesInFlight
      && inFlightFences.Length == MaxFramesInFlight
      && currentFrame < MaxFramesInFlight
      && Distinct(imageAvailableSemaphores) && Distinct(renderFinishedSemaphores)
      && (forall i, j :: 0 <= i < |imageAvailableSemaphores| && 0 <= j < |renderFinishedSemaphores| ==>
            imageAvailableSemaphores[i] != renderFinishedSemaphores[j])
      && ViewsOver(swapchainImageViews, swapchainImages, swapchain.surfaceFormat.format)
      && FrameProtocol(calls, imageAvailableSemaphores, renderFinishedSemaphores, commandBuffers)
    }

    /** The fields `processEvents` updates. */
    function Flags(): EventFlags
      reads this
    {
      EventFlags(isRunning, isRenderingEnabled, isFramebufferResized, windowExtent)
    }

    /** The swapchain was built from `surface`. */
    predicate BuiltFrom(surface: Surface)
      reads this
      requires Negotiable(surface)
    {
      && swapchain == SwapchainFor(surface, useVsync, graphicsFamily, presentFamily)
      && swapchainImages == surface.images
    }

    /** Swapchain, images and views are the ones before the call. */
    twostate predicate SwapchainUnchanged()
      reads this
    {
      && swapchain == old(swapchain)
      && swapchainImages == old(swapchainImages)
      && swapchainImageViews == old(swapchainImageViews)
    }

    /** The swapchain state after `recreateSwapchain` ran on `surface`. */
    twostate predicate RecreatedFrom(surface: Surface)
      reads this
    {
      && windowExtent == surface.window
      && (ZeroExtent(surface.window) ==>
            SwapchainUnchanged() && isFramebufferResized == old(isFramebufferResized))
      && (!ZeroExtent(surface.window) ==>
            Negotiable(surface) && BuiltFrom(surface) && !isFramebufferResized)
    }

    /** The calls that open a frame on `slot`: wait for its fence, then acquire an image. */
    function AcquireCalls(slot: nat, acquireResult: VkResult, imageIndex: Uint32): seq<Call>
      requires slot < |imageAvailableSemaphores|
    {
      [WaitForFence(slot), AcquireNextImage(imageAvailableSemaphores[slot], acquireResult, imageIndex)]
    }

    /** The calls after a usable acquire: reset the slot's fence, then submit the recorded frame. */
    function SubmitCalls(slot: nat, imageIndex: Uint32): seq<Call>
      reads this`swapchain, this`swapchainImages, this`swapchainImageViews
      requires slot < |commandBuffers| && slot < |imageAvailableSemaphores| && slot < |renderFinishedSemaphores|
      requires imageIndex < |swapchainImages| && imageIndex < |swapchainImageViews|
    {
      [ ResetFence(slot),
        Submit(commandBuffers[slot], RecordFrame(swapchainImages, swapchainImageViews, imageIndex, swapchain.extent),
               imageAvailableSemaphores[slot], renderFinishedSemaphores[slot], slot) ]
    }

    /**
     * `initialize` up to the first frame: the swapchain and its views are built from `surface`,
     * the slots get their synchronisation objects (fences signaled) and the command buffers the
     * pool allocated; the app is running, rendering stays off until `run` starts.
     */
    constructor (surface: Surface, commandBuffers: seq<CommandBuffer>, graphicsFamily: Uint32,
                 presentFamily: Uint32)
      requires Negotiable(surface)
      requires |commandBuffers| == MaxFramesInFlight
      ensures Valid()
      ensures fresh(inFlightFences)
      ensures this.commandBuffers == commandBuffers
      ensures useVsync && BuiltFrom(surface)
      ensures windowExtent == surface.window
      ensures isRunning && !isFramebufferResized && !isRenderingEnabled
      ensures currentFrame == 0 && currentImage == 0 && calls == []
      ensures forall s :: 0 <= s < inFlightFences.Length ==> inFlightFences[s]
    {
      var config := SwapchainFor(surface, true, graphicsFamily, presentFamily);
      var views := CreateImageViews(surface.images, config.surfaceFormat.format);
      var available, finished, fences := CreateSyncObjects();
      this.commandBuffers := commandBuffers;
      imageAvailableSemaphores := available;
      renderFinishedSemaphores := finished;
      inFlightFences := fences;
      useVsync := true;
      this.graphicsFamily := graphicsFamily;
      this.presentFamily := presentFamily;
      swapchain := config;
      swapchainImages := surface.images;
      swapchainImageViews := views;
      windowExtent := surface.window;
      isRunning := true;
      isFramebufferResized := false;
      isRenderingEnabled := false;
      currentFrame := 0;
      currentImage := 0;
      calls := [];
    }

    /** `engine.WaitForIdle()`: once the device is idle every submitted frame is done. */
    method WaitForIdle()
      requires Valid()
      modifies this`calls, inFlightFences
      ensures Valid()
      ensures calls == old(calls) + [WaitIdle]
      ensures forall s :: 0 <= s < inFlightFences.Length ==> inFlightFences[s]
    {
      forall s | 0 <= s < inFlightFences.Length {
        inFlightFences[s] := true;
      }
      NeutralCallKeepsProtocol(calls, WaitIdle, imageAvailableSemaphores, renderFinishedSemaphores, commandBuffers);
      calls := calls + [WaitIdle];
    }

    /**
     * `recreateSwapchain`: wait for the device, re-read the window size, and unless it has no area
     * rebuild the swapchain and its views from `surface` and clear the resized flag.
     */
    method RecreateSwapchain(surface: Surface)
      requires Valid() && Recreatable(surface)
      modifies this, inFlightFences
      ensures Valid()
      ensures calls == old(calls) + [WaitIdle]
      ensures forall s :: 0 <= s < inFlightFences.Length ==> inFlightFences[s]
      ensures RecreatedFrom(surface)
      ensures isRunning == old(isRunning) && isRenderingEnabled == old(isRenderingEnabled)
      ensures currentFrame == old(currentFrame) && currentImage == old(currentImage)
    {
      WaitForIdle();
      windowExtent := surface.window;
      if windowExtent.width == 0 || windowExtent.height == 0 {
        return;
      }
      swapchain := SwapchainFor(surface, useVsync, graphicsFamily, presentFamily);
      swapchainImages := surface.images;
      swapchainImageViews := CreateImageViews(swapchainImages, swapchain.surfaceFormat.format);
      isFramebufferResized := false;
    }

    /** Wait for the current slot's fence, then acquire an image signalling its image-available semaphore. */
    method AcquireFrame(acquireResult: VkResult, imageIndex: Uint32)
      requires Valid()
      modifies this`calls, this`currentImage, inFlightFences
      ensures Valid()
      ensures calls == old(calls) + AcquireCalls(currentFrame, acquireResult, imageIndex)
      ensures currentImage == imageIndex
      ensures inFlightFences[currentFrame]
      ensures forall s :: 0 <= s < inFlightFences.Length && s != currentFrame ==>
        inFlightFences[s] == old(inFlightFences[s])
    {
      inFlightFences[currentFrame] := true;
      NeutralCallKeepsProtocol(calls, WaitForFence(currentFrame), imageAvailableSemaphores,
                               renderFinishedSemaphores, commandBuffers);
      calls := calls + [WaitForFence(currentFrame)];
      var acquire := AcquireNextImage(imageAvailableSemaphores[currentFrame], acquireResult, imageIndex);
      NeutralCallKeepsProtocol(calls, acquire, imageAvailableSemaphores, renderFinishedSemaphores, commandBuffers);
      calls := calls + [acquire];
      currentImage := imageIndex;
    }

    /**
     * After a usable acquire on the current slot: reset the slot's fence, record the frame into the
     * slot's command buffer and submit it, passing the fence.
     */
    method SubmitFrame(acquireResult: VkResult, imageIndex: Uint32)
      requires Valid() && Usable(acquireResult) && imageIndex < |swapchainImages|
      requires |calls| >= 2 && calls[|calls| - 2..] == AcquireCalls(currentFrame, acquireResult, imageIndex)
      modifies this`calls, inFlightFences
      ensures Valid()
      ensures calls == old(calls) + SubmitCalls(currentFrame, imageIndex)
      ensures !inFlightFences[currentFrame]
      ensures forall s :: 0 <= s < inFlightFences.Length && s != currentFrame ==>
        inFlightFences[s] == old(inFlightFences[s])
    {
      assert calls[|calls| - 2] == WaitForFence(currentFrame);
      assert calls[|calls| - 1] == AcquireNextImage(imageAvailableSemaphores[currentFrame], acquireResult, imageIndex);
      inFlightFences[currentFrame] := false;
      ResetKeepsProtocol(calls, currentFrame, imageAvailableSemaphores, renderFinishedSemaphores, commandBuffers);
      calls := calls + [ResetFence(currentFrame)];
      var commands := RecordFrame(swapchainImages, swapchainImageViews, imageIndex, swapchain.extent);
      SubmitKeepsProtocol(calls, currentFrame, commands, imageAvailableSemaphores, renderFinishedSemaphores,
                          commandBuffers);
      calls := calls + [Submit(commandBuffers[currentFrame], commands, imageAvailableSemaphores[currentFrame],
                               renderFinishedSemaphores[currentFrame], currentFrame)];
    }

    /**
     * `presentImage`: present `imageIndex`, waiting on the current slot's render-finished semaphore,
     * which the frame's submit signals.
     */
    method PresentImage(imageIndex: Uint32, presentResult: VkResult) returns (result: VkResult)
      requires Valid() && |calls| >= 3
      requires calls[|calls| - 1].Submit? && calls[|calls| - 1].signal == renderFinishedSemaphores[currentFrame]
      requires calls[|calls| - 3].AcquireNextImage? && calls[|calls| - 3].imageIndex == imageIndex
      modifies this`calls
      ensures Valid()
      ensures calls == old(calls) + [Present(imageIndex, renderFinishedSemaphores[currentFrame], presentResult)]
      ensures result == presentResult
    {
      PresentKeepsProtocol(calls, imageIndex, presentResult, imageAvailableSemaphores, renderFinishedSemaphores,
                           commandBuffers);
      calls := calls + [Present(imageIndex, renderFinishedSemaphores[currentFrame], presentResult)];
      result := presentResult;
    }

    /**
     * `renderFrame` on the current slot, given what `acquireNextImage` and `presentKHR` answer
     * and what the surface reports should the swapchain be rebuilt.
     */
    method RenderFrame(acquireResult: VkResult, imageIndex: Uint32, presentResult: VkResult, surface: Surface)
      returns (r: Result<(), FrameError>)
      requires Valid()
      requires Usable(acquireResult) ==> imageIndex < |swapchainImages|
      requires acquireResult == VkErrorOutOfDate || (Usable(acquireResult) && AsksForRecreation(presentResult))
               ==> Recreatable(surface)
      modifies this, inFlightFences
      ensures Valid()
      ensures currentImage == imageIndex
      ensures isRunning == old(isRunning) && isRenderingEnabled == old(isRenderingEnabled)
      // Without a rebuild the window state is kept and only the current slot's fence may change.
      ensures !(acquireResult == VkErrorOutOfDate || (Usable(acquireResult) && AsksForRecreation(presentResult))) ==>
        && windowExtent == old(windowExtent)
        && isFramebufferResized == old(isFramebufferResized)
        && forall s :: 0 <= s < inFlightFences.Length && s != old(currentFrame) ==>
             inFlightFences[s] == old(inFlightFences[s])
      // A rebuild waits for the device, so every fence ends signaled.
      ensures acquireResult == VkErrorOutOfDate || (Usable(acquireResult) && AsksForRecreation(presentResult)) ==>
        forall s :: 0 <= s < inFlightFences.Length ==> inFlightFences[s]
      // OUT_OF_DATE on acquire: rebuild and give up the frame; the cursor stays, no fence is reset.
      ensures acquireResult == VkErrorOutOfDate ==>
        && r.Success?
        && currentFrame == old(currentFrame)
        && calls == old(calls) + AcquireCalls(old(currentFrame), acquireResult, imageIndex) + [WaitIdle]
        && RecreatedFrom(surface)
      // Any other unusable acquire: an error, nothing reset, submitted or presented.
      ensures !Usable(acquireResult) && acquireResult != VkErrorOutOfDate ==>
        && r == Failure(AcquireFailed(acquireResult))
        && currentFrame == old(currentFrame)
        && calls == old(calls) + AcquireCalls(old(currentFrame), acquireResult, imageIndex)
        && SwapchainUnchanged()
        && inFlightFences[old(currentFrame)]
      // A usable acquire: reset the fence, submit and present; then react to the present result.
      ensures Usable(acquireResult) ==>
        var frame := old(calls) + AcquireCalls(old(currentFrame), acquireResult, imageIndex)
                     + old(SubmitCalls(currentFrame, imageIndex))
                     + [Present(imageIndex, renderFinishedSemaphores[old(currentFrame)], presentResult)];
        && (AsksForRecreation(presentResult) ==>
              && r.Success?
              && currentFrame == NextFrame(old(currentFrame))
              && calls == frame + [WaitIdle]
              && RecreatedFrom(surface))
        && (presentResult == VkSuccess ==>
              && r.Success?
              && currentFrame == NextFrame(old(currentFrame))
              && calls == frame
              && SwapchainUnchanged()
              && !inFlightFences[old(currentFrame)])
        && (!Usable(presentResult) && presentResult != VkErrorOutOfDate ==>
              && r == Failure(PresentFailed(presentResult))
              && currentFrame == old(currentFrame)
              && calls == frame
              && SwapchainUnchanged()
              && !inFlightFences[old(currentFrame)])
    {
      AcquireFrame(acquireResult, imageIndex);
      if acquireResult == VkErrorOutOfDate {
        RecreateSwapchain(surface);
        return Success(());
      } else if acquireResult != VkSuccess && acquireResult != VkSuboptimal {
        return Failure(AcquireFailed(acquireResult));
      }

      SubmitFrame(acquireResult, imageIndex);
      var result := PresentImage(imageIndex, presentResult);
      if result == VkErrorOutOfDate || result == VkSuboptimal {
        RecreateSwapchain(surface);
      } else if result != VkSuccess {
        return Failure(PresentFailed(result));
      }

      currentFrame := NextFrame(currentFrame);
      r := Success(());
    }

    /**
     * `processEvents`: handle every pending event in order. The flags end as `AfterEvents` says,
     * each pixel-size change waits for the device once, and the swapchain is the one built by the
     * last rebuild that went through, if any.
     */
    method ProcessEvents(polled: seq<Polled>)
      requires Valid()
      requires forall k :: 0 <= k < |polled| && polled[k].event == PixelSizeChanged ==>
        Recreatable(polled[k].surface)
      modifies this, inFlightFences
      ensures Valid()
      ensures Flags() == AfterEvents(old(Flags()), polled)
      ensures calls == old(calls) + WaitIdles(ResizeCount(polled))
      ensures LastRebuild(polled).None? ==> SwapchainUnchanged()
      ensures LastRebuild(polled).Some? ==>
        Negotiable(LastRebuild(polled).value) && BuiltFrom(LastRebuild(polled).value)
      ensures ResizeCount(polled) == 0 ==> inFlightFences[..] == old(inFlightFences[..])
      ensures ResizeCount(polled) > 0 ==> forall s :: 0 <= s < inFlightFences.Length ==> inFlightFences[s]
      ensures currentFrame == old(currentFrame) && currentImage == old(currentImage)
    {
      var i := 0;
      while i < |polled|
        invariant 0 <= i <= |polled|
        invariant Valid()
        invariant Flags() == AfterEvents(old(Flags()), polled[..i])
        invariant calls == old(calls) + WaitIdles(ResizeCount(polled[..i]))
        invariant LastRebuild(polled[..i]).None? ==> SwapchainUnchanged()
        invariant LastRebuild(polled[..i]).Some? ==>
          Negotiable(LastRebuild(polled[..i]).value) && BuiltFrom(LastRebuild(polled[..i]).value)
        invariant ResizeCount(polled[..i]) == 0 ==> inFlightFences[..] == old(inFlightFences[..])
        invariant ResizeCount(polled[..i]) > 0 ==>
          forall s :: 0 <= s < inFlightFences.Length ==> inFlightFences[s]
        invariant currentFrame == old(currentFrame) && currentImage == old(currentImage)
      {
        HandlePolled(polled[i]);
        assert polled[..i + 1][..i] == polled[..i];
        i := i + 1;
      }
      assert polled[..i] == polled;
    }

    /** One case of the switch in `processEvents`. */
    method HandlePolled(p: Polled)
      requires Valid()
      requires p.event == PixelSizeChanged ==> Recreatable(p.surface)
      modifies this, inFlightFences
      ensures Valid()
      ensures Flags() == Step(old(Flags()), p)
      ensures p.event != PixelSizeChanged ==>
        calls == old(calls) && SwapchainUnchanged() && inFlightFences[..] == old(inFlightFences[..])
      ensures p.event == PixelSizeChanged ==>
        && calls == old(calls) + [WaitIdle]
        && (forall s :: 0 <= s < inFlightFences.Length ==> inFlightFences[s])
        && (ZeroExtent(p.surface.window) ==> SwapchainUnchanged())
        && (!ZeroExtent(p.surface.window) ==> Negotiable(p.surface) && BuiltFrom(p.surface))
      ensures currentFrame == old(currentFrame) && currentImage == old(currentImage)
    {
      match p.event {
        case Quit =>
          isRunning := false;
        case PixelSizeChanged =>
          windowExtent := p.surface.window;
          isFramebufferResized := true;
          RecreateSwapchain(p.surface);
        case Minimized =>
          isRenderingEnabled := false;
        case Restored =>
          isRenderingEnabled := true;
        case Maximized =>
        case OtherEvent =>
      }
    }

    /** The guard around `renderFrame` in `run`: the window has area and rendering is enabled. */
    predicate ShouldRender()
      reads this
    {
      windowExtent.width > 0 && windowExtent.height > 0 && isRenderingEnabled
    }

    /** What `run` does before its loop: show and maximize the window, and enable rendering. */
    method BeginRun()
      modifies this`isRenderingEnabled
      ensures isRenderingEnabled
    {
      isRenderingEnabled := true;
    }

    /** The swapchain images once the polled events have been handled. */
    function ImagesAfter(polled: seq<Polled>): seq<Image>
      reads this
    {
      if LastRebuild(polled).Some? then LastRebuild(polled).value.images else swapchainImages
    }

    /**
     * One turn of the loop in `run` while `isRunning`: handle the pending events, then render a
     * frame only if the window has area and rendering is enabled. `rendered` says whether
     * `renderFrame` ran.
     */
    method RunIteration(polled: seq<Polled>, acquireResult: VkResult, imageIndex: Uint32,
                        presentResult: VkResult, surface: Surface)
      returns (r: Result<(), FrameError>, rendered: bool)
      requires Valid() && isRunning
      requires forall k :: 0 <= k < |polled| && polled[k].event == PixelSizeChanged ==>
        Recreatable(polled[k].surface)
      requires Usable(acquireResult) ==> imageIndex < |ImagesAfter(polled)|
      requires Recreatable(surface)
      modifies this, inFlightFences
      ensures Valid()
      ensures var flags := AfterEvents(old(Flags()), polled);
        rendered <==> flags.windowExtent.width > 0 && flags.windowExtent.height > 0 && flags.isRenderingEnabled
      ensures var flags := AfterEvents(old(Flags()), polled);
        isRunning == flags.isRunning && isRenderingEnabled == flags.isRenderingEnabled
      ensures !rendered ==>
        && Flags() == AfterEvents(old(Flags()), polled)
        && r.Success?
        && calls == old(calls) + WaitIdles(ResizeCount(polled))
        && currentFrame == old(currentFrame)
      ensures rendered ==>
        && |calls| > |old(calls)| + ResizeCount(polled)
        && calls[|old(calls)| + ResizeCount(polled)] == WaitForFence(old(currentFrame))
    {
      ProcessEvents(polled);
      rendered := ShouldRender();
      if rendered {
        r := RenderFrame(acquireResult, imageIndex, presentResult, surface);
      } else {
        r := Success(());
      }
    }

    /** After the loop in `run` ends: wait for the device before anything is destroyed. */
    method FinishRun()
      requires Valid() && !isRunning
      modifies this`calls, inFlightFences
      ensures Valid()
      ensures calls == old(calls) + [WaitIdle]
      ensures forall s :: 0 <= s < inFlightFences.Length ==> inFlightFences[s]
    {
      WaitForIdle();
    }
  }
}
