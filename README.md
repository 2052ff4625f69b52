# KitsuneEngine swapchain and frame-loop model

This project models the decision logic of the KitsuneEngine Vulkan/SDL renderer in Dafny.
Every driver call, window query and GPU effect becomes an input value or an opaque handle.
The model covers three parts:

- **Swapchain parameter negotiation** (module `Negotiation`). It chooses the present mode,
  surface format, extent, image count and sharing mode from what the surface reports. It covers
  both the `KitsuneEngine` copy and the `HelloTriangle` copy.
- **Device-selection searches** (module `DeviceSelection`, over the first-match helpers in
  `Search`). These are the memory-type search, the MSAA sample count, the graphics and present
  queue families, the device-extension check, and the depth-format search. Each one is specified
  as "the least index that qualifies, or an error".
- **The frame loop of `HelloTriangle`** (modules `FrameSync` and `HelloTriangleApp`). This is a
  class with a `bool` array of fence states. It has a ring of `MAX_FRAMES_IN_FLIGHT` (= 2) slots,
  each with two semaphores and a command buffer. The loop covers `renderFrame`, `presentImage`,
  `recreateSwapchain` and `processEvents`, plus the guard and device wait of `run`.
  - The results of `acquireNextImage` and `presentKHR` are method parameters.
  - What the surface reports during a rebuild is a `Surface` value.
  - The frame loop's synchronisation calls are appended, in order, to the `calls` field: fence
    waits, image acquires, fence resets, queue submits, presents and device-wide waits. Swapchain
    and image-view creation, `getImages`, and the command-buffer `reset`, `begin` and `end` calls
    are not recorded. `Valid()` states the frame protocol over that record:
    - a fence is reset only right after a wait on it and a usable acquire for its slot;
    - the submit that follows uses that slot's fence, semaphores and command buffer;
    - the present waits on the semaphore that submit signals.

`KitsuneEngine::handleEvent` is modelled as the class `EngineEvents.KitsuneEngine`. Fences are
the host-visible bit "signaled":

- they are created signaled;
- a wait leaves the fence signaled, and a reset clears it;
- a device-wide wait for idle leaves every fence signaled.

Vulkan facts the model relies on:

- a `currentExtent.width` of `0xFFFFFFFF` lets the swapchain choose the extent;
- a `maxImageCount` of 0 means there is no upper bound;
- FIFO is always supported;
- the format codes are those of the Vulkan 1.3 headers: B8G8R8A8_SRGB = 50, D32_SFLOAT = 126,
  D24_UNORM_S8_UINT = 129, D32_SFLOAT_S8_UINT = 130.

Notes on what the code does:

- The fence is reset after a usable acquire, not right after the wait.
- An acquire that returns SUBOPTIMAL does not schedule a rebuild by itself. The frame is
  submitted and presented, and only a SUBOPTIMAL or OUT_OF_DATE present result rebuilds.
- After a present-triggered rebuild the cursor still advances. After an OUT_OF_DATE acquire it
  does not.
- The image count raises a `minImageCount` of exactly 1 to 2. It is not `max(minImageCount, 2)`;
  the two agree for every surface, since Vulkan reports `minImageCount >= 1`.
- `recreateSwapchain` checks for a zero-area window before it destroys anything. In that case
  the old swapchain and views stay as they were.
- A minimized window stops rendering through the `isRenderingEnabled` flag (MINIMIZED and
  RESTORED events) and through the zero-extent guard in `run`.
- The `HelloTriangle` present mode is FIFO with vsync and IMMEDIATE without. It never looks at
  the offered modes. `KitsuneEngine` prefers MAILBOX with vsync.

## Model

| member | source | states |
|---|---|---|
| `Negotiation.ChoosePresentMode` | src/kitsune_engine.cpp:608-621 | With vsync the result is MAILBOX iff MAILBOX is offered; without vsync it is IMMEDIATE iff IMMEDIATE is offered; otherwise FIFO. The result is always one of MAILBOX, FIFO, IMMEDIATE. |
| `Negotiation.PresentModeIgnoresOrder` | src/kitsune_engine.cpp:608-614 | Two lists offering the same modes give the same choice, whatever their order. |
| `Negotiation.ChooseFixedPresentMode` | src/hello_triangle.cpp:443-445 | FIFO iff vsync and IMMEDIATE iff no vsync, for any offered list. |
| `Negotiation.Clamp` | src/kitsune_engine.cpp:629-630 | `std::clamp` with lo <= hi: the result lies in [lo, hi], is the value itself when inside, and is the nearer bound otherwise. |
| `Negotiation.ChooseSwapExtent` | src/kitsune_engine.cpp:623-633 | A defined current extent is returned exactly. Otherwise each dimension is the window's, clamped into [minImageExtent, maxImageExtent]. The same holds for `chooseSwapchainExtent`. |
| `Negotiation.ChooseSwapFormat` | src/kitsune_engine.cpp:635-647 | It fails iff no format is listed. It returns (B8G8R8A8_SRGB, SRGB_NONLINEAR) wherever that pair is listed, and the first listed format otherwise. |
| `Negotiation.SwapFormatIgnoresOrderOfPreferred` | src/kitsune_engine.cpp:636-641 | When the preferred pair is listed, any two orders give that pair. |
| `Negotiation.ChooseSwapchainFormat` | src/hello_triangle.cpp:434-441 | It is the same choice for a nonempty list, and its result is one of the listed formats. |
| `Negotiation.PreferredImageCount` | src/kitsune_engine.cpp:205-208 | A `minImageCount` of 1 becomes 2; any other value is kept. |
| `Negotiation.ImageCountFor` | src/kitsune_engine.cpp:205-211 | The preferred count is lowered to `maxImageCount` only when that bound is nonzero and exceeded. The result is at most the bound whenever the bound is nonzero. |
| `Negotiation.ChooseImageCount` | src/kitsune_engine.cpp:205-211 | The reassignment sequence of `createSwapchain` gives exactly `ImageCountFor`. |
| `Negotiation.ImageCountWithinSurfaceBounds` | src/hello_triangle.cpp:134-137 | For consistent surface bounds the count lies in [minImageCount, maxImageCount] (no upper bound when max is 0). It is at least 2 unless the surface allows only one image. |
| `Negotiation.UnboundedSingleImageSurfaceGetsTwo` | src/kitsune_engine.cpp:205-211 | With min = 1 and max = 0 the count is 2. |
| `Negotiation.SharingModeFor` | src/kitsune_engine.cpp:227-238 | Sharing is exclusive iff the graphics and present families are the same. Otherwise it is concurrent over exactly [graphics, present]. |
| `Negotiation.NegotiateSwapchain` | src/kitsune_engine.cpp:191-241 | It fails iff the surface lists no format. Otherwise it returns the configuration combining the format, present mode, extent, image count and sharing chosen above. |
| `Negotiation.Surface800x600Unbounded` | src/hello_triangle.cpp:124-160 | A surface reporting 800x600 with min 1 and no max, on a single queue family, gets two exclusive 800x600 images. |
| `Search.FindIf` | src/kitsune_engine.cpp:650-651 | `std::find_if`: the least index satisfying the predicate, or the length when there is none. |
| `Search.Find` | src/kitsune_engine.cpp:610 | `std::find`: the least index holding the value. It is below the length iff the value occurs. |
| `DeviceSelection.FindMemoryType` | src/kitsune_engine.cpp:412-425 | The loop finds the least index below `memoryTypeCount` whose bit in the original `memoryTypeBits` is set and whose property flags contain every requested flag. It is an error iff no index qualifies. |
| `DeviceSelection.MaxUsableSampleCount` | src/kitsune_engine.cpp:744-755 | The highest of 64..2 set in the intersection of the colour and depth counts, else 1. A result other than 1 is in that intersection, and every higher count is missing from it. |
| `DeviceSelection.FindGraphicsQueueFamilyIndex` | src/kitsune_engine.cpp:649-656 | The first family with the graphics flag. There is none iff no family has it. |
| `DeviceSelection.FindGraphicsAndPresentQueueFamilyIndex` | src/kitsune_engine.cpp:659-683 | A graphics index is returned iff some family has the graphics flag, and no graphics family gives (none, none). A first graphics family g that can present gives (g, g). A shared answer (i, i) can draw and present, and no earlier family can do both. Otherwise graphics is g, no family does both, and present is the least family that can present, or none. |
| `DeviceSelection.CheckDeviceExtensionsSupport` | src/kitsune_engine.cpp:685-700 | True iff every required extension name is among the available names. |
| `DeviceSelection.FindSupportedFormat` | src/kitsune_engine.cpp:720-737 | Without a physical device it is an error. Otherwise it returns the first candidate whose features under the tiling include the requested ones, and it fails iff no candidate has them. |
| `DeviceSelection.FindDepthFormat` | src/kitsune_engine.cpp:739-742 | The result is the first of D32_SFLOAT, D32_SFLOAT_S8_UINT, D24_UNORM_S8_UINT usable as an optimally tiled depth attachment. Each format preferred over the result is not usable, and failure means none is. |
| `FrameSync.NextFrame` | src/hello_triangle.cpp:329 | The next slot is in range and differs from the current one. It wraps to 0 exactly after the last slot. |
| `FrameSync.Advance` | src/hello_triangle.cpp:329 | Any number of frames keeps the cursor in [0, MAX_FRAMES_IN_FLIGHT). |
| `FrameSync.AdvanceIsModular` | src/hello_triangle.cpp:329 | After t frames the cursor is (start + t) mod MAX_FRAMES_IN_FLIGHT. |
| `FrameSync.SlotReturnsAfterRing` | src/hello_triangle.cpp:265-278 | A slot, its fence and its semaphores come back into use exactly when the number of frames is a multiple of the ring size. |
| `FrameSync.CreateSyncObjects` | src/hello_triangle.cpp:240-253 | Exactly MAX_FRAMES_IN_FLIGHT of each kind are created. The semaphores are fresh and pairwise distinct, and every fence starts signaled. It is the same loop as `createSyncObjects` in src/kitsune_engine.cpp:446-463. |
| `EngineEvents.KitsuneEngine.constructor` | src/kitsune_engine.cpp:17 | The engine records the window's pixel size at start-up. |
| `EngineEvents.KitsuneEngine.HandleEvent` | src/kitsune_engine.cpp:37-60 | QUIT clears `running`. A pixel-size change re-reads the window extent. Every other event leaves both fields unchanged. |
| `HelloTriangleApp.SwapchainFor` | src/hello_triangle.cpp:124-164 | The swapchain gets a listed format (the preferred one when listed) and FIFO iff vsync. Its count is within a nonzero `maxImageCount`, its extent is the current extent when defined, and it is exclusive iff one family does both. |
| `HelloTriangleApp.CreateImageViews` | src/hello_triangle.cpp:166-178 | One view per swapchain image, in order, each over that image in the swapchain format. |
| `HelloTriangleApp.RecordedFrameLeavesImagePresentable` | src/hello_triangle.cpp:285-305 | From any starting layout, the recorded frame moves the acquired image UNDEFINED to COLOR_ATTACHMENT_OPTIMAL, renders into its view only in that layout, and leaves it in PRESENT_SRC. |
| `HelloTriangleApp.RecordedFrameLeavesOtherImages` | src/hello_triangle.cpp:359-379 | The barriers and rendering touch only the acquired image; every other image keeps its layout. |
| `HelloTriangleApp.NeutralCallKeepsProtocol` | src/hello_triangle.cpp:265-267 | Fence waits, acquires and device-idle waits never break the frame protocol. |
| `HelloTriangleApp.ResetKeepsProtocol` | src/hello_triangle.cpp:278 | A fence reset keeps the protocol when it follows a wait on that fence and a usable acquire signalling the slot's image-available semaphore. |
| `HelloTriangleApp.SubmitKeepsProtocol` | src/hello_triangle.cpp:309-319 | A submit with the slot's command buffer, image-available wait, render-finished signal and fence keeps the protocol right after that fence's reset. |
| `HelloTriangleApp.PresentKeepsProtocol` | src/hello_triangle.cpp:349-356 | A present keeps the protocol when it follows the submit, waits on what that submit signals, and presents the image acquired for the frame. |
| `HelloTriangleApp.QuitStopsTheLoop` | src/hello_triangle.cpp:401-403 | After a batch of events the loop keeps running iff it was running and no event was QUIT. |
| `HelloTriangleApp.LastToggleDecidesRendering` | src/hello_triangle.cpp:410-415 | The last MINIMIZED or RESTORED decides: rendering is enabled iff it was RESTORED. |
| `HelloTriangleApp.NoToggleKeepsRendering` | src/hello_triangle.cpp:397-418 | Without MINIMIZED or RESTORED, whether rendering is enabled is unchanged. |
| `HelloTriangleApp.LastResizeDecidesExtent` | src/hello_triangle.cpp:404-409 | After the last pixel-size change, the window extent is the size it reported. The resized flag is set iff that size has no area, and otherwise the swapchain was last rebuilt from that event's surface. |
| `HelloTriangleApp.NoResizeKeepsSwapchain` | src/hello_triangle.cpp:397-418 | Without a pixel-size change the extent, the resized flag and the swapchain stay as they were, and no rebuild is attempted. |
| `HelloTriangleApp.HelloTriangle.constructor` | src/hello_triangle.cpp:99-109 | After `initialize`, the swapchain is built from the surface with vsync and the views match the images. Every fence is signaled, the cursor is 0, the app is running, and rendering is off until `run`. |
| `HelloTriangleApp.HelloTriangle.WaitForIdle` | src/hello_triangle.cpp:384 | A device-wide wait leaves every fence signaled and keeps the protocol. |
| `HelloTriangleApp.HelloTriangle.RecreateSwapchain` | src/hello_triangle.cpp:383-394 | It waits for the device and re-reads the window size. A zero-area window leaves the swapchain, views and resized flag unchanged. Otherwise the swapchain is rebuilt from the surface, the views match the new images, and the resized flag is cleared. The cursor is untouched. |
| `HelloTriangleApp.HelloTriangle.AcquireFrame` | src/hello_triangle.cpp:265-268 | It waits for the current slot's fence (now signaled, the others unchanged), then acquires an image signalling the slot's image-available semaphore, and records the index. |
| `HelloTriangleApp.HelloTriangle.SubmitFrame` | src/hello_triangle.cpp:278-319 | After a usable acquire it resets exactly the current slot's fence, then submits the recorded frame with that slot's command buffer, semaphores and fence. |
| `HelloTriangleApp.HelloTriangle.PresentImage` | src/hello_triangle.cpp:349-357 | It presents the acquired image, waiting on the current slot's render-finished semaphore, and returns the driver's result. |
| `HelloTriangleApp.HelloTriangle.RenderFrame` | src/hello_triangle.cpp:264-330 | OUT_OF_DATE on acquire rebuilds and returns: no reset, submit or present, and the cursor stays. Another non-usable acquire is an error with the cursor kept. A usable acquire resets, submits and presents. Then a SUBOPTIMAL or OUT_OF_DATE present rebuilds and advances the cursor, SUCCESS advances it, and anything else is an error without advancing. Without a rebuild the window extent and resized flag are kept, and only the current slot's fence can change: it is reset after a usable acquire and signaled after a failed one. A rebuild leaves every fence signaled. |
| `HelloTriangleApp.HelloTriangle.ProcessEvents` | src/hello_triangle.cpp:397-418 | After the pending events the flags are as `AfterEvents` computes. There is one device wait per pixel-size change, and the swapchain is the one built by the last rebuild that went through, or unchanged. |
| `HelloTriangleApp.HelloTriangle.HandlePolled` | src/hello_triangle.cpp:400-416 | One switch case: QUIT stops, MINIMIZED and RESTORED toggle rendering, and a pixel-size change sets the extent and the resized flag and rebuilds. Other events change nothing. |
| `HelloTriangleApp.HelloTriangle.BeginRun` | src/hello_triangle.cpp:59 | `run` enables rendering before its loop. |
| `HelloTriangleApp.HelloTriangle.RunIteration` | src/hello_triangle.cpp:66-78 | One loop turn processes events, so `isRunning` (the loop guard) and `isRenderingEnabled` end as the events decide. It then renders iff the window has area and rendering is enabled. Otherwise all flags end as the events decide, no frame call is issued, and the cursor stays. |
| `HelloTriangleApp.HelloTriangle.FinishRun` | src/hello_triangle.cpp:80 | Once the loop has stopped, the device is waited for and every fence is signaled. |

## Left out

- SDL and the window system are left out: window creation, showing and maximizing, event
  polling, and `kitsune_windowing.cpp`. The window's pixel size and the polled events are
  inputs.
- Instance, device, pipeline, render pass, framebuffer, depth and colour image construction are
  left out. They only fill descriptors for the driver. So are command-pool creation and command
  buffer allocation; the allocated command buffers are a constructor parameter.
- `KitsuneEngine::createImageViews` and `KitsuneEngine::createFramebuffers` are left out. They
  fill descriptors in a loop with no decision; the `HelloTriangle` view loop is modelled.
- `KitsuneEngine::draw` and `KitsuneEngine::recreate_swapchain` are empty in the source and are
  not modelled.
- `KitsuneEngine::run`, `pickPhysicalDevice` and `is_device_full_support` are left out. They only
  combine the modelled searches with driver queries.
- `HelloTriangle::findQueueFamilies` is left out. Nothing in `hello_triangle.cpp` calls it. The
  queue families of `HelloTriangle` come from the engine and are constructor parameters.
- GPU execution is left out. Fences are signaled by the GPU asynchronously, and the model only
  sees the host's waits. Semaphores are identities.
- The result of `waitForFences` is left out. The source ignores it.
- Timeouts, the `vk::raii` exceptions raised by object construction, and device loss are left out.
- Floating point is left out: delta time, viewport, clear colour, and the empty `Update`.
  Viewport, scissor, pipeline-binding and dynamic-state commands are not in the recorded
  command list. The barriers, the rendering target and area, and the draw are.
- Logging and shader-file reading are left out.
- `EngineEvents.KitsuneEngine.HandleEvent`: how `running` is initialised is not in
  kitsune_engine.cpp or kitsune_engine.hpp, so the engine constructor takes it as a parameter.
- `HelloTriangleApp.HelloTriangle.RunIteration`: the unbounded `while (isRunning)` loop of `run`
  is modelled as one iteration. Its ensures gives `isRunning` and `isRenderingEnabled` after the
  events, and all the event flags when no frame is rendered. After a rendered frame it does not
  repeat `RenderFrame`'s per-result contract: it states only that the frame opens with a wait on
  the current slot's fence. The window extent and resized flag after a rendered frame that
  rebuilds are left to `RenderFrame`.
- `DeviceSelection.FindMemoryType`: the mask is a `uint32_t` value on which `& 1` and `>>= 1` are
  written as remainder and quotient by 2. Both are exact for unsigned 32-bit values.
- `Negotiation.ChooseSwapchainFormat`: it requires a nonempty format list. The source indexes the
  first element unguarded, and Vulkan guarantees at least one format for a supported surface.
- `Negotiation.ChooseSwapExtent`: it requires ordered extent bounds when the extent is left to the
  swapchain. `std::clamp` is undefined otherwise.
- `HelloTriangleApp.HelloTriangle.RenderFrame`: it requires that a usable acquire returns an index
  below the number of swapchain images, which Vulkan guarantees for `vkAcquireNextImageKHR`. It
  also requires that a rebuild's surface lists a format and has ordered extent bounds.
- `HelloTriangleApp.HelloTriangle.RecreateSwapchain`: the surface must satisfy those same
  guarantees whenever the window has area. Vulkan provides them for a supported surface.
- The vulkan-hpp `raii` wrappers may report OUT_OF_DATE from `acquireNextImage` and `presentKHR`
  as an exception rather than a result. The model compares result values, as the code is written.
- `isFramebufferResized` is written but never read in the source. The model keeps it as state.
