/**
 * Swapchain parameter negotiation: from what the surface reports to the present mode,
 * surface format, extent, image count and sharing mode a swapchain is created with.
 * Both `KitsuneEngine` and `HelloTriangle` carry a copy; where the copies differ
 * both are given.
 */
module Negotiation {
  import opened Wrappers
  import opened VkTypes
  import Search

  datatype SetupError = NoSurfaceFormats

  /** The format both copies look for: 8-bit BGRA, sRGB encoded, non-linear sRGB colour space. */
  const PreferredSurfaceFormat := SurfaceFormat(B8G8R8A8Srgb, SrgbNonlinear)

  /**
   * `KitsuneEngine::choose_present_mode`: with vsync, MAILBOX when offered; without,
   * IMMEDIATE when offered; FIFO otherwise, which every implementation supports.
   */
  function ChoosePresentMode(availableModes: seq<PresentMode>, vsync: bool): (r: PresentMode)
    ensures vsync ==> (r == Mailbox <==> Mailbox in availableModes)
    ensures !vsync ==> (r == Immediate <==> Immediate in availableModes)
    ensures r == Mailbox || r == Fifo || r == Immediate
    ensures r == Mailbox ==> vsync
    ensures r == Immediate ==> !vsync
  {
    if vsync then
      if Search.Find(availableModes, Mailbox) != |availableModes| then Mailbox else Fifo
    else
      if Search.Find(availableModes, Immediate) != |availableModes| then Immediate else Fifo
  }

  /** The choice depends on which modes are offered, not on the order they are listed in. */
  lemma PresentModeIgnoresOrder(a: seq<PresentMode>, b: seq<PresentMode>, vsync: bool)
    requires forall m :: m in a <==> m in b
    ensures ChoosePresentMode(a, vsync) == ChoosePresentMode(b, vsync)
  {
  }

  /**
   * `HelloTriangle::choosePresentMode`: FIFO with vsync and IMMEDIATE without, whatever
   * the surface offers.
   */
  function ChooseFixedPresentMode(availableModes: seq<PresentMode>, useVsync: bool): (r: PresentMode)
    ensures useVsync <==> r == Fifo
    ensures !useVsync <==> r == Immediate
  {
    if useVsync then Fifo else Immediate
  }

  /** `r` is `v` brought into `[lo, hi]`: `v` itself when inside, else the nearer bound. */
  predicate ClampedTo(r: int, v: int, lo: int, hi: int) {
    && lo <= r <= hi
    && (v < lo ==> r == lo)
    && (hi < v ==> r == hi)
    && (lo <= v <= hi ==> r == v)
  }

  /** `std::clamp`; its behaviour is undefined unless `lo <= hi`. */
  function Clamp(v: Uint32, lo: Uint32, hi: Uint32): (r: Uint32)
    requires lo <= hi
    ensures ClampedTo(r, v, lo, hi)
  {
    if v < lo then lo else if hi < v then hi else v
  }

  /** The surface leaves the extent to the swapchain (`currentExtent.width == UINT32_MAX`). */
  predicate ExtentUndefined(caps: SurfaceCapabilities) {
    caps.currentExtent.width == Uint32Max
  }

  /** The extent bounds are ordered, as the Vulkan specification guarantees for a surface. */
  predicate ExtentBoundsOrdered(caps: SurfaceCapabilities) {
    && caps.minImageExtent.width <= caps.maxImageExtent.width
    && caps.minImageExtent.height <= caps.maxImageExtent.height
  }

  /**
   * `choose_swap_extent` / `chooseSwapchainExtent`: the surface's current extent when it
   * states one, otherwise the window's pixel size clamped into the surface's bounds.
   */
  function ChooseSwapExtent(caps: SurfaceCapabilities, window: Extent2D): (r: Extent2D)
    requires ExtentUndefined(caps) ==> ExtentBoundsOrdered(caps)
    ensures !ExtentUndefined(caps) ==> r == caps.currentExtent
    ensures ExtentUndefined(caps) ==>
      && ClampedTo(r.width, window.width, caps.minImageExtent.width, caps.maxImageExtent.width)
      && ClampedTo(r.height, window.height, caps.minImageExtent.height, caps.maxImageExtent.height)
  {
    if !ExtentUndefined(caps) then caps.currentExtent
    else
      Extent2D(
        Clamp(window.width, caps.minImageExtent.width, caps.maxImageExtent.width),
        Clamp(window.height, caps.minImageExtent.height, caps.maxImageExtent.height))
  }

  /**
   * `KitsuneEngine::choose_swap_format`: the preferred format wherever it is listed,
   * else the first listed format; no format at all is an error.
   */
  function ChooseSwapFormat(availableFormats: seq<SurfaceFormat>): (r: Result<SurfaceFormat, SetupError>)
    ensures r.Failure? <==> availableFormats == []
    ensures PreferredSurfaceFormat in availableFormats ==> r == Success(PreferredSurfaceFormat)
    ensures PreferredSurfaceFormat !in availableFormats && availableFormats != [] ==>
      r == Success(availableFormats[0])
  {
    var i := Search.Find(availableFormats, PreferredSurfaceFormat);
    if i < |availableFormats| then Success(availableFormats[i])
    else if availableFormats != [] then Success(availableFormats[0])
    else Failure(NoSurfaceFormats)
  }

  /** The format choice only depends on the listed order when the preferred format is absent. */
  lemma SwapFormatIgnoresOrderOfPreferred(a: seq<SurfaceFormat>, b: seq<SurfaceFormat>)
    requires PreferredSurfaceFormat in a && PreferredSurfaceFormat in b
    ensures ChooseSwapFormat(a) == ChooseSwapFormat(b) == Success(PreferredSurfaceFormat)
  {
  }

  /**
   * `HelloTriangle::chooseSwapchainFormat`: the same choice without the empty-list check;
   * it reads `formats[0]`, so the list must not be empty.
   */
  function ChooseSwapchainFormat(formats: seq<SurfaceFormat>): (r: SurfaceFormat)
    requires formats != []
    ensures PreferredSurfaceFormat in formats ==> r == PreferredSurfaceFormat
    ensures PreferredSurfaceFormat !in formats ==> r == formats[0]
    ensures r in formats
  {
    ChooseSwapFormat(formats).value
  }

  /** The image count asked for before the upper bound is applied: 1 becomes 2 for double buffering. */
  function PreferredImageCount(caps: SurfaceCapabilities): (n: Uint32)
    ensures caps.minImageCount == 1 ==> n == 2
    ensures caps.minImageCount != 1 ==> n == caps.minImageCount
  {
    if caps.minImageCount == 1 then 2 else caps.minImageCount
  }

  /** The preferred count, lowered to `maxImageCount` only when that bound exists (is nonzero). */
  function ImageCountFor(caps: SurfaceCapabilities): (n: Uint32)
    ensures caps.maxImageCount == 0 ==> n == PreferredImageCount(caps)
    ensures caps.maxImageCount > 0 ==> n <= caps.maxImageCount
    ensures caps.maxImageCount > 0 && PreferredImageCount(caps) <= caps.maxImageCount ==>
      n == PreferredImageCount(caps)
    ensures caps.maxImageCount > 0 && PreferredImageCount(caps) > caps.maxImageCount ==>
      n == caps.maxImageCount
  {
    var preferred := PreferredImageCount(caps);
    if caps.maxImageCount > 0 && preferred > caps.maxImageCount then caps.maxImageCount else preferred
  }

  /**
   * The image-count assignments of `createSwapchain`: start from `minImageCount`, raise 1 to 2,
   * then clamp to `maxImageCount` when it is nonzero.
   */
  method ChooseImageCount(caps: SurfaceCapabilities) returns (imageCount: Uint32)
    ensures imageCount == ImageCountFor(caps)
  {
    imageCount := caps.minImageCount;
    if caps.minImageCount == 1 {
      imageCount := 2;
    }
    if caps.maxImageCount > 0 && imageCount > caps.maxImageCount {
      imageCount := caps.maxImageCount;
    }
  }

  /**
   * For a surface whose bounds are consistent, the count lies within them and is at
   * least two unless the surface allows only one image.
   */
  lemma ImageCountWithinSurfaceBounds(caps: SurfaceCapabilities)
    requires 1 <= caps.minImageCount
    requires caps.maxImageCount == 0 || caps.minImageCount <= caps.maxImageCount
    ensures caps.minImageCount <= ImageCountFor(caps)
    ensures caps.maxImageCount > 0 ==> ImageCountFor(caps) <= caps.maxImageCount
    ensures caps.maxImageCount != 1 ==> 2 <= ImageCountFor(caps)
  {
  }

  /** An unbounded surface with `minImageCount == 1` gets two images. */
  lemma UnboundedSingleImageSurfaceGetsTwo(caps: SurfaceCapabilities)
    requires caps.minImageCount == 1 && caps.maxImageCount == 0
    ensures ImageCountFor(caps) == 2
  {
  }

  /**
   * The sharing-mode branch of `createSwapchain`: images are shared concurrently between
   * two distinct queue families, and owned exclusively when one family does both.
   */
  function SharingModeFor(graphicsFamily: Uint32, presentFamily: Uint32): (m: SharingMode)
    ensures m.Exclusive? <==> graphicsFamily == presentFamily
    ensures m.Concurrent? ==> m.queueFamilyIndices == [graphicsFamily, presentFamily]
  {
    if graphicsFamily != presentFamily then Concurrent([graphicsFamily, presentFamily]) else Exclusive
  }

  /** The swapchain parameters once the format and present mode are chosen. */
  function ConfigFor(caps: SurfaceCapabilities, surfaceFormat: SurfaceFormat, presentMode: PresentMode,
                     window: Extent2D, graphicsFamily: Uint32, presentFamily: Uint32): SwapchainConfig
    requires ExtentUndefined(caps) ==> ExtentBoundsOrdered(caps)
  {
    SwapchainConfig(ImageCountFor(caps), surfaceFormat, presentMode,
                    ChooseSwapExtent(caps, window), SharingModeFor(graphicsFamily, presentFamily))
  }

  /**
   * The decisions of `KitsuneEngine::createSwapchain`: fails exactly when the surface lists no
   * format, and otherwise combines the format, present mode, extent, image count and sharing
   * mode chosen above.
   */
  method NegotiateSwapchain(caps: SurfaceCapabilities, formats: seq<SurfaceFormat>,
                            presentModes: seq<PresentMode>, window: Extent2D, vsync: bool,
                            graphicsFamily: Uint32, presentFamily: Uint32)
    returns (r: Result<SwapchainConfig, SetupError>)
    requires ExtentUndefined(caps) ==> ExtentBoundsOrdered(caps)
    ensures r.Failure? <==> formats == []
    ensures r.Success? ==>
      r.value == ConfigFor(caps, ChooseSwapFormat(formats).value, ChoosePresentMode(presentModes, vsync),
                           window, graphicsFamily, presentFamily)
  {
    var surfaceFormat :- ChooseSwapFormat(formats);
    var presentMode := ChoosePresentMode(presentModes, vsync);
    var extent := ChooseSwapExtent(caps, window);
    var imageCount := ChooseImageCount(caps);
    var sharing := SharingModeFor(graphicsFamily, presentFamily);
    r := Success(SwapchainConfig(imageCount, surfaceFormat, presentMode, extent, sharing));
  }

  /** A surface reporting 800x600, `minImageCount` 1 and no upper bound gives two 800x600 images. */
  lemma Surface800x600Unbounded(formats: seq<SurfaceFormat>, modes: seq<PresentMode>, window: Extent2D)
    requires formats != []
    ensures var caps := SurfaceCapabilities(1, 0, Extent2D(800, 600), Extent2D(1, 1), Extent2D(4096, 4096));
      var c := ConfigFor(caps, ChooseSwapchainFormat(formats), Fifo, window, 0, 0);
      c.minImageCount == 2 && c.extent == Extent2D(800, 600) && c.sharing == Exclusive
  {
  }
}
