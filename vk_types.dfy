/**
 * The Vulkan values the renderer reads and writes, reduced to what its decisions look at.
 * Numeric codes follow the Vulkan 1.3 headers.
 */
module VkTypes {

  /** A C++ `uint32_t`. */
  type Uint32 = x: int | 0 <= x <= 0xFFFF_FFFF

  /** `std::numeric_limits<uint32_t>::max()`, also written `UINT32_MAX` in the source. */
  const Uint32Max: Uint32 := 0xFFFF_FFFF

  datatype Extent2D = Extent2D(width: Uint32, height: Uint32)

  /** A window that is minimized, or not yet shown, reports a zero dimension. */
  predicate ZeroExtent(e: Extent2D) {
    e.width == 0 || e.height == 0
  }

  /** `VkFormat` codes. */
  type Format = Uint32
  const FormatUndefined: Format := 0
  const B8G8R8A8Srgb: Format := 50
  const D32Sfloat: Format := 126
  const D24UnormS8Uint: Format := 129
  const D32SfloatS8Uint: Format := 130

  /** `VkColorSpaceKHR` codes. */
  type ColorSpace = Uint32
  const SrgbNonlinear: ColorSpace := 0

  datatype SurfaceFormat = SurfaceFormat(format: Format, colorSpace: ColorSpace)

  datatype PresentMode =
    | Immediate
    | Mailbox
    | Fifo
    | FifoRelaxed
    | SharedDemandRefresh
    | SharedContinuousRefresh

  /** The fields of `VkSurfaceCapabilitiesKHR` that the swapchain negotiation reads. */
  datatype SurfaceCapabilities = SurfaceCapabilities(
    minImageCount: Uint32,
    maxImageCount: Uint32,       // 0 means "no upper bound"
    currentExtent: Extent2D,     // width Uint32Max means "decided by the swapchain"
    minImageExtent: Extent2D,
    maxImageExtent: Extent2D)

  /** The `vk::Result` codes the frame loop tells apart; every other code is `VkOther`. */
  datatype VkResult = VkSuccess | VkSuboptimal | VkErrorOutOfDate | VkOther(code: int)

  /** An acquire or present result after which the image may still be used. */
  predicate Usable(r: VkResult) {
    r == VkSuccess || r == VkSuboptimal
  }

  /** A present result that asks for the swapchain to be rebuilt. */
  predicate AsksForRecreation(r: VkResult) {
    r == VkErrorOutOfDate || r == VkSuboptimal
  }

  /** Opaque handle of a presentable image owned by the swapchain. */
  type Image = nat

  /** An image view over one swapchain image in the swapchain's format. */
  datatype ImageView = ImageView(image: Image, format: Format)

  /** `VkSharingMode` of the swapchain images, with the queue families of the concurrent case. */
  datatype SharingMode = Exclusive | Concurrent(queueFamilyIndices: seq<Uint32>)

  /** The parameters a swapchain is created with (the decided fields of `VkSwapchainCreateInfoKHR`). */
  datatype SwapchainConfig = SwapchainConfig(
    minImageCount: Uint32,
    surfaceFormat: SurfaceFormat,
    presentMode: PresentMode,
    extent: Extent2D,
    sharing: SharingMode)
}
