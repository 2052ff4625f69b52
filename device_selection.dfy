/**
 * The first-match searches `KitsuneEngine` runs while picking and configuring a device:
 * memory type, MSAA sample count, queue families, device extensions and depth format.
 * The driver's answers are parameters.
 */
module DeviceSelection {
  import opened Wrappers
  import opened VkTypes
  import Search

  datatype SelectionError =
    | NoSuitableMemoryType
    | PhysicalDeviceNotInitialized
    | NoSupportedFormat

  // ---------------------------------------------------------------------------
  // Memory type (`createImage`)

  /** `VK_MAX_MEMORY_TYPES`: the length of `VkPhysicalDeviceMemoryProperties::memoryTypes`. */
  const MaxMemoryTypes: nat := 32

  /** A `VkMemoryType` as the search reads it: only its property flags matter. */
  datatype MemoryType = MemoryType(propertyFlags: bv32)

  /**
   * An unsigned mask shifted right `n` times by one bit, as the search loop shifts it
   * (`>>= 1` on a `uint32_t` halves it, rounding down).
   */
  function ShiftRight(mask: Uint32, n: nat): Uint32 {
    if n == 0 then mask else ShiftRight(mask, n - 1) / 2
  }

  /** The low bit of an unsigned mask, `mask & 1`, is its remainder modulo 2. */
  predicate LowBitSet(mask: Uint32) {
    mask % 2 == 1
  }

  /** Bit `i` of a `uint32_t` mask: the low bit once the mask is shifted right `i` times. */
  predicate BitSet(mask: Uint32, i: nat) {
    LowBitSet(ShiftRight(mask, i))
  }

  /** `(flags & requested) == requested`: every requested flag is present. */
  predicate HasFlags(flags: bv32, requested: bv32) {
    flags & requested == requested
  }

  /**
   * Memory type `i` may back the resource (bit `i` of `memoryTypeBits`) and has every
   * requested property flag.
   */
  predicate SuitableMemoryType(memoryTypeBits: Uint32, memoryTypes: seq<MemoryType>, properties: bv32, i: nat)
    requires i < |memoryTypes| == MaxMemoryTypes
  {
    BitSet(memoryTypeBits, i) && HasFlags(memoryTypes[i].propertyFlags, properties)
  }

  /**
   * The memory-type loop of `createImage`: the least index below `memoryTypeCount` that is
   * suitable, or an error when there is none.
   */
  method FindMemoryType(memoryTypeBits: Uint32, memoryTypeCount: Uint32, memoryTypes: seq<MemoryType>,
                        properties: bv32)
    returns (r: Result<nat, SelectionError>)
    requires |memoryTypes| == MaxMemoryTypes && memoryTypeCount <= MaxMemoryTypes
    ensures r.Success? ==>
      && r.value < memoryTypeCount
      && SuitableMemoryType(memoryTypeBits, memoryTypes, properties, r.value)
      && forall j :: 0 <= j < r.value ==> !SuitableMemoryType(memoryTypeBits, memoryTypes, properties, j)
    ensures r.Failure? ==>
      && r.error == NoSuitableMemoryType
      && forall j :: 0 <= j < memoryTypeCount ==> !SuitableMemoryType(memoryTypeBits, memoryTypes, properties, j)
  {
    var typeBits := memoryTypeBits;
    var typeIndex: Uint32 := Uint32Max;
    var i := 0;
    while i < memoryTypeCount
      invariant 0 <= i <= memoryTypeCount
      invariant typeBits == ShiftRight(memoryTypeBits, i)
      invariant typeIndex == Uint32Max
      invariant forall j :: 0 <= j < i ==> !SuitableMemoryType(memoryTypeBits, memoryTypes, properties, j)
    {
      if LowBitSet(typeBits) && HasFlags(memoryTypes[i].propertyFlags, properties) {
        typeIndex := i;
        break;
      }
      assert ShiftRight(memoryTypeBits, i + 1) == ShiftRight(memoryTypeBits, i) / 2;
      typeBits := typeBits / 2;
      i := i + 1;
    }
    if typeIndex == Uint32Max {
      return Failure(NoSuitableMemoryType);
    }
    return Success(typeIndex);
  }

  // ---------------------------------------------------------------------------
  // MSAA sample count (`get_max_usable_sample_count`)

  /** `VkSampleCountFlagBits`, highest first, without `VK_SAMPLE_COUNT_1_BIT`. */
  const SampleCountsHighestFirst: seq<bv32> := [0x40, 0x20, 0x10, 0x8, 0x4, 0x2]
  const SampleCount1: bv32 := 0x1

  /** The sample count `c` is among the counts in the mask. */
  predicate Allows(counts: bv32, c: bv32) {
    counts & c != 0
  }

  /**
   * The highest sample count that both the colour and the depth framebuffer limits allow,
   * else one sample.
   */
  function MaxUsableSampleCount(colorCounts: bv32, depthCounts: bv32): (r: bv32)
    ensures r == SampleCount1 || r in SampleCountsHighestFirst
    ensures r != SampleCount1 ==> Allows(colorCounts & depthCounts, r)
    ensures forall k :: 0 <= k < |SampleCountsHighestFirst| && SampleCountsHighestFirst[k] > r ==>
      !Allows(colorCounts & depthCounts, SampleCountsHighestFirst[k])
  {
    var counts := colorCounts & depthCounts;
    if Allows(counts, 0x40) then 0x40
    else if Allows(counts, 0x20) then 0x20
    else if Allows(counts, 0x10) then 0x10
    else if Allows(counts, 0x8) then 0x8
    else if Allows(counts, 0x4) then 0x4
    else if Allows(counts, 0x2) then 0x2
    else SampleCount1
  }

  // ---------------------------------------------------------------------------
  // Queue families (`find_graphics_queue_family_index`,
  // `find_graphics_and_present_queue_family_index`)

  /** `VK_QUEUE_GRAPHICS_BIT`. */
  const QueueGraphicsBit: bv32 := 0x1

  /**
   * A queue family as the selection sees it: its `queueFlags`, and what
   * `getSurfaceSupportKHR(i, surface)` answers for its index `i`.
   */
  datatype QueueFamily = QueueFamily(queueFlags: bv32, surfaceSupport: bool)

  predicate SupportsGraphics(family: QueueFamily) {
    family.queueFlags & QueueGraphicsBit != 0
  }

  /** A family that can both draw and present. */
  predicate SupportsGraphicsAndPresent(family: QueueFamily) {
    SupportsGraphics(family) && family.surfaceSupport
  }

  /** `find_graphics_queue_family_index`: the first family with the graphics flag. */
  function FindGraphicsQueueFamilyIndex(families: seq<QueueFamily>): (r: Option<nat>)
    ensures r.Some? ==>
      && r.value < |families|
      && SupportsGraphics(families[r.value])
      && forall j :: 0 <= j < r.value ==> !SupportsGraphics(families[j])
    ensures r.None? <==> forall j :: 0 <= j < |families| ==> !SupportsGraphics(families[j])
  {
    var i := Search.FindIf(families, SupportsGraphics);
    if i < |families| then Some(i) else None
  }

  /**
   * `find_graphics_and_present_queue_family_index`. With `g` the first graphics family:
   * nothing when there is none; `(g, g)` when `g` can present; otherwise the first family that
   * can both draw and present, for both roles; otherwise `g` for graphics and the first family
   * that can present (if any) for presentation.
   */
  method FindGraphicsAndPresentQueueFamilyIndex(families: seq<QueueFamily>)
    returns (graphics: Option<nat>, present: Option<nat>)
    ensures graphics.Some? <==> FindGraphicsQueueFamilyIndex(families).Some?
    ensures graphics.None? ==> present.None?
    ensures var g := FindGraphicsQueueFamilyIndex(families);
      g.Some? && families[g.value].surfaceSupport ==> graphics == present == g
    ensures graphics.Some? ==> graphics.value < |families| && SupportsGraphics(families[graphics.value])
    ensures present.Some? ==> present.value < |families| && families[present.value].surfaceSupport
    ensures graphics.Some? && graphics == present ==>
      forall j :: 0 <= j < graphics.value ==> !SupportsGraphicsAndPresent(families[j])
    ensures graphics != present ==>
      && graphics == FindGraphicsQueueFamilyIndex(families)
      && (forall j :: 0 <= j < |families| ==> !SupportsGraphicsAndPresent(families[j]))
      && (present.Some? ==> forall j :: 0 <= j < present.value ==> !families[j].surfaceSupport)
      && (present.None? ==> forall j :: 0 <= j < |families| ==> !families[j].surfaceSupport)
  {
    var graphicsIndex := FindGraphicsQueueFamilyIndex(families);
    if graphicsIndex.None? {
      return None, None;
    }
    var g := graphicsIndex.value;
    if families[g].surfaceSupport {
      return Some(g), Some(g);
    }
    var presentIndex: Option<nat> := None;
    for i := 0 to |families|
      invariant forall j :: 0 <= j < i ==> !SupportsGraphicsAndPresent(families[j])
      invariant presentIndex.Some? ==>
        && presentIndex.value < i
        && families[presentIndex.value].surfaceSupport
        && forall j :: 0 <= j < presentIndex.value ==> !families[j].surfaceSupport
      invariant presentIndex.None? ==> forall j :: 0 <= j < i ==> !families[j].surfaceSupport
    {
      if i != g {
        if SupportsGraphics(families[i]) && families[i].surfaceSupport {
          return Some(i), Some(i);
        }
        if presentIndex.None? && families[i].surfaceSupport {
          presentIndex := Some(i);
        }
      }
    }
    return Some(g), presentIndex;
  }

  // ---------------------------------------------------------------------------
  // Device extensions (`check_device_extensions_support`)

  /**
   * Every required extension name is among the names the device reports. The required
   * list (`REQUIRED_EXTENSIONS`) is a parameter.
   */
  function CheckDeviceExtensionsSupport(required: seq<string>, available: seq<string>): (r: bool)
    ensures r <==> forall k :: 0 <= k < |required| ==> required[k] in available
  {
    var missing := Search.FindIf(required, (name: string) => Search.Find(available, name) == |available|);
    missing == |required|
  }

  // ---------------------------------------------------------------------------
  // Supported formats (`findSupportedFormat`, `findDepthFormat`)

  datatype ImageTiling = Optimal | Linear | DrmFormatModifier

  datatype FormatProperties = FormatProperties(
    linearTilingFeatures: bv32,
    optimalTilingFeatures: bv32,
    bufferFeatures: bv32)

  /** What `getFormatProperties` answers for each format of the selected physical device. */
  type FormatQuery = Format -> FormatProperties

  /** `VK_FORMAT_FEATURE_DEPTH_STENCIL_ATTACHMENT_BIT`. */
  const DepthStencilAttachmentFeature: bv32 := 0x200

  /** The format offers every requested feature under the given tiling (only linear and optimal are checked). */
  predicate TilingSupports(props: FormatProperties, tiling: ImageTiling, features: bv32) {
    || (tiling == Linear && props.linearTilingFeatures & features == features)
    || (tiling == Optimal && props.optimalTilingFeatures & features == features)
  }

  /**
   * `findSupportedFormat`: the first candidate whose properties offer the features under the
   * tiling; an error without a physical device or when no candidate qualifies.
   */
  function FindSupportedFormat(device: Option<FormatQuery>, candidates: seq<Format>, tiling: ImageTiling,
                               features: bv32): (r: Result<Format, SelectionError>)
    ensures device.None? ==> r == Failure(PhysicalDeviceNotInitialized)
    ensures r.Success? ==>
      exists k :: 0 <= k < |candidates| && candidates[k] == r.value &&
        TilingSupports(device.value(candidates[k]), tiling, features) &&
        forall j :: 0 <= j < k ==> !TilingSupports(device.value(candidates[j]), tiling, features)
    ensures device.Some? && r.Failure? ==>
      && r.error == NoSupportedFormat
      && forall k :: 0 <= k < |candidates| ==> !TilingSupports(device.value(candidates[k]), tiling, features)
  {
    if device.None? then Failure(PhysicalDeviceNotInitialized)
    else
      var query := device.value;
      var i := Search.FindIf(candidates, (format: Format) => TilingSupports(query(format), tiling, features));
      if i < |candidates| then Success(candidates[i]) else Failure(NoSupportedFormat)
  }

  /** The format can be a depth/stencil attachment with optimal tiling. */
  predicate DepthAttachable(query: FormatQuery, format: Format) {
    query(format).optimalTilingFeatures & DepthStencilAttachmentFeature == DepthStencilAttachmentFeature
  }

  /** The depth formats `findDepthFormat` tries, in order of preference. */
  const DepthFormatCandidates: seq<Format> := [D32Sfloat, D32SfloatS8Uint, D24UnormS8Uint]

  /**
   * `findDepthFormat`: the first of D32_SFLOAT, D32_SFLOAT_S8_UINT, D24_UNORM_S8_UINT usable as a
   * depth/stencil attachment with optimal tiling.
   */
  function FindDepthFormat(device: Option<FormatQuery>): (r: Result<Format, SelectionError>)
    ensures device.None? ==> r == Failure(PhysicalDeviceNotInitialized)
    ensures r.Success? ==>
      && device.Some?
      && r.value in DepthFormatCandidates
      && DepthAttachable(device.value, r.value)
      && (r.value != D32Sfloat ==> !DepthAttachable(device.value, D32Sfloat))
      && (r.value == D24UnormS8Uint ==> !DepthAttachable(device.value, D32SfloatS8Uint))
    ensures device.Some? && r.Failure? ==>
      forall f :: f in DepthFormatCandidates ==> !DepthAttachable(device.value, f)
  {
    var r := FindSupportedFormat(device, DepthFormatCandidates, Optimal, DepthStencilAttachmentFeature);
    if r.Success? && r.value == D24UnormS8Uint then
      var k :| 0 <= k < |DepthFormatCandidates| && DepthFormatCandidates[k] == r.value
        && forall j :: 0 <= j < k ==> !TilingSupports(device.value(DepthFormatCandidates[j]), Optimal, DepthStencilAttachmentFeature);
      assert k == 2 && DepthFormatCandidates[1] == D32SfloatS8Uint;
      r
    else r
  }
}
