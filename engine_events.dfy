/**
 * The window events both renderers react to, and `KitsuneEngine::handleEvent`, which keeps the
 * engine's `running` flag and its copy of the window's pixel size up to date.
 */
module EngineEvents {
  import opened VkTypes

  /** The SDL event types the handlers distinguish; every other type is `OtherEvent`. */
  datatype WindowEvent =
    | Quit
    | PixelSizeChanged
    | Minimized
    | Maximized
    | Restored
    | OtherEvent

  /** The fields of `KitsuneEngine` that its event handler updates. */
  class KitsuneEngine {
    var running: bool
    var windowExtent: Extent2D

    /** The engine after `init`: `windowExtent` is the window's pixel size at that moment. */
    constructor (running: bool, windowExtent: Extent2D)
      ensures this.running == running && this.windowExtent == windowExtent
    {
      this.running := running;
      this.windowExtent := windowExtent;
    }

    /**
     * `handleEvent`: QUIT clears `running`; a pixel-size change re-reads the window's pixel size
     * (`currentWindow`, what SDL answers at that moment); minimize, maximize and restore only log.
     */
    method HandleEvent(event: WindowEvent, currentWindow: Extent2D)
      modifies this
      ensures running <==> old(running) && event != Quit
      ensures event == PixelSizeChanged ==> windowExtent == currentWindow
      ensures event != PixelSizeChanged ==> windowExtent == old(windowExtent)
    {
      match event {
        case Quit =>
          running := false;
        case PixelSizeChanged =>
          windowExtent := currentWindow;
        case Minimized =>
        case Maximized =>
        case Restored =>
        case OtherEvent =>
      }
    }
  }
}
