/**
 * The shared data model: the rectangle and point types of Windows Forms and
 * Win32, the live screens, and a window's logical placement.
 */
module Geometry {
  import opened Wrappers
  import opened Utf16

  /** A Windows Forms `Rectangle`: origin and size in physical pixels. */
  datatype Rectangle = Rectangle(x: int, y: int, width: int, height: int) {
    function Left(): int { x }
    function Top(): int { y }
    function Right(): int { x + width }
    function Bottom(): int { y + height }

    /** The same rectangle as edges on the real line. */
    function Edges(): RealRect {
      RealRect(Left() as real, Top() as real, Right() as real, Bottom() as real)
    }
  }

  /** A Win32 `RECT`: four edges in physical pixels. */
  datatype NativeRect = NativeRect(left: int, top: int, right: int, bottom: int)

  /** A Win32 `POINT`. */
  datatype NativePoint = NativePoint(x: int, y: int)

  /** A rectangle given by its four edges on the real line. */
  datatype RealRect = RealRect(left: real, top: real, right: real, bottom: real)

  /**
   * Strict intersection: the two rectangles share interior on both axes.
   * Rectangles that merely touch along an edge do not overlap.
   */
  predicate Overlaps(a: RealRect, b: RealRect) {
    && a.right > b.left
    && a.left < b.right
    && a.bottom > b.top
    && a.top < b.bottom
  }

  /** A Windows Forms `Screen` as the OS enumerates it. */
  datatype Screen = Screen(deviceName: Text, primary: bool, bounds: Rectangle, workingArea: Rectangle)

  /** True iff screen `i` is flagged primary and no earlier screen is. */
  predicate FirstPrimaryAt(screens: seq<Screen>, i: int) {
    0 <= i < |screens| && screens[i].primary && forall k :: 0 <= k < i ==> !screens[k].primary
  }

  /**
   * `Screen.PrimaryScreen`: the first enumerated screen flagged primary, or
   * null when none is.
   */
  function PrimaryScreen(screens: seq<Screen>): (r: Option<Screen>)
    ensures r.None? <==> forall i :: 0 <= i < |screens| ==> !screens[i].primary
    ensures r.Some? ==> exists i :: FirstPrimaryAt(screens, i) && screens[i] == r.value
  {
    if |screens| == 0 then None
    else if screens[0].primary then
      assert FirstPrimaryAt(screens, 0);
      Some(screens[0])
    else
      var rest := PrimaryScreen(screens[1..]);
      assert rest.Some? ==> exists i :: FirstPrimaryAt(screens, i) && screens[i] == rest.value by {
        if rest.Some? {
          var j :| FirstPrimaryAt(screens[1..], j) && screens[1..][j] == rest.value;
          assert FirstPrimaryAt(screens, j + 1) by {
            forall k | 0 < k < j + 1 ensures !screens[k].primary {
              assert screens[k] == screens[1..][k - 1];
            }
          }
        }
      }
      rest
  }

  /** A snapshot without a primary screen makes the program dereference null. */
  datatype Fault = NoPrimaryScreen

  /** The logical placement of a window: position and size in device-independent units. */
  datatype WindowRect = WindowRect(left: real, top: real, width: real, height: real)
}
