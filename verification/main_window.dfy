/**
 * The main window's own placement logic: after a move onto another
 * monitor, and after every resize, the window is clamped into the work area
 * of the monitor under its centre. A one-field state machine remembers the
 * last monitor so that the monitor-changed action fires only on a change.
 */
module MainWindow {
  import opened Wrappers
  import opened Geometry

  /** A monitor handle (`HMONITOR`, an `IntPtr`); zero is the null handle. */
  type Handle = int

  const NullHandle: Handle := 0

  /** A Win32 `MONITORINFO`: the monitor's bounds, its work area and flags. */
  datatype NativeMonitorInfo = NativeMonitorInfo(rcMonitor: NativeRect, rcWork: NativeRect, flags: int)

  /**
   * The native calls the window makes, as uninterpreted functions:
   * `MonitorFromPoint` with the nearest-monitor fallback, and
   * `GetMonitorInfo`, which yields None when the call fails.
   */
  datatype DisplayApi = DisplayApi(
    monitorFromPoint: NativePoint -> Handle,
    getMonitorInfo: Handle -> Option<NativeMonitorInfo>)

  /** The structure the caller reads after `GetMonitorInfo`: all zero when the call failed. */
  function QueryMonitorInfo(api: DisplayApi, h: Handle): NativeMonitorInfo {
    match api.getMonitorInfo(h)
    case Some(info) => info
    case None => NativeMonitorInfo(NativeRect(0, 0, 0, 0), NativeRect(0, 0, 0, 0), 0)
  }

  /** `Math.Max` on doubles, NaN aside. */
  function Max(a: real, b: real): real {
    if a >= b then a else b
  }

  /** `Math.Min` on doubles, NaN aside. */
  function Min(a: real, b: real): real {
    if a <= b then a else b
  }

  /** `Max(lo, Min(v, hi))`: the lower bound wins when the range is empty. */
  function ClampAxis(v: real, lo: real, hi: real): (r: real)
    ensures lo <= hi ==> lo <= r <= hi
    ensures lo <= v <= hi ==> r == v
    ensures hi < lo ==> r == lo
  {
    Max(lo, Min(v, hi))
  }

  function Abs(x: real): real {
    if x < 0.0 then -x else x
  }

  /** In a non-empty range the clamped value is the point of the range nearest the input. */
  lemma ClampIsNearest(v: real, lo: real, hi: real, x: real)
    requires lo <= x <= hi
    ensures Abs(ClampAxis(v, lo, hi) - v) <= Abs(x - v)
  {
  }

  /**
   * Clamps the window's left and top edges, independently, so that it lies
   * inside the work area; the size is never changed.
   */
  function ClampToWorkArea(w: WindowRect, work: NativeRect): (r: WindowRect)
    ensures r.width == w.width && r.height == w.height
    ensures (work.right - work.left) as real >= w.width ==> work.left as real <= r.left <= work.right as real - w.width
    ensures (work.bottom - work.top) as real >= w.height ==> work.top as real <= r.top <= work.bottom as real - w.height
    ensures (work.right - work.left) as real < w.width ==> r.left == work.left as real
    ensures (work.bottom - work.top) as real < w.height ==> r.top == work.top as real
    ensures work.left as real <= w.left <= work.right as real - w.width ==> r.left == w.left
    ensures work.top as real <= w.top <= work.bottom as real - w.height ==> r.top == w.top
  {
    w.(left := ClampAxis(w.left, work.left as real, work.right as real - w.width),
       top := ClampAxis(w.top, work.top as real, work.bottom as real - w.height))
  }

  /** Clamping again against the same work area changes nothing. */
  lemma ClampIdempotent(w: WindowRect, work: NativeRect)
    ensures ClampToWorkArea(ClampToWorkArea(w, work), work) == ClampToWorkArea(w, work)
  {
  }

  /** The new left edge depends only on the old left edge and width, the new top only on the old top and height. */
  lemma ClampAxesIndependent(w1: WindowRect, w2: WindowRect, work: NativeRect)
    ensures w1.left == w2.left && w1.width == w2.width ==>
      ClampToWorkArea(w1, work).left == ClampToWorkArea(w2, work).left
    ensures w1.top == w2.top && w1.height == w2.height ==>
      ClampToWorkArea(w1, work).top == ClampToWorkArea(w2, work).top
  {
  }

  /** The work area of the monitor nearest a screen point, zero when the query failed. */
  function WorkAreaAt(api: DisplayApi, p: NativePoint): NativeRect {
    QueryMonitorInfo(api, api.monitorFromPoint(p)).rcWork
  }

  /**
   * `OnEnsureVisible`: clamps the window into the work area of the monitor
   * under `center`, the window's centre in screen coordinates.
   */
  function OnEnsureVisible(w: WindowRect, center: NativePoint, api: DisplayApi): (r: WindowRect)
    ensures r.width == w.width && r.height == w.height
    ensures var work := WorkAreaAt(api, center);
      (work.right - work.left) as real >= w.width ==> work.left as real <= r.left <= work.right as real - w.width
    ensures var work := WorkAreaAt(api, center);
      (work.bottom - work.top) as real >= w.height ==> work.top as real <= r.top <= work.bottom as real - w.height
  {
    ClampToWorkArea(w, WorkAreaAt(api, center))
  }

  /** The window's memory of the monitor it was last seen on (`_lastMonitor`). */
  datatype Tracker = Tracker(lastMonitor: Handle)

  /** A new window has seen no monitor yet. */
  const InitialTracker: Tracker := Tracker(NullHandle)

  /**
   * Compares a looked-up handle with the remembered one: a difference is
   * reported as a monitor change, and the handle is remembered.
   */
  function Observe(t: Tracker, current: Handle): (r: (Tracker, bool))
    ensures r.1 <==> current != t.lastMonitor
    ensures r.0.lastMonitor == current
  {
    if current != t.lastMonitor then (Tracker(current), true) else (t, false)
  }

  /**
   * True iff the monitor behind `h` can be queried and the point one pixel
   * inside its top-left corner is looked up as `h` again.
   */
  predicate ReportsOwnCorner(api: DisplayApi, h: Handle) {
    match api.getMonitorInfo(h)
    case Some(info) => api.monitorFromPoint(NativePoint(info.rcMonitor.left + 1, info.rcMonitor.top + 1)) == h
    case None => false
  }

  /**
   * The handle of the monitor the window is on: the monitor under the
   * window's centre is looked up, and the handle is then looked up again
   * from one pixel inside that monitor's top-left corner.
   */
  function CurrentMonitorHandle(api: DisplayApi, center: NativePoint): (r: Handle)
    ensures api.getMonitorInfo(api.monitorFromPoint(center)).None? ==> r == api.monitorFromPoint(NativePoint(1, 1))
    ensures ReportsOwnCorner(api, api.monitorFromPoint(center)) ==> r == api.monitorFromPoint(center)
  {
    var info := QueryMonitorInfo(api, api.monitorFromPoint(center));
    api.monitorFromPoint(NativePoint(info.rcMonitor.left + 1, info.rcMonitor.top + 1))
  }

  /**
   * Why the monitor-changed action can throw: the monitor enumeration it
   * runs rethrows a failed WMI query, and fails when no screen is primary.
   */
  datatype Thrown = WmiQueryFailed | Enumeration(fault: Fault)

  /**
   * What a location change leaves behind: the tracker, whether the
   * monitor-changed action ran, and the window, or the exception that left
   * the handler before the clamp.
   */
  datatype Moved = Moved(tracker: Tracker, monitorChanged: bool, window: Result<WindowRect, Thrown>)

  /**
   * `OnLocationChanged`. `actualCenter` is the centre computed from the
   * rendered size, `layoutCenter` the one computed from the requested size.
   * `onMonitorChanged` is the exception the monitor-changed action would
   * throw, if any. On a monitor change the handle is remembered first, then
   * the action runs, then the window is clamped; otherwise nothing happens.
   */
  function OnLocationChanged(t: Tracker, w: WindowRect, actualCenter: NativePoint, layoutCenter: NativePoint, api: DisplayApi,
                             onMonitorChanged: Option<Thrown>): (r: Moved)
    ensures r.monitorChanged <==> CurrentMonitorHandle(api, actualCenter) != t.lastMonitor
    ensures r.tracker.lastMonitor == CurrentMonitorHandle(api, actualCenter)
    ensures r.window.Failure? <==> r.monitorChanged && onMonitorChanged.Some?
    ensures r.window.Failure? ==> r.window.error == onMonitorChanged.value
    ensures r.monitorChanged && onMonitorChanged.None? ==> r.window == Success(ClampToWorkArea(w, WorkAreaAt(api, layoutCenter)))
    ensures !r.monitorChanged ==> r.window == Success(w) && r.tracker == t
  {
    var (next, changed) := Observe(t, CurrentMonitorHandle(api, actualCenter));
    if !changed then Moved(t, false, Success(w))
    else match onMonitorChanged
      case Some(e) => Moved(next, true, Failure(e))
      case None => Moved(next, true, Success(OnEnsureVisible(w, layoutCenter, api)))
  }

  /**
   * When the monitor-changed action throws, the new monitor is remembered
   * all the same, so a later move that stays on that monitor neither fires
   * nor clamps.
   */
  lemma ThrowingChangeSkipsClampOnMonitor(t: Tracker, w: WindowRect, c1: NativePoint, l1: NativePoint, e: Thrown,
                                          w2: WindowRect, c2: NativePoint, l2: NativePoint, o2: Option<Thrown>, api: DisplayApi)
    requires OnLocationChanged(t, w, c1, l1, api, Some(e)).monitorChanged
    requires CurrentMonitorHandle(api, c2) == CurrentMonitorHandle(api, c1)
    ensures OnLocationChanged(t, w, c1, l1, api, Some(e)).window == Failure(e)
    ensures var next := OnLocationChanged(t, w, c1, l1, api, Some(e)).tracker;
      && !OnLocationChanged(next, w2, c2, l2, api, o2).monitorChanged
      && OnLocationChanged(next, w2, c2, l2, api, o2).window == Success(w2)
  {
  }

  /**
   * A size change clamps the window into the work area under its centre
   * whether or not the monitor changed: the tracker is neither consulted
   * nor updated.
   */
  function OnSizeChanged(w: WindowRect, layoutCenter: NativePoint, api: DisplayApi): (r: WindowRect)
    ensures r.width == w.width && r.height == w.height
    ensures var work := WorkAreaAt(api, layoutCenter);
      (work.right - work.left) as real >= w.width ==> work.left as real <= r.left <= work.right as real - w.width
    ensures var work := WorkAreaAt(api, layoutCenter);
      (work.bottom - work.top) as real >= w.height ==> work.top as real <= r.top <= work.bottom as real - w.height
  {
    OnEnsureVisible(w, layoutCenter, api)
  }

  /**
   * A move that reports a monitor change, with an action that does not
   * throw, leaves the window where a resize at the same spot would.
   */
  lemma ResizeClampsLikeMonitorChange(t: Tracker, w: WindowRect, actualCenter: NativePoint, layoutCenter: NativePoint, api: DisplayApi)
    ensures OnLocationChanged(t, w, actualCenter, layoutCenter, api, None).monitorChanged ==>
      OnLocationChanged(t, w, actualCenter, layoutCenter, api, None).window == Success(OnSizeChanged(w, layoutCenter, api))
  {
  }

  /** The first move onto any monitor with a non-null handle reports a change. */
  lemma FirstMoveFires(h: Handle)
    requires h != NullHandle
    ensures Observe(InitialTracker, h).1
  {
  }

  /**
   * Replays the handles looked up on a run of moves: the final tracker and
   * how many times the monitor-changed action fired.
   */
  function Replay(t: Tracker, handles: seq<Handle>): (r: (Tracker, nat))
    ensures |handles| == 0 ==> r.0 == t
    ensures |handles| > 0 ==> r.0.lastMonitor == handles[|handles| - 1]
    ensures r.1 <= |handles|
    ensures (forall i :: 0 <= i < |handles| ==> handles[i] == t.lastMonitor) ==> r.1 == 0
    decreases |handles|
  {
    if |handles| == 0 then (t, 0)
    else
      var (next, fired) := Observe(t, handles[0]);
      var (last, count) := Replay(next, handles[1..]);
      (last, count + if fired then 1 else 0)
  }

  /** The number of handles in `handles` that differ from the handle before them, `prev` before the first. */
  function Changes(prev: Handle, handles: seq<Handle>): nat
    decreases |handles|
  {
    if |handles| == 0 then 0
    else (if handles[0] != prev then 1 else 0) + Changes(handles[0], handles[1..])
  }

  /** The monitor-changed action fires once for every handle that differs from the one before it. */
  lemma {:induction false} ReplayCountsChanges(t: Tracker, handles: seq<Handle>)
    ensures Replay(t, handles).1 == Changes(t.lastMonitor, handles)
    decreases |handles|
  {
    if |handles| > 0 {
      ReplayCountsChanges(Observe(t, handles[0]).0, handles[1..]);
    }
  }

  /**
   * Moving from monitor `a` onto monitor `b` and then staying there fires
   * the monitor-changed action exactly once and leaves `b` remembered.
   */
  lemma CrossingFiresOnce(a: Handle, b: Handle, handles: seq<Handle>)
    requires a != b
    requires |handles| > 0
    requires forall i :: 0 <= i < |handles| ==> handles[i] == b
    ensures Replay(Tracker(a), handles) == (Tracker(b), 1)
  {
  }
}
