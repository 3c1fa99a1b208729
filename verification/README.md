# WPFMonitorKontrolle — a Dafny model of its monitor and window-placement logic

WPFMonitorKontrolle is a WPF application that keeps its main window on a
visible part of a multi-monitor desktop and reports hardware and geometry
data for every monitor. This project models the three pieces of pure logic
inside its OS calls and proves properties of them:

1. **Monitor enumeration** (`MonitorTool`). NUL-terminated UTF-16 WMI fields
   are decoded. A single WMI row has "DISPLAY" rewritten to "DISPLAY1". Screens
   are paired with WMI rows by index, with "Unbekannt" as the default. A failed
   DPI query falls back to 96/96. Each screen is classified, first match wins,
   by where it lies relative to the primary screen.
2. **Window visibility** (`WindowVisibility`). The logical window rectangle is
   projected to physical pixels. It gets a strict overlap test against every
   work area. A lost window is re-centred on the primary work area. The four
   margin-20 edge checks run in sequence. A visible window is re-centred
   unconditionally.
3. **Per-move clamping and monitor-change detection** (`MainWindow`). There is
   the `Max(low, Min(v, high))` clamp into the work area of the monitor under
   the window's centre. There is also the `_lastMonitor` state machine, which
   fires the monitor-changed action only when the looked-up handle differs
   from the remembered one.

Shared types are in `Geometry`: Windows Forms `Rectangle` and `Screen`, Win32
`RECT` and `POINT`, and the window's logical placement. `Utf16` models .NET
strings as sequences of UTF-16 code units, so the `(char)` cast is the identity
there. It also has ordinal `String.Replace`. `Wrappers` has `Option` and
`Result`.

The OS is passed in as parameters:
- `Screen.AllScreens` is a sequence of `Screen` values.
- The WMI rows are a sequence of `WmiMonitorId` values.
- `GetDpiForMonitor` is a function from a screen to an HRESULT and two DPI values.
- `MonitorFromPoint` and `GetMonitorInfo` are uninterpreted functions in a `DisplayApi` value.
- `VisualTreeHelper.GetDpi` is a positive `Scale`.
- `PointToScreen` results are given as centre points.
- Whether the monitor-changed action throws, and with what, is an `Option<Thrown>` parameter.

`Screen.PrimaryScreen` is taken to be the first screen flagged primary, or null
when none is. A null primary screen makes the program throw
`NullReferenceException`, which the model returns as `Failure(NoPrimaryScreen)`.
The six outcomes of the position test are a `Position` datatype.
`Position.Description` gives the German string the program stores in each
record's `positionDescription`.

Coordinates of the window are `real`; screen rectangles are `int`.

### Behaviour worth knowing
- The window is projected to physical pixels with the window's own DPI scale.
- The window is "centred" on a box the size of the primary work area anchored
  at the origin, not at the work area's own position. With a taskbar on the
  left or top, the gaps on the two sides differ.
- The return value of `GetMonitorInfo` is not checked. When the call fails,
  the window is clamped against the zero-initialised work area.
  `MonitorFromPoint` uses the nearest-monitor fallback, so it never reports a
  miss.
- Applying the visibility rule twice does not always give the same result as
  applying it once. On small work areas, or on work areas far from the origin, edge correction can move a
  centred window. Idempotence is proved for a primary work area that starts at
  the origin and is at least 40 logical units wide and high.
- A missing primary screen faults, in both enumeration and the visibility
  rule.
- On a monitor change, `_lastMonitor` is updated before the monitor-changed
  action runs. If that action throws, the exception leaves the handler and the
  clamp for that move is skipped. A later move that stays on the same monitor
  reports no change and does not clamp either. A resize still clamps. The
  application's unhandled-exception handler only writes a debug line and does
  not mark the exception handled (App.xaml.cs:165-168).

## Model

| member | source | states |
|---|---|---|
| `MonitorTool.Decode` | WPFMonitorKontrolle/MonitorTool.cs:90-100 | A null field decodes to the empty string. Otherwise the result is a prefix of the field with no NUL, and it stops exactly at the first NUL or at the end of the field. |
| `MonitorTool.TakeUntilNul` | WPFMonitorKontrolle/MonitorTool.cs:97 | The result is the longest prefix with no NUL code unit, so it is never longer than the input. |
| `MonitorTool.DecodePadded` | WPFMonitorKontrolle/MonitorTool.cs:97-99 | Decoding a NUL-padded fixed-width field recovers the NUL-free text that was padded. |
| `MonitorTool.RewriteSingleEntry` | WPFMonitorKontrolle/MonitorTool.cs:30-33 | Lists of any length other than one come back unchanged. A single entry keeps its manufacturer, model and serial, so only its instance name can change. |
| `MonitorTool.SingleEntryRewriteReversible` | WPFMonitorKontrolle/MonitorTool.cs:30-33 | The rewrite loses nothing: replacing "DISPLAY1" back by "DISPLAY" recovers the reported instance name. |
| `MonitorTool.SingleEntryWithoutDisplayUnchanged` | WPFMonitorKontrolle/MonitorTool.cs:30-33 | A single entry whose instance name does not contain "DISPLAY" is left as it is. |
| `MonitorTool.SingleEntryRewritesLeadingDisplay` | WPFMonitorKontrolle/MonitorTool.cs:32 | A single instance name of "DISPLAY" followed by text in which "DISPLAY" does not occur becomes "DISPLAY1" followed by the same text, with the other fields kept. This covers names such as `DISPLAY\DEL40F4\5&1a2b_0_UID4352_0`. |
| `Utf16.ReplaceReversible` | WPFMonitorKontrolle/MonitorTool.cs:32 | Ordinal replacement of a pattern by the pattern plus a suffix can be undone, provided the pattern's first code unit occurs nowhere else in it. |
| `Utf16.ReplaceAbsent` | WPFMonitorKontrolle/MonitorTool.cs:32 | Ordinal replacement leaves a text without any occurrence of the pattern unchanged. |
| `Utf16.ReplaceNextOccurrence` | WPFMonitorKontrolle/MonitorTool.cs:32 | For a pattern whose first code unit is unique in it, such as "DISPLAY", a prefix without an occurrence is copied. The occurrence that follows is replaced, and replacement continues on the rest. Together with `ReplaceAbsent`, this means every occurrence is replaced, so "DISPLAYDISPLAY" becomes "DISPLAY1DISPLAY1". |
| `MonitorTool.GetMonitorNames` | WPFMonitorKontrolle/MonitorTool.cs:19-33 | There is one entry per WMI row, in order. Each of its three fields is the decoded field of that row. Instance names are rewritten only when there is exactly one row. |
| `MonitorTool.ToInt32` | WPFMonitorKontrolle/MonitorTool.cs:77-78 | The unchecked `(int)` cast of a `uint` lands in the 32-bit signed range and is congruent to its input modulo 2^32. |
| `MonitorTool.EffectiveDpi` | WPFMonitorKontrolle/MonitorTool.cs:56-64 | A nonzero HRESULT gives 96/96. A zero HRESULT passes each queried value through the unchecked `(int)` cast: values below 2^31 are kept, and values of 2^31 and above come out as the value minus 2^32, which is negative. |
| `MonitorTool.ScaleFactorFromQuery` | WPFMonitorKontrolle/MonitorTool.cs:238-240 | A record whose DPI query failed has scale factor 1, and 144 DPI gives 1.5. |
| `MonitorTool.PositionDescription` | WPFMonitorKontrolle/MonitorTool.cs:102-130 | A screen is "Primär" exactly when it is the primary screen. Each side description means the screen lies wholly on that side and failed the earlier tests. "Überlappend" is returned exactly when a non-primary screen strictly overlaps the primary screen on both axes. |
| `MonitorTool.LeftTakesPrecedenceOverAbove` | WPFMonitorKontrolle/MonitorTool.cs:109-121 | A screen that lies wholly left of and wholly above the primary screen is described as left of it. |
| `MonitorTool.BuildRecords` | WPFMonitorKontrolle/MonitorTool.cs:51-85 | The loop yields exactly one record per screen, and record i is built from screen i. |
| `MonitorTool.GetMonitors` | WPFMonitorKontrolle/MonitorTool.cs:44-88 | Enumeration fails exactly when there are screens but none is primary. Otherwise there is one record per screen, in order. Record i copies the name, the primary flag and the bounds of screen i. It takes manufacturer, model and serial from WMI row i when that row exists, and "Unbekannt" otherwise. Its DPI is the queried DPI, or 96/96 on failure, and its position is relative to the primary screen. |
| `MonitorTool.DescriptionsDistinct` | WPFMonitorKontrolle/MonitorTool.cs:104-129 | The six description strings are pairwise different, so the stored string determines the position. |
| `MonitorTool.OnlyPrimaryScreensArePrimary` | WPFMonitorKontrolle/MonitorTool.cs:104-107 | Among enumerated records, exactly the primary ones carry the description "Primär". |
| `Geometry.PrimaryScreen` | WPFMonitorKontrolle/MonitorTool.cs:109 | The primary screen is the first screen flagged primary. It is absent exactly when no screen is flagged. |
| `WindowVisibility.PhysicalRoundTrip` | WPFMonitorKontrolle/Behavior/WindowVisibilityBehavior.cs:71-74 | The physical rectangle (left·sx, top·sy, left·sx + width·sx, top·sy + height·sy), scaled back, recovers the logical placement. |
| `WindowVisibility.IntersectsAnyScreen` | WPFMonitorKontrolle/Behavior/WindowVisibilityBehavior.cs:76-85 | True exactly when some screen's work area satisfies all four strict half-plane tests. |
| `WindowVisibility.TouchingEdgeDoesNotIntersect` | WPFMonitorKontrolle/Behavior/WindowVisibilityBehavior.cs:81-84 | A window whose physical right edge equals a work area's left edge does not intersect it. |
| `WindowVisibility.Centered` | WPFMonitorKontrolle/Behavior/WindowVisibilityBehavior.cs:89-94 | The re-centred window keeps its size and leaves equal gaps on both sides of a box as large as the work area in logical units. |
| `WindowVisibility.CorrectEdges` | WPFMonitorKontrolle/Behavior/WindowVisibilityBehavior.cs:104-127 | The four sequential edge checks keep the size. They leave a window already within the margins untouched. When window and limits are at least 20 units wide and high, they always end with at least 20 units of the window inside the limits on each axis. On each axis the result is fixed. A window less than 20 units inside the right (bottom) limit ends flush with that limit. If the limits are narrower than 20 units, it ends at the left (top) limit instead, because the later check wins. A window less than 20 units inside the left (top) limit ends at that limit. Any other window keeps its coordinate. |
| `WindowVisibility.CorrectEdgesIdempotent` | WPFMonitorKontrolle/Behavior/WindowVisibilityBehavior.cs:111-127 | Edge correction applied to its own result changes nothing. |
| `WindowVisibility.CorrectWindowEdges` | WPFMonitorKontrolle/Behavior/WindowVisibilityBehavior.cs:100-137 | Only Left and Top change. With an intersection, the result is the primary-centred placement. Without one, the result is exactly the edge correction against the primary work-area limits, and it keeps the margins, given room for them. |
| `WindowVisibility.EdgeCorrectionExample` | WPFMonitorKontrolle/Behavior/WindowVisibilityBehavior.cs:111-114 | Without an intersection, at scale 1 with limits 0..1920, a window at left 1905 and 800 wide ends at left 1120. |
| `WindowVisibility.EnsureWindowIsVisible` | WPFMonitorKontrolle/Behavior/WindowVisibilityBehavior.cs:67-98 | The rule faults exactly when there is no primary screen, and it never changes the size. A window that intersects some work area ends primary-centred. A lost window is centred and then edge-corrected, with no second re-centring. |
| `WindowVisibility.VisibleResultIgnoresPosition` | WPFMonitorKontrolle/Behavior/WindowVisibilityBehavior.cs:129-136 | Two visible windows of the same size end at the same place, whatever their old positions. |
| `WindowVisibility.LostWindowKeepsMargins` | WPFMonitorKontrolle/Behavior/WindowVisibilityBehavior.cs:87-97 | A lost window ends with at least 20 units inside the primary work-area limits on each axis, given room for the margins. |
| `WindowVisibility.LostWindowExample` | WPFMonitorKontrolle/Behavior/WindowVisibilityBehavior.cs:87-95 | At scale 1 with work area (0,0,1920,1080), a window at (−1000,0) of size 800×600 ends at (560,240). |
| `WindowVisibility.VisibleWindowExample` | WPFMonitorKontrolle/Behavior/WindowVisibilityBehavior.cs:129-136 | The same window at (−500,0) intersects and also ends at (560,240). |
| `WindowVisibility.AnchoredWorkAreaAlwaysCentres` | WPFMonitorKontrolle/Behavior/WindowVisibilityBehavior.cs:87-136 | On a primary work area that starts at the origin and is at least 40 units wide and high, every window ends centred on it. |
| `WindowVisibility.CenteredNeedsNoCorrection` | WPFMonitorKontrolle/Behavior/WindowVisibilityBehavior.cs:111-127 | None of the four edge checks moves a window centred on a work area that starts at the origin and is at least 40 units wide and high. |
| `WindowVisibility.CenteredOverlapsAnchoredWork` | WPFMonitorKontrolle/Behavior/WindowVisibilityBehavior.cs:78-94 | The centred window's physical rectangle strictly overlaps such a work area. |
| `WindowVisibility.EnsureWindowIsVisibleIdempotent` | WPFMonitorKontrolle/Behavior/WindowVisibilityBehavior.cs:67-137 | On such a primary work area, applying the rule to its own result changes nothing. |
| `MainWindow.ClampAxis` | WPFMonitorKontrolle/MainWindow.xaml.cs:118-119 | In a non-empty range the result lies in the range. A value already in range is kept. In an empty range the lower bound wins, because `Max` is applied last. |
| `MainWindow.ClampIsNearest` | WPFMonitorKontrolle/MainWindow.xaml.cs:118 | In a non-empty range the clamped value is the point of the range nearest the input. |
| `MainWindow.ClampToWorkArea` | WPFMonitorKontrolle/MainWindow.xaml.cs:116-119 | The size is untouched. If the window fits, Left lies in [workLeft, workRight − width] and Top in [workTop, workBottom − height]. A window wider or taller than the work area goes to workLeft or workTop. A window already in range stays where it is. |
| `MainWindow.ClampIdempotent` | WPFMonitorKontrolle/MainWindow.xaml.cs:118-119 | Clamping the result again against the same work area changes nothing. |
| `MainWindow.ClampAxesIndependent` | WPFMonitorKontrolle/MainWindow.xaml.cs:118-119 | The new Left depends only on the old Left and Width, and the new Top only on the old Top and Height. |
| `MainWindow.OnEnsureVisible` | WPFMonitorKontrolle/MainWindow.xaml.cs:106-120 | The window is clamped into the work area of the monitor under its centre. Its size is untouched. |
| `MainWindow.Observe` | WPFMonitorKontrolle/MainWindow.xaml.cs:92-95 | A change is reported exactly when the looked-up handle differs from the remembered one, and afterwards the remembered handle is the looked-up one. |
| `MainWindow.CurrentMonitorHandle` | WPFMonitorKontrolle/MonitorTool.cs:132-148 | The lookup of `GetCurrentMonitor` followed by the corner-plus-one lookup at MainWindow.xaml.cs:90. If the monitor under the centre cannot be queried, the handle is looked up at (1,1), from the zeroed structure. If that monitor's top-left corner plus one pixel maps back to it, the result is the monitor under the centre. |
| `MainWindow.OnLocationChanged` | WPFMonitorKontrolle/MainWindow.xaml.cs:87-104 | The monitor-changed action runs exactly when the current handle differs from `_lastMonitor`, and the handle is remembered either way. If the action throws, its exception leaves the handler and the window is not clamped. Otherwise the window is clamped. Without a change, neither the window nor the state changes. |
| `MainWindow.ThrowingChangeSkipsClampOnMonitor` | WPFMonitorKontrolle/MainWindow.xaml.cs:92-96 | After the action throws, a later move that stays on the same monitor neither fires nor clamps. |
| `MainWindow.OnSizeChanged` | WPFMonitorKontrolle/MainWindow.xaml.cs:41 | Every size change clamps the window into the work area under its centre, without consulting the tracker. |
| `MainWindow.ResizeClampsLikeMonitorChange` | WPFMonitorKontrolle/MainWindow.xaml.cs:41 | When a move reports a monitor change and the action does not throw, the window it leaves equals the one a resize at the same spot leaves. |
| `MainWindow.FirstMoveFires` | WPFMonitorKontrolle/MainWindow.xaml.cs:30 | `_lastMonitor` starts as the null handle, so the first move onto a monitor with a non-null handle fires. |
| `MainWindow.Replay` | WPFMonitorKontrolle/MainWindow.xaml.cs:87-98 | Over a run of moves, the last looked-up handle is remembered and the action fires at most once per move. It never fires while the window stays on the remembered monitor. |
| `MainWindow.ReplayCountsChanges` | WPFMonitorKontrolle/MainWindow.xaml.cs:92-95 | Over a run of moves, the action fires exactly once for every looked-up handle that differs from the one before it, counting the remembered handle as the first. |
| `MainWindow.CrossingFiresOnce` | WPFMonitorKontrolle/MainWindow.xaml.cs:92-97 | Moving from monitor A onto monitor B and staying there fires exactly once and leaves B remembered. |

## Left out
- The WMI query itself and its rethrow (WPFMonitorKontrolle/MonitorTool.cs:15-39). The raw rows are an input, and the model decodes them itself. A failing query appears only as the `WmiQueryFailed` exception that the monitor-changed action may throw.
- `GetMonitorHandle` and the native declarations (MonitorTool.cs:174-197). `GetMonitorHandle` passes a `System.Windows.Point`, which holds two doubles, to a native parameter that expects a `POINT` of two ints. What the OS then returns cannot be modelled, so the DPI query is an uninterpreted function of the screen.
- `PointToScreen` and the `(int)` truncation of the centre (MonitorTool.cs:140-142, MainWindow.xaml.cs:108-111). The window centres are input points.
- WPF re-raising `LocationChanged`/`SizeChanged` when `Left`/`Top` are written is not modelled. This covers the clamp's writes (MainWindow.xaml.cs:118-119) and the visibility rule's writes (WindowVisibilityBehavior.cs:93-94, 113-135), which run `OnLocationChanged` in the middle of the rule. Each handler and the rule are modelled as single steps.
- App.xaml.cs: application lifecycle, culture setup, dialogs and process exit. It has no placement logic.
- The attached-property registration, the `DisplaySettingsChanged` subscription and `Dispatcher.Invoke` (WindowVisibilityBehavior.cs:12-63). These are event plumbing and thread marshalling. The mismatched unsubscription at line 62 is noted in a comment.
- The window title, `INotifyPropertyChanged`, the closing dialog, and `OnMonitorChanged`'s console output with its discarded `GetMonitors` result (MainWindow.xaml.cs:46-85, 100-104, 123-135). The action is modelled as the `monitorChanged` flag together with the exception it may throw, which is passed in.
- IEEE double rounding, NaN and infinities. Window coordinates are exact reals.
- 32-bit overflow in `Rectangle.Right`/`Bottom` and in the `+ 1` of the handle lookup point. Coordinates are unbounded integers, except that the `uint` to `int` DPI cast is modelled.
- WindowVisibility.EnsureWindowIsVisibleIdempotent: idempotence is stated only for a primary work area at the origin that is at least 40 logical units wide and high. Outside that case the code does not guarantee it.
