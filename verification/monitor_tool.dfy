/**
 * Monitor enumeration: the live screens are paired by position with the
 * hardware identification rows WMI reports, each screen's DPI is queried
 * with a 96/96 fallback, and each screen is described by where it lies
 * relative to the primary screen.
 */
module MonitorTool {
  import opened Wrappers
  import opened Utf16
  import opened Geometry

  /** An unsigned 32-bit integer, as the native DPI query returns it. */
  newtype UInt32 = x: int | 0 <= x < 0x1_0000_0000

  /** One row of the `WmiMonitorID` class; a fixed-width field may be null. */
  datatype WmiMonitorId = WmiMonitorId(
    instanceName: Text,
    manufacturerName: Option<seq<CodeUnit>>,
    userFriendlyName: Option<seq<CodeUnit>>,
    serialNumberId: Option<seq<CodeUnit>>)

  /** The decoded identification of one monitor. */
  datatype WmiMonitor = WmiMonitor(instanceName: Text, manufacturer: Text, model: Text, serial: Text)

  /** The outcome of `GetDpiForMonitor`: an HRESULT and the two out-parameters. */
  datatype DpiQuery = DpiQuery(hr: int, dpiX: UInt32, dpiY: UInt32)

  /** Where a screen lies relative to the primary screen. */
  datatype Position = Primary | LeftOf | RightOf | Above | Below | Overlapping {
    /**
     * The German description the program reports. The six strings lie in
     * the basic plane, so they are kept as `string` literals.
     */
    function Description(): string {
      match this
      case Primary => "Primär"
      case LeftOf => "Links vom Primärmonitor"
      case RightOf => "Rechts vom Primärmonitor"
      case Above => "Oberhalb des Primärmonitors"
      case Below => "Unterhalb des Primärmonitors"
      case Overlapping => "Überlappend / Benutzerdefiniert"
    }
  }

  /** Distinct positions are reported as distinct strings, so the string determines the position. */
  lemma DescriptionsDistinct(p: Position, q: Position)
    ensures p.Description() == q.Description() <==> p == q
  {
    if p != q {
      assert |p.Description()| != |q.Description()|;
    }
  }

  /** The record reported for one screen. */
  datatype MonitorInfo = MonitorInfo(
    displayName: Text,
    isPrimary: bool,
    manufacturer: Text,
    model: Text,
    serial: Text,
    dpiX: int,
    dpiY: int,
    x: int,
    y: int,
    width: int,
    height: int,
    positionDescription: string)
  {
    /** Horizontal scale relative to the 96 DPI reference. */
    function ScaleFactor(): real {
      dpiX as real / 96.0
    }
  }

  const Display: Text := FromString("DISPLAY")
  const Display1: Text := FromString("DISPLAY1")
  const Unknown: Text := FromString("Unbekannt")
  const DefaultDpi: int := 96

  /** The code units before the first NUL. */
  function TakeUntilNul(data: seq<CodeUnit>): (r: Text)
    ensures |r| <= |data| && r == data[..|r|]
    ensures forall i :: 0 <= i < |r| ==> r[i] != 0
    ensures |r| < |data| ==> data[|r|] == 0
  {
    if |data| == 0 || data[0] == 0 then []
    else [data[0]] + TakeUntilNul(data[1..])
  }

  /**
   * Decodes a fixed-width, NUL-padded UTF-16 field: a null field reads as
   * the empty string, otherwise the result is the longest NUL-free prefix.
   */
  function Decode(data: Option<seq<CodeUnit>>): (r: Text)
    ensures data.None? ==> r == []
    ensures data.Some? ==> |r| <= |data.value| && r == data.value[..|r|]
    ensures data.Some? && |r| < |data.value| ==> data.value[|r|] == 0
    ensures forall i :: 0 <= i < |r| ==> r[i] != 0
  {
    match data
    case None => []
    case Some(units) => TakeUntilNul(units)
  }

  /** A NUL-free text padded with NULs to a field width. */
  function Pad(t: Text, width: nat): (field: seq<CodeUnit>)
    requires |t| <= width
    ensures |field| == width
  {
    t + seq(width - |t|, _ => 0)
  }

  /** Decoding a NUL-padded field recovers the text that was padded. */
  lemma DecodePadded(t: Text, width: nat)
    requires |t| <= width
    requires forall i :: 0 <= i < |t| ==> t[i] != 0
    ensures Decode(Some(Pad(t, width))) == t
  {
    var field := Pad(t, width);
    assert forall k :: 0 <= k < |t| ==> field[k] == t[k];
    assert |t| < width ==> field[|t|] == 0;
  }

  /**
   * The single-entry heuristic: when WMI reports exactly one monitor, every
   * "DISPLAY" in its instance name becomes "DISPLAY1"; lists of any other
   * length are returned as they are.
   */
  function RewriteSingleEntry(list: seq<WmiMonitor>): (r: seq<WmiMonitor>)
    ensures |r| == |list|
    ensures |list| != 1 ==> r == list
    ensures |list| == 1 ==>
              && r[0].manufacturer == list[0].manufacturer
              && r[0].model == list[0].model
              && r[0].serial == list[0].serial
  {
    if |list| == 1 then [list[0].(instanceName := Replace(list[0].instanceName, Display, Display1))]
    else list
  }

  lemma Display1ExtendsDisplay()
    ensures UniqueHead(Display)
    ensures Display1 == Display + FromString("1")
  {
  }

  /** The rewrite loses nothing: turning "DISPLAY1" back into "DISPLAY" recovers the reported name. */
  lemma SingleEntryRewriteReversible(list: seq<WmiMonitor>)
    requires |list| == 1
    ensures Replace(RewriteSingleEntry(list)[0].instanceName, Display1, Display) == list[0].instanceName
  {
    Display1ExtendsDisplay();
    ReplaceReversible(list[0].instanceName, Display, FromString("1"));
  }

  /** A single entry whose name does not mention "DISPLAY" is not changed. */
  lemma SingleEntryWithoutDisplayUnchanged(list: seq<WmiMonitor>)
    requires |list| == 1
    requires Absent(list[0].instanceName, Display)
    ensures RewriteSingleEntry(list) == list
  {
    ReplaceAbsent(list[0].instanceName, Display, Display1);
  }

  /**
   * An instance name made of "DISPLAY" and a remainder in which "DISPLAY"
   * does not occur becomes "DISPLAY1" and the same remainder, as
   * `DISPLAY\DEL40F4\5&1a2b_0_UID4352_0` becomes
   * `DISPLAY1\DEL40F4\5&1a2b_0_UID4352_0`.
   */
  lemma SingleEntryRewritesLeadingDisplay(rest: Text, manufacturer: Text, model: Text, serial: Text)
    requires Absent(rest, Display)
    ensures RewriteSingleEntry([WmiMonitor(Display + rest, manufacturer, model, serial)])
            == [WmiMonitor(Display1 + rest, manufacturer, model, serial)]
  {
    ReplaceAbsent(rest, Display, Display1);
    assert (Display + rest)[..|Display|] == Display;
    assert (Display + rest)[|Display|..] == rest;
  }

  /** Decodes each WMI row and applies the single-entry rewrite. */
  function GetMonitorNames(rows: seq<WmiMonitorId>): (r: seq<WmiMonitor>)
    ensures |r| == |rows|
    ensures forall i :: 0 <= i < |rows| ==>
      && r[i].manufacturer == Decode(rows[i].manufacturerName)
      && r[i].model == Decode(rows[i].userFriendlyName)
      && r[i].serial == Decode(rows[i].serialNumberId)
    ensures |rows| == 1 ==> r[0].instanceName == Replace(rows[0].instanceName, Display, Display1)
    ensures |rows| != 1 ==> forall i :: 0 <= i < |rows| ==> r[i].instanceName == rows[i].instanceName
  {
    var decoded := seq(|rows|, i requires 0 <= i < |rows| =>
      WmiMonitor(
        rows[i].instanceName,
        Decode(rows[i].manufacturerName),
        Decode(rows[i].userFriendlyName),
        Decode(rows[i].serialNumberId)));
    RewriteSingleEntry(decoded)
  }

  /** The unchecked `(int)` cast of a 32-bit unsigned value. */
  function ToInt32(u: UInt32): (r: int)
    ensures -0x8000_0000 <= r < 0x8000_0000
    ensures (r - u as int) % 0x1_0000_0000 == 0
  {
    if u < 0x8000_0000 then u as int else u as int - 0x1_0000_0000
  }

  /** The DPI pair a query yields: the reported values on success, 96/96 on any failure code. */
  function EffectiveDpi(q: DpiQuery): (dpi: (int, int))
    ensures q.hr != 0 ==> dpi == (DefaultDpi, DefaultDpi)
    ensures q.hr == 0 ==> dpi == (ToInt32(q.dpiX), ToInt32(q.dpiY))
    ensures q.hr == 0 && q.dpiX < 0x8000_0000 ==> dpi.0 == q.dpiX as int
    ensures q.hr == 0 && q.dpiY < 0x8000_0000 ==> dpi.1 == q.dpiY as int
    ensures q.hr == 0 && q.dpiX >= 0x8000_0000 ==> dpi.0 == q.dpiX as int - 0x1_0000_0000 < 0
    ensures q.hr == 0 && q.dpiY >= 0x8000_0000 ==> dpi.1 == q.dpiY as int - 0x1_0000_0000 < 0
  {
    if q.hr != 0 then (DefaultDpi, DefaultDpi) else (ToInt32(q.dpiX), ToInt32(q.dpiY))
  }

  /**
   * Describes a screen relative to the primary screen's bounds. The tests
   * run in a fixed order and the first that matches decides.
   */
  function PositionDescription(screen: Screen, primary: Rectangle): (r: Position)
    ensures r == Primary <==> screen.primary
    ensures r == LeftOf ==> screen.bounds.Right() <= primary.Left()
    ensures r == RightOf ==> screen.bounds.Left() >= primary.Right() && screen.bounds.Right() > primary.Left()
    ensures r == Above ==>
              && screen.bounds.Bottom() <= primary.Top()
              && screen.bounds.Right() > primary.Left() && screen.bounds.Left() < primary.Right()
    ensures r == Below ==>
              && screen.bounds.Top() >= primary.Bottom() && screen.bounds.Bottom() > primary.Top()
              && screen.bounds.Right() > primary.Left() && screen.bounds.Left() < primary.Right()
    ensures r == Overlapping <==> !screen.primary && Overlaps(screen.bounds.Edges(), primary.Edges())
  {
    var b := screen.bounds;
    if screen.primary then Primary
    else if b.Right() <= primary.Left() then LeftOf
    else if b.Left() >= primary.Right() then RightOf
    else if b.Bottom() <= primary.Top() then Above
    else if b.Top() >= primary.Bottom() then Below
    else Overlapping
  }

  /** A screen wholly to the left and wholly above the primary is described as left of it. */
  lemma LeftTakesPrecedenceOverAbove(screen: Screen, primary: Rectangle)
    requires !screen.primary
    requires screen.bounds.Right() <= primary.Left()
    requires screen.bounds.Bottom() <= primary.Top()
    ensures PositionDescription(screen, primary) == LeftOf
  {
  }

  /** The record for screen `i`, paired with the metadata at the same index when there is one. */
  function BuildRecord(screen: Screen, i: nat, names: seq<WmiMonitor>, q: DpiQuery, primary: Rectangle): MonitorInfo {
    var dpi := EffectiveDpi(q);
    MonitorInfo(
      screen.deviceName,
      screen.primary,
      if i < |names| then names[i].manufacturer else Unknown,
      if i < |names| then names[i].model else Unknown,
      if i < |names| then names[i].serial else Unknown,
      dpi.0,
      dpi.1,
      screen.bounds.Left(),
      screen.bounds.Top(),
      screen.bounds.width,
      screen.bounds.height,
      PositionDescription(screen, primary).Description())
  }

  /** True iff `m` copies the screen's name, primary flag and bounds. */
  predicate CopiesScreen(m: MonitorInfo, s: Screen) {
    && m.displayName == s.deviceName
    && m.isPrimary == s.primary
    && m.x == s.bounds.x && m.y == s.bounds.y
    && m.width == s.bounds.width && m.height == s.bounds.height
  }

  /** True iff `m` carries the decoded metadata of WMI row `i`, or the unknown marker past the last row. */
  predicate PairedWith(m: MonitorInfo, rows: seq<WmiMonitorId>, i: nat) {
    if i < |rows| then
      && m.manufacturer == Decode(rows[i].manufacturerName)
      && m.model == Decode(rows[i].userFriendlyName)
      && m.serial == Decode(rows[i].serialNumberId)
    else
      m.manufacturer == Unknown && m.model == Unknown && m.serial == Unknown
  }

  /** True iff `m` carries the DPI the query reported, or 96/96 when it failed. */
  predicate DpiFrom(m: MonitorInfo, q: DpiQuery) {
    if q.hr != 0 then m.dpiX == DefaultDpi && m.dpiY == DefaultDpi
    else m.dpiX == ToInt32(q.dpiX) && m.dpiY == ToInt32(q.dpiY)
  }

  /** A record whose DPI query failed has scale factor 1; a successful query at 144 DPI gives 1.5. */
  lemma ScaleFactorFromQuery(m: MonitorInfo, q: DpiQuery)
    requires DpiFrom(m, q)
    ensures q.hr != 0 ==> m.ScaleFactor() == 1.0
    ensures q.hr == 0 && q.dpiX == 144 ==> m.ScaleFactor() == 1.5
  {
  }

  /** Everything the record for screen `i` is promised to hold. */
  predicate Describes(m: MonitorInfo, screen: Screen, i: nat, rows: seq<WmiMonitorId>, q: DpiQuery, primary: Rectangle) {
    && CopiesScreen(m, screen)
    && PairedWith(m, rows, i)
    && DpiFrom(m, q)
    && m.positionDescription == PositionDescription(screen, primary).Description()
  }

  lemma BuildRecordDescribes(screen: Screen, i: nat, rows: seq<WmiMonitorId>, q: DpiQuery, primary: Rectangle)
    ensures Describes(BuildRecord(screen, i, GetMonitorNames(rows), q, primary), screen, i, rows, q, primary)
  {
  }

  /** The loop of the enumeration: the record for each screen, in screen order. */
  method BuildRecords(screens: seq<Screen>, queryDpi: Screen -> DpiQuery, names: seq<WmiMonitor>, primary: Rectangle)
    returns (result: seq<MonitorInfo>)
    ensures |result| == |screens|
    ensures forall k :: 0 <= k < |screens| ==> result[k] == BuildRecord(screens[k], k, names, queryDpi(screens[k]), primary)
  {
    result := [];
    var i := 0;
    while i < |screens|
      invariant 0 <= i <= |screens|
      invariant |result| == i
      invariant forall k :: 0 <= k < i ==> result[k] == BuildRecord(screens[k], k, names, queryDpi(screens[k]), primary)
    {
      var screen := screens[i];
      result := result + [BuildRecord(screen, i, names, queryDpi(screen), primary)];
      i := i + 1;
    }
  }

  /**
   * Builds one record per screen, in screen order. `queryDpi` stands for
   * the native per-monitor DPI query and `rows` for the WMI result.
   */
  method GetMonitors(screens: seq<Screen>, queryDpi: Screen -> DpiQuery, rows: seq<WmiMonitorId>)
    returns (r: Result<seq<MonitorInfo>, Fault>)
    ensures r.Failure? <==> |screens| > 0 && PrimaryScreen(screens).None?
    ensures r.Success? ==> |r.value| == |screens|
    ensures r.Success? && |screens| > 0 ==> forall i :: 0 <= i < |screens| ==>
      Describes(r.value[i], screens[i], i, rows, queryDpi(screens[i]), PrimaryScreen(screens).value.bounds)
  {
    var names := GetMonitorNames(rows);
    var primary := PrimaryScreen(screens);
    if primary.None? {
      if |screens| == 0 {
        return Success([]);
      }
      return Failure(NoPrimaryScreen);
    }
    var bounds := primary.value.bounds;
    var result := BuildRecords(screens, queryDpi, names, bounds);
    forall k | 0 <= k < |screens|
      ensures Describes(result[k], screens[k], k, rows, queryDpi(screens[k]), bounds)
    {
      BuildRecordDescribes(screens[k], k, rows, queryDpi(screens[k]), bounds);
    }
    return Success(result);
  }

  /** Every record is described as primary exactly when its screen is the primary one. */
  lemma OnlyPrimaryScreensArePrimary(m: MonitorInfo, screen: Screen, i: nat, rows: seq<WmiMonitorId>, q: DpiQuery, primary: Rectangle)
    requires Describes(m, screen, i, rows, q, primary)
    ensures m.positionDescription == Primary.Description() <==> m.isPrimary
  {
    DescriptionsDistinct(PositionDescription(screen, primary), Primary);
  }
}
