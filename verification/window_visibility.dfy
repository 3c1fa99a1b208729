/**
 * The visibility rule applied when the window is loaded and whenever the
 * display settings change: test the window against every work area in
 * physical pixels, pull it back onto the primary work area when it is lost,
 * correct its edges against a 20-unit margin, and re-centre it on the
 * primary work area when it was visible.
 *
 * The subscription to the display-settings notification is not modelled.
 * Note that the close handler unsubscribes a newly built lambda, which is
 * never the one subscribed on load, so the original subscription stays.
 */
module WindowVisibility {
  import opened Wrappers
  import opened Geometry

  /** The DPI scale WPF reports for the window. */
  datatype DpiScale = DpiScale(x: real, y: real)

  /** Scale factors are positive. */
  type Scale = s: DpiScale | s.x > 0.0 && s.y > 0.0 witness DpiScale(1.0, 1.0)

  /** How far, in logical units, a window may hang past an edge before it is pulled back. */
  const Margin: real := 20.0

  /** The window's rectangle in physical pixels. */
  function ToPhysical(w: WindowRect, dpi: Scale): RealRect {
    var left := w.left * dpi.x;
    var top := w.top * dpi.y;
    RealRect(left, top, left + w.width * dpi.x, top + w.height * dpi.y)
  }

  /** A physical rectangle in logical units. */
  function ToLogical(p: RealRect, dpi: Scale): WindowRect {
    WindowRect(p.left / dpi.x, p.top / dpi.y, (p.right - p.left) / dpi.x, (p.bottom - p.top) / dpi.y)
  }

  /** Projecting to physical pixels loses nothing: scaling back recovers the logical placement. */
  lemma PhysicalRoundTrip(w: WindowRect, dpi: Scale)
    ensures ToLogical(ToPhysical(w, dpi), dpi) == w
  {
  }

  /** True iff the physical rectangle overlaps the work area of some screen. */
  function IntersectsAnyScreen(p: RealRect, screens: seq<Screen>): (b: bool)
    ensures b <==> exists i :: 0 <= i < |screens| && Overlaps(p, screens[i].workingArea.Edges())
  {
    if |screens| == 0 then false
    else if Overlaps(p, screens[0].workingArea.Edges()) then true
    else
      var rest := IntersectsAnyScreen(p, screens[1..]);
      assert rest ==> exists i :: 0 <= i < |screens| && Overlaps(p, screens[i].workingArea.Edges()) by {
        if rest {
          var j :| 0 <= j < |screens| - 1 && Overlaps(p, screens[1..][j].workingArea.Edges());
          assert screens[1..][j] == screens[j + 1];
        }
      }
      assert (exists i :: 0 <= i < |screens| && Overlaps(p, screens[i].workingArea.Edges())) ==> rest by {
        forall i | 0 < i < |screens| && Overlaps(p, screens[i].workingArea.Edges())
          ensures rest
        {
          assert screens[1..][i - 1] == screens[i];
        }
      }
      rest
  }

  /** A window whose physical right edge lies on a work area's left edge does not intersect it. */
  lemma TouchingEdgeDoesNotIntersect(w: WindowRect, dpi: Scale, area: Rectangle)
    requires ToPhysical(w, dpi).right == area.Left() as real
    ensures !IntersectsAnyScreen(ToPhysical(w, dpi), [Screen([], true, area, area)])
  {
  }

  /** A work area's edges in logical units. */
  function Limits(work: Rectangle, dpi: Scale): RealRect {
    RealRect(work.Left() as real / dpi.x, work.Top() as real / dpi.y,
             work.Right() as real / dpi.x, work.Bottom() as real / dpi.y)
  }

  /**
   * Centres the window on a box the size of the work area, converted to
   * logical units and anchored at the origin.
   */
  function Centered(w: WindowRect, work: Rectangle, dpi: Scale): (r: WindowRect)
    ensures r.width == w.width && r.height == w.height
    ensures r.left == (work.width as real / dpi.x) - (r.left + r.width)
    ensures r.top == (work.height as real / dpi.y) - (r.top + r.height)
  {
    var screenWidth := work.width as real / dpi.x;
    var screenHeight := work.height as real / dpi.y;
    w.(left := (screenWidth - w.width) / 2.0, top := (screenHeight - w.height) / 2.0)
  }

  /** True iff at least `Margin` units of the window lie inside the limits along each axis. */
  predicate WithinMargins(w: WindowRect, lim: RealRect) {
    && w.left + Margin <= lim.right
    && w.left + w.width - Margin >= lim.left
    && w.top + Margin <= lim.bottom
    && w.top + w.height - Margin >= lim.top
  }

  /** True iff the window and the limits are each at least `Margin` units wide and high. */
  predicate RoomForMargins(w: WindowRect, lim: RealRect) {
    && w.width >= Margin && w.height >= Margin
    && lim.right - lim.left >= Margin && lim.bottom - lim.top >= Margin
  }

  /**
   * The four edge checks, in order, each reading the placement the previous
   * one left: past the right limit, past the bottom limit, before the left
   * limit, before the top limit.
   */
  function CorrectEdges(w: WindowRect, lim: RealRect): (r: WindowRect)
    ensures r.width == w.width && r.height == w.height
    ensures WithinMargins(w, lim) ==> r == w
    ensures RoomForMargins(w, lim) ==> WithinMargins(r, lim)
    // Where each edge lands. Past the right limit the window is pulled back
    // to end at it, unless the limits are narrower than the margin: then the
    // later left-limit check wins.
    ensures lim.right - lim.left >= Margin && w.left + Margin > lim.right ==> r.left == lim.right - w.width
    ensures lim.right - lim.left < Margin && w.left + Margin > lim.right ==> r.left == lim.left
    ensures w.left + Margin <= lim.right && w.left + w.width - Margin < lim.left ==> r.left == lim.left
    ensures w.left + Margin <= lim.right && w.left + w.width - Margin >= lim.left ==> r.left == w.left
    ensures lim.bottom - lim.top >= Margin && w.top + Margin > lim.bottom ==> r.top == lim.bottom - w.height
    ensures lim.bottom - lim.top < Margin && w.top + Margin > lim.bottom ==> r.top == lim.top
    ensures w.top + Margin <= lim.bottom && w.top + w.height - Margin < lim.top ==> r.top == lim.top
    ensures w.top + Margin <= lim.bottom && w.top + w.height - Margin >= lim.top ==> r.top == w.top
  {
    var w1 := if w.left + Margin > lim.right then w.(left := lim.right - w.width) else w;
    var w2 := if w1.top + Margin > lim.bottom then w1.(top := lim.bottom - w1.height) else w1;
    var w3 := if w2.left + w2.width - Margin < lim.left then w2.(left := lim.left) else w2;
    if w3.top + w3.height - Margin < lim.top then w3.(top := lim.top) else w3
  }

  /** Edge correction changes nothing the second time. */
  lemma CorrectEdgesIdempotent(w: WindowRect, lim: RealRect)
    ensures CorrectEdges(CorrectEdges(w, lim), lim) == CorrectEdges(w, lim)
  {
  }

  /**
   * Edge correction against the primary work area, followed by a re-centring
   * on it when the window intersected some screen.
   */
  function CorrectWindowEdges(w: WindowRect, dpi: Scale, primaryWork: Rectangle, intersectsAnyScreen: bool): (r: WindowRect)
    ensures r.width == w.width && r.height == w.height
    ensures intersectsAnyScreen ==> r == Centered(w, primaryWork, dpi)
    ensures !intersectsAnyScreen ==> r == CorrectEdges(w, Limits(primaryWork, dpi))
    ensures !intersectsAnyScreen && RoomForMargins(w, Limits(primaryWork, dpi)) ==> WithinMargins(r, Limits(primaryWork, dpi))
  {
    var corrected := CorrectEdges(w, Limits(primaryWork, dpi));
    if intersectsAnyScreen then Centered(corrected, primaryWork, dpi) else corrected
  }

  /** The margin example: a window 15 units short of the right limit is pulled fully inside. */
  lemma EdgeCorrectionExample()
    ensures CorrectWindowEdges(WindowRect(1905.0, 0.0, 800.0, 600.0), DpiScale(1.0, 1.0), Rectangle(0, 0, 1920, 1080), false)
      == WindowRect(1120.0, 0.0, 800.0, 600.0)
  {
  }

  /**
   * Keeps the window visible. `dpi` stands for the window's DPI scale and
   * `screens` for the live screens; the result is the window's new
   * placement, or the fault a snapshot without a primary screen causes.
   */
  function EnsureWindowIsVisible(w: WindowRect, dpi: Scale, screens: seq<Screen>): (r: Result<WindowRect, Fault>)
    ensures r.Failure? <==> PrimaryScreen(screens).None?
    ensures r.Success? ==> r.value.width == w.width && r.value.height == w.height
    ensures r.Success? && IntersectsAnyScreen(ToPhysical(w, dpi), screens) ==>
      r.value == Centered(w, PrimaryScreen(screens).value.workingArea, dpi)
    ensures r.Success? && !IntersectsAnyScreen(ToPhysical(w, dpi), screens) ==>
      var work := PrimaryScreen(screens).value.workingArea;
      r.value == CorrectEdges(Centered(w, work, dpi), Limits(work, dpi))
  {
    match PrimaryScreen(screens)
    case None => Failure(NoPrimaryScreen)
    case Some(primary) =>
      var intersects := IntersectsAnyScreen(ToPhysical(w, dpi), screens);
      var placed := if intersects then w else Centered(w, primary.workingArea, dpi);
      Success(CorrectWindowEdges(placed, dpi, primary.workingArea, intersects))
  }

  /** When the window is visible, its new position does not depend on where it was. */
  lemma VisibleResultIgnoresPosition(w1: WindowRect, w2: WindowRect, dpi: Scale, screens: seq<Screen>)
    requires w1.width == w2.width && w1.height == w2.height
    requires IntersectsAnyScreen(ToPhysical(w1, dpi), screens)
    requires IntersectsAnyScreen(ToPhysical(w2, dpi), screens)
    ensures EnsureWindowIsVisible(w1, dpi, screens) == EnsureWindowIsVisible(w2, dpi, screens)
  {
    if PrimaryScreen(screens).Some? {
      var work := PrimaryScreen(screens).value.workingArea;
      assert Centered(w1, work, dpi) == Centered(w2, work, dpi);
    }
  }

  /** A lost window is centred on the primary work area and then kept within the margins. */
  lemma LostWindowKeepsMargins(w: WindowRect, dpi: Scale, screens: seq<Screen>)
    requires PrimaryScreen(screens).Some?
    requires !IntersectsAnyScreen(ToPhysical(w, dpi), screens)
    requires RoomForMargins(w, Limits(PrimaryScreen(screens).value.workingArea, dpi))
    ensures EnsureWindowIsVisible(w, dpi, screens).Success?
    ensures WithinMargins(EnsureWindowIsVisible(w, dpi, screens).value, Limits(PrimaryScreen(screens).value.workingArea, dpi))
  {
  }

  /** A window lost to the left of a 1920x1080 work area is centred at (560, 240). */
  lemma LostWindowExample()
    ensures EnsureWindowIsVisible(WindowRect(-1000.0, 0.0, 800.0, 600.0), DpiScale(1.0, 1.0),
              [Screen([], true, Rectangle(0, 0, 1920, 1080), Rectangle(0, 0, 1920, 1080))])
            == Success(WindowRect(560.0, 240.0, 800.0, 600.0))
  {
    var work := Rectangle(0, 0, 1920, 1080);
    var screens := [Screen([], true, work, work)];
    var w := WindowRect(-1000.0, 0.0, 800.0, 600.0);
    var dpi := DpiScale(1.0, 1.0);
    assert PrimaryScreen(screens) == Some(screens[0]);
    assert !IntersectsAnyScreen(ToPhysical(w, dpi), screens);
    var centered := Centered(w, work, dpi);
    assert centered == WindowRect(560.0, 240.0, 800.0, 600.0);
    assert Limits(work, dpi) == RealRect(0.0, 0.0, 1920.0, 1080.0);
    assert WithinMargins(centered, Limits(work, dpi));
  }

  /** A window reaching 300 pixels into the same work area is visible and is centred at (560, 240) too. */
  lemma VisibleWindowExample()
    ensures EnsureWindowIsVisible(WindowRect(-500.0, 0.0, 800.0, 600.0), DpiScale(1.0, 1.0),
              [Screen([], true, Rectangle(0, 0, 1920, 1080), Rectangle(0, 0, 1920, 1080))])
            == Success(WindowRect(560.0, 240.0, 800.0, 600.0))
  {
    var screens := [Screen([], true, Rectangle(0, 0, 1920, 1080), Rectangle(0, 0, 1920, 1080))];
    assert Overlaps(ToPhysical(WindowRect(-500.0, 0.0, 800.0, 600.0), DpiScale(1.0, 1.0)), screens[0].workingArea.Edges());
  }

  /**
   * True iff the work area starts at the origin, as the primary work area
   * does unless the taskbar sits on its left or top edge, and is at least
   * two margins wide and high in logical units.
   */
  predicate AnchoredAtOrigin(work: Rectangle, dpi: Scale) {
    && work.x == 0 && work.y == 0
    && work.width as real / dpi.x >= 2.0 * Margin
    && work.height as real / dpi.y >= 2.0 * Margin
  }

  /** Scaling by a positive factor keeps a strict order. */
  lemma ScaleKeepsOrder(u: real, v: real, s: real)
    requires u < v && s > 0.0
    ensures u * s < v * s
  {
  }

  /**
   * On a primary work area anchored at the origin, the window always ends up
   * centred on it, wherever it was: edge correction never moves a centred
   * window there.
   */
  lemma AnchoredWorkAreaAlwaysCentres(w: WindowRect, dpi: Scale, screens: seq<Screen>)
    requires PrimaryScreen(screens).Some?
    requires AnchoredAtOrigin(PrimaryScreen(screens).value.workingArea, dpi)
    requires w.width >= 0.0 && w.height >= 0.0
    ensures EnsureWindowIsVisible(w, dpi, screens) == Success(Centered(w, PrimaryScreen(screens).value.workingArea, dpi))
  {
    var work := PrimaryScreen(screens).value.workingArea;
    CenteredNeedsNoCorrection(w, work, dpi);
    if IntersectsAnyScreen(ToPhysical(w, dpi), screens) {
    } else {
      assert EnsureWindowIsVisible(w, dpi, screens).value == CorrectEdges(Centered(w, work, dpi), Limits(work, dpi));
    }
  }

  /** Edge correction leaves a window centred on an origin-anchored work area where it is. */
  lemma CenteredNeedsNoCorrection(w: WindowRect, work: Rectangle, dpi: Scale)
    requires AnchoredAtOrigin(work, dpi)
    requires w.width >= 0.0 && w.height >= 0.0
    ensures CorrectEdges(Centered(w, work, dpi), Limits(work, dpi)) == Centered(w, work, dpi)
  {
    var lim := Limits(work, dpi);
    assert lim == RealRect(0.0, 0.0, work.width as real / dpi.x, work.height as real / dpi.y);
    assert WithinMargins(Centered(w, work, dpi), lim);
  }

  /** The centred window overlaps an origin-anchored work area. */
  lemma CenteredOverlapsAnchoredWork(w: WindowRect, work: Rectangle, dpi: Scale)
    requires AnchoredAtOrigin(work, dpi)
    requires w.width >= 0.0 && w.height >= 0.0
    ensures Overlaps(ToPhysical(Centered(w, work, dpi), dpi), work.Edges())
  {
    var c := Centered(w, work, dpi);
    var p := ToPhysical(c, dpi);
    var a := work.width as real / dpi.x;
    var b := work.height as real / dpi.y;
    assert a * dpi.x == work.width as real;
    assert b * dpi.y == work.height as real;
    ScaleKeepsOrder(0.0, c.left + c.width, dpi.x);
    ScaleKeepsOrder(c.left, a, dpi.x);
    ScaleKeepsOrder(0.0, c.top + c.height, dpi.y);
    ScaleKeepsOrder(c.top, b, dpi.y);
    assert p.right == (c.left + c.width) * dpi.x;
    assert p.bottom == (c.top + c.height) * dpi.y;
  }

  /** Applying the rule to its own result changes nothing on an origin-anchored primary work area. */
  lemma EnsureWindowIsVisibleIdempotent(w: WindowRect, dpi: Scale, screens: seq<Screen>)
    requires PrimaryScreen(screens).Some?
    requires AnchoredAtOrigin(PrimaryScreen(screens).value.workingArea, dpi)
    requires w.width >= 0.0 && w.height >= 0.0
    ensures EnsureWindowIsVisible(w, dpi, screens).Success?
    ensures EnsureWindowIsVisible(EnsureWindowIsVisible(w, dpi, screens).value, dpi, screens)
            == EnsureWindowIsVisible(w, dpi, screens)
  {
    var primary := PrimaryScreen(screens).value;
    var c := Centered(w, primary.workingArea, dpi);
    AnchoredWorkAreaAlwaysCentres(w, dpi, screens);
    CenteredOverlapsAnchoredWork(w, primary.workingArea, dpi);
    var i :| FirstPrimaryAt(screens, i) && screens[i] == primary;
    assert Overlaps(ToPhysical(c, dpi), screens[i].workingArea.Edges());
    assert IntersectsAnyScreen(ToPhysical(c, dpi), screens);
    var again := EnsureWindowIsVisible(c, dpi, screens);
    assert again.Success?;
    assert again.value == Centered(c, primary.workingArea, dpi);
    assert Centered(c, primary.workingArea, dpi) == c;
  }
}
