/**
 * Breakpoint classification of src/hooks/use-responsive_new.ts: window width
 * to breakpoint and device class, the `useBreakpoint` test, and the
 * "nearest smaller breakpoint" fallback of `useResponsiveValue` with the
 * column defaults built on it. Widths are whole CSS pixels.
 */
module Responsive {
  import opened Wrappers

  datatype Breakpoint = XS | SM | MD | LG | XL | XXL

  /** Position of a breakpoint from smallest (0) to largest (5). */
  function Rank(b: Breakpoint): (r: nat)
    ensures r <= 5
  {
    match b
    case XS => 0
    case SM => 1
    case MD => 2
    case LG => 3
    case XL => 4
    case XXL => 5
  }

  lemma RankInjective(a: Breakpoint, b: Breakpoint)
    ensures Rank(a) == Rank(b) <==> a == b
  {
  }

  /** The `breakpoints` table, in pixels. */
  function Threshold(b: Breakpoint): nat {
    match b
    case XS => 475
    case SM => 640
    case MD => 768
    case LG => 1024
    case XL => 1280
    case XXL => 1536
  }

  /** The next larger breakpoint. */
  function Succ(b: Breakpoint): (s: Breakpoint)
    requires b != XXL
    ensures Rank(s) == Rank(b) + 1
  {
    match b
    case XS => SM
    case SM => MD
    case MD => LG
    case LG => XL
    case XL => XXL
  }

  /** The next smaller breakpoint. */
  function Pred(b: Breakpoint): (p: Breakpoint)
    requires b != XS
    ensures Rank(p) + 1 == Rank(b)
  {
    match b
    case SM => XS
    case MD => SM
    case LG => MD
    case XL => LG
    case XXL => XL
  }

  /** Thresholds grow with the breakpoint. */
  lemma ThresholdMonotone(a: Breakpoint, b: Breakpoint)
    ensures Rank(a) < Rank(b) <==> Threshold(a) < Threshold(b)
  {
  }

  /** `getBreakpoint`: the largest breakpoint from `sm` up whose threshold the width reaches, else `xs`. */
  function GetBreakpoint(width: int): (b: Breakpoint)
    ensures b != XS ==> width >= Threshold(b)
    ensures b != XXL ==> width < Threshold(Succ(b))
  {
    if width >= Threshold(XXL) then XXL
    else if width >= Threshold(XL) then XL
    else if width >= Threshold(LG) then LG
    else if width >= Threshold(MD) then MD
    else if width >= Threshold(SM) then SM
    else XS
  }

  /** The breakpoint is the one whose band `[threshold, next threshold)` holds the width; `xs` reaches down to every width below 640, 475 is never consulted. */
  lemma GetBreakpointBand(width: int, b: Breakpoint)
    ensures GetBreakpoint(width) == b <==>
      (b == XS || width >= Threshold(b)) && (b == XXL || width < Threshold(Succ(b)))
    ensures width < 640 <==> GetBreakpoint(width) == XS
    ensures width >= 1536 <==> GetBreakpoint(width) == XXL
  {
  }

  /** A wider window never has a smaller breakpoint. */
  lemma GetBreakpointMonotone(w1: int, w2: int)
    requires w1 <= w2
    ensures Rank(GetBreakpoint(w1)) <= Rank(GetBreakpoint(w2))
  {
  }

  datatype DeviceType = DeviceType(isMobile: bool, isTablet: bool, isDesktop: bool)

  /** `getDeviceType`: below `md` is mobile, `md` up to `lg` is tablet, from `lg` on desktop. */
  function GetDeviceType(width: int): (d: DeviceType)
    ensures d.isMobile <==> width < Threshold(MD)
    ensures d.isTablet <==> Threshold(MD) <= width < Threshold(LG)
    ensures d.isDesktop <==> width >= Threshold(LG)
  {
    DeviceType(width < Threshold(MD), width >= Threshold(MD) && width < Threshold(LG), width >= Threshold(LG))
  }

  /** Exactly one device class holds at every width, and it agrees with the breakpoint. */
  lemma DeviceTypeExactlyOne(width: int)
    ensures var d := GetDeviceType(width);
      (d.isMobile && !d.isTablet && !d.isDesktop)
      || (!d.isMobile && d.isTablet && !d.isDesktop)
      || (!d.isMobile && !d.isTablet && d.isDesktop)
    ensures var d := GetDeviceType(width); var b := GetBreakpoint(width);
      (d.isMobile <==> b in {XS, SM}) && (d.isTablet <==> b == MD) && (d.isDesktop <==> b in {LG, XL, XXL})
  {
  }

  datatype ResponsiveState = ResponsiveState(
    width: int, height: int, breakpoint: Breakpoint,
    isXs: bool, isSm: bool, isMd: bool, isLg: bool, isXl: bool, is2Xl: bool,
    isMobile: bool, isTablet: bool, isDesktop: bool, isTouch: bool)

  /** The one-hot flags of a state, smallest breakpoint first. */
  function Flags(s: ResponsiveState): seq<bool> {
    [s.isXs, s.isSm, s.isMd, s.isLg, s.isXl, s.is2Xl]
  }

  /** What `useResponsive` returns for a window size and touch capability. */
  function StateFor(width: int, height: int, isTouch: bool): (s: ResponsiveState)
    ensures s.width == width && s.height == height && s.isTouch == isTouch
    ensures s.breakpoint == GetBreakpoint(width)
    ensures forall b: Breakpoint :: Flags(s)[Rank(b)] <==> b == s.breakpoint
    ensures s.isMobile == GetDeviceType(width).isMobile
    ensures s.isTablet == GetDeviceType(width).isTablet
    ensures s.isDesktop == GetDeviceType(width).isDesktop
  {
    var b := GetBreakpoint(width);
    var d := GetDeviceType(width);
    ResponsiveState(width, height, b,
      b == XS, b == SM, b == MD, b == LG, b == XL, b == XXL,
      d.isMobile, d.isTablet, d.isDesktop, isTouch)
  }

  /** Before the first resize the window is 0 by 0: an `xs`, mobile, non-touch state. */
  lemma InitialState()
    ensures var s := StateFor(0, 0, false);
      s.breakpoint == XS && s.isXs && !s.isSm && !s.isMd && !s.isLg && !s.isXl && !s.is2Xl
      && s.isMobile && !s.isTablet && !s.isDesktop && !s.isTouch
  {
    var s := StateFor(0, 0, false);
    assert Flags(s)[Rank(SM)] == s.isSm;
  }

  /** `useBreakpoint(k)`: the width reaches `k`'s threshold. */
  function UseBreakpoint(width: int, k: Breakpoint): (r: bool)
    ensures r <==> width >= Threshold(k)
  {
    width >= Threshold(k)
  }

  /**
   * From `sm` up, `useBreakpoint(k)` means "the current breakpoint is at least
   * `k`". For `xs` it does not: it is false below 475 even though the
   * breakpoint is `xs`, and true from 475 on.
   */
  lemma UseBreakpointVersusClassification(width: int, k: Breakpoint)
    ensures k != XS ==> (UseBreakpoint(width, k) <==> Rank(GetBreakpoint(width)) >= Rank(k))
    ensures UseBreakpoint(width, XS) <==> width >= 475
  {
    if k != XS {
      var b := GetBreakpoint(width);
      if UseBreakpoint(width, k) {
        GetBreakpointMonotone(Threshold(k), width);
      }
      if Rank(b) >= Rank(k) {
        assert b != XS;
        ThresholdMonotone(k, b);
      }
    }
  }

  /** Per-breakpoint values of `useResponsiveValue`; an absent key is `None`. */
  datatype ResponsiveValues<T> = ResponsiveValues(
    xs: Option<T>, sm: Option<T>, md: Option<T>, lg: Option<T>, xl: Option<T>, xxl: Option<T>, default: T)

  function Slot<T>(v: ResponsiveValues<T>, b: Breakpoint): Option<T> {
    match b
    case XS => v.xs
    case SM => v.sm
    case MD => v.md
    case LG => v.lg
    case XL => v.xl
    case XXL => v.xxl
  }

  /** No breakpoint ranked above `lo` and at most `hi` has a value. */
  predicate NoneBetween<T>(v: ResponsiveValues<T>, lo: int, hi: int) {
    forall j: Breakpoint :: lo < Rank(j) <= hi ==> Slot(v, j).None?
  }

  /** `r` is the value of breakpoint `k`, the largest one up to `b` that has a value. */
  ghost predicate NearestAt<T>(v: ResponsiveValues<T>, b: Breakpoint, k: Breakpoint, r: T) {
    Rank(k) <= Rank(b) && Slot(v, k) == Some(r) && NoneBetween(v, Rank(k), Rank(b))
  }

  /**
   * Reference definition of the fallback: the value of the largest breakpoint
   * not above `b` that has one, else the default.
   */
  function NearestDefined<T>(v: ResponsiveValues<T>, b: Breakpoint): T
    decreases Rank(b)
  {
    if Slot(v, b).Some? then Slot(v, b).value
    else if b == XS then v.default
    else NearestDefined(v, Pred(b))
  }

  /** The reference fallback picks the nearest breakpoint at or below `b` that has a value, else the default. */
  lemma {:induction false} NearestDefinedSpec<T>(v: ResponsiveValues<T>, b: Breakpoint)
    ensures (exists k: Breakpoint :: NearestAt(v, b, k, NearestDefined(v, b)))
            || (NoneBetween(v, -1, Rank(b)) && NearestDefined(v, b) == v.default)
    decreases Rank(b)
  {
    var r := NearestDefined(v, b);
    if Slot(v, b).Some? {
      assert NearestAt(v, b, b, r);
      assert exists k: Breakpoint :: NearestAt(v, b, k, NearestDefined(v, b));
    } else if b == XS {
      forall j: Breakpoint | -1 < Rank(j) <= Rank(b) ensures Slot(v, j).None? {
        RankInjective(j, b);
      }
    } else {
      var p := Pred(b);
      NearestDefinedSpec(v, p);
      assert r == NearestDefined(v, p);
      if exists k: Breakpoint :: NearestAt(v, p, k, r) {
        var k: Breakpoint :| NearestAt(v, p, k, r);
        forall j: Breakpoint | Rank(k) < Rank(j) <= Rank(b) ensures Slot(v, j).None? {
          if Rank(j) == Rank(b) { RankInjective(j, b); }
        }
        assert NearestAt(v, b, k, r);
        assert exists k': Breakpoint :: NearestAt(v, b, k', NearestDefined(v, b));
      } else {
        assert NoneBetween(v, -1, Rank(p)) && r == v.default;
        forall j: Breakpoint | -1 < Rank(j) <= Rank(b) ensures Slot(v, j).None? {
          if Rank(j) == Rank(b) { RankInjective(j, b); }
        }
      }
    }
  }

  /** `useResponsiveValue`, in the order of its checks, at breakpoint `b`. */
  function UseResponsiveValue<T>(v: ResponsiveValues<T>, b: Breakpoint): (r: T)
    ensures Slot(v, b).Some? ==> r == Slot(v, b).value
    ensures r == NearestDefined(v, b)
  {
    if Slot(v, b).Some? then Slot(v, b).value
    else if b == XXL && v.xl.Some? then v.xl.value
    else if b in {XXL, XL} && v.lg.Some? then v.lg.value
    else if b in {XXL, XL, LG} && v.md.Some? then v.md.value
    else if b in {XXL, XL, LG, MD} && v.sm.Some? then v.sm.value
    else if b in {XXL, XL, LG, MD, SM} && v.xs.Some? then v.xs.value
    else v.default
  }

  /** The value for the current breakpoint wins whenever it is present; a larger breakpoint's value is never used. */
  lemma UseResponsiveValueNeverLarger<T>(v: ResponsiveValues<T>, b: Breakpoint)
    ensures Slot(v, b).Some? ==> UseResponsiveValue(v, b) == Slot(v, b).value
    ensures (exists k: Breakpoint :: NearestAt(v, b, k, UseResponsiveValue(v, b)))
            || (NoneBetween(v, -1, Rank(b)) && UseResponsiveValue(v, b) == v.default)
  {
    var r := UseResponsiveValue(v, b);
    NearestDefinedSpec(v, b);
    if exists k: Breakpoint :: NearestAt(v, b, k, NearestDefined(v, b)) {
      var k: Breakpoint :| NearestAt(v, b, k, NearestDefined(v, b));
      assert NearestAt(v, b, k, r);
    }
  }

  /** The column counts `useResponsiveColumns` uses for a breakpoint nobody overrides. */
  function DefaultColumns(b: Breakpoint): nat {
    [1, 2, 2, 3, 4, 4][Rank(b)]
  }

  /** `useResponsiveColumns`: each option falls back to its default, the result comes from `useResponsiveValue`. */
  function UseResponsiveColumns(options: ResponsiveValues<int>, b: Breakpoint): (r: int)
    ensures r == Slot(options, b).GetOr(DefaultColumns(b))
  {
    var filled := ResponsiveValues(
      Some(options.xs.GetOr(1)), Some(options.sm.GetOr(2)), Some(options.md.GetOr(2)),
      Some(options.lg.GetOr(3)), Some(options.xl.GetOr(4)), Some(options.xxl.GetOr(4)), 1);
    UseResponsiveValue(filled, b)
  }

  /** With no options the columns are 1, 2, 2, 3, 4, 4 from `xs` to `2xl`. */
  lemma ColumnsWithoutOptions()
    ensures var none := ResponsiveValues(None, None, None, None, None, None, 0);
      UseResponsiveColumns(none, XS) == 1 && UseResponsiveColumns(none, SM) == 2
      && UseResponsiveColumns(none, MD) == 2 && UseResponsiveColumns(none, LG) == 3
      && UseResponsiveColumns(none, XL) == 4 && UseResponsiveColumns(none, XXL) == 4
  {
  }
}
