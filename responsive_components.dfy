/**
 * Class and slot choices of src/components/ui/responsive-components.tsx:
 * the grid's column and gap classes, `ResponsiveContent`'s fallback between
 * its device slots, and the `OnlyOn*` guards. A class string is read as the
 * whitespace-separated list of its tokens, which is how `cn` consumes it.
 * React nodes are modelled as `Option<T>`, `None` standing for every falsy
 * node.
 */
module ResponsiveComponents {
  import opened Wrappers
  import Responsive

  // ---------------------------------------------------------------------
  // Class-string tokens
  // ---------------------------------------------------------------------

  predicate NoSpace(w: string) {
    forall k :: 0 <= k < |w| ==> w[k] != ' '
  }

  /** The characters of `s` up to its first space. */
  function FirstWord(s: string): (w: string)
    ensures |w| <= |s| && w == s[..|w|] && NoSpace(w)
    ensures |w| < |s| ==> s[|w|] == ' '
  {
    if s == [] || s[0] == ' ' then [] else [s[0]] + FirstWord(s[1..])
  }

  /** The space-separated tokens of a class string; runs of spaces separate nothing. */
  function Words(s: string): seq<string>
    decreases |s|
  {
    if s == [] then []
    else if s[0] == ' ' then Words(s[1..])
    else var w := FirstWord(s); [w] + Words(s[|w|..])
  }

  /** A following space ends the first word. */
  lemma {:induction false} FirstWordAppend(a: string, b: string)
    ensures FirstWord(a + " " + b) == FirstWord(a)
  {
    if a != [] && a[0] != ' ' {
      assert (a + " " + b)[1..] == a[1..] + " " + b;
      FirstWordAppend(a[1..], b);
    }
  }

  /** Joining two class strings with a space joins their token lists. */
  lemma {:induction false} WordsJoin(a: string, b: string)
    ensures Words(a + " " + b) == Words(a) + Words(b)
    decreases |a|
  {
    if a == [] {
      assert (a + " " + b)[1..] == b;
    } else if a[0] == ' ' {
      assert (a + " " + b)[1..] == a[1..] + " " + b;
      WordsJoin(a[1..], b);
    } else {
      var w := FirstWord(a);
      FirstWordAppend(a, b);
      assert (a + " " + b)[|w|..] == a[|w|..] + " " + b;
      WordsJoin(a[|w|..], b);
    }
  }

  lemma {:induction false} FirstWordOfWord(w: string)
    requires NoSpace(w)
    ensures FirstWord(w) == w
  {
    if w != [] {
      FirstWordOfWord(w[1..]);
    }
  }

  /** A non-empty class without spaces is a single token. */
  lemma {:induction false} WordsOfWord(w: string)
    requires w != [] && NoSpace(w)
    ensures Words(w) == [w]
  {
    FirstWordOfWord(w);
    assert w[|w|..] == [];
  }

  // ---------------------------------------------------------------------
  // ResponsiveGrid
  // ---------------------------------------------------------------------

  /** The optional column classes, from `sm` to `2xl`. */
  const ColumnClasses: seq<string> :=
    ["sm:grid-cols-2", "md:grid-cols-3", "lg:grid-cols-4", "xl:grid-cols-5", "2xl:grid-cols-6"]

  /** `maxColumns` when the prop is not given. */
  const DefaultMaxColumns: int := 6

  /** Slot `k` of the template: `ColumnClasses[k]` when the capped column count reaches `k + 2`, else empty. */
  function ColumnSlot(base: int, k: nat): string
    requires k < 5
  {
    if base >= k + 2 then ColumnClasses[k] else ""
  }

  /** How many of the optional column classes a capped column count turns on. */
  function PresentCount(base: int): (n: nat)
    ensures n <= 5
  {
    if base <= 1 then 0 else if base >= 6 then 5 else base - 1
  }

  /** `getGridColsClass`: the template string with one slot per optional class. */
  function GridColsClass(autoFit: bool, cols: int, maxColumns: int): (r: string)
    ensures autoFit ==> r == ""
    ensures !autoFit ==>
      Words(r) == ["grid-cols-1"] + ColumnClasses[..PresentCount(if cols < maxColumns then cols else maxColumns)]
  {
    if autoFit then ""
    else
      var base := if cols < maxColumns then cols else maxColumns;
      var r := "grid-cols-1" + " " + ColumnSlot(base, 0) + " " + ColumnSlot(base, 1) + " " + ColumnSlot(base, 2)
        + " " + ColumnSlot(base, 3) + " " + ColumnSlot(base, 4);
      GridWords(base);
      r
  }

  lemma SlotWords(base: int, k: nat)
    requires k < 5
    ensures Words(ColumnSlot(base, k)) == if base >= k + 2 then [ColumnClasses[k]] else []
  {
    if base >= k + 2 {
      var c := ColumnClasses[k];
      assert NoSpace(c) by {
        assert NoSpace(ColumnClasses[0]) && NoSpace(ColumnClasses[1]) && NoSpace(ColumnClasses[2])
          && NoSpace(ColumnClasses[3]) && NoSpace(ColumnClasses[4]);
      }
      WordsOfWord(c);
    }
  }

  /** Tokens of six class strings joined by single spaces. */
  lemma WordsJoin6(g: string, s0: string, s1: string, s2: string, s3: string, s4: string)
    ensures Words(g + " " + s0 + " " + s1 + " " + s2 + " " + s3 + " " + s4)
         == Words(g) + Words(s0) + Words(s1) + Words(s2) + Words(s3) + Words(s4)
  {
    WordsJoin(g, s0);
    WordsJoin(g + " " + s0, s1);
    WordsJoin(g + " " + s0 + " " + s1, s2);
    WordsJoin(g + " " + s0 + " " + s1 + " " + s2, s3);
    WordsJoin(g + " " + s0 + " " + s1 + " " + s2 + " " + s3, s4);
  }

  /** Five optional pieces, the first `n` present, concatenate to the first `n` classes. */
  lemma ConcatFirst(w0: seq<string>, w1: seq<string>, w2: seq<string>, w3: seq<string>, w4: seq<string>,
                    cs: seq<string>, n: nat)
    requires |cs| == 5 && n <= 5
    requires w0 == (if 0 < n then [cs[0]] else []) && w1 == (if 1 < n then [cs[1]] else [])
    requires w2 == (if 2 < n then [cs[2]] else []) && w3 == (if 3 < n then [cs[3]] else [])
    requires w4 == (if 4 < n then [cs[4]] else [])
    ensures w0 + w1 + w2 + w3 + w4 == cs[..n]
  {
    if n == 0 {
    } else if n == 1 {
      assert cs[..1] == [cs[0]];
    } else if n == 2 {
      assert cs[..2] == [cs[0], cs[1]];
    } else if n == 3 {
      assert cs[..3] == [cs[0], cs[1], cs[2]];
    } else if n == 4 {
      assert cs[..4] == [cs[0], cs[1], cs[2], cs[3]];
    } else {
      assert cs[..5] == [cs[0], cs[1], cs[2], cs[3], cs[4]];
    }
  }

  lemma GridCols1IsOneToken()
    ensures Words("grid-cols-1") == ["grid-cols-1"]
  {
    WordsOfWord("grid-cols-1");
  }

  /** A single-token class followed by five slots, the first `n` of them filled, gives the token and those `n` classes. */
  lemma TemplateWords(g: string, s0: string, s1: string, s2: string, s3: string, s4: string, cs: seq<string>, n: nat)
    requires |cs| == 5 && n <= 5 && Words(g) == [g]
    requires Words(s0) == (if 0 < n then [cs[0]] else []) && Words(s1) == (if 1 < n then [cs[1]] else [])
    requires Words(s2) == (if 2 < n then [cs[2]] else []) && Words(s3) == (if 3 < n then [cs[3]] else [])
    requires Words(s4) == (if 4 < n then [cs[4]] else [])
    ensures Words(g + " " + s0 + " " + s1 + " " + s2 + " " + s3 + " " + s4) == [g] + cs[..n]
  {
    WordsJoin6(g, s0, s1, s2, s3, s4);
    ConcatFirst(Words(s0), Words(s1), Words(s2), Words(s3), Words(s4), cs, n);
  }

  lemma GridWords(base: int)
    ensures var r := "grid-cols-1" + " " + ColumnSlot(base, 0) + " " + ColumnSlot(base, 1) + " " + ColumnSlot(base, 2)
        + " " + ColumnSlot(base, 3) + " " + ColumnSlot(base, 4);
      Words(r) == ["grid-cols-1"] + ColumnClasses[..PresentCount(base)]
  {
    GridCols1IsOneToken();
    SlotWords(base, 0);
    SlotWords(base, 1);
    SlotWords(base, 2);
    SlotWords(base, 3);
    SlotWords(base, 4);
    PresentCountMeaning(base, 0);
    PresentCountMeaning(base, 1);
    PresentCountMeaning(base, 2);
    PresentCountMeaning(base, 3);
    PresentCountMeaning(base, 4);
    TemplateWords("grid-cols-1", ColumnSlot(base, 0), ColumnSlot(base, 1), ColumnSlot(base, 2), ColumnSlot(base, 3),
      ColumnSlot(base, 4), ColumnClasses, PresentCount(base));
  }

  lemma PresentCountMeaning(base: int, k: nat)
    requires k < 5
    ensures k < PresentCount(base) <==> base >= k + 2
  {
  }

  /** `sm:grid-cols-2` … `2xl:grid-cols-6` are present exactly when the capped count reaches 2 … 6. */
  lemma GridClassPresence(cols: int, maxColumns: int, k: nat)
    requires k < 5
    ensures ColumnClasses[k] in Words(GridColsClass(false, cols, maxColumns))
            <==> (if cols < maxColumns then cols else maxColumns) >= k + 2
    ensures "grid-cols-1" in Words(GridColsClass(false, cols, maxColumns))
  {
    var base := if cols < maxColumns then cols else maxColumns;
    var n := PresentCount(base);
    var ws := Words(GridColsClass(false, cols, maxColumns));
    PresentCountMeaning(base, k);
    assert ws[0] == "grid-cols-1";
    if k < n {
      assert ws[k + 1] == ColumnClasses[k];
    } else {
      forall i | 0 <= i < |ws| ensures ws[i] != ColumnClasses[k] {
        if i > 0 {
          assert ws[i] == ColumnClasses[i - 1] && i - 1 < n;
        }
      }
    }
  }

  datatype GapSize = Sm | Md | Lg | Xl

  /** `gapClasses`. */
  function GapClasses(g: GapSize): string {
    match g
    case Sm => "gap-2 sm:gap-3 md:gap-4"
    case Md => "gap-3 sm:gap-4 md:gap-6"
    case Lg => "gap-4 sm:gap-6 md:gap-8"
    case Xl => "gap-6 sm:gap-8 md:gap-10"
  }

  /** `getGapClass`. */
  function GapClass(autoFit: bool, gap: Option<GapSize>): (r: string)
    ensures autoFit ==> r == ""
    ensures !autoFit && gap.Some? ==> r == GapClasses(gap.value)
    ensures !autoFit && gap.None? ==> r == "gap-3 sm:gap-4 md:gap-6"
  {
    if autoFit then "" else if gap.Some? then GapClasses(gap.value) else "gap-3 sm:gap-4 md:gap-6"
  }

  /** Without a `gap` prop the grid gets the same gap as `gap="md"`; with `autoFit` neither class string has tokens. */
  lemma GapDefaultIsMedium(autoFit: bool, cols: int, maxColumns: int)
    ensures GapClass(false, None) == GapClass(false, Some(Md))
    ensures GapClass(true, None) == "" && Words(GridColsClass(true, cols, maxColumns)) == []
  {
  }

  // ---------------------------------------------------------------------
  // ResponsiveContent and OnlyOn*
  // ---------------------------------------------------------------------

  /** `a || b || c` on optional nodes. */
  function FirstPresent<T>(a: Option<T>, b: Option<T>, c: Option<T>): (r: Option<T>)
    ensures r.None? <==> a.None? && b.None? && c.None?
    ensures a.Some? ==> r == a
    ensures a.None? && b.Some? ==> r == b
    ensures a.None? && b.None? ==> r == c
  {
    if a.Some? then a else if b.Some? then b else c
  }

  /** `ResponsiveContent`: the active device's own slot if present, else its fallback chain. */
  function ResponsiveContent<T>(d: Responsive.DeviceType, mobile: Option<T>, tablet: Option<T>, desktop: Option<T>): (r: Option<T>)
    ensures d.isMobile && mobile.Some? ==> r == mobile
    ensures d.isTablet && tablet.Some? && !(d.isMobile && mobile.Some?) ==> r == tablet
    ensures d.isDesktop && desktop.Some? && !(d.isMobile && mobile.Some?) && !(d.isTablet && tablet.Some?) ==> r == desktop
    ensures r.Some? ==> r == mobile || r == tablet || r == desktop
    ensures r.None? <==> mobile.None? && tablet.None? && desktop.None?
  {
    if d.isMobile && mobile.Some? then mobile
    else if d.isTablet && tablet.Some? then tablet
    else if d.isDesktop && desktop.Some? then desktop
    else if d.isMobile then FirstPresent(mobile, tablet, desktop)
    else if d.isTablet then FirstPresent(tablet, desktop, mobile)
    else FirstPresent(desktop, tablet, mobile)
  }

  /**
   * At every window width the content is the first present slot in the
   * device's order of preference: mobile, tablet, desktop on a phone;
   * tablet, desktop, mobile on a tablet; desktop, tablet, mobile on a
   * desktop. Nothing renders only when all three slots are absent.
   */
  lemma ResponsiveContentPreference<T>(width: int, mobile: Option<T>, tablet: Option<T>, desktop: Option<T>)
    ensures var d := Responsive.GetDeviceType(width);
      var r := ResponsiveContent(d, mobile, tablet, desktop);
      (d.isMobile ==> r == FirstPresent(mobile, tablet, desktop))
      && (d.isTablet ==> r == FirstPresent(tablet, desktop, mobile))
      && (d.isDesktop ==> r == FirstPresent(desktop, tablet, mobile))
      && (r.None? <==> mobile.None? && tablet.None? && desktop.None?)
  {
    Responsive.DeviceTypeExactlyOne(width);
  }

  /** `{flag && children}`. */
  function OnlyOn<T>(flag: bool, children: Option<T>): (r: Option<T>)
    ensures r.Some? <==> flag && children.Some?
    ensures r.Some? ==> r == children
  {
    if flag then children else None
  }

  /** At any width exactly one of `OnlyOnMobile`, `OnlyOnTablet` and `OnlyOnDesktop` shows its children. */
  lemma ExactlyOneOnlyOn<T>(width: int, children: T)
    ensures var d := Responsive.GetDeviceType(width);
      var shown := [OnlyOn(d.isMobile, Some(children)), OnlyOn(d.isTablet, Some(children)), OnlyOn(d.isDesktop, Some(children))];
      (shown[0].Some? && shown[1].None? && shown[2].None?)
      || (shown[0].None? && shown[1].Some? && shown[2].None?)
      || (shown[0].None? && shown[1].None? && shown[2].Some?)
  {
    Responsive.DeviceTypeExactlyOne(width);
  }
}
