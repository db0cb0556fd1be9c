/**
 * The theme helpers of src/lib/theme/utils.ts: the system preference,
 * `applyTheme` on the root element's class list, contrast text colour,
 * palette and semantic colour lookups, and media-query strings. The colour
 * and breakpoint tables are those of src/lib/theme/constants.ts.
 */
module ThemeUtils {
  import opened Wrappers
  import opened Strings
  import opened Seqs
  import Responsive

  datatype ThemeMode = Light | Dark | System

  /** The class a concrete theme puts on the root element. */
  function ClassName(t: ThemeMode): string
    requires t != System
  {
    if t == Light then "light" else "dark"
  }

  /**
   * `getSystemTheme`: `'dark'` without a window, otherwise whatever
   * `(prefers-color-scheme: dark)` reports.
   */
  function GetSystemTheme(hasWindow: bool, prefersDark: bool): (t: ThemeMode)
    ensures t != System
    ensures !hasWindow ==> t == Dark
    ensures hasWindow ==> (t == Dark <==> prefersDark)
  {
    if !hasWindow then Dark else if prefersDark then Dark else Light
  }

  /** The concrete theme a mode stands for, given the system theme. */
  function Resolve(theme: ThemeMode, systemTheme: ThemeMode): (t: ThemeMode)
    requires systemTheme != System
    ensures t != System
    ensures theme != System ==> t == theme
  {
    if theme == System then systemTheme else theme
  }

  predicate IsThemeClass(c: string) {
    c == "light" || c == "dark"
  }

  /** `classList.remove('light', 'dark')`: every other class, in order. */
  function RemoveThemeClasses(classes: seq<string>): (r: seq<string>)
    ensures "light" !in r && "dark" !in r
    ensures forall c :: c in r <==> c in classes && !IsThemeClass(c)
  {
    Select(classes, (c: string) => !IsThemeClass(c))
  }

  /** `applyTheme` on the class list: drop both theme classes, then add the resolved one. */
  function ApplyThemeTo(classes: seq<string>, theme: ThemeMode, systemTheme: ThemeMode): (r: seq<string>)
    requires systemTheme != System
    ensures r == RemoveThemeClasses(classes) + [ClassName(Resolve(theme, systemTheme))]
  {
    RemoveThemeClasses(classes) + [ClassName(Resolve(theme, systemTheme))]
  }

  /**
   * After `applyTheme` exactly one of `light` and `dark` is present, exactly
   * once, and it is the resolved theme's; every other class keeps its place.
   */
  lemma ApplyThemeExactlyOne(classes: seq<string>, theme: ThemeMode, systemTheme: ThemeMode)
    requires systemTheme != System
    ensures var r := ApplyThemeTo(classes, theme, systemTheme);
      var t := Resolve(theme, systemTheme);
      (t == Light ==> "light" in r && "dark" !in r)
      && (t == Dark ==> "dark" in r && "light" !in r)
      && (forall i :: 0 <= i < |r| - 1 ==> !IsThemeClass(r[i]))
      && r[|r| - 1] == ClassName(t)
    ensures Select(ApplyThemeTo(classes, theme, systemTheme), (c: string) => !IsThemeClass(c))
         == Select(classes, (c: string) => !IsThemeClass(c))
  {
    var kept := RemoveThemeClasses(classes);
    var r := ApplyThemeTo(classes, theme, systemTheme);
    assert forall i :: 0 <= i < |r| - 1 ==> r[i] == kept[i];
    OthersUntouched(classes, ClassName(Resolve(theme, systemTheme)));
  }

  lemma {:induction false} OthersUntouched(classes: seq<string>, added: string)
    requires IsThemeClass(added)
    ensures Select(RemoveThemeClasses(classes) + [added], (c: string) => !IsThemeClass(c))
         == Select(classes, (c: string) => !IsThemeClass(c))
  {
    var keep := (c: string) => !IsThemeClass(c);
    SelectAppend(RemoveThemeClasses(classes), [added], keep);
    SelectSelf(classes);
  }

  /** Filtering an already filtered list changes nothing. */
  lemma {:induction false} SelectSelf(classes: seq<string>)
    ensures Select(Select(classes, (c: string) => !IsThemeClass(c)), (c: string) => !IsThemeClass(c))
         == Select(classes, (c: string) => !IsThemeClass(c))
  {
    var keep := (c: string) => !IsThemeClass(c);
    SelectSelect(classes, keep, keep, keep);
  }

  /** Applying the same theme twice is the same as applying it once. */
  lemma ApplyThemeIdempotent(classes: seq<string>, theme: ThemeMode, systemTheme: ThemeMode)
    requires systemTheme != System
    ensures ApplyThemeTo(ApplyThemeTo(classes, theme, systemTheme), theme, systemTheme)
         == ApplyThemeTo(classes, theme, systemTheme)
  {
    var keep := (c: string) => !IsThemeClass(c);
    var once := ApplyThemeTo(classes, theme, systemTheme);
    OthersUntouched(classes, ClassName(Resolve(theme, systemTheme)));
    assert Select(once, keep) == RemoveThemeClasses(classes);
  }

  /** The root element of the document, whose class list `applyTheme` edits in place. */
  class DocumentRoot {
    var classList: seq<string>

    constructor (classes: seq<string>)
      ensures classList == classes
    {
      classList := classes;
    }

    /** `applyTheme(theme)`, the system preference read from the window's media query. */
    method ApplyTheme(theme: ThemeMode, prefersDark: bool)
      modifies this
      ensures classList == ApplyThemeTo(old(classList), theme, GetSystemTheme(true, prefersDark))
    {
      classList := RemoveThemeClasses(classList);
      if theme == System {
        var systemTheme := GetSystemTheme(true, prefersDark);
        classList := classList + [ClassName(systemTheme)];
      } else {
        classList := classList + [ClassName(theme)];
      }
    }
  }

  // ---------------------------------------------------------------------
  // Colours
  // ---------------------------------------------------------------------

  const LightText: string := "hsl(210 40% 98%)"
  const DarkText: string := "hsl(222.2 84% 4.9%)"

  /** `getContrastColor`: light text on a background whose description mentions `dark` or `222.2`. */
  function GetContrastColor(backgroundColor: string): (r: string)
    ensures r == LightText <==> Contains(backgroundColor, "dark") || Contains(backgroundColor, "222.2")
    ensures r == DarkText <==> !(Contains(backgroundColor, "dark") || Contains(backgroundColor, "222.2"))
  {
    if Contains(backgroundColor, "dark") || Contains(backgroundColor, "222.2") then LightText else DarkText
  }

  /** `THEME_COLORS.light`. */
  const LightPalette: map<string, string> := map[
    "primary" := "hsl(221.2 83.2% 53.3%)",
    "primaryForeground" := "hsl(210 40% 98%)",
    "secondary" := "hsl(210 40% 96%)",
    "secondaryForeground" := "hsl(222.2 84% 4.9%)",
    "background" := "hsl(0 0% 100%)",
    "foreground" := "hsl(222.2 84% 4.9%)",
    "muted" := "hsl(210 40% 96%)",
    "mutedForeground" := "hsl(215.4 16.3% 46.9%)",
    "accent" := "hsl(210 40% 96%)",
    "accentForeground" := "hsl(222.2 84% 4.9%)",
    "border" := "hsl(214.3 31.8% 91.4%)",
    "card" := "hsl(0 0% 100%)",
    "cardForeground" := "hsl(222.2 84% 4.9%)",
    "glass" := "rgba(255, 255, 255, 0.8)",
    "glassHover" := "rgba(255, 255, 255, 0.9)"]

  /** `THEME_COLORS.dark`. */
  const DarkPalette: map<string, string> := map[
    "primary" := "hsl(217.2 91.2% 59.8%)",
    "primaryForeground" := "hsl(222.2 84% 4.9%)",
    "secondary" := "hsl(217.2 32.6% 17.5%)",
    "secondaryForeground" := "hsl(210 40% 98%)",
    "background" := "hsl(222.2 84% 4.9%)",
    "foreground" := "hsl(210 40% 98%)",
    "muted" := "hsl(217.2 32.6% 17.5%)",
    "mutedForeground" := "hsl(215 20.2% 65.1%)",
    "accent" := "hsl(217.2 32.6% 17.5%)",
    "accentForeground" := "hsl(210 40% 98%)",
    "border" := "hsl(217.2 32.6% 17.5%)",
    "card" := "hsl(222.2 84% 4.9%)",
    "cardForeground" := "hsl(210 40% 98%)",
    "glass" := "rgba(255, 255, 255, 0.05)",
    "glassHover" := "rgba(255, 255, 255, 0.1)"]

  function Palette(isDark: bool): map<string, string> {
    if isDark then DarkPalette else LightPalette
  }

  /** `getThemeColor`: the palette entry of the chosen mode, or the input itself for an unknown key. */
  function GetThemeColor(color: string, isDark: bool): (r: string)
    ensures color in Palette(isDark) ==> r == Palette(isDark)[color]
    ensures color !in Palette(isDark) ==> r == color
  {
    var theme := Palette(isDark);
    if color in theme && theme[color] != "" then theme[color] else color
  }

  /** Both palettes know the same keys, so a key resolves in one mode exactly when it does in the other. */
  lemma PalettesShareKeys(color: string)
    ensures color in LightPalette <==> color in DarkPalette
    ensures color !in LightPalette ==> GetThemeColor(color, true) == color && GetThemeColor(color, false) == color
  {
  }

  /** Each palette's foreground is the contrast colour of its background. */
  lemma ContrastMatchesPalette()
    ensures GetContrastColor(GetThemeColor("background", true)) == GetThemeColor("foreground", true)
    ensures GetContrastColor(GetThemeColor("background", false)) == GetThemeColor("foreground", false)
  {
    assert GetThemeColor("background", true) == "hsl(222.2 84% 4.9%)";
    assert GetThemeColor("foreground", true) == LightText;
    assert GetThemeColor("background", false) == "hsl(0 0% 100%)";
    assert GetThemeColor("foreground", false) == DarkText;
    ContrastOfBackgrounds();
  }

  lemma ContrastOfBackgrounds()
    ensures GetContrastColor("hsl(222.2 84% 4.9%)") == LightText
    ensures GetContrastColor("hsl(0 0% 100%)") == DarkText
  {
    assert OccursAt("hsl(222.2 84% 4.9%)", "222.2", 4);
    var light := "hsl(0 0% 100%)";
    FirstCharAbsent(light, "dark");
    FirstCharAbsent(light, "222.2");
  }

  datatype SemanticColor = Success | Warning | Error | Info

  /** `SEMANTIC_COLORS[color]` as a light/dark pair. */
  function SemanticPair(color: SemanticColor): (string, string) {
    match color
    case Success => ("#22c55e", "#34d399")
    case Warning => ("#f59e0b", "#fbbf24")
    case Error => ("#ef4444", "#f87171")
    case Info => ("#3b82f6", "#60a5fa")
  }

  /** `getSemanticColor`: the dark variant in dark mode, the light one otherwise. */
  function GetSemanticColor(color: SemanticColor, isDark: bool): (r: string)
    ensures isDark ==> r == SemanticPair(color).1
    ensures !isDark ==> r == SemanticPair(color).0
  {
    if isDark then SemanticPair(color).1 else SemanticPair(color).0
  }

  /** Every semantic colour has distinct light and dark variants, and no two colours share a variant. */
  lemma SemanticColorsDistinct(a: SemanticColor, b: SemanticColor, isDark: bool)
    ensures GetSemanticColor(a, true) != GetSemanticColor(a, false)
    ensures a != b ==> GetSemanticColor(a, isDark) != GetSemanticColor(b, isDark)
  {
    var p := SemanticPair(a);
    assert p.0[1] != p.1[1] || p.0[2] != p.1[2];
    if a != b {
      var q := SemanticPair(b);
      assert p.0[1] != q.0[1] && p.1[2] != q.1[2];
    }
  }

  const MediaPrefix: string := "@media (min-width: "

  /** `createMediaQuery(k)`: a `min-width` query at `k`'s pixel threshold. */
  function CreateMediaQuery(k: Responsive.Breakpoint): (r: string)
    ensures |r| > |MediaPrefix| + 3
    ensures r[..|MediaPrefix|] == MediaPrefix && r[|r| - 3..] == "px)"
    ensures var digits := r[|MediaPrefix|..|r| - 3];
      (forall i :: 0 <= i < |digits| ==> IsDigit(digits[i])) && DigitsValue(digits) == Responsive.Threshold(k)
  {
    var digits := NatToString(Responsive.Threshold(k));
    var r := MediaPrefix + digits + "px)";
    assert r[|MediaPrefix|..|r| - 3] == digits;
    r
  }

  /** The number in the query is the threshold `useBreakpoint` compares against. */
  lemma MediaQueryAgreesWithUseBreakpoint(k: Responsive.Breakpoint, width: int)
    ensures var r := CreateMediaQuery(k);
      Responsive.UseBreakpoint(width, k) <==> width >= DigitsValue(r[|MediaPrefix|..|r| - 3])
  {
  }
}
