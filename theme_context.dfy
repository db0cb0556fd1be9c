/**
 * The theme state of src/contexts/ThemeContext.tsx. `ThemeProvider` holds
 * the current theme and a mounted flag; once mounted, every theme it takes
 * is applied to the document root and written to the key-value store
 * under `poll-app-theme`. The store and the window's colour-scheme
 * preference are parameters.
 */
module ThemeContext {
  import opened Wrappers
  import opened ThemeUtils

  const StorageKey: string := "poll-app-theme"

  /** `prev === 'dark' ? 'light' : 'dark'`. */
  function Toggled(t: ThemeMode): (r: ThemeMode)
    ensures r != System
    ensures r == Light <==> t == Dark
  {
    if t == Dark then Light else Dark
  }

  /** Toggling twice restores a light or dark theme; `system` toggles to dark, then light. */
  lemma ToggleTwice(t: ThemeMode)
    ensures t != System ==> Toggled(Toggled(t)) == t
    ensures Toggled(System) == Dark && Toggled(Toggled(System)) == Light
  {
  }

  /** `savedTheme || systemTheme`: a saved theme wins, otherwise the system theme. */
  function InitialTheme(saved: Option<ThemeMode>, systemTheme: ThemeMode): (t: ThemeMode)
    ensures saved.Some? ==> t == saved.value
    ensures saved.None? ==> t == systemTheme
  {
    if saved.Some? then saved.value else systemTheme
  }

  function Lookup(store: map<string, ThemeMode>, key: string): Option<ThemeMode> {
    if key in store then Some(store[key]) else None
  }

  class ThemeProvider {
    var theme: ThemeMode
    var mounted: bool
    var store: map<string, ThemeMode>
    const root: DocumentRoot

    /** What the provider renders with before its effects run: dark, unmounted, nothing written. */
    constructor (store: map<string, ThemeMode>, root: DocumentRoot)
      ensures theme == Dark && !mounted
      ensures this.store == store && this.root == root
    {
      theme := Dark;
      mounted := false;
      this.store := store;
      this.root := root;
    }

    /** The state the second effect establishes: the theme applied to the root and persisted. */
    predicate Synced(prefersDark: bool)
      reads this, root
    {
      mounted
      && StorageKey in store && store[StorageKey] == theme
      && |root.classList| > 0
      && root.classList[|root.classList| - 1] == ClassName(Resolve(theme, GetSystemTheme(true, prefersDark)))
    }

    /** The second effect: after mount, apply the theme to the document and persist it. */
    method ApplyAndPersist(prefersDark: bool)
      requires mounted
      modifies this, root
      ensures theme == old(theme) && mounted
      ensures root.classList == ApplyThemeTo(old(root.classList), theme, GetSystemTheme(true, prefersDark))
      ensures store == old(store)[StorageKey := theme]
      ensures Synced(prefersDark)
    {
      root.ApplyTheme(theme, prefersDark);
      store := store[StorageKey := theme];
    }

    /**
     * The mount effect and the render it causes: mark mounted, take the saved
     * theme or else the system theme, then apply and persist it.
     */
    method Mount(prefersDark: bool)
      requires !mounted
      modifies this, root
      ensures mounted
      ensures theme == InitialTheme(Lookup(old(store), StorageKey), GetSystemTheme(true, prefersDark))
      ensures root.classList == ApplyThemeTo(old(root.classList), theme, GetSystemTheme(true, prefersDark))
      ensures store == old(store)[StorageKey := theme]
      ensures Synced(prefersDark)
    {
      mounted := true;
      var saved := Lookup(store, StorageKey);
      var systemTheme := GetSystemTheme(true, prefersDark);
      theme := InitialTheme(saved, systemTheme);
      ApplyAndPersist(prefersDark);
    }

    /**
     * `setTheme(t)`. Before mount only the state changes; after mount a
     * changed theme is applied and persisted, an unchanged one re-runs no
     * effect.
     */
    method SetTheme(t: ThemeMode, prefersDark: bool)
      modifies this, root
      ensures theme == t && mounted == old(mounted)
      ensures !old(mounted) || t == old(theme) ==> store == old(store) && root.classList == old(root.classList)
      ensures old(mounted) && t != old(theme) ==>
        store == old(store)[StorageKey := t]
        && root.classList == ApplyThemeTo(old(root.classList), t, GetSystemTheme(true, prefersDark))
      ensures old(Synced(prefersDark)) ==> Synced(prefersDark)
      ensures old(mounted) && t != old(theme) ==> Synced(prefersDark)
    {
      var changed := t != theme;
      theme := t;
      if mounted && changed {
        ApplyAndPersist(prefersDark);
      }
    }

    /** `toggleTheme`: set the toggled theme. */
    method ToggleTheme(prefersDark: bool)
      modifies this, root
      ensures theme == Toggled(old(theme)) && mounted == old(mounted)
      ensures !old(mounted) ==> store == old(store) && root.classList == old(root.classList)
      ensures old(mounted) ==>
        store == old(store)[StorageKey := theme]
        && root.classList == ApplyThemeTo(old(root.classList), theme, GetSystemTheme(true, prefersDark))
        && Synced(prefersDark)
    {
      SetTheme(Toggled(theme), prefersDark);
    }
  }

  /** What `useTheme` hands a consumer: the theme, and whether its actions reach a provider. */
  datatype ThemeContextValue = ThemeContextValue(theme: ThemeMode, actionsLive: bool)

  /** `useTheme`: the provider's value, or outside a provider a dark theme with no-op actions. */
  function UseTheme(provided: Option<ThemeMode>): (v: ThemeContextValue)
    ensures provided.None? ==> v == ThemeContextValue(Dark, false)
    ensures provided.Some? ==> v.theme == provided.value && v.actionsLive
  {
    match provided
    case None => ThemeContextValue(Dark, false)
    case Some(t) => ThemeContextValue(t, true)
  }

  /**
   * A consumer rendered inside a provider: before mount the provider renders
   * its children outside the context, so they see the fallback.
   */
  function ConsumerView(mounted: bool, theme: ThemeMode): (v: ThemeContextValue)
    ensures !mounted ==> v == ThemeContextValue(Dark, false)
    ensures mounted ==> v == ThemeContextValue(theme, true)
  {
    UseTheme(if mounted then Some(theme) else None)
  }

  /** The toggle button's label names the theme a press switches to. */
  function ToggleAriaLabel(theme: ThemeMode): (ariaLabel: string)
    ensures ariaLabel == "Switch to " + ClassName(Toggled(theme)) + " theme"
  {
    "Switch to " + (if theme == Dark then "light" else "dark") + " theme"
  }
}
