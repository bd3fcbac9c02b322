/** The reader's display preferences: the body font size, changed two
    pixels at a time between 12 and 32, and the colour theme, cycled
    through light, dark and sepia. */
module Preferences {
  import opened Wrappers

  const MinFontSize: nat := 12
  const MaxFontSize: nat := 32
  const DefaultFontSize: nat := 18
  const ZoomStep: nat := 2

  const ThemeModes: seq<string> := ["light", "dark", "sepia"]

  /** `zoomIn`: two pixels larger, never above the maximum. */
  function ZoomedIn(size: nat): (r: nat)
    ensures r <= MaxFontSize
    ensures size <= MaxFontSize ==> size <= r
    ensures r < MaxFontSize ==> r == size + ZoomStep
  {
    if size + ZoomStep < MaxFontSize then size + ZoomStep else MaxFontSize
  }

  /** `zoomOut`: two pixels smaller, never below the minimum. */
  function ZoomedOut(size: nat): (r: nat)
    ensures MinFontSize <= r
    ensures MinFontSize <= size ==> r <= size
    ensures r > MinFontSize ==> r + ZoomStep == size
  {
    if size >= MinFontSize + ZoomStep then size - ZoomStep else MinFontSize
  }

  /** `cycleTheme`: the next theme in the list, wrapping round. */
  function NextTheme(i: nat): (r: nat)
    requires i < |ThemeModes|
    ensures r < |ThemeModes|
    ensures r != i
  {
    (i + 1) % |ThemeModes|
  }

  /** `updateThemeIcon`: the icon class shown for a theme; a name that
      matches no case leaves the icon as it was. */
  function ThemeIcon(mode: string): (r: Option<string>)
    ensures r.Some? <==> mode in ThemeModes
  {
    if mode == "light" then Some("fas fa-moon")
    else if mode == "dark" then Some("fas fa-sun")
    else if mode == "sepia" then Some("fas fa-adjust")
    else None
  }

  /** The size after `n` clicks on the zoom-in button. */
  function ZoomedInTimes(size: nat, n: nat): nat
    decreases n
  {
    if n == 0 then size else ZoomedInTimes(ZoomedIn(size), n - 1)
  }

  /** The size after `n` clicks on the zoom-out button. */
  function ZoomedOutTimes(size: nat, n: nat): nat
    decreases n
  {
    if n == 0 then size else ZoomedOutTimes(ZoomedOut(size), n - 1)
  }

  // ---------------------------------------------------------------------
  // properties of the controls
  // ---------------------------------------------------------------------

  /** Zooming in and then out, or out and then in, restores any size that
      neither step clamped. */
  lemma ZoomRoundTrip(size: nat)
    ensures MinFontSize <= size <= MaxFontSize - ZoomStep ==> ZoomedOut(ZoomedIn(size)) == size
    ensures MinFontSize + ZoomStep <= size <= MaxFontSize ==> ZoomedIn(ZoomedOut(size)) == size
  {
  }

  /** Both buttons keep a size that is in range there, and either one brings
      any size into range, however it was stored. */
  lemma ZoomKeepsRange(size: nat)
    ensures MinFontSize <= size ==> MinFontSize <= ZoomedIn(size) <= MaxFontSize
    ensures size <= MaxFontSize ==> MinFontSize <= ZoomedOut(size) <= MaxFontSize
  {
  }

  /** Enough clicks on zoom-in reach the maximum, and the size then stays
      there. */
  lemma {:induction false} ZoomInReachesMax(size: nat, n: nat)
    requires size <= MaxFontSize && MaxFontSize <= size + ZoomStep * n
    ensures ZoomedInTimes(size, n) == MaxFontSize
    decreases n
  {
    if n > 0 {
      if size + ZoomStep < MaxFontSize {
        ZoomInReachesMax(size + ZoomStep, n - 1);
      } else {
        ZoomInReachesMax(MaxFontSize, n - 1);
      }
    }
  }

  /** Enough clicks on zoom-out reach the minimum, and the size then stays
      there. */
  lemma {:induction false} ZoomOutReachesMin(size: nat, n: nat)
    requires MinFontSize <= size && size <= MinFontSize + ZoomStep * n
    ensures ZoomedOutTimes(size, n) == MinFontSize
    decreases n
  {
    if n > 0 {
      if size >= MinFontSize + ZoomStep {
        ZoomOutReachesMin(size - ZoomStep, n - 1);
      } else {
        ZoomOutReachesMin(MinFontSize, n - 1);
      }
    }
  }

  /** Three clicks on the theme button return to the starting theme, and
      the three themes met on the way are all different. */
  lemma ThemeCycle(i: nat)
    requires i < |ThemeModes|
    ensures NextTheme(NextTheme(NextTheme(i))) == i
    ensures {i, NextTheme(i), NextTheme(NextTheme(i))} == {0, 1, 2}
  {
  }

  /** Every theme has its own icon. */
  lemma ThemeIconsDistinct(i: nat, j: nat)
    requires i < |ThemeModes| && j < |ThemeModes|
    ensures ThemeIcon(ThemeModes[i]).Some?
    ensures ThemeIcon(ThemeModes[i]) == ThemeIcon(ThemeModes[j]) ==> i == j
  {
  }

  // ---------------------------------------------------------------------
  // the UI state
  // ---------------------------------------------------------------------

  /** `currentFontSize` and `currentThemeIndex`. */
  class Settings {
    var fontSize: nat
    var themeIndex: nat

    ghost predicate Valid()
      reads this
    {
      MinFontSize <= fontSize <= MaxFontSize && themeIndex < |ThemeModes|
    }

    /** The values the globals start with. */
    constructor ()
      ensures Valid()
      ensures fontSize == DefaultFontSize && themeIndex == 0
    {
      fontSize := DefaultFontSize;
      themeIndex := 0;
    }

    /** The theme name written to `data-theme` and saved. */
    function Theme(): (r: string)
      requires Valid()
      reads this
      ensures r in ThemeModes
    {
      ThemeModes[themeIndex]
    }

    method ZoomIn()
      requires Valid()
      modifies this
      ensures Valid()
      ensures fontSize == ZoomedIn(old(fontSize)) && themeIndex == old(themeIndex)
    {
      fontSize := ZoomedIn(fontSize);
    }

    method ZoomOut()
      requires Valid()
      modifies this
      ensures Valid()
      ensures fontSize == ZoomedOut(old(fontSize)) && themeIndex == old(themeIndex)
    {
      fontSize := ZoomedOut(fontSize);
    }

    method CycleTheme() returns (icon: Option<string>)
      requires Valid()
      modifies this
      ensures Valid()
      ensures themeIndex == NextTheme(old(themeIndex)) && fontSize == old(fontSize)
      ensures icon == ThemeIcon(Theme()) && icon.Some?
    {
      themeIndex := (themeIndex + 1) % |ThemeModes|;
      icon := ThemeIcon(ThemeModes[themeIndex]);
    }
  }
}
