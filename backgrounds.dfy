/**
 * The background choice owned by the main window: the three background
 * images of `backgroundUrl` and the `BackgroundSelectedIndex` property that
 * the continuous gesture rotates.
 */
module Backgrounds {

  /** Number of entries of `backgroundUrl`. */
  const BackgroundCount: nat := 3

  /**
   * C#'s `a % backgroundUrl.Length`: congruent to `a` modulo the count, with
   * the sign of the dividend.
   */
  function CsRemainder(a: int): (r: int)
    ensures 0 <= a ==> 0 <= r < BackgroundCount
    ensures a < 0 ==> -(BackgroundCount as int) < r <= 0
    ensures (a - r) % BackgroundCount == 0
  {
    if a >= 0 then a % BackgroundCount else -((-a) % BackgroundCount)
  }

  /**
   * The index an advance selects when the selection combo box reports
   * `selected` (-1 when nothing is selected).
   */
  function NextBackground(selected: int): (r: int)
    ensures -1 <= selected ==> 0 <= r < BackgroundCount
    ensures -1 <= selected < BackgroundCount - 1 ==> r == selected + 1
    ensures selected == BackgroundCount - 1 ==> r == 0
  {
    CsRemainder(selected + 1)
  }

  /** Three advances from any valid selection come back to it. */
  lemma NextBackgroundCycles(selected: int)
    requires 0 <= selected < BackgroundCount
    ensures NextBackground(NextBackground(NextBackground(selected))) == selected
  {
  }

  /** The main window's `BackgroundSelectedIndex` property. */
  class BackgroundSelection {
    var selectedIndex: int
    /** Number of `PropertyChanged` notifications the setter raised. */
    ghost var notifications: nat

    constructor ()
      ensures selectedIndex == 0 && notifications == 0
    {
      selectedIndex := 0;
      notifications := 0;
    }

    /** Set-if-different setter: notifies only when the value changes. */
    method SetSelectedIndex(value: int)
      modifies this
      ensures selectedIndex == value
      ensures notifications == old(notifications) + (if old(selectedIndex) != value then 1 else 0)
    {
      if selectedIndex != value {
        selectedIndex := value;
        notifications := notifications + 1;
      }
    }
  }
}
