/**
 * The tab bar: which tab the current location selects, and when the folder
 * outline around the selected tab is drawn.
 */
module Tabs {
  import opened Text

  datatype Tab = Tab(caption: String, href: String)

  const NavTabs: seq<Tab> := [Tab("Home", "/"), Tab("Thoughts", "/thoughts"), Tab("TOP SECRET", "/top-secret")]

  /** A tab is selected by its own address, and the Thoughts tab also by any article address under it. */
  predicate Selects(tab: Tab, location: String) {
    tab.href == location || (tab.href == "/thoughts" && StartsWith(location, "/thoughts/"))
  }

  /** `tabs.findIndex(…)`: the first tab the location selects, or -1 when there is none. */
  function FindIndex(tabs: seq<Tab>, location: String): (r: int)
    ensures -1 <= r < |tabs|
    ensures r == -1 <==> forall i :: 0 <= i < |tabs| ==> !Selects(tabs[i], location)
    ensures r >= 0 ==> Selects(tabs[r], location) && forall i :: 0 <= i < r ==> !Selects(tabs[i], location)
  {
    if tabs == [] then -1
    else if Selects(tabs[0], location) then 0
    else
      var r := FindIndex(tabs[1..], location);
      assert forall i :: 1 <= i < |tabs| ==> tabs[i] == tabs[1..][i - 1];
      if r == -1 then -1 else r + 1
  }

  function SelectedIdx(location: String): int {
    FindIndex(NavTabs, location)
  }

  /**
   * The home address selects the first tab, the thoughts list and every
   * article under it the second, the secret page the third, and any other
   * address none.
   */
  lemma SelectedTab(location: String)
    ensures SelectedIdx(location) ==
      if location == "/" then 0
      else if location == "/thoughts" || StartsWith(location, "/thoughts/") then 1
      else if location == "/top-secret" then 2
      else -1
  {
    assert Selects(NavTabs[0], location) <==> location == "/";
    assert Selects(NavTabs[1], location) <==> location == "/thoughts" || StartsWith(location, "/thoughts/");
    assert Selects(NavTabs[2], location) <==> location == "/top-secret";
    if location == "/" {
      assert !StartsWith(location, "/thoughts/");
    }
    if StartsWith(location, "/thoughts/") {
      assert location[1] == 't';
      assert location != "/top-secret" by {
        assert "/top-secret"[2] != location[2];
      }
    }
    if location == "/thoughts" {
      assert location != "/top-secret" by {
        assert "/top-secret"[2] != location[2];
      }
    }
  }

  /** The measured layout: the container's width and one measurement per tab measured so far. */
  datatype Dims = Dims(containerWidth: real, measured: nat)

  /** The outline path is drawn only once the container has a width, every tab is measured, and a tab is selected. */
  predicate OutlineDrawn(dims: Dims, selectedIdx: int) {
    dims.containerWidth > 0.0 && dims.measured == |NavTabs| && selectedIdx != -1
  }

  /** On an address no tab claims, no outline is drawn whatever the layout. */
  lemma NoOutlineOffTabs(dims: Dims, location: String)
    requires location != "/" && location != "/thoughts" && location != "/top-secret"
    requires !StartsWith(location, "/thoughts/")
    ensures !OutlineDrawn(dims, SelectedIdx(location))
  {
    SelectedTab(location);
  }
}
