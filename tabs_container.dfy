/** app/TabsContainer.tsx: the earlier tabbed container, the same state
    machine without a close operation. */
module TabsContainer {
  import opened Wrappers
  import opened TabSet

  class TabsContainer {
    var layouts: seq<LayoutEntry>
    var currentActiveTab: int

    /** useState([]) and useState(0). */
    constructor ()
      ensures layouts == [] && currentActiveTab == 0
      ensures WellFormed(layouts, currentActiveTab)
    {
      layouts := [];
      currentActiveTab := 0;
    }

    /** The initial snapshot replaces the list by one entry per key, in
        `Object.keys` order; the active index is not touched. */
    method ApplyLayoutSnapshot(snapshot: map<string, Config>)
      modifies this
      ensures IsSnapshotOf(layouts, snapshot)
      ensures currentActiveTab == old(currentActiveTab)
    {
      var keys := ObjectKeys(snapshot);
      SnapshotEntries(snapshot, keys);
      layouts := EntriesOf(snapshot, keys);
    }

    /** Bring the named layout to the front. As in LayoutContainer, the
        source's handler reads the list captured on the first render, which
        is the initial empty one, so as written it never changes the active
        tab. Here it reads the current list. */
    method ShowLayout(layoutName: Option<string>)
      modifies this
      ensures layouts == old(layouts)
      ensures currentActiveTab == TabSet.ShowLayout(layouts, old(currentActiveTab), layoutName)
      ensures old(WellFormed(layouts, currentActiveTab)) ==> WellFormed(layouts, currentActiveTab)
    {
      if IsTruthy(layoutName) {
        var newIndex := FindIndex(layouts, layoutName.value);
        if newIndex != -1 {
          currentActiveTab := newIndex;
        }
      }
      if old(WellFormed(layouts, currentActiveTab)) {
        ShowLayoutWellFormed(layouts, old(currentActiveTab), layoutName);
      }
    }

    /** A click on the tab header at `index`. */
    method HandleTabChange(index: int)
      modifies this
      ensures layouts == old(layouts)
      ensures currentActiveTab == TabChange(layouts, index)
      ensures old(WellFormed(layouts, currentActiveTab)) && index >= 0 ==>
        (WellFormed(layouts, currentActiveTab) <==> layouts != [])
    {
      currentActiveTab := TabChange(layouts, index);
      if old(WellFormed(layouts, currentActiveTab)) && index >= 0 {
        TabChangeWellFormed(layouts, old(currentActiveTab), index);
      }
    }

    /** The `active` prop of each rendered layout container: at most one is
        true, and exactly one when the active index is a position of the list. */
    function RenderedActive(): (flags: seq<bool>)
      reads this
      ensures |flags| == |layouts|
      ensures forall i :: 0 <= i < |flags| ==> (flags[i] <==> currentActiveTab == i)
      ensures CountTrue(flags) <= 1
      ensures CountTrue(flags) == 1 <==> 0 <= currentActiveTab < |layouts|
    {
      ActiveFlagCount(layouts, currentActiveTab);
      ActiveFlags(layouts, currentActiveTab)
    }
  }
}
