/** app/components/LayoutContainer.tsx: the tabbed container with a close
    button on every tab. Its two React state cells become the two fields of
    the class; each event handler (and each hook of the overridden layout
    manager) becomes a method that assigns them. */
module LayoutContainer {
  import opened Wrappers
  import opened TabSet

  class LayoutContainer {
    var layoutState: seq<LayoutEntry>
    var currentActiveTab: int

    /** useState([]) and useState(0). */
    constructor ()
      ensures layoutState == [] && currentActiveTab == 0
      ensures WellFormed(layoutState, currentActiveTab)
    {
      layoutState := [];
      currentActiveTab := 0;
    }

    /** Called by the platform with the initial snapshot: the list is replaced
        wholesale by one entry per snapshot key, in `Object.keys` order;
        the active index is left as it was. */
    method ApplyLayoutSnapshot(layouts: map<string, Config>)
      modifies this
      ensures IsSnapshotOf(layoutState, layouts)
      ensures currentActiveTab == old(currentActiveTab)
    {
      var keys := ObjectKeys(layouts);
      SnapshotEntries(layouts, keys);
      layoutState := EntriesOf(layouts, keys);
    }

    /** Called by the platform to bring a layout to the front. The source's
        handler reads the list captured when the layout manager was
        initialised, once, on the first render; that list is the initial
        empty one, so as written `findIndex` always gives -1 and the active
        tab never changes. Here the handler reads the current list. */
    method ShowLayout(layoutName: Option<string>)
      modifies this
      ensures layoutState == old(layoutState)
      ensures currentActiveTab == TabSet.ShowLayout(layoutState, old(currentActiveTab), layoutName)
      ensures old(WellFormed(layoutState, currentActiveTab)) ==> WellFormed(layoutState, currentActiveTab)
    {
      if IsTruthy(layoutName) {
        var newIndex := FindIndex(layoutState, layoutName.value);
        if newIndex != -1 {
          currentActiveTab := newIndex;
        }
      }
      if old(WellFormed(layoutState, currentActiveTab)) {
        ShowLayoutWellFormed(layoutState, old(currentActiveTab), layoutName);
      }
    }

    /** A click on the tab header at `index`. */
    method HandleTabChange(index: int)
      modifies this
      ensures layoutState == old(layoutState)
      ensures currentActiveTab == TabChange(layoutState, index)
      ensures old(WellFormed(layoutState, currentActiveTab)) && index >= 0 ==>
        (WellFormed(layoutState, currentActiveTab) <==> layoutState != [])
    {
      currentActiveTab := TabChange(layoutState, index);
      if old(WellFormed(layoutState, currentActiveTab)) && index >= 0 {
        TabChangeWellFormed(layoutState, old(currentActiveTab), index);
      }
    }

    /** A click on the close icon of the tab at `index`, named `layoutName`. */
    method HandleTabClose(layoutName: string, index: int)
      modifies this
      ensures layoutState == RemoveNamed(old(layoutState), layoutName)
      ensures currentActiveTab == CloseActive(old(currentActiveTab), index)
      ensures old(WellFormed(layoutState, currentActiveTab))
              && 0 <= index < old(|layoutState|) && old(layoutState[index].layoutName) == layoutName
              ==> && WellFormed(layoutState, currentActiveTab)
                  && layoutState == old(layoutState[..index] + layoutState[index + 1..])
                  && (old(currentActiveTab) != index ==> layoutState[currentActiveTab] == old(layoutState[currentActiveTab]))
    {
      ghost var s, active := layoutState, currentActiveTab;
      currentActiveTab := CloseActive(currentActiveTab, index);
      layoutState := RemoveNamed(layoutState, layoutName);
      if WellFormed(s, active) && 0 <= index < |s| && s[index].layoutName == layoutName {
        CloseTab(s, active, layoutName, index);
      }
    }

    /** The `active` prop of each rendered layout: at most one is true, and
        exactly one when the active index is a position of the list. */
    function RenderedActive(): (flags: seq<bool>)
      reads this
      ensures |flags| == |layoutState|
      ensures forall i :: 0 <= i < |flags| ==> (flags[i] <==> currentActiveTab == i)
      ensures CountTrue(flags) <= 1
      ensures CountTrue(flags) == 1 <==> 0 <= currentActiveTab < |layoutState|
    {
      ActiveFlagCount(layoutState, currentActiveTab);
      ActiveFlags(layoutState, currentActiveTab)
    }
  }
}
