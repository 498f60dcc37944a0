/** The tab-set state machine shared by the two tab containers
    (app/components/LayoutContainer.tsx and app/TabsContainer.tsx): an ordered
    list of named layouts and the index of the active one. The functions here
    compute the new value of each state cell; the classes in LayoutContainer
    and TabsContainer assign them. */
module TabSet {
  import opened Wrappers

  /** A layout's configuration. It is produced and consumed only by the
      platform runtime; the tab set never looks inside it. */
  type Config(!new)

  /** One tab: the layout's name and the configuration it was created with. */
  datatype LayoutEntry = LayoutEntry(layoutName: string, layout: Config)

  function Min(a: int, b: int): int { if a <= b then a else b }

  function Max(a: int, b: int): int { if a <= b then b else a }

  ghost predicate HasName(s: seq<LayoutEntry>, name: string) {
    exists i :: 0 <= i < |s| && s[i].layoutName == name
  }

  ghost predicate NamesUnique(s: seq<LayoutEntry>) {
    forall i, j :: 0 <= i < j < |s| ==> s[i].layoutName != s[j].layoutName
  }

  /** The intended shape of the state: unique names, and an active index
      inside the list, or 0 when there are no tabs. */
  ghost predicate WellFormed(s: seq<LayoutEntry>, active: int) {
    && NamesUnique(s)
    && (if s == [] then active == 0 else 0 <= active < |s|)
  }

  // ---------------------------------------------------------------------------
  // applyLayoutSnapshot: Object.keys(layouts).map(name => {name, layouts[name]})
  // ---------------------------------------------------------------------------

  ghost predicate Distinct(keys: seq<string>) {
    forall i, j :: 0 <= i < j < |keys| ==> keys[i] != keys[j]
  }

  /** `keys` lists every key of `layouts` exactly once, in some order. */
  ghost predicate IsKeyOrder(keys: seq<string>, layouts: map<string, Config>) {
    && Distinct(keys)
    && |keys| == |layouts|
    && (forall k :: k in keys <==> k in layouts)
  }

  /** `s` holds exactly one entry per key of `layouts`, carrying that key's
      configuration; the order is not constrained. */
  ghost predicate IsSnapshotOf(s: seq<LayoutEntry>, layouts: map<string, Config>) {
    && |s| == |layouts|
    && NamesUnique(s)
    && (forall i :: 0 <= i < |s| ==> s[i].layoutName in layouts && s[i].layout == layouts[s[i].layoutName])
    && (forall k :: k in layouts ==> HasName(s, k))
  }

  /** Object.keys: every key of the snapshot once. The language fixes the
      order (integer-like keys ascending, then the others in creation order),
      but the platform builds the object, so its creation order is unknown
      here and any order is allowed. */
  method ObjectKeys(layouts: map<string, Config>) returns (keys: seq<string>)
    ensures IsKeyOrder(keys, layouts)
  {
    keys := [];
    var rest := layouts.Keys;
    while rest != {}
      invariant rest <= layouts.Keys
      invariant Distinct(keys)
      invariant |keys| + |rest| == |layouts|
      invariant forall k :: k in keys <==> k in layouts && k !in rest
      decreases rest
    {
      var k :| k in rest;
      keys := keys + [k];
      rest := rest - {k};
    }
  }

  /** The `.map` over the keys: position i holds the i-th key with that
      key's configuration. */
  function EntriesOf(layouts: map<string, Config>, keys: seq<string>): (s: seq<LayoutEntry>)
    requires forall k :: k in keys ==> k in layouts
    ensures |s| == |keys|
    ensures forall i :: 0 <= i < |keys| ==> s[i] == LayoutEntry(keys[i], layouts[keys[i]])
  {
    if keys == [] then []
    else [LayoutEntry(keys[0], layouts[keys[0]])] + EntriesOf(layouts, keys[1..])
  }

  /** The list built from a snapshot holds one entry per key with its
      configuration, and no name twice. */
  lemma SnapshotEntries(layouts: map<string, Config>, keys: seq<string>)
    requires IsKeyOrder(keys, layouts)
    ensures IsSnapshotOf(EntriesOf(layouts, keys), layouts)
  {
    var s := EntriesOf(layouts, keys);
    forall k | k in layouts ensures HasName(s, k) {
      var i :| 0 <= i < |keys| && keys[i] == k;
      assert s[i].layoutName == k;
    }
  }

  // ---------------------------------------------------------------------------
  // showLayout: layoutState.findIndex(x => x.layoutName === id.layoutName)
  // ---------------------------------------------------------------------------

  /** Array.prototype.findIndex on the layout name: the first position holding
      `name`, or -1 when there is none. */
  function FindIndex(s: seq<LayoutEntry>, name: string): (k: int)
    ensures -1 <= k < |s|
    ensures k == -1 <==> !HasName(s, name)
    ensures 0 <= k ==> s[k].layoutName == name
    ensures 0 <= k ==> forall j :: 0 <= j < k ==> s[j].layoutName != name
  {
    if s == [] then -1
    else if s[0].layoutName == name then 0
    else
      var k := FindIndex(s[1..], name);
      if k == -1 then -1 else k + 1
  }

  /** JavaScript's truth test on the optional `layoutName`: an absent name and
      the empty string are both false. */
  predicate IsTruthy(layoutName: Option<string>)
    ensures IsTruthy(layoutName) <==> layoutName != None && layoutName != Some("")
  {
    layoutName.Some? && layoutName.value != ""
  }

  /** The active index after showLayout: the first position of the named
      layout when the name is truthy and present, otherwise the old index. */
  function ShowLayout(s: seq<LayoutEntry>, active: int, layoutName: Option<string>): (active': int)
    ensures IsTruthy(layoutName) && HasName(s, layoutName.value) ==>
      && 0 <= active' < |s| && s[active'].layoutName == layoutName.value
      && forall j :: 0 <= j < active' ==> s[j].layoutName != layoutName.value
    ensures !(IsTruthy(layoutName) && HasName(s, layoutName.value)) ==> active' == active
  {
    if IsTruthy(layoutName) then
      var newIndex := FindIndex(s, layoutName.value);
      if newIndex != -1 then newIndex else active
    else active
  }

  /** showLayout keeps the intended shape of the state. */
  lemma ShowLayoutWellFormed(s: seq<LayoutEntry>, active: int, layoutName: Option<string>)
    requires WellFormed(s, active)
    ensures WellFormed(s, ShowLayout(s, active, layoutName))
  {
  }

  // ---------------------------------------------------------------------------
  // handleTabChange: Math.min(index, layoutState.length - 1)
  // ---------------------------------------------------------------------------

  /** The active index after a tab-header click: the index clamped from above
      to the last position, with no clamp from below. */
  function TabChange(s: seq<LayoutEntry>, index: int): (active': int)
    ensures active' <= index && active' <= |s| - 1
    ensures active' == index || active' == |s| - 1
    ensures 0 <= index < |s| ==> active' == index
    ensures s == [] && index >= -1 ==> active' == -1
  {
    Min(index, |s| - 1)
  }

  /** A click on a real tab keeps the intended shape; with no tabs it does not,
      because the result is -1. */
  lemma TabChangeWellFormed(s: seq<LayoutEntry>, active: int, index: int)
    requires WellFormed(s, active) && index >= 0
    ensures WellFormed(s, TabChange(s, index)) <==> s != []
  {
  }

  // ---------------------------------------------------------------------------
  // handleTabClose
  // ---------------------------------------------------------------------------

  /** The active index after closing the tab at `index`: unchanged when the
      closed tab is to its right, otherwise one to the left but not below 0. */
  function CloseActive(active: int, index: int): (active': int)
    ensures active < index ==> active' == active
    ensures index <= active && 1 <= active ==> active' == active - 1
    ensures index <= active && active < 1 ==> active' == 0
  {
    if active < index then active else Max(0, active - 1)
  }

  /** layoutState.filter(l => l.layoutName !== layoutName) */
  function RemoveNamed(s: seq<LayoutEntry>, name: string): (r: seq<LayoutEntry>)
    ensures |r| <= |s|
  {
    if s == [] then []
    else (if s[0].layoutName == name then [] else [s[0]]) + RemoveNamed(s[1..], name)
  }

  /** The entries kept are exactly those of the old list with another name. */
  lemma {:induction false} RemoveNamedMembers(s: seq<LayoutEntry>, name: string, e: LayoutEntry)
    ensures e in RemoveNamed(s, name) <==> e in s && e.layoutName != name
  {
    if s != [] {
      RemoveNamedMembers(s[1..], name, e);
      assert e in s <==> e == s[0] || e in s[1..];
    }
  }

  /** Filtering distributes over concatenation: the entries that stay keep
      their relative order. */
  lemma {:induction false} RemoveNamedAppend(a: seq<LayoutEntry>, b: seq<LayoutEntry>, name: string)
    ensures RemoveNamed(a + b, name) == RemoveNamed(a, name) + RemoveNamed(b, name)
  {
    if a != [] {
      assert (a + b)[1..] == a[1..] + b;
      RemoveNamedAppend(a[1..], b, name);
    } else {
      assert a + b == b;
    }
  }

  /** Closing a name that no tab carries leaves the list as it is. */
  lemma {:induction false} RemoveNamedAbsent(s: seq<LayoutEntry>, name: string)
    requires !HasName(s, name)
    ensures RemoveNamed(s, name) == s
  {
    if s != [] {
      assert !HasName(s[1..], name) by {
        forall i | 0 <= i < |s[1..]| ensures s[1..][i].layoutName != name {
          assert s[1..][i] == s[i + 1];
        }
      }
      RemoveNamedAbsent(s[1..], name);
    }
  }

  /** In a list with unique names, the name at `index` occurs nowhere else. */
  lemma NameOnlyAt(s: seq<LayoutEntry>, name: string, index: int)
    requires NamesUnique(s)
    requires 0 <= index < |s| && s[index].layoutName == name
    ensures !HasName(s[..index], name) && !HasName(s[index + 1..], name)
  {
    var left, right := s[..index], s[index + 1..];
    forall i | 0 <= i < |left| ensures left[i].layoutName != name {
      assert left[i] == s[i];
    }
    forall i | 0 <= i < |right| ensures right[i].layoutName != name {
      assert right[i] == s[index + 1 + i];
    }
  }

  /** Removing a name carried by one entry between two stretches without it
      leaves exactly the two stretches. */
  lemma RemoveNamedBetween(left: seq<LayoutEntry>, x: LayoutEntry, right: seq<LayoutEntry>, name: string)
    requires !HasName(left, name) && !HasName(right, name) && x.layoutName == name
    ensures RemoveNamed(left + ([x] + right), name) == left + right
  {
    calc {
      RemoveNamed(left + ([x] + right), name);
      { RemoveNamedAppend(left, [x] + right, name); }
      RemoveNamed(left, name) + RemoveNamed([x] + right, name);
      { RemoveNamedAbsent(left, name); }
      left + RemoveNamed([x] + right, name);
      { assert ([x] + right)[0] == x && ([x] + right)[1..] == right; }
      left + RemoveNamed(right, name);
      { RemoveNamedAbsent(right, name); }
      left + right;
    }
  }

  /** With unique names, removing the name found at `index` removes exactly
      that one position. */
  lemma RemoveNamedAt(s: seq<LayoutEntry>, name: string, index: int)
    requires NamesUnique(s)
    requires 0 <= index < |s| && s[index].layoutName == name
    ensures RemoveNamed(s, name) == s[..index] + s[index + 1..]
  {
    NameOnlyAt(s, name, index);
    RemoveNamedBetween(s[..index], s[index], s[index + 1..], name);
    assert s == s[..index] + ([s[index]] + s[index + 1..]);
  }

  /** Taking one position out of a list with unique names leaves the names
      unique, and moves every later entry one position to the left. */
  lemma RemoveAtUnique(s: seq<LayoutEntry>, index: int)
    requires NamesUnique(s) && 0 <= index < |s|
    ensures NamesUnique(s[..index] + s[index + 1..])
    ensures forall i :: 0 <= i < index ==> (s[..index] + s[index + 1..])[i] == s[i]
    ensures forall i :: index < i < |s| ==> (s[..index] + s[index + 1..])[i - 1] == s[i]
  {
    var s' := s[..index] + s[index + 1..];
    forall i, j | 0 <= i < j < |s'| ensures s'[i].layoutName != s'[j].layoutName {
      var i0 := if i < index then i else i + 1;
      var j0 := if j < index then j else j + 1;
      assert s'[i] == s[i0] && s'[j] == s[j0];
    }
  }

  /** Closing the tab at `index` (named `name`, as the tab strip wires it) in a
      well-formed state: the list loses exactly that position, names stay
      unique, the active index stays in range, and when the closed tab was not
      the active one the same tab is still active. */
  lemma CloseTab(s: seq<LayoutEntry>, active: int, name: string, index: int)
    requires NamesUnique(s)
    requires 0 <= index < |s| && s[index].layoutName == name
    requires 0 <= active < |s|
    ensures RemoveNamed(s, name) == s[..index] + s[index + 1..]
    ensures WellFormed(RemoveNamed(s, name), CloseActive(active, index))
    ensures 0 <= CloseActive(active, index) <= Max(0, |RemoveNamed(s, name)| - 1)
    ensures active != index ==> RemoveNamed(s, name)[CloseActive(active, index)] == s[active]
  {
    RemoveNamedAt(s, name, index);
    RemoveAtUnique(s, index);
  }

  // ---------------------------------------------------------------------------
  // Render: each layout gets active = (currentActiveTab === i)
  // ---------------------------------------------------------------------------

  /** The `active` prop given to each rendered layout, in list order. */
  function ActiveFlags(s: seq<LayoutEntry>, active: int): (flags: seq<bool>)
    ensures |flags| == |s|
    ensures forall i :: 0 <= i < |flags| ==> (flags[i] <==> active == i)
    ensures forall i, j :: 0 <= i < |flags| && 0 <= j < |flags| && flags[i] && flags[j] ==> i == j
  {
    seq(|s|, i => active == i)
  }

  function CountTrue(flags: seq<bool>): nat {
    if flags == [] then 0
    else CountTrue(flags[..|flags| - 1]) + (if flags[|flags| - 1] then 1 else 0)
  }

  /** At most one rendered layout is active, and exactly one when the active
      index is a position of the list. */
  lemma {:induction false} ActiveFlagCount(s: seq<LayoutEntry>, active: int)
    ensures CountTrue(ActiveFlags(s, active)) == if 0 <= active < |s| then 1 else 0
  {
    if s != [] {
      var flags := ActiveFlags(s, active);
      assert flags[..|flags| - 1] == ActiveFlags(s[..|s| - 1], active);
      ActiveFlagCount(s[..|s| - 1], active);
    }
  }
}
