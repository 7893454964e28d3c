/** The drag-and-drop work tab of one colonist: `PawnSurface` keeps the
    colonist's work types as an ordered list of draggable items and turns
    that order, together with each item's enabled state, into the work
    priorities stored in the colonist's work settings. */
module WorkTab {
  import opened Wrappers
  import opened Lists

  // ---------------------------------------------------------------------
  // Values
  // ---------------------------------------------------------------------

  /** A work type (`WorkTypeDef`), identified by its def name. */
  datatype WorkTypeDef = WorkTypeDef(defName: string)

  /** Unity's `Vector2`, in integer screen coordinates. */
  datatype Vec = Vec(x: int, y: int)

  /** Unity's `Rect`: the top-left corner, a width and a height. A point lies
      inside when it is at or past the minimum edges and short of the
      maximum ones. */
  datatype Rect = Rect(x: int, y: int, width: int, height: int) {
    predicate Contains(p: Vec) {
      x <= p.x < x + width && y <= p.y < y + height
    }
  }

  /** The kinds of GUI event the surface tells apart (`EventType`). */
  datatype EventType = MouseDown | MouseUp | Repaint | OtherEvent

  /** One GUI event as the surface sees it (`EventData`). */
  datatype EventData = EventData(kind: EventType, mousePosition: Vec)

  /** The two layout metrics: the icon size (`DraggableTextureDiameter`)
      and the gap between icons (`ShortSpacing`). */
  datatype Layout = Layout(diameter: int, spacing: int)

  /** The insertion marker drawn while item `nomad` is dragged over the
      surface: just right of item `neighbour`, or at the leading margin when
      there is none; `red` when the colonist is incapable of the dragged
      work type. */
  datatype Marker = Marker(nomad: nat, neighbour: Option<nat>, red: bool)

  /** What `DoEventChecks` did with one event. `Hovered` and `Clicked` name
      the child the event was forwarded to, if any. */
  datatype EventOutcome =
    | DroppedInside
    | DroppedOutside
    | Hovered(target: Option<nat>)
    | Clicked(target: Option<nat>)
    | Ignored

  /** The priority of the item at `index`: its rank counted from 1 when it
      is enabled, 0 (the "disabled" value of the work settings) otherwise. */
  function Rank(disabled: bool, index: nat): nat {
    if disabled then 0 else index + 1
  }

  /** The x coordinate of layout slot `i`: slots start two gaps and half an
      icon in from the surface's left edge and are one icon plus one gap
      apart. */
  function SlotX(surfaceRect: Rect, layout: Layout, i: nat): int {
    surfaceRect.x + 2 * layout.spacing + layout.diameter / 2 + i * (layout.diameter + layout.spacing)
  }

  /** The centre of slot `i`, vertically centred on the surface. */
  function SlotPosition(surfaceRect: Rect, layout: Layout, i: nat): Vec {
    Vec(SlotX(surfaceRect, layout, i), surfaceRect.y + surfaceRect.height / 2)
  }

  /** The square an icon centred at `center` occupies (`ToDraggableRect`). */
  function DraggableRect(center: Vec, layout: Layout): Rect {
    Rect(center.x - layout.diameter / 2, center.y - layout.diameter / 2, layout.diameter, layout.diameter)
  }

  /** Slots lie strictly left to right whenever an icon plus a gap is wider
      than nothing. */
  lemma {:induction false} SlotsIncrease(surfaceRect: Rect, layout: Layout, i: nat, j: nat)
    requires layout.diameter + layout.spacing > 0 && i < j
    ensures SlotX(surfaceRect, layout, i) < SlotX(surfaceRect, layout, j)
  {
    var step := layout.diameter + layout.spacing;
    assert j * step == (j - 1) * step + step;
    if i < j - 1 {
      SlotsIncrease(surfaceRect, layout, i, j - 1);
    }
  }

  /** `r` is the neighbour the marker scan finds for index `k` over
      x coordinates `xs`: the highest other index whose x is strictly left
      of `xs[k]`, or none when no other index is. */
  predicate IsLeftNeighbour(xs: seq<int>, k: nat, r: Option<nat>)
    requires k < |xs|
  {
    match r
    case Some(j) =>
      && j < |xs| && j != k && xs[j] < xs[k]
      && forall l :: j < l < |xs| && l != k ==> xs[k] <= xs[l]
    case None =>
      forall l :: 0 <= l < |xs| && l != k ==> xs[k] <= xs[l]
  }

  /** The row as it stands while a layout pass is at index `k`: the new
      values already assigned below `k`, the previous frame's from `k` on
      (for x coordinates, what the marker scan for index `k` reads). */
  function Spliced<T>(newXs: seq<T>, oldXs: seq<T>, k: nat): seq<T>
    requires |newXs| == |oldXs| && k <= |oldXs|
  {
    newXs[..k] + oldXs[k..]
  }

  /** Assigning position `k` its new value advances the splice by one. */
  lemma SplicedNext<T>(newXs: seq<T>, oldXs: seq<T>, k: nat)
    requires |newXs| == |oldXs| && k < |oldXs|
    ensures Spliced(newXs, oldXs, k)[k := newXs[k]] == Spliced(newXs, oldXs, k + 1)
    ensures newXs[k] == oldXs[k] ==> Spliced(newXs, oldXs, k) == Spliced(newXs, oldXs, k + 1)
  {
    assert newXs[..k + 1] == newXs[..k] + [newXs[k]];
  }

  /** Where a layout pass leaves the items: one not being dragged is
      centred in the slot of its index, a dragged one stays where it is. */
  function LaidOut(positions: seq<Vec>, drags: seq<bool>, surfaceRect: Rect, layout: Layout): seq<Vec>
    requires |positions| == |drags|
  {
    seq(|positions|, j requires 0 <= j < |positions| =>
      if drags[j] then positions[j] else SlotPosition(surfaceRect, layout, j))
  }

  /** The x coordinates a layout pass leaves: the slot's for an item not
      being dragged, unchanged for a dragged one. */
  function LaidOutXs(xs: seq<int>, drags: seq<bool>, surfaceRect: Rect, layout: Layout): seq<int>
    requires |xs| == |drags|
  {
    seq(|xs|, j requires 0 <= j < |xs| =>
      if drags[j] then xs[j] else SlotX(surfaceRect, layout, j))
  }

  /** The drag rectangles a layout pass leaves: rebuilt around the slot for
      an item not being dragged, unchanged for a dragged one. */
  function LaidOutRects(rects: seq<Rect>, drags: seq<bool>, surfaceRect: Rect, layout: Layout): seq<Rect>
    requires |rects| == |drags|
  {
    seq(|rects|, j requires 0 <= j < |rects| =>
      if drags[j] then rects[j] else DraggableRect(SlotPosition(surfaceRect, layout, j), layout))
  }

  /** With no item being dragged, a layout pass leaves the x coordinates
      strictly increasing along the list, so the next re-sort by position
      keeps the list as it is. */
  lemma UndraggedLayoutIncreases(xs: seq<int>, drags: seq<bool>, surfaceRect: Rect, layout: Layout)
    requires |xs| == |drags| && layout.diameter + layout.spacing > 0
    requires forall j :: 0 <= j < |drags| ==> !drags[j]
    ensures forall a, b :: 0 <= a < b < |xs| ==>
      LaidOutXs(xs, drags, surfaceRect, layout)[a] < LaidOutXs(xs, drags, surfaceRect, layout)[b]
  {
    forall a, b | 0 <= a < b < |xs|
      ensures LaidOutXs(xs, drags, surfaceRect, layout)[a] < LaidOutXs(xs, drags, surfaceRect, layout)[b]
    {
      SlotsIncrease(surfaceRect, layout, a, b);
    }
  }

  /** What the layout loop has drawn after visiting its first `i` children,
      stated over a snapshot taken before the loop: `drags[j]` says child
      `j` is being dragged, `positions[j]` is where it is and `incap[j]`
      whether the pawn is incapable of its work type. There is one marker,
      in child order, for each dragged child over the surface, and each
      names the child's left neighbour in the row as it stood when the
      child was reached. */
  ghost predicate MarkersUpTo(markers: seq<Marker>, i: nat, drags: seq<bool>, positions: seq<Vec>,
                              incap: seq<bool>, newXs: seq<int>, oldXs: seq<int>, surfaceRect: Rect)
    requires i <= |drags| == |positions| == |incap| == |newXs| == |oldXs|
  {
    && (forall m :: m in markers ==>
          && m.nomad < i && drags[m.nomad]
          && surfaceRect.Contains(positions[m.nomad])
          && m.red == incap[m.nomad]
          && IsLeftNeighbour(Spliced(newXs, oldXs, m.nomad), m.nomad, m.neighbour))
    && (forall j :: 0 <= j < i && drags[j] && surfaceRect.Contains(positions[j]) ==>
          exists m :: m in markers && m.nomad == j)
    && (forall a, b :: 0 <= a < b < |markers| ==> markers[a].nomad < markers[b].nomad)
  }

  /** Visiting child `i` keeps `MarkersUpTo`: its marker, if any, is
      appended. */
  lemma MarkersStep(markers: seq<Marker>, i: nat, marker: Option<Marker>, drags: seq<bool>, positions: seq<Vec>,
                    incap: seq<bool>, newXs: seq<int>, oldXs: seq<int>, surfaceRect: Rect)
    requires i < |drags| == |positions| == |incap| == |newXs| == |oldXs|
    requires MarkersUpTo(markers, i, drags, positions, incap, newXs, oldXs, surfaceRect)
    requires marker.Some? <==> drags[i] && surfaceRect.Contains(positions[i])
    requires marker.Some? ==>
      && marker.value.nomad == i && marker.value.red == incap[i]
      && IsLeftNeighbour(Spliced(newXs, oldXs, i), i, marker.value.neighbour)
    ensures MarkersUpTo(if marker.Some? then markers + [marker.value] else markers, i + 1,
                        drags, positions, incap, newXs, oldXs, surfaceRect)
  {
    if marker.Some? {
      var ms := markers + [marker.value];
      forall m | m in ms
        ensures m.nomad < i + 1 && drags[m.nomad] && surfaceRect.Contains(positions[m.nomad])
        ensures m.red == incap[m.nomad] && IsLeftNeighbour(Spliced(newXs, oldXs, m.nomad), m.nomad, m.neighbour)
      {
        if m != marker.value {
          assert m in markers;
        }
      }
      forall j | 0 <= j < i + 1 && drags[j] && surfaceRect.Contains(positions[j])
        ensures exists m :: m in ms && m.nomad == j
      {
        if j < i {
          var m :| m in markers && m.nomad == j;
          assert m in ms;
        } else {
          assert ms[|markers|] == marker.value;
        }
      }
      forall a, b | 0 <= a < b < |ms| ensures ms[a].nomad < ms[b].nomad {
        if b == |markers| {
          assert markers[a] in markers;
        }
      }
    }
  }

  /** `List.LastIndexOf` on the catalog: the last index holding `def`, or
      -1 when the catalog does not list it. The reset loop writes each
      catalog index in turn, so this is the index an item ends up with. */
  function LastIndex(catalog: seq<WorkTypeDef>, def: WorkTypeDef): (r: int)
    ensures -1 <= r < |catalog|
    ensures r >= 0 ==> catalog[r] == def && forall i :: r < i < |catalog| ==> catalog[i] != def
    ensures r == -1 <==> def !in catalog
  {
    if catalog == [] then -1
    else if catalog[|catalog| - 1] == def then |catalog| - 1
    else LastIndex(catalog[..|catalog| - 1], def)
  }

  /** Work types standing at their catalog indices, in non-decreasing
      order, are exactly the catalog when there are as many of them, all
      different, as the catalog has entries. */
  lemma CatalogOrderRestored(defs: seq<WorkTypeDef>, xs: seq<int>, catalog: seq<WorkTypeDef>)
    requires |defs| == |xs| == |catalog| && Distinct(defs)
    requires forall a :: 0 <= a < |defs| ==> defs[a] in catalog && xs[a] == LastIndex(catalog, defs[a])
    requires forall a, b :: 0 <= a < b < |xs| ==> xs[a] <= xs[b]
    ensures defs == catalog
  {
    forall b, c | 0 <= b < c < |xs|
      ensures xs[b] < xs[c]
    {
      assert xs[b] <= xs[c] && defs[b] != defs[c];
      assert catalog[xs[b]] == defs[b] && catalog[xs[c]] == defs[c];
    }
    IncreasingFill(xs);
    forall a | 0 <= a < |defs|
      ensures defs[a] == catalog[a]
    {
      assert catalog[xs[a]] == defs[a];
    }
  }

  // ---------------------------------------------------------------------
  // Functions over the items, reading only their immutable fields
  // ---------------------------------------------------------------------

  /** The work types of `cs`, in order. */
  function Defs(cs: seq<DraggableWork>): seq<WorkTypeDef> {
    seq(|cs|, i requires 0 <= i < |cs| => cs[i].def)
  }

  /** Items `i` and `j` of `cs` have different work types. */
  predicate DefsDiffer(cs: seq<DraggableWork>, i: nat, j: nat)
    requires i < |cs| && j < |cs|
  {
    cs[i].def != cs[j].def
  }

  /** No two items share a work type. (The pairs are instantiated only
      where a proof names them, through `DefsDiffer` or `DefsApart`.) */
  predicate DistinctDefs(cs: seq<DraggableWork>) {
    forall i, j {:trigger DefsDiffer(cs, i, j)} :: 0 <= i < j < |cs| ==> DefsDiffer(cs, i, j)
  }

  /** Two different items of a list with distinct work types have
      different work types. */
  lemma DefsApart(cs: seq<DraggableWork>, i: nat, j: nat)
    requires DistinctDefs(cs) && i < |cs| && j < |cs| && i != j
    ensures cs[i].def != cs[j].def
  {
    if i < j {
      assert DefsDiffer(cs, i, j);
    } else {
      assert DefsDiffer(cs, j, i);
    }
  }

  /** `m` maps each item's work type to that item and nothing else. */
  predicate LookupMatches(cs: seq<DraggableWork>, m: map<WorkTypeDef, DraggableWork>) {
    && (forall c {:trigger c in cs} :: c in cs ==> c.def in m && m[c.def] == c)
    && (forall d {:trigger d in m} :: d in m ==> m[d] in cs && m[d].def == d)
  }

  /** The dictionary after the refresh loop has stored each item of `cs`,
      in order, under its work type. */
  function Refreshed(m: map<WorkTypeDef, DraggableWork>, cs: seq<DraggableWork>): map<WorkTypeDef, DraggableWork> {
    if cs == [] then m
    else
      var last := cs[|cs| - 1];
      Refreshed(m, cs[..|cs| - 1])[last.def := last]
  }

  /** After the refresh, every item is found under its own work type, and
      every other entry is the one that was there before. */
  lemma {:induction false} RefreshedLookup(m: map<WorkTypeDef, DraggableWork>, cs: seq<DraggableWork>)
    requires DistinctDefs(cs)
    ensures forall i :: 0 <= i < |cs| ==> cs[i].def in Refreshed(m, cs) && Refreshed(m, cs)[cs[i].def] == cs[i]
    ensures forall d :: d !in Defs(cs) ==> (d in Refreshed(m, cs) <==> d in m)
    ensures forall d :: d !in Defs(cs) && d in m ==> Refreshed(m, cs)[d] == m[d]
  {
    if cs != [] {
      var init := cs[..|cs| - 1];
      forall i, j | 0 <= i < j < |init| ensures DefsDiffer(init, i, j) {
        assert DefsDiffer(cs, i, j);
      }
      RefreshedLookup(m, init);
      assert Defs(cs) == Defs(init) + [cs[|cs| - 1].def];
      forall i | 0 <= i < |init| ensures cs[i].def != cs[|cs| - 1].def {
        DefsApart(cs, i, |cs| - 1);
      }
    }
  }

  /** Refreshing an empty dictionary from items with distinct work types
      yields a lookup that matches them exactly. */
  lemma RefreshedFromEmpty(cs: seq<DraggableWork>)
    requires DistinctDefs(cs)
    ensures LookupMatches(cs, Refreshed(map[], cs))
  {
    var m := Refreshed(map[], cs);
    RefreshedLookup(map[], cs);
    forall c | c in cs ensures c.def in m && m[c.def] == c {
      var k :| 0 <= k < |cs| && cs[k] == c;
    }
    forall d | d in m ensures m[d] in cs && m[d].def == d {
      assert d in Defs(cs);
      var k :| 0 <= k < |cs| && Defs(cs)[k] == d;
      assert m[cs[k].def] == cs[k];
    }
  }

  /** The `FindIndex` that looks an item up by its work type: the first
      index holding `def`, or -1. */
  function IndexOfDef(cs: seq<DraggableWork>, def: WorkTypeDef): (r: int)
    ensures -1 <= r < |cs|
    ensures r >= 0 ==> cs[r].def == def && forall j :: 0 <= j < r ==> cs[j].def != def
    ensures r == -1 <==> def !in Defs(cs)
  {
    assert forall j :: 0 <= j < |cs| ==> Defs(cs)[j] == cs[j].def;
    FindIndex(cs, (dr: DraggableWork) => dr.def == def)
  }

  /** The x coordinates the reset's placement loop leaves: each item whose
      work type `catalog` lists takes that catalog index, the others keep
      theirs. */
  function PlacedXs(xs: seq<int>, defs: seq<WorkTypeDef>, catalog: seq<WorkTypeDef>): (r: seq<int>)
    requires |xs| == |defs|
    ensures |r| == |xs|
    ensures forall i :: 0 <= i < |xs| && defs[i] in catalog ==> r[i] == LastIndex(catalog, defs[i]) >= 0
    ensures forall i :: 0 <= i < |xs| && defs[i] !in catalog ==> r[i] == xs[i]
  {
    seq(|xs|, i requires 0 <= i < |xs| => if defs[i] in catalog then LastIndex(catalog, defs[i]) else xs[i])
  }

  /** Placement changes nothing when every catalogued item already sits at
      its catalog index. */
  lemma PlacedXsFixed(xs: seq<int>, defs: seq<WorkTypeDef>, catalog: seq<WorkTypeDef>)
    requires |xs| == |defs|
    requires forall i :: 0 <= i < |xs| && defs[i] in catalog ==> xs[i] == LastIndex(catalog, defs[i])
    ensures PlacedXs(xs, defs, catalog) == xs
  {
  }

  /** The x coordinates of `cs`, in order. */
  function XsOf(cs: seq<DraggableWork>): seq<int>
    reads cs
  {
    seq(|cs|, i requires 0 <= i < |cs| reads cs => cs[i].position.x)
  }

  /** The positions of `cs`, in order. */
  ghost function PositionsOf(cs: seq<DraggableWork>): seq<Vec>
    reads cs
  {
    seq(|cs|, i requires 0 <= i < |cs| reads cs => cs[i].position)
  }

  /** The drag rectangles of `cs`, in order. */
  ghost function RectsOf(cs: seq<DraggableWork>): seq<Rect>
    reads cs
  {
    seq(|cs|, i requires 0 <= i < |cs| reads cs => cs[i].dragRect)
  }

  /** Whether each of `cs` is being dragged, in order. */
  ghost function DraggingOf(cs: seq<DraggableWork>): seq<bool>
    reads cs
  {
    seq(|cs|, i requires 0 <= i < |cs| reads cs => cs[i].dragging)
  }

  /** Whether `pawn` is incapable of the work type of each of `cs`. */
  function IncapableOf(cs: seq<DraggableWork>, pawn: Pawn): seq<bool> {
    seq(|cs|, i requires 0 <= i < |cs| => cs[i].def in pawn.incapable)
  }

  /** Rearranging the items by a permutation keeps their work types apart. */
  lemma PermuteKeepsDefsDistinct(cs: seq<DraggableWork>, p: seq<nat>)
    requires IsPermutation(p, |cs|) && DistinctDefs(cs)
    ensures DistinctDefs(Permute(cs, p))
  {
    var r := Permute(cs, p);
    forall i, j | 0 <= i < j < |r| ensures DefsDiffer(r, i, j) {
      DefsApart(cs, p[i], p[j]);
    }
  }

  /** Moving one item keeps the work types apart. */
  lemma MoveKeepsDefsDistinct(cs: seq<DraggableWork>, from: nat, to: nat)
    requires from < |cs| && to < |cs| && DistinctDefs(cs)
    ensures DistinctDefs(Move(cs, from, to))
  {
    var r := Move(cs, from, to);
    forall i, j | 0 <= i < j < |r| ensures DefsDiffer(r, i, j) {
      MoveAt(cs, from, to, i);
      MoveAt(cs, from, to, j);
      DefsApart(cs, MoveSource(from, to, i), MoveSource(from, to, j));
    }
  }

  // ---------------------------------------------------------------------
  // The colonist
  // ---------------------------------------------------------------------

  /** The colonist a surface belongs to: the work types it can never do
      (`story.WorkTypeIsDisabled`) and its work settings, where a missing
      entry reads as priority 0, "disabled". */
  class Pawn {
    const incapable: set<WorkTypeDef>
    var priorities: map<WorkTypeDef, int>

    constructor (incapable: set<WorkTypeDef>, priorities: map<WorkTypeDef, int>)
      ensures this.incapable == incapable && this.priorities == priorities
    {
      this.incapable := incapable;
      this.priorities := priorities;
    }

    /** `workSettings.GetPriority`. */
    function GetPriority(def: WorkTypeDef): int
      reads this
    {
      if def in priorities then priorities[def] else 0
    }

    /** `workSettings.SetPriority`. */
    method SetPriority(def: WorkTypeDef, priority: int)
      modifies this
      ensures priorities == old(priorities)[def := priority]
    {
      priorities := priorities[def := priority];
    }

    /** `workSettings.Disable`: the priority becomes 0. */
    method Disable(def: WorkTypeDef)
      modifies this
      ensures priorities == old(priorities)[def := 0]
    {
      priorities := priorities[def := 0];
    }
  }

  // ---------------------------------------------------------------------
  // One draggable work item
  // ---------------------------------------------------------------------

  /** One work type on a surface (`DraggableWork`). */
  class DraggableWork {
    const def: WorkTypeDef
    /** The colonist can never do this work type. */
    const completelyDisabled: bool
    /** The surface the item belongs to. */
    const parent: PawnSurface
    var disabled: bool
    var position: Vec
    var dragRect: Rect
    var dragging: bool

    /** A new, idle item. Like the `Disabled` setter, it does not let a work
        type the colonist is incapable of start out enabled. */
    constructor (def: WorkTypeDef, incapablePawn: bool, parent: PawnSurface, startDisabled: bool)
      ensures this.def == def && completelyDisabled == incapablePawn && this.parent == parent
      ensures disabled == (startDisabled || incapablePawn) && !dragging
    {
      this.def := def;
      completelyDisabled := incapablePawn;
      this.parent := parent;
      disabled := startDisabled || incapablePawn;
      position := Vec(0, 0);
      dragRect := Rect(0, 0, 0, 0);
      dragging := false;
    }

    /** The `Disabled` setter: a completely disabled item stays disabled. */
    method SetDisabled(value: bool)
      modifies this`disabled
      ensures disabled == (value || completelyDisabled)
    {
      disabled := value || completelyDisabled;
    }

    /** `OnDrop`: the drag ends and the item stays where it was released. */
    method OnDrop()
      modifies this`dragging
      ensures !dragging
    {
      dragging := false;
    }
  }

  // ---------------------------------------------------------------------
  // The surface
  // ---------------------------------------------------------------------

  /** One colonist's ordered work items (`PawnSurface`). */
  class PawnSurface {
    /** The items, in priority order. */
    var children: seq<DraggableWork>
    /** The lookup from work type to item. */
    var childByDef: map<WorkTypeDef, DraggableWork>
    const pawn: Pawn

    /** One item per work type, all owned by this surface, the lookup in
        step with the list, and no incapable work type enabled. */
    ghost predicate Valid()
      reads this, children`disabled
    {
      && DistinctDefs(children)
      && LookupMatches(children, childByDef)
      && (forall c {:trigger c in children} :: c in children ==> c.parent == this)
      && (forall c {:trigger c in children} :: c in children ==> c.completelyDisabled == (c.def in pawn.incapable))
      && (forall c {:trigger c in children} :: c in children ==> c.completelyDisabled ==> c.disabled)
    }

    /** The colonist's work settings agree with the list: each item's
        priority is its rank if it is enabled and 0 if it is disabled. */
    ghost predicate Synced()
      reads this, children`disabled, pawn
    {
      forall i :: 0 <= i < |children| ==>
        pawn.GetPriority(children[i].def) == Rank(children[i].disabled, i)
    }

    /** The child at index `a` stands no further right than the one at `b`. */
    ghost predicate InPositionOrder(a: nat, b: nat)
      requires a < |children| && b < |children|
      reads this, children`position
    {
      children[a].position.x <= children[b].position.x
    }

    /** The children stand in left-to-right order of their positions. */
    ghost predicate SortedByPosition()
      reads this, children`position
    {
      forall a, b {:trigger InPositionOrder(a, b)} :: 0 <= a < b < |children| ==> InPositionOrder(a, b)
    }

    /** `target` is the first child, in list order, whose rectangle holds
        `point`, or none when no child's does. */
    ghost predicate IsFirstUnder(target: Option<nat>, point: Vec)
      reads this, children`dragRect
    {
      match target
      case Some(i) =>
        && i < |children| && children[i].dragRect.Contains(point)
        && forall j :: 0 <= j < i ==> !children[j].dragRect.Contains(point)
      case None =>
        forall j :: 0 <= j < |children| ==> !children[j].dragRect.Contains(point)
    }

    /** The surface is in the state a reset leaves: every item that can be
        enabled is, every catalogued item sits at its catalog index, the
        list is sorted by position, and the settings agree with it. */
    ghost predicate IsDefaultState(catalog: seq<WorkTypeDef>)
      reads this, children`disabled, children`position, pawn
    {
      && (forall i :: 0 <= i < |children| ==> children[i].disabled == children[i].completelyDisabled)
      && IsDefaultOrder(catalog)
    }

    /** The state a priority reset leaves: every catalogued item at its
        catalog index, the list sorted by position, the settings in step. */
    ghost predicate IsDefaultOrder(catalog: seq<WorkTypeDef>)
      reads this, children`disabled, children`position, pawn
    {
      && AtCatalogIndices(catalog)
      && SortedByPosition()
      && Synced()
    }

    /** Every item whose work type the catalog lists has the x coordinate of
        that catalog index. */
    ghost predicate AtCatalogIndices(catalog: seq<WorkTypeDef>)
      reads this, children`position
    {
      forall c {:trigger c in children} :: c in children && c.def in catalog ==> c.position.x == LastIndex(catalog, c.def)
    }

    /** Builds the surface for `pawn` from the catalog of work types: one
        item per entry, in catalog order, each incapable exactly when the
        colonist is and disabled when its priority was 0. The source then
        sorts the list by priority but throws the sorted copy away, so the
        catalog order stands. */
    constructor (pawn: Pawn, catalog: seq<WorkTypeDef>)
      requires Distinct(catalog)
      modifies pawn
      ensures Valid() && Synced() && this.pawn == pawn
      ensures Defs(children) == catalog
      ensures forall i :: 0 <= i < |children| ==>
        && children[i].completelyDisabled == (catalog[i] in pawn.incapable)
        && children[i].disabled == (old(pawn.GetPriority(catalog[i])) == 0 || catalog[i] in pawn.incapable)
        && !children[i].dragging
      ensures forall d :: d !in catalog ==> pawn.GetPriority(d) == old(pawn.GetPriority(d))
    {
      this.pawn := pawn;
      children := [];
      childByDef := map[];
      new;
      AddWorkItems(catalog);
      assert Defs(children) == catalog;
      RefreshChildrenDictionary();
      RefreshedFromEmpty(children);
      UpdatePawnPriorities();
    }

    /** The constructor's loop: appends one new, idle item per catalog
        entry, incapable exactly when the colonist is and disabled when the
        entry's priority is 0. */
    method AddWorkItems(catalog: seq<WorkTypeDef>)
      requires children == []
      modifies this`children
      ensures Defs(children) == catalog
      ensures forall j :: 0 <= j < |children| ==>
        && children[j].parent == this
        && children[j].completelyDisabled == (catalog[j] in pawn.incapable)
        && children[j].disabled == (pawn.GetPriority(catalog[j]) == 0 || catalog[j] in pawn.incapable)
        && !children[j].dragging
    {
      var i := 0;
      while i < |catalog|
        invariant 0 <= i <= |catalog| && |children| == i
        invariant forall j :: 0 <= j < i ==>
          && children[j].def == catalog[j] && children[j].parent == this
          && children[j].completelyDisabled == (catalog[j] in pawn.incapable)
          && children[j].disabled == (pawn.GetPriority(catalog[j]) == 0 || catalog[j] in pawn.incapable)
          && !children[j].dragging
      {
        var def := catalog[i];
        var incapablePawn := def in pawn.incapable;
        var currentlyDisabled := pawn.GetPriority(def) == 0;
        var newWork := new DraggableWork(def, incapablePawn, this, currentlyDisabled);
        children := children + [newWork];
        i := i + 1;
      }
    }

    /** `RefreshChildrenDictionary`: stores every child under its work type,
        keeping whatever else the dictionary held. */
    method RefreshChildrenDictionary()
      modifies this`childByDef
      ensures childByDef == Refreshed(old(childByDef), children)
    {
      var i := 0;
      while i < |children|
        invariant 0 <= i <= |children|
        invariant childByDef == Refreshed(old(childByDef), children[..i])
      {
        var current := children[i];
        assert children[..i + 1][..i] == children[..i];
        childByDef := childByDef[current.def := current];
        i := i + 1;
      }
      assert children[..i] == children;
    }

    /** `UpdatePawnPriorities`: writes every child's rank, or 0 for a
        disabled child, into the work settings; no other work type's
        priority changes. */
    method UpdatePawnPriorities()
      requires Valid()
      modifies pawn
      ensures Valid() && Synced()
      ensures forall d :: d !in Defs(children) ==> pawn.GetPriority(d) == old(pawn.GetPriority(d))
    {
      var i := 0;
      while i < |children|
        invariant 0 <= i <= |children|
        invariant forall j :: 0 <= j < i ==>
          pawn.GetPriority(children[j].def) == Rank(children[j].disabled, j)
        invariant forall d :: d !in Defs(children[..i]) ==> pawn.GetPriority(d) == old(pawn.GetPriority(d))
      {
        var current := children[i];
        forall j | 0 <= j < i ensures children[j].def != current.def {
          DefsApart(children, j, i);
        }
        if !current.disabled {
          pawn.SetPriority(children[i].def, i + 1);
        } else {
          pawn.Disable(current.def);
        }
        assert Defs(children[..i + 1]) == Defs(children[..i]) + [current.def];
        i := i + 1;
      }
      assert children[..i] == children;
    }

    /** `OrderChildrenByPosition`: the children stably sorted by x; the
        lookup still matches. */
    method OrderChildrenByPosition()
      requires Valid()
      modifies this`children
      ensures Valid()
      ensures children == Permute(old(children), SortOrder(old(XsOf(children))))
      ensures forall c :: c in children <==> c in old(children)
      ensures SortedByPosition()
    {
      var xs := XsOf(children);
      var order := SortOrder(xs);
      PermuteKeepsElements(children, order);
      PermuteKeepsDefsDistinct(children, order);
      SortedKeys(xs);
      children := Permute(children, order);
      forall a, b | 0 <= a < b < |children|
        ensures InPositionOrder(a, b)
      {
        assert children[a].position.x == Permute(xs, order)[a];
        assert children[b].position.x == Permute(xs, order)[b];
      }
    }

    /** `OnDrop`: sort the list by position, then rewrite the priorities. */
    method OnDrop()
      requires Valid()
      modifies this`children, pawn
      ensures Valid() && Synced()
      ensures children == Permute(old(children), SortOrder(old(XsOf(children))))
      ensures forall c :: c in children <==> c in old(children)
      ensures SortedByPosition()
      ensures forall d :: d !in Defs(children) ==> pawn.GetPriority(d) == old(pawn.GetPriority(d))
    {
      OrderChildrenByPosition();
      assert Valid() && SortedByPosition();
      UpdatePawnPriorities();
      assert Valid() && SortedByPosition();
    }

    /** The hit test shared by `OnClicked` and `OnHover`: the first child,
        in list order, whose rectangle holds `point`. */
    method ChildUnder(point: Vec) returns (target: Option<nat>)
      ensures IsFirstUnder(target, point)
    {
      var i := 0;
      while i < |children|
        invariant 0 <= i <= |children|
        invariant forall j :: 0 <= j < i ==> !children[j].dragRect.Contains(point)
      {
        if children[i].dragRect.Contains(point) {
          return Some(i);
        }
        i := i + 1;
      }
      return None;
    }

    /** `DrawDynamicPosition`: scanning down from the last child, the first
        other child whose x is left of the dragged child `k`; the marker is
        red when the colonist is incapable of the dragged work type. */
    method DrawDynamicPosition(k: nat) returns (marker: Marker)
      requires k < |children|
      ensures marker.nomad == k && marker.red == (children[k].def in pawn.incapable)
      ensures IsLeftNeighbour(XsOf(children), k, marker.neighbour)
    {
      var nomad := children[k];
      var red := nomad.def in pawn.incapable;
      var i := |children| - 1;
      while i >= 0
        invariant -1 <= i < |children|
        invariant forall l :: i < l < |children| && l != k ==> nomad.position.x <= children[l].position.x
      {
        var child := children[i];
        if child != nomad && child.position.x < nomad.position.x {
          return Marker(k, Some(i), red);
        }
        i := i - 1;
      }
      return Marker(k, None, red);
    }

    /** The non-dragged branch of the layout loop: child `i` is moved to
        `position` and its drag rectangle is rebuilt around it. */
    method PlaceInSlot(i: nat, draggable: DraggableWork, position: Vec, layout: Layout)
      requires i < |children| && children[i] == draggable
      requires forall j :: 0 <= j < |children| && j != i ==> children[j] != draggable
      modifies draggable`position, draggable`dragRect
      ensures draggable.position == position
      ensures draggable.dragRect == DraggableRect(position, layout)
      ensures XsOf(children) == old(XsOf(children))[i := position.x]
      ensures PositionsOf(children) == old(PositionsOf(children))[i := position]
      ensures RectsOf(children) == old(RectsOf(children))[i := DraggableRect(position, layout)]
    {
      draggable.position := position;
      draggable.dragRect := DraggableRect(position, layout);
    }

    /** One pass of the layout loop for child `i`, stated against the
        snapshot taken before the loop (`drags`, `oldXs`, `oldPositions`,
        `oldRects`): the children before `i` are already laid out and the
        rest still stand where they were. A child not being dragged goes to
        slot `i`; a dragged child stays put and, when it is over the
        surface, yields its insertion marker. */
    method LayOutChild(i: nat, draggable: DraggableWork, surfaceRect: Rect, layout: Layout,
                       ghost drags: seq<bool>, ghost oldXs: seq<int>, ghost oldPositions: seq<Vec>, ghost oldRects: seq<Rect>)
      returns (marker: Option<Marker>)
      requires i < |children| == |drags| == |oldXs| == |oldPositions| == |oldRects|
      requires children[i] == draggable && draggable.dragging == drags[i]
      requires forall j :: 0 <= j < |children| && j != i ==> children[j] != draggable
      requires XsOf(children) == Spliced(LaidOutXs(oldXs, drags, surfaceRect, layout), oldXs, i)
      requires PositionsOf(children) == Spliced(LaidOut(oldPositions, drags, surfaceRect, layout), oldPositions, i)
      requires RectsOf(children) == Spliced(LaidOutRects(oldRects, drags, surfaceRect, layout), oldRects, i)
      modifies draggable`position, draggable`dragRect
      ensures XsOf(children) == Spliced(LaidOutXs(oldXs, drags, surfaceRect, layout), oldXs, i + 1)
      ensures PositionsOf(children) == Spliced(LaidOut(oldPositions, drags, surfaceRect, layout), oldPositions, i + 1)
      ensures RectsOf(children) == Spliced(LaidOutRects(oldRects, drags, surfaceRect, layout), oldRects, i + 1)
      ensures marker.Some? <==> drags[i] && surfaceRect.Contains(oldPositions[i])
      ensures marker.Some? ==>
        && marker.value.nomad == i
        && marker.value.red == (draggable.def in pawn.incapable)
        && IsLeftNeighbour(Spliced(LaidOutXs(oldXs, drags, surfaceRect, layout), oldXs, i), i, marker.value.neighbour)
    {
      ghost var newXs := LaidOutXs(oldXs, drags, surfaceRect, layout);
      ghost var newPositions := LaidOut(oldPositions, drags, surfaceRect, layout);
      ghost var newRects := LaidOutRects(oldRects, drags, surfaceRect, layout);
      SplicedNext(newXs, oldXs, i);
      SplicedNext(newPositions, oldPositions, i);
      SplicedNext(newRects, oldRects, i);
      assert draggable.position == oldPositions[i] by {
        assert PositionsOf(children)[i] == draggable.position;
      }
      marker := None;
      if !draggable.dragging {
        PlaceInSlot(i, draggable, SlotPosition(surfaceRect, layout, i), layout);
      } else if surfaceRect.Contains(draggable.position) {
        var m := DrawDynamicPosition(i);
        marker := Some(m);
      }
    }

    /** `DrawSurface`: every child not being dragged is laid out in the slot
        of its index; a dragged child keeps its position and, when it is
        over the surface, gets an insertion marker. The marker scan reads
        the slots already assigned to earlier children and last frame's
        positions of later ones. */
    method DrawSurface(surfaceRect: Rect, layout: Layout) returns (markers: seq<Marker>)
      requires DistinctDefs(children)
      modifies children`position, children`dragRect
      ensures PositionsOf(children) == LaidOut(old(PositionsOf(children)), old(DraggingOf(children)), surfaceRect, layout)
      ensures RectsOf(children) == LaidOutRects(old(RectsOf(children)), old(DraggingOf(children)), surfaceRect, layout)
      ensures MarkersUpTo(markers, |children|, old(DraggingOf(children)), old(PositionsOf(children)),
                          IncapableOf(children, pawn), XsOf(children), old(XsOf(children)), surfaceRect)
      ensures XsOf(children) == LaidOutXs(old(XsOf(children)), old(DraggingOf(children)), surfaceRect, layout)
    {
      ghost var oldXs := XsOf(children);
      ghost var oldPositions := PositionsOf(children);
      ghost var oldRects := RectsOf(children);
      ghost var drags := DraggingOf(children);
      ghost var incap := IncapableOf(children, pawn);
      ghost var newXs := LaidOutXs(oldXs, drags, surfaceRect, layout);
      ghost var newPositions := LaidOut(oldPositions, drags, surfaceRect, layout);
      ghost var newRects := LaidOutRects(oldRects, drags, surfaceRect, layout);
      markers := [];
      var i := 0;
      while i < |children|
        invariant 0 <= i <= |children|
        invariant XsOf(children) == Spliced(newXs, oldXs, i)
        invariant PositionsOf(children) == Spliced(newPositions, oldPositions, i)
        invariant RectsOf(children) == Spliced(newRects, oldRects, i)
        invariant MarkersUpTo(markers, i, drags, oldPositions, incap, newXs, oldXs, surfaceRect)
      {
        forall j | 0 <= j < |children| && j != i
          ensures children[j] != children[i]
        {
          DefsApart(children, i, j);
        }
        var marker := LayOutChild(i, children[i], surfaceRect, layout, drags, oldXs, oldPositions, oldRects);
        MarkersStep(markers, i, marker, drags, oldPositions, incap, newXs, oldXs, surfaceRect);
        if marker.Some? {
          markers := markers + [marker.value];
        }
        i := i + 1;
      }
      assert XsOf(children) == newXs;
      assert PositionsOf(children) == newPositions && RectsOf(children) == newRects;
    }

    /** A layout pass with no child being dragged leaves the children in
        left-to-right order, so the next re-sort by position keeps the list
        as it is. */
    lemma UndraggedLayoutSorted(surfaceRect: Rect, layout: Layout, oldXs: seq<int>, drags: seq<bool>)
      requires |oldXs| == |drags| == |children| && layout.diameter + layout.spacing > 0
      requires forall j :: 0 <= j < |drags| ==> !drags[j]
      requires XsOf(children) == LaidOutXs(oldXs, drags, surfaceRect, layout)
      ensures SortedByPosition()
    {
      UndraggedLayoutIncreases(oldXs, drags, surfaceRect, layout);
      forall a, b | 0 <= a < b < |children|
        ensures InPositionOrder(a, b)
      {
        assert children[a].position.x == XsOf(children)[a] && children[b].position.x == XsOf(children)[b];
      }
    }

    /** `DoEventChecks`: routes one GUI event. While a drag is active
        (`nomad` is not null), only the release of this surface's own item
        does anything: the item is dropped, and if it was released inside
        the surface the list is re-sorted and the priorities rewritten.
        Without a drag, a repaint over the surface is a hover and a mouse
        press is a click, each forwarded to the first child under the
        pointer. */
    method DoEventChecks(surfaceRect: Rect, data: EventData, nomad: DraggableWork?) returns (outcome: EventOutcome)
      requires Valid()
      modifies this`children, pawn, nomad
      ensures Valid()
      ensures nomad != null ==>
        if nomad.parent == this && data.kind == MouseUp then
          && !nomad.dragging
          && outcome == (if surfaceRect.Contains(nomad.position) then DroppedInside else DroppedOutside)
        else
          outcome == Ignored
      ensures nomad == null ==>
        if !surfaceRect.Contains(data.mousePosition) then outcome == Ignored
        else if data.kind == Repaint then outcome.Hovered? && IsFirstUnder(outcome.target, data.mousePosition)
        else if data.kind == MouseDown then outcome.Clicked? && IsFirstUnder(outcome.target, data.mousePosition)
        else outcome == Ignored
      ensures outcome == DroppedInside ==>
        && Synced() && SortedByPosition()
        && children == Permute(old(children), SortOrder(old(XsOf(children))))
        && forall d :: d !in Defs(children) ==> pawn.GetPriority(d) == old(pawn.GetPriority(d))
      ensures outcome != DroppedInside ==>
        children == old(children) && childByDef == old(childByDef) && pawn.priorities == old(pawn.priorities)
      ensures nomad != null ==> nomad.position == old(nomad.position) && nomad.disabled == old(nomad.disabled)
      ensures nomad != null ==> nomad.dragRect == old(nomad.dragRect)
      ensures nomad != null && !(nomad.parent == this && data.kind == MouseUp) ==> nomad.dragging == old(nomad.dragging)
    {
      if nomad != null {
        if nomad.parent == this && data.kind == MouseUp {
          nomad.OnDrop();
          assert Valid() && XsOf(children) == old(XsOf(children));
          if surfaceRect.Contains(nomad.position) {
            OnDrop();
            return DroppedInside;
          }
          return DroppedOutside;
        }
        return Ignored;
      } else if surfaceRect.Contains(data.mousePosition) {
        if data.kind == Repaint {
          var target := ChildUnder(data.mousePosition);
          return Hovered(target);
        } else if data.kind == MouseDown {
          var target := ChildUnder(data.mousePosition);
          return Clicked(target);
        }
      }
      return Ignored;
    }

    /** `OnPrimaryShiftClick`: moves the item of work type `def` by `change`
        places when it stays within the list, then rewrites the priorities;
        otherwise nothing happens. `def` must be on the surface: the source
        indexes the list with `FindIndex`'s result unchecked. */
    method OnPrimaryShiftClick(change: int, def: WorkTypeDef)
      requires Valid() && def in Defs(children)
      modifies this`children, pawn
      ensures Valid()
      ensures var index := IndexOfDef(old(children), def);
        if 0 <= index + change < |old(children)| then
          && children == Move(old(children), index, index + change)
          && Synced()
          && forall d :: d !in Defs(children) ==> pawn.GetPriority(d) == old(pawn.GetPriority(d))
        else
          children == old(children) && pawn.priorities == old(pawn.priorities)
    {
      var index := IndexOfDef(children, def);
      var postChange := index + change;
      if 0 <= postChange < |children| {
        MoveChild(index, postChange);
        UpdatePawnPriorities();
      }
    }

    /** The reordering step of `OnPrimaryShiftClick`: the item at `index` is
        removed from the list and inserted again at `postChange`. */
    method MoveChild(index: nat, postChange: nat)
      requires Valid() && index < |children| && postChange < |children|
      modifies this`children
      ensures Valid() && children == Move(old(children), index, postChange)
    {
      var affectedWork := children[index];
      forall j | 0 <= j < index
        ensures children[j] != affectedWork
      {
        DefsApart(children, j, index);
      }
      MoveByRemoveInsert(children, index, postChange);
      MoveKeepsDefsDistinct(children, index, postChange);
      MoveKeepsMembers(children, index, postChange);
      children := RemoveFirst(children, affectedWork);
      children := InsertAt(children, postChange, affectedWork);
    }

    /** `EnableWorkType`: asks `draggable` to become enabled, which an item
        the colonist is incapable of refuses; only when it is enabled
        afterwards is its priority set to its index plus one. */
    method EnableWorkType(draggable: DraggableWork)
      requires Valid()
      modifies draggable`disabled, pawn
      ensures Valid()
      ensures draggable.disabled == draggable.completelyDisabled
      ensures var index := FindIndex(children, (d: DraggableWork) => d == draggable);
        if !draggable.completelyDisabled then
          pawn.priorities == old(pawn.priorities)[draggable.def := index + 1]
        else
          pawn.priorities == old(pawn.priorities)
      ensures draggable.position == old(draggable.position) && draggable.dragging == old(draggable.dragging)
      ensures old(Synced()) && draggable in children ==> Synced()
    {
      var index := FindIndex(children, (d: DraggableWork) => d == draggable);
      draggable.SetDisabled(false);
      assert Valid();
      if !draggable.disabled {
        pawn.SetPriority(draggable.def, index + 1);
      }
      if old(Synced()) && draggable in children {
        forall i | 0 <= i < |children|
          ensures pawn.GetPriority(children[i].def) == Rank(children[i].disabled, i)
        {
          if children[i] != draggable {
            assert children[i].def != draggable.def by {
              var k :| 0 <= k < |children| && children[k] == draggable;
              DefsApart(children, i, k);
            }
          } else if index != i {
            DefsApart(children, i, index);
          }
        }
      }
    }

    /** `DisableWorkType`: the priority of `draggable`'s work type becomes 0
        and the item is disabled. */
    method DisableWorkType(draggable: DraggableWork)
      requires Valid()
      modifies draggable`disabled, pawn
      ensures Valid()
      ensures draggable.disabled
      ensures pawn.priorities == old(pawn.priorities)[draggable.def := 0]
      ensures draggable.position == old(draggable.position) && draggable.dragging == old(draggable.dragging)
      ensures old(Synced()) && draggable in children ==> Synced()
    {
      pawn.Disable(draggable.def);
      draggable.SetDisabled(true);
      assert Valid();
      if old(Synced()) && draggable in children {
        forall i | 0 <= i < |children|
          ensures pawn.GetPriority(children[i].def) == Rank(children[i].disabled, i)
        {
          if children[i] != draggable {
            assert children[i].def != draggable.def by {
              var k :| 0 <= k < |children| && children[k] == draggable;
              DefsApart(children, i, k);
            }
          }
        }
      }
    }

    /** `DisableAllPawnWork`: every item disabled, the list order kept, and
        every one of the surface's work types at priority 0. */
    method DisableAllPawnWork()
      requires Valid()
      modifies children`disabled, pawn
      ensures Valid() && Synced()
      ensures forall i :: 0 <= i < |children| ==> children[i].disabled && pawn.GetPriority(children[i].def) == 0
      ensures forall i :: 0 <= i < |children| ==> children[i].position == old(children[i].position)
      ensures forall d :: d !in Defs(children) ==> pawn.GetPriority(d) == old(pawn.GetPriority(d))
    {
      var i := 0;
      while i < |children|
        invariant 0 <= i <= |children|
        invariant forall j :: 0 <= j < |children| ==>
          && children[j].disabled == (j < i || old(children[j].disabled))
          && children[j].position == old(children[j].position)
        invariant unchanged(pawn)
        invariant Valid()
      {
        forall j | 0 <= j < |children| && j != i ensures children[j] != children[i] { DefsApart(children, i, j); }
        children[i].SetDisabled(true);
        i := i + 1;
      }
      UpdatePawnPriorities();
    }

    /** The placement loop of `ResetWorkToDefaultPriorities`: for each
        catalog index in turn, the item of that work type gets that index as
        its x coordinate. Nothing else about the items changes. */
    method PlaceByCatalog(catalog: seq<WorkTypeDef>)
      requires Valid()
      requires forall d :: d in catalog ==> d in childByDef
      modifies children`position
      ensures Valid()
      ensures forall c {:trigger c in children} :: c in children ==>
        && c.position.y == old(c.position.y)
        && c.position.x == (if c.def in catalog then LastIndex(catalog, c.def) else old(c.position.x))
      ensures XsOf(children) == PlacedXs(old(XsOf(children)), Defs(children), catalog)
      ensures AtCatalogIndices(catalog)
    {
      var i := 0;
      while i < |catalog|
        invariant 0 <= i <= |catalog|
        invariant forall c {:trigger c in children} :: c in children ==>
          && c.position.y == old(c.position.y)
          && c.position.x == (if c.def in catalog[..i] then LastIndex(catalog[..i], c.def) else old(c.position.x))
      {
        var work := childByDef[catalog[i]];
        assert catalog[..i + 1][..i] == catalog[..i];
        work.position := work.position.(x := i);
        i := i + 1;
      }
      assert catalog[..i] == catalog;
      forall a | 0 <= a < |children|
        ensures XsOf(children)[a] == PlacedXs(old(XsOf(children)), Defs(children), catalog)[a]
      {
        assert children[a] in children;
      }
    }

    /** `ResetWorkToDefaultPriorities`: puts every item whose work type the
        catalog lists at that catalog index, re-sorts the list by position
        and rewrites the priorities. Every catalog entry must be on the
        surface: the source reads the lookup unchecked. */
    method ResetWorkToDefaultPriorities(catalog: seq<WorkTypeDef>)
      requires Valid()
      requires forall d :: d in catalog ==> d in childByDef
      modifies this`children, children`position, pawn
      ensures Valid() && IsDefaultOrder(catalog)
      ensures children == Permute(old(children), SortOrder(PlacedXs(old(XsOf(children)), Defs(old(children)), catalog)))
      ensures forall c {:trigger c in old(children)} :: c in old(children) ==>
        && c.position.y == old(c.position.y)
        && c.position.x == (if c.def in catalog then LastIndex(catalog, c.def) else old(c.position.x))
      ensures forall d :: d !in Defs(children) ==> pawn.GetPriority(d) == old(pawn.GetPriority(d))
    {
      PlaceByCatalog(catalog);
      OrderChildrenByPosition();
      assert AtCatalogIndices(catalog);
      UpdatePawnPriorities();
    }

    /** A priority reset (any change of state meeting the postcondition of
        `ResetWorkToDefaultPriorities`) that finds the surface already in its
        default order leaves the list, every position and every priority as
        they were. */
    twostate lemma DefaultOrderIsFixed(catalog: seq<WorkTypeDef>)
      requires old(IsDefaultOrder(catalog)) && Synced()
      requires children == Permute(old(children), SortOrder(PlacedXs(old(XsOf(children)), Defs(old(children)), catalog)))
      requires forall c {:trigger c in old(children)} :: c in old(children) ==> c.disabled == old(c.disabled)
      requires forall c {:trigger c in old(children)} :: c in old(children) ==>
        && c.position.y == old(c.position.y)
        && c.position.x == (if c.def in catalog then LastIndex(catalog, c.def) else old(c.position.x))
      requires forall d :: d !in Defs(children) ==> pawn.GetPriority(d) == old(pawn.GetPriority(d))
      ensures children == old(children)
      ensures forall c {:trigger c in children} :: c in children ==> c.position == old(c.position)
      ensures forall d :: pawn.GetPriority(d) == old(pawn.GetPriority(d))
    {
      assert children == old(children) by {
        forall a | 0 <= a < |old(children)| && Defs(old(children))[a] in catalog
          ensures old(XsOf(children))[a] == LastIndex(catalog, Defs(old(children))[a])
        {
          assert old(children)[a] in old(children);
        }
        forall a, b | 0 <= a < b < |old(children)|
          ensures old(XsOf(children))[a] <= old(XsOf(children))[b]
        {
          assert old(InPositionOrder(a, b));
        }
        PlacedXsFixed(old(XsOf(children)), Defs(old(children)), catalog);
        SortOrderOfSorted(old(XsOf(children)));
        PermuteRange(old(children));
      }
      forall d
        ensures pawn.GetPriority(d) == old(pawn.GetPriority(d))
      {
        if d in Defs(children) {
          var k :| 0 <= k < |children| && Defs(children)[k] == d;
          assert children[k] in old(children);
        }
      }
      forall c | c in children
        ensures c.position == old(c.position)
      {
        assert c in old(children);
      }
    }

    /** A surface holding exactly the catalog's work types, each at its
        catalog index and sorted by position, lists them in catalog order. */
    lemma DefaultOrderIsCatalogOrder(catalog: seq<WorkTypeDef>)
      requires DistinctDefs(children) && AtCatalogIndices(catalog) && SortedByPosition()
      requires Distinct(catalog) && |children| == |catalog|
      requires forall j :: 0 <= j < |children| ==> children[j].def in catalog
      ensures Defs(children) == catalog
    {
      var defs, xs := Defs(children), XsOf(children);
      assert forall a :: 0 <= a < |children| ==> children[a] in children;
      forall a, b | 0 <= a < b < |defs| ensures defs[a] != defs[b] { DefsApart(children, a, b); }
      forall a, b | 0 <= a < b < |xs| ensures xs[a] <= xs[b] { assert InPositionOrder(a, b); }
      CatalogOrderRestored(defs, xs, catalog);
    }

    /** The enabling loop of `ResetWorkToDefaultState`: every item the
        colonist is capable of is enabled; an incapable item already is
        disabled and stays so. Positions and the list are untouched. */
    method EnableAllCapable()
      requires Valid()
      modifies children`disabled
      ensures Valid()
      ensures forall c {:trigger c in children} :: c in children ==>
        && c.disabled == c.completelyDisabled
        && c.position == old(c.position) && c.dragging == old(c.dragging)
    {
      var i := 0;
      while i < |children|
        invariant 0 <= i <= |children|
        invariant forall j :: 0 <= j < |children| ==>
          && children[j].disabled == (if j < i then children[j].completelyDisabled else old(children[j].disabled))
          && children[j].position == old(children[j].position)
          && children[j].dragging == old(children[j].dragging)
        invariant Valid()
      {
        var current := children[i];
        assert current in children;
        forall j | 0 <= j < |children| && j != i ensures children[j] != current { DefsApart(children, i, j); }
        if !current.completelyDisabled {
          current.SetDisabled(false);
        }
        i := i + 1;
      }
    }

    /** `ResetWorkToDefaultState`: re-enables every item the colonist is
        capable of, then resets the priorities. Applied to a surface already
        in its default state it changes nothing. */
    method ResetWorkToDefaultState(catalog: seq<WorkTypeDef>)
      requires Valid()
      requires forall d :: d in catalog ==> d in childByDef
      modifies this`children, children`disabled, children`position, pawn
      ensures Valid() && IsDefaultState(catalog)
      ensures children == Permute(old(children), SortOrder(PlacedXs(old(XsOf(children)), Defs(old(children)), catalog)))
      ensures forall c {:trigger c in old(children)} :: c in old(children) ==>
        && c.position.y == old(c.position.y)
        && c.position.x == (if c.def in catalog then LastIndex(catalog, c.def) else old(c.position.x))
      ensures forall d :: d !in Defs(children) ==> pawn.GetPriority(d) == old(pawn.GetPriority(d))
    {
      ghost var xs := XsOf(children);
      EnableAllCapable();
      assert XsOf(children) == xs by {
        assert forall a :: 0 <= a < |children| ==> children[a] in children;
      }
      label Enabled:
      ResetWorkToDefaultPriorities(catalog);
      PermuteKeepsElements(old@Enabled(children), SortOrder(PlacedXs(xs, Defs(old@Enabled(children)), catalog)));
      forall j | 0 <= j < |children|
        ensures children[j].disabled == children[j].completelyDisabled
      {
        assert children[j] in old@Enabled(children);
      }
    }

    /** A reset of the whole state (any change of state meeting the
        postcondition of `ResetWorkToDefaultState`) that finds the surface
        in its default state changes nothing: not the list, not an item's
        position or flag, not a priority. */
    twostate lemma DefaultStateIsFixed(catalog: seq<WorkTypeDef>)
      requires old(IsDefaultState(catalog)) && IsDefaultState(catalog)
      requires children == Permute(old(children), SortOrder(PlacedXs(old(XsOf(children)), Defs(old(children)), catalog)))
      requires forall c {:trigger c in old(children)} :: c in old(children) ==>
        && c.position.y == old(c.position.y)
        && c.position.x == (if c.def in catalog then LastIndex(catalog, c.def) else old(c.position.x))
      requires forall d :: d !in Defs(children) ==> pawn.GetPriority(d) == old(pawn.GetPriority(d))
      ensures children == old(children)
      ensures forall c {:trigger c in children} :: c in children ==> c.position == old(c.position) && c.disabled == old(c.disabled)
      ensures forall d :: pawn.GetPriority(d) == old(pawn.GetPriority(d))
    {
      forall c | c in old(children)
        ensures c.disabled == old(c.disabled)
      {
        var k :| 0 <= k < |old(children)| && old(children)[k] == c;
        PermuteKeepsElements(old(children), SortOrder(PlacedXs(old(XsOf(children)), Defs(old(children)), catalog)));
        var m :| 0 <= m < |children| && children[m] == c;
      }
      DefaultOrderIsFixed(catalog);
    }
  }
}
