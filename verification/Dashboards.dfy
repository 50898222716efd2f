/** Generating the dashboard for one PostgreSQL version: filtering the panels and closing the gaps between rows. */
module Dashboards {
  import opened Wrappers

  const DEFAULT_MIN_VERSION := 13

  datatype Grid = Grid(y: int, h: int)
  datatype Panel = Panel(id: int, title: string, version: Option<int>, grid: Option<Grid>)

  function MinVersion(panel: Panel): int {
    panel.version.GetOr(DEFAULT_MIN_VERSION)
  }

  function FilterPanels(panels: seq<Panel>, target: int): seq<Panel> {
    if panels == [] then []
    else (if MinVersion(panels[0]) <= target then [panels[0]] else []) + FilterPanels(panels[1..], target)
  }

  function StripVersions(panels: seq<Panel>): (stripped: seq<Panel>)
    ensures |stripped| == |panels|
    ensures forall k :: 0 <= k < |panels| ==> stripped[k] == panels[k].(version := None)
  {
    if panels == [] then [] else [panels[0].(version := None)] + StripVersions(panels[1..])
  }

  // ----- rows -----

  predicate HasRow(panels: seq<Panel>, y: int) {
    exists k :: 0 <= k < |panels| && panels[k].grid.Some? && panels[k].grid.value.y == y
  }

  ghost predicate Increasing(ys: seq<int>) {
    forall i, j :: 0 <= i < j < |ys| ==> ys[i] < ys[j]
  }

  function AddRow(ys: seq<int>, y: int): seq<int> {
    if ys == [] || y < ys[0] then [y] + ys
    else if y == ys[0] then ys
    else [ys[0]] + AddRow(ys[1..], y)
  }

  /** The distinct row positions, top to bottom. */
  function Rows(panels: seq<Panel>): seq<int> {
    if panels == [] then []
    else if panels[0].grid.Some? then AddRow(Rows(panels[1..]), panels[0].grid.value.y)
    else Rows(panels[1..])
  }

  lemma {:induction false} AddRowExact(ys: seq<int>, y: int)
    requires Increasing(ys)
    ensures Increasing(AddRow(ys, y)) && forall z :: z in AddRow(ys, y) <==> z in ys || z == y
  {
    if ys != [] && y > ys[0] {
      AddRowExact(ys[1..], y);
      Below(ys);
      OnTop(ys[0], AddRow(ys[1..], y));
    } else if ys != [] && y < ys[0] {
      Below(ys);
      OnTop(y, ys);
    }
  }

  lemma {:induction false} OnTop(y: int, ys: seq<int>)
    requires Increasing(ys) && forall z :: z in ys ==> y < z
    ensures Increasing([y] + ys) && forall z :: z in [y] + ys <==> z in ys || z == y
  {
    var zs := [y] + ys;
    forall i, j | 0 <= i < j < |zs| ensures zs[i] < zs[j] {
      assert zs[j] == ys[j - 1] && ys[j - 1] in ys;
      if i > 0 {
        assert zs[i] == ys[i - 1];
      }
    }
  }

  lemma {:induction false} Below(ys: seq<int>)
    requires Increasing(ys) && ys != []
    ensures Increasing(ys[1..]) && forall z :: z in ys <==> z in ys[1..] || z == ys[0]
    ensures forall z :: z in ys[1..] ==> ys[0] < z
  {
    assert ys == [ys[0]] + ys[1..];
  }

  lemma {:induction false} RowsExact(panels: seq<Panel>)
    ensures Increasing(Rows(panels)) && forall y :: y in Rows(panels) <==> HasRow(panels, y)
  {
    if panels != [] {
      RowsExact(panels[1..]);
      if panels[0].grid.Some? {
        AddRowExact(Rows(panels[1..]), panels[0].grid.value.y);
      }
      forall y ensures HasRow(panels, y)
                       <==> HasRow(panels[1..], y) || (panels[0].grid.Some? && panels[0].grid.value.y == y) {
        if HasRow(panels[1..], y) {
          var k :| 0 <= k < |panels[1..]| && panels[1..][k].grid.Some? && panels[1..][k].grid.value.y == y;
          assert panels[k + 1] == panels[1..][k];
        }
        if HasRow(panels, y) {
          var k :| 0 <= k < |panels| && panels[k].grid.Some? && panels[k].grid.value.y == y;
          assert k > 0 ==> panels[1..][k - 1] == panels[k];
        }
      }
    }
  }

  /** The height of the tallest panel of a row, 0 if there is none. */
  function RowHeight(panels: seq<Panel>, y: int): int {
    if panels == [] then 0
    else if panels[0].grid.Some? && panels[0].grid.value.y == y && HasRow(panels[1..], y) then
      var rest := RowHeight(panels[1..], y);
      if panels[0].grid.value.h > rest then panels[0].grid.value.h else rest
    else if panels[0].grid.Some? && panels[0].grid.value.y == y then panels[0].grid.value.h
    else RowHeight(panels[1..], y)
  }

  lemma {:induction false} RowHeightIsMax(panels: seq<Panel>, y: int)
    requires HasRow(panels, y)
    ensures forall k :: 0 <= k < |panels| && panels[k].grid.Some? && panels[k].grid.value.y == y
                        ==> panels[k].grid.value.h <= RowHeight(panels, y)
    ensures exists k :: 0 <= k < |panels| && panels[k].grid == Some(Grid(y, RowHeight(panels, y)))
  {
    var w :| 0 <= w < |panels| && panels[w].grid.Some? && panels[w].grid.value.y == y;
    assert w > 0 ==> panels[1..][w - 1] == panels[w];
    if HasRow(panels[1..], y) {
      RowHeightIsMax(panels[1..], y);
      var k :| 0 <= k < |panels[1..]| && panels[1..][k].grid == Some(Grid(y, RowHeight(panels[1..], y)));
      assert panels[k + 1] == panels[1..][k];
      assert forall j :: 0 < j < |panels| ==> panels[j] == panels[1..][j - 1];
    } else {
      assert forall j :: 0 < j < |panels| ==> panels[j] == panels[1..][j - 1];
      assert panels[0].grid == Some(Grid(y, RowHeight(panels, y)));
    }
  }

  /** The heights of the first n rows that are lost, and of those that survive. */
  function Lost(panels: seq<Panel>, kept: seq<Panel>, n: nat): int
    requires n <= |Rows(panels)|
  {
    if n == 0 then 0
    else
      var y := Rows(panels)[n - 1];
      Lost(panels, kept, n - 1) + if HasRow(kept, y) then 0 else RowHeight(panels, y)
  }

  function Surviving(panels: seq<Panel>, kept: seq<Panel>, n: nat): int
    requires n <= |Rows(panels)|
  {
    if n == 0 then 0
    else
      var y := Rows(panels)[n - 1];
      Surviving(panels, kept, n - 1) + if HasRow(kept, y) then RowHeight(panels, y) else 0
  }

  /** Where the n-th template row ends up. */
  function NewY(panels: seq<Panel>, kept: seq<Panel>, n: nat): int
    requires n < |Rows(panels)|
  {
    Rows(panels)[n] - Lost(panels, kept, n + 1)
  }

  // ----- the recalculation, in place -----

  method KeptRows(kept: array<Panel>) returns (ys: set<int>)
    ensures forall y :: y in ys <==> HasRow(kept[..], y)
  {
    ys := {};
    for k := 0 to kept.Length
      invariant forall y :: y in ys <==> HasRow(kept[..k], y)
    {
      assert kept[..k + 1] == kept[..k] + [kept[k]];
      HasRowAppend(kept[..k], kept[k]);
      if kept[k].grid.Some? {
        ys := ys + {kept[k].grid.value.y};
      }
    }
    assert kept[..kept.Length] == kept[..];
  }

  lemma {:induction false} HasRowAppend(panels: seq<Panel>, panel: Panel)
    ensures forall y :: HasRow(panels + [panel], y)
                        <==> HasRow(panels, y) || (panel.grid.Some? && panel.grid.value.y == y)
  {
    var all := panels + [panel];
    forall y ensures HasRow(all, y) <==> HasRow(panels, y) || (panel.grid.Some? && panel.grid.value.y == y) {
      if HasRow(panels, y) {
        var k :| 0 <= k < |panels| && panels[k].grid.Some? && panels[k].grid.value.y == y;
        assert all[k] == panels[k];
      }
      if panel.grid.Some? && panel.grid.value.y == y {
        assert all[|panels|] == panel;
      }
    }
  }

  lemma {:induction false} NoneLost(panels: seq<Panel>, kept: seq<Panel>)
    ensures Lost(panels, kept, 0) == 0
  {
  }

  lemma {:induction false} LostStep(panels: seq<Panel>, kept: seq<Panel>, n: nat)
    requires n < |Rows(panels)|
    ensures Lost(panels, kept, n + 1)
            == Lost(panels, kept, n) + if HasRow(kept, Rows(panels)[n]) then 0 else RowHeight(panels, Rows(panels)[n])
  {
  }

  /** Walks the rows top to bottom, adding up the heights of those that are lost. */
  method Offsets(panels: seq<Panel>, ys: set<int>, ghost kept: seq<Panel>) returns (offsets: map<int, int>)
    requires forall y :: y in ys <==> HasRow(kept, y)
    ensures forall y :: y in offsets <==> y in Rows(panels)
    ensures forall n :: 0 <= n < |Rows(panels)|
                        ==> Rows(panels)[n] in offsets && offsets[Rows(panels)[n]] == Lost(panels, kept, n + 1)
  {
    hide Rows, RowHeight, HasRow, Lost;
    var rows := Rows(panels);
    RowsExact(panels);
    offsets := map[];
    var cumulative := 0;
    NoneLost(panels, kept);
    for i := 0 to |rows|
      invariant cumulative == Lost(panels, kept, i)
      invariant forall y :: y in offsets <==> y in rows[..i]
      invariant forall n :: 0 <= n < i ==> rows[n] in offsets && offsets[rows[n]] == Lost(panels, kept, n + 1)
    {
      LostStep(panels, kept, i);
      if rows[i] !in ys {
        cumulative := cumulative + RowHeight(panels, rows[i]);
      }
      offsets := offsets[rows[i] := cumulative];
      assert rows[..i + 1] == rows[..i] + [rows[i]];
    }
    assert rows[..|rows|] == rows;
  }

  /** A panel moved up by the offset of its row. */
  function Moved(panel: Panel, offsets: map<int, int>): Panel {
    if panel.grid.None? then panel
    else
      var y := panel.grid.value.y;
      panel.(grid := Some(panel.grid.value.(y := y - if y in offsets then offsets[y] else 0)))
  }

  /** Every kept panel of the n-th template row ends up at NewY of that row; nothing else about a panel changes. */
  method Recalculate(panels: seq<Panel>, kept: array<Panel>)
    modifies kept
    ensures forall k :: 0 <= k < kept.Length ==> kept[k] == old(kept[k]).(grid := kept[k].grid)
    ensures forall k :: 0 <= k < kept.Length && old(kept[k]).grid.None? ==> kept[k].grid.None?
    ensures forall k, n :: 0 <= k < kept.Length && 0 <= n < |Rows(panels)|
                           && old(kept[k]).grid.Some? && old(kept[k]).grid.value.y == Rows(panels)[n]
              ==> kept[k] == old(kept[k]).(grid := Some(old(kept[k]).grid.value.(y := NewY(panels, old(kept[..]), n))))
  {
    if kept.Length == 0 {
      return;
    }
    ghost var was := kept[..];
    var ys := KeptRows(kept);
    var offsets := Offsets(panels, ys, was);
    for k := 0 to kept.Length
      invariant forall j :: 0 <= j < k ==> kept[j] == Moved(was[j], offsets)
      invariant forall j :: k <= j < kept.Length ==> kept[j] == was[j]
    {
      kept[k] := Moved(kept[k], offsets);
    }
  }

  /** Sequential ids from 1. */
  method ReassignIds(kept: array<Panel>)
    modifies kept
    ensures forall k :: 0 <= k < kept.Length ==> kept[k] == old(kept[k]).(id := k + 1)
  {
    for i := 0 to kept.Length
      invariant forall k :: 0 <= k < i ==> kept[k] == old(kept[k]).(id := k + 1)
      invariant forall k :: i <= k < kept.Length ==> kept[k] == old(kept[k])
    {
      kept[i] := kept[i].(id := i + 1);
    }
  }

  // ----- the whole dashboard -----

  /** Rows are about grid positions alone. */
  ghost predicate SameGrids(a: seq<Panel>, b: seq<Panel>) {
    |a| == |b| && forall k :: 0 <= k < |a| ==> a[k].grid == b[k].grid
  }

  lemma {:induction false} SameRow(a: seq<Panel>, b: seq<Panel>, y: int)
    requires SameGrids(a, b)
    ensures HasRow(a, y) <==> HasRow(b, y)
  {
    if HasRow(a, y) {
      var k :| 0 <= k < |a| && a[k].grid.Some? && a[k].grid.value.y == y;
      assert b[k].grid == a[k].grid;
    }
    if HasRow(b, y) {
      var k :| 0 <= k < |b| && b[k].grid.Some? && b[k].grid.value.y == y;
      assert b[k].grid == a[k].grid;
    }
  }

  lemma {:induction false} SameRows(a: seq<Panel>, b: seq<Panel>)
    requires SameGrids(a, b)
    ensures Rows(a) == Rows(b)
  {
    if a != [] {
      SameRows(a[1..], b[1..]);
    }
  }

  lemma {:induction false} SameHeight(a: seq<Panel>, b: seq<Panel>, y: int)
    requires SameGrids(a, b)
    ensures RowHeight(a, y) == RowHeight(b, y)
  {
    if a != [] {
      SameHeight(a[1..], b[1..], y);
      SameRow(a[1..], b[1..], y);
    }
  }

  lemma {:induction false} SameLost(a: seq<Panel>, b: seq<Panel>, keptA: seq<Panel>, keptB: seq<Panel>, n: nat)
    requires SameGrids(a, b) && SameGrids(keptA, keptB) && n <= |Rows(a)|
    ensures Rows(a) == Rows(b) && Lost(a, keptA, n) == Lost(b, keptB, n)
  {
    SameRows(a, b);
    if n > 0 {
      SameLost(a, b, keptA, keptB, n - 1);
      SameRow(keptA, keptB, Rows(a)[n - 1]);
      SameHeight(a, b, Rows(a)[n - 1]);
    }
  }

  /**
   The panels of one version's dashboard: those the version has, in template order, numbered from 1, without their
   annotation, and each at the new position of its row.
   */
  method Generate(panels: seq<Panel>, target: int) returns (kept: array<Panel>)
    ensures fresh(kept) && kept.Length == |FilterPanels(panels, target)|
    ensures forall k :: 0 <= k < kept.Length
              ==> kept[k].id == k + 1 && kept[k].version == None
                    && kept[k].title == FilterPanels(panels, target)[k].title
                  && (FilterPanels(panels, target)[k].grid.None? ==> kept[k].grid.None?)
    ensures forall k, n :: 0 <= k < kept.Length && 0 <= n < |Rows(panels)| && FilterPanels(panels, target)[k].grid.Some?
                           && FilterPanels(panels, target)[k].grid.value.y == Rows(panels)[n]
              ==> kept[k].grid == Some(FilterPanels(panels, target)[k].grid.value.(
                                         y := NewY(panels, FilterPanels(panels, target), n)))
  {
    hide FilterPanels, Rows, Lost;
    var filtered := FilterPanels(panels, target);
    var stripped := StripVersions(filtered);
    kept := new Panel[|stripped|](i requires 0 <= i < |stripped| => stripped[i]);
    ReassignIds(kept);
    ghost var numbered := kept[..];
    var all := StripVersions(panels);
    SameRows(all, panels);
    forall n | 0 <= n < |Rows(panels)| ensures NewY(all, numbered, n) == NewY(panels, filtered, n) {
      SameLost(all, panels, numbered, filtered, n + 1);
    }
    Recalculate(all, kept);
  }

  // ----- the rows that survive still tile -----

  /** Each template row ends where the next one starts. */
  ghost predicate Tiles(panels: seq<Panel>) {
    forall n {:trigger Rows(panels)[n]} :: 0 <= n < |Rows(panels)| - 1
      ==> Rows(panels)[n + 1] == Rows(panels)[n] + RowHeight(panels, Rows(panels)[n])
  }

  /** The gaps, less the overlaps, that the template itself has between its first n + 1 rows. */
  function Slack(panels: seq<Panel>, n: nat): int
    requires n < |Rows(panels)|
  {
    if n == 0 then 0
    else Slack(panels, n - 1) + Rows(panels)[n] - Rows(panels)[n - 1] - RowHeight(panels, Rows(panels)[n - 1])
  }

  lemma {:induction false} LostAndSurviving(panels: seq<Panel>, kept: seq<Panel>, n: nat)
    requires n < |Rows(panels)|
    ensures Rows(panels)[n]
            == Rows(panels)[0] + Lost(panels, kept, n) + Surviving(panels, kept, n) + Slack(panels, n)
    ensures HasRow(kept, Rows(panels)[n])
            ==> NewY(panels, kept, n) == Rows(panels)[0] + Surviving(panels, kept, n) + Slack(panels, n)
  {
    if n > 0 {
      LostAndSurviving(panels, kept, n - 1);
    }
  }

  lemma {:induction false} NoSlack(panels: seq<Panel>, n: nat)
    requires Tiles(panels) && n < |Rows(panels)|
    ensures Slack(panels, n) == 0
  {
    if n > 0 {
      NoSlack(panels, n - 1);
      assert Rows(panels)[n - 1 + 1] == Rows(panels)[n - 1] + RowHeight(panels, Rows(panels)[n - 1]);
    }
  }

  /**
   A surviving row starts at the top of the dashboard plus the heights of the surviving rows above it: the rows that
   are left tile again, from the same top.
   */
  lemma {:induction false} SurvivorsTile(panels: seq<Panel>, kept: seq<Panel>, n: nat)
    requires Tiles(panels) && n < |Rows(panels)| && HasRow(kept, Rows(panels)[n])
    ensures NewY(panels, kept, n) == Rows(panels)[0] + Surviving(panels, kept, n)
  {
    LostAndSurviving(panels, kept, n);
    NoSlack(panels, n);
  }

  lemma {:induction false} NoneBetween(panels: seq<Panel>, kept: seq<Panel>, a: nat, b: nat)
    requires a <= b <= |Rows(panels)|
    requires forall n :: a <= n < b ==> !HasRow(kept, Rows(panels)[n])
    ensures Surviving(panels, kept, b) == Surviving(panels, kept, a)
    decreases b
  {
    if a < b {
      NoneBetween(panels, kept, a, b - 1);
    }
  }

  /**
   Of two surviving rows with none in between, the lower starts where the upper ends exactly when the template's gaps
   and overlaps between them cancel out, whatever has been removed.
   */
  lemma {:induction false} NeighboursMeet(panels: seq<Panel>, kept: seq<Panel>, a: nat, b: nat)
    requires a < b < |Rows(panels)|
    requires HasRow(kept, Rows(panels)[a]) && HasRow(kept, Rows(panels)[b])
    requires forall n :: a < n < b ==> !HasRow(kept, Rows(panels)[n])
    ensures NewY(panels, kept, b) == NewY(panels, kept, a) + RowHeight(panels, Rows(panels)[a])
            <==> Slack(panels, a) == Slack(panels, b)
    ensures Tiles(panels) ==> Slack(panels, a) == Slack(panels, b)
  {
    LostAndSurviving(panels, kept, a);
    LostAndSurviving(panels, kept, b);
    NoneBetween(panels, kept, a + 1, b);
    if Tiles(panels) {
      NoSlack(panels, a);
      NoSlack(panels, b);
    }
  }

  /** No row above the n-th has a negative height. */
  ghost predicate Upright(panels: seq<Panel>, n: nat) {
    forall m {:trigger Rows(panels)[m]} :: 0 <= m < n && m < |Rows(panels)| ==> RowHeight(panels, Rows(panels)[m]) >= 0
  }

  predicate NoNegativeHeight(panels: seq<Panel>) {
    forall k :: 0 <= k < |panels| && panels[k].grid.Some? ==> panels[k].grid.value.h >= 0
  }

  /** It is enough that no panel has a negative height. */
  lemma {:induction false} PanelsUpright(panels: seq<Panel>, n: nat)
    requires NoNegativeHeight(panels)
    ensures Upright(panels, n)
  {
    hide RowHeight, HasRow, Rows;
    RowsExact(panels);
    forall m | 0 <= m < n && m < |Rows(panels)| ensures RowHeight(panels, Rows(panels)[m]) >= 0 {
      RowHeightIsMax(panels, Rows(panels)[m]);
    }
  }

  /** A tiling template has positive heights, but perhaps for its last row. */
  lemma {:induction false} TilesUpright(panels: seq<Panel>, n: nat)
    requires Tiles(panels) && n < |Rows(panels)|
    ensures Upright(panels, n)
    ensures n < |Rows(panels)| - 1 ==> RowHeight(panels, Rows(panels)[n]) > 0
  {
    hide RowHeight;
    RowsExact(panels);
    assert forall m :: 0 <= m < |Rows(panels)| - 1 ==> Rows(panels)[m] < Rows(panels)[m + 1];
  }

  lemma {:induction false} SumsGrow(panels: seq<Panel>, kept: seq<Panel>, a: nat, b: nat)
    requires a <= b <= |Rows(panels)| && Upright(panels, b)
    ensures Lost(panels, kept, a) <= Lost(panels, kept, b)
    ensures Surviving(panels, kept, a) <= Surviving(panels, kept, b)
    decreases b
  {
    hide RowHeight, Rows;
    if a < b {
      SumsGrow(panels, kept, a, b - 1);
    }
  }

  /** No surviving row moves down, whatever the template's gaps and overlaps. */
  lemma {:induction false} NeverDown(panels: seq<Panel>, kept: seq<Panel>, n: nat)
    requires n < |Rows(panels)| && HasRow(kept, Rows(panels)[n]) && Upright(panels, n)
    ensures NewY(panels, kept, n) <= Rows(panels)[n]
  {
    SumsGrow(panels, kept, 0, n);
  }

  /**
   Of two surviving rows, the upper one stays above the lower one exactly when the template's overlaps between them are
   less than the heights of the surviving rows from the upper one down to the lower one.
   */
  lemma {:induction false} OrderExact(panels: seq<Panel>, kept: seq<Panel>, a: nat, b: nat)
    requires a < b < |Rows(panels)|
    requires HasRow(kept, Rows(panels)[a]) && HasRow(kept, Rows(panels)[b])
    ensures NewY(panels, kept, a) < NewY(panels, kept, b)
            <==> Slack(panels, a) - Slack(panels, b) < Surviving(panels, kept, b) - Surviving(panels, kept, a)
  {
    LostAndSurviving(panels, kept, a);
    LostAndSurviving(panels, kept, b);
  }

  /** If the template tiles, the surviving rows keep their order and none moves down, nor above the top. */
  lemma {:induction false} OrderKept(panels: seq<Panel>, kept: seq<Panel>, a: nat, b: nat)
    requires Tiles(panels) && a < b < |Rows(panels)|
    requires HasRow(kept, Rows(panels)[a]) && HasRow(kept, Rows(panels)[b])
    ensures NewY(panels, kept, a) < NewY(panels, kept, b)
    ensures Rows(panels)[0] <= NewY(panels, kept, a) <= Rows(panels)[a]
    ensures NewY(panels, kept, b) <= Rows(panels)[b]
  {
    hide RowHeight, Rows, HasRow;
    TilesUpright(panels, a);
    TilesUpright(panels, b);
    NoSlack(panels, a);
    NoSlack(panels, b);
    OrderExact(panels, kept, a, b);
    SumsGrow(panels, kept, a + 1, b);
    SumsGrow(panels, kept, 0, a);
    SurvivorsTile(panels, kept, a);
    NeverDown(panels, kept, a);
    NeverDown(panels, kept, b);
  }

  // ----- versions -----

  /** A panel without a version is there from version 13 on, any other from its own version on. */
  lemma {:induction false} FilterExact(panels: seq<Panel>, target: int)
    ensures forall p :: multiset(FilterPanels(panels, target))[p]
                        == if (match p.version case None => target >= 13 case Some(v) => v <= target)
                           then multiset(panels)[p] else 0
  {
    if panels != [] {
      FilterExact(panels[1..], target);
      var first := if MinVersion(panels[0]) <= target then [panels[0]] else [];
      assert panels == [panels[0]] + panels[1..];
      assert multiset(FilterPanels(panels, target)) == multiset(first) + multiset(FilterPanels(panels[1..], target));
    }
  }

  lemma {:induction false} FilterMembers(panels: seq<Panel>, target: int)
    ensures forall p :: p in FilterPanels(panels, target)
                        <==> p in panels && match p.version case None => target >= 13 case Some(v) => v <= target
  {
    FilterExact(panels, target);
    forall p ensures p in FilterPanels(panels, target)
                     <==> p in panels && match p.version case None => target >= 13 case Some(v) => v <= target {
      assert p in FilterPanels(panels, target) <==> multiset(FilterPanels(panels, target))[p] > 0;
      assert p in panels <==> multiset(panels)[p] > 0;
    }
  }

  /** Filtering keeps the template order. */
  lemma {:induction false} FilterInOrder(a: seq<Panel>, b: seq<Panel>, target: int)
    ensures FilterPanels(a + b, target) == FilterPanels(a, target) + FilterPanels(b, target)
  {
    if a == [] {
      assert a + b == b;
    } else {
      FilterInOrder(a[1..], b, target);
      assert (a + b)[1..] == a[1..] + b;
      var first := if MinVersion(a[0]) <= target then [a[0]] else [];
      assert first + (FilterPanels(a[1..], target) + FilterPanels(b, target))
          == first + FilterPanels(a[1..], target) + FilterPanels(b, target);
    }
  }

  /** A row that an older version's dashboard has, a newer version's dashboard has as well. */
  lemma {:induction false} RowsGrow(panels: seq<Panel>, older: int, newer: int, y: int)
    requires older <= newer && HasRow(FilterPanels(panels, older), y)
    ensures HasRow(FilterPanels(panels, newer), y) && HasRow(panels, y)
  {
    FilterMembers(panels, older);
    FilterMembers(panels, newer);
    var small, big := FilterPanels(panels, older), FilterPanels(panels, newer);
    var k :| 0 <= k < |small| && small[k].grid.Some? && small[k].grid.value.y == y;
    assert small[k] in big;
    var i :| 0 <= i < |big| && big[i] == small[k];
    var j :| 0 <= j < |panels| && panels[j] == small[k];
  }

  lemma {:induction false} SurvivingGrows(panels: seq<Panel>, older: int, newer: int, n: nat)
    requires older <= newer && n <= |Rows(panels)| && Upright(panels, n)
    ensures Surviving(panels, FilterPanels(panels, older), n) <= Surviving(panels, FilterPanels(panels, newer), n)
  {
    hide RowHeight, Rows, HasRow, FilterPanels;
    if n > 0 {
      SurvivingGrows(panels, older, newer, n - 1);
      if HasRow(FilterPanels(panels, older), Rows(panels)[n - 1]) {
        RowsGrow(panels, older, newer, Rows(panels)[n - 1]);
      }
    }
  }

  /**
   A row present in the dashboards of two versions sits no lower in the one for the older version, whatever the
   template's gaps and overlaps.
   */
  lemma {:induction false} OlderIsHigher(panels: seq<Panel>, older: int, newer: int, n: nat)
    requires older <= newer && n < |Rows(panels)| && Upright(panels, n)
    requires HasRow(FilterPanels(panels, older), Rows(panels)[n])
    ensures HasRow(FilterPanels(panels, newer), Rows(panels)[n])
    ensures NewY(panels, FilterPanels(panels, older), n) <= NewY(panels, FilterPanels(panels, newer), n)
  {
    hide RowHeight, Rows, HasRow, FilterPanels;
    RowsGrow(panels, older, newer, Rows(panels)[n]);
    LostAndSurviving(panels, FilterPanels(panels, older), n);
    LostAndSurviving(panels, FilterPanels(panels, newer), n);
    SurvivingGrows(panels, older, newer, n);
  }

  /**
   Without panels of negative height, no surviving row moves below its template position, and none sits lower for an
   older version than for a newer one.
   */
  lemma {:induction false} HeightsDecide(panels: seq<Panel>, older: int, newer: int, n: nat)
    requires NoNegativeHeight(panels) && older <= newer && n < |Rows(panels)|
    requires HasRow(FilterPanels(panels, older), Rows(panels)[n])
    ensures NewY(panels, FilterPanels(panels, older), n) <= NewY(panels, FilterPanels(panels, newer), n)
    ensures NewY(panels, FilterPanels(panels, newer), n) <= Rows(panels)[n]
  {
    hide Rows, HasRow, FilterPanels, NewY, Upright;
    PanelsUpright(panels, n);
    OlderIsHigher(panels, older, newer, n);
    NeverDown(panels, FilterPanels(panels, newer), n);
  }

  // ----- the template's rows at 169, 170 and 185 -----

  function ShippedRows(): seq<Panel> {
    [Panel(1, "Memory Usage by Context", Some(14), Some(Grid(169, 8))),
     Panel(2, "Wait Events by Type", Some(17), Some(Grid(170, 8))),
     Panel(3, "Long Running Transactions", None, Some(Grid(185, 1)))]
  }

  lemma {:induction false} ShippedHeights()
    ensures Rows(ShippedRows()) == [169, 170, 185]
    ensures RowHeight(ShippedRows(), 169) == 8 && RowHeight(ShippedRows(), 170) == 8
  {
    var all := ShippedRows();
    var two, one := all[1..], all[2..];
    assert two[1..] == one && one[1..] == [];
    assert Rows(one) == AddRow([], 185) == [185];
    assert Rows(two) == AddRow([185], 170) == [170, 185];
    assert Rows(all) == AddRow([170, 185], 169) == [169, 170, 185];
    assert !HasRow(one, 170) && !HasRow(two, 169);
    assert RowHeight(two, 170) == 8;
  }

  lemma {:induction false} ShippedKept()
    ensures FilterPanels(ShippedRows(), 17) == ShippedRows()
    ensures FilterPanels(ShippedRows(), 14) == [ShippedRows()[0], ShippedRows()[2]]
  {
    var all := ShippedRows();
    assert all[1..][1..] == all[2..] && all[2..][1..] == [];
    assert FilterPanels(all[2..], 17) == [all[2]] && FilterPanels(all[2..], 14) == [all[2]];
    assert FilterPanels(all[1..], 17) == [all[1], all[2]] && FilterPanels(all[1..], 14) == [all[2]];
  }

  /**
   With all three rows, neither pair of neighbours meets, so the layout is not contiguous for version 17. Without the
   middle one, its overlap and its gap cancel out, and for version 14 the other two meet.
   */
  lemma {:induction false} ShippedNeighbours()
    ensures Rows(ShippedRows()) == [169, 170, 185] && !Tiles(ShippedRows())
    ensures var kept := FilterPanels(ShippedRows(), 17);
            && NewY(ShippedRows(), kept, 1) != NewY(ShippedRows(), kept, 0) + RowHeight(ShippedRows(), 169)
            && NewY(ShippedRows(), kept, 2) != NewY(ShippedRows(), kept, 1) + RowHeight(ShippedRows(), 170)
    ensures var kept := FilterPanels(ShippedRows(), 14);
            NewY(ShippedRows(), kept, 2) == NewY(ShippedRows(), kept, 0) + RowHeight(ShippedRows(), 169)
  {
    hide RowHeight, Rows, FilterPanels;
    ShippedHeights();
    ShippedKept();
    var all, few := ShippedRows(), [ShippedRows()[0], ShippedRows()[2]];
    assert all[0].grid.value.y == 169 && all[1].grid.value.y == 170 && all[2].grid.value.y == 185;
    assert few[0].grid.value.y == 169 && few[1].grid.value.y == 185;
    assert HasRow(all, 169) && HasRow(all, 170) && HasRow(all, 185);
    assert HasRow(few, 169) && !HasRow(few, 170) && HasRow(few, 185);
    ThreeRows(all, all);
    ThreeRows(all, few);
  }

  lemma {:induction false} ThreeRows(panels: seq<Panel>, kept: seq<Panel>)
    requires |Rows(panels)| == 3 && HasRow(kept, Rows(panels)[0]) && HasRow(kept, Rows(panels)[2])
    ensures NewY(panels, kept, 0) == Rows(panels)[0]
    ensures HasRow(kept, Rows(panels)[1])
            ==> NewY(panels, kept, 1) == Rows(panels)[1] && NewY(panels, kept, 2) == Rows(panels)[2]
    ensures !HasRow(kept, Rows(panels)[1])
            ==> NewY(panels, kept, 2) == Rows(panels)[2] - RowHeight(panels, Rows(panels)[1])
  {
    hide RowHeight, Rows, HasRow, Lost;
    NoneLost(panels, kept);
    LostStep(panels, kept, 0);
    LostStep(panels, kept, 1);
    LostStep(panels, kept, 2);
  }
}
