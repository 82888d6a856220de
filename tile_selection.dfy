/**
 * app/javascript/controllers/game_board_controller.js: the player enters a
 * guess by clicking tiles. A click on a selected tile deselects it and every
 * tile selected after it; a click on another tile selects it when nothing is
 * selected yet or when it is adjacent to the last selected tile. The guess is
 * the letters of the selected tiles in order.
 *
 * Tiles are the 25 board indices; the `data-row`, `data-column` and
 * `data-letter` attributes of tile `i` are Row(i), Col(i) and letters[i].
 */
module TileSelection {
  import opened Wrappers
  import opened BoardGraph
  import opened WordSearch

  function Abs(x: int): nat
  {
    if x < 0 then -x else x
  }

  /** `#isAdjacent(row1, col1, row2, col2)`: rows and columns each differ by
      at most one, and not both by zero. */
  predicate IsAdjacent(row1: int, col1: int, row2: int, col2: int)
  {
    Abs(row1 - row2) <= 1 && Abs(col1 - col2) <= 1 && (Abs(row1 - row2) != 0 || Abs(col1 - col2) != 0)
  }

  /** The browser's adjacency is the board's: a selection the player can click
      is a path the word search accepts. */
  lemma IsAdjacentIsBoardAdjacency(i: nat, j: nat)
    requires i < TileCount && j < TileCount
    ensures IsAdjacent(Row(i), Col(i), Row(j), Col(j)) <==> Adjacent(i, j)
  {
    assert i == Row(i) * GridSize + Col(i) && j == Row(j) * GridSize + Col(j);
  }

  /** `#canSelectTile(row, column)` for the selection `sel`. */
  predicate CanSelect(sel: seq<nat>, row: int, column: int)
  {
    |sel| == 0 || IsAdjacent(Row(sel[|sel| - 1]), Col(sel[|sel| - 1]), row, column)
  }

  /** `findIndex`: the position of the first occurrence of `t`. */
  function IndexOf(sel: seq<nat>, t: nat): (k: nat)
    requires t in sel
    ensures k < |sel| && sel[k] == t && t !in sel[..k]
  {
    if sel[0] == t then 0
    else
      var k := 1 + IndexOf(sel[1..], t);
      assert sel[..k] == [sel[0]] + sel[1..][..k - 1];
      k
  }

  /** What a click on tile `t` does to the selection (`toggleTile`). */
  function Toggled(sel: seq<nat>, t: nat): (r: seq<nat>)
  {
    if t in sel then sel[..IndexOf(sel, t)]
    else if CanSelect(sel, Row(t), Col(t)) then sel + [t]
    else sel
  }

  /** Every selection the controller can reach: board tiles, pairwise
      distinct, each adjacent to the one before. */
  predicate SelectionValid(sel: seq<nat>)
  {
    && (forall k | 0 <= k < |sel| :: sel[k] < TileCount)
    && (forall k | 0 <= k < |sel| - 1 :: Adjacent(sel[k], sel[k + 1]))
    && Distinct(sel)
  }

  /** `selectedTiles.map(tile => tile.element.dataset.letter).join('')`. */
  function Spelled(letters: seq<char>, sel: seq<nat>): (w: string)
    requires forall k | 0 <= k < |sel| :: sel[k] < |letters|
    ensures |w| == |sel| && forall k | 0 <= k < |sel| :: w[k] == letters[sel[k]]
  {
    seq(|sel|, k requires 0 <= k < |sel| => letters[sel[k]])
  }

  /** A click keeps the selection a path. */
  lemma {:induction false} ToggledKeepsValid(sel: seq<nat>, t: nat)
    requires SelectionValid(sel) && t < TileCount
    ensures SelectionValid(Toggled(sel, t))
  {
    if t !in sel && |sel| > 0 && CanSelect(sel, Row(t), Col(t)) {
      IsAdjacentIsBoardAdjacency(sel[|sel| - 1], t);
      var r := sel + [t];
      assert forall k | 0 <= k < |sel| :: r[k] == sel[k];
    }
  }

  /** The guess a valid selection spells can be found on the board, along
      exactly the selected tiles: the browser never sends a word the server
      side search would reject for its shape. */
  lemma SelectionIsFindable(letters: seq<char>, sel: seq<nat>)
    requires |letters| == TileCount && SelectionValid(sel)
    ensures IsPath(letters, Spelled(letters, sel), sel)
    ensures Findable(letters, Spelled(letters, sel))
  {
  }

  /** Clicking the tiles of `ts` one after the other. */
  function Clicks(sel: seq<nat>, ts: seq<nat>): seq<nat>
    decreases |ts|
  {
    if ts == [] then sel else Clicks(Toggled(sel, ts[0]), ts[1..])
  }

  /** Conversely, every path can be clicked: clicking its tiles in order from
      the empty selection selects exactly that path. */
  lemma {:induction false} PathCanBeClicked(sel: seq<nat>, ts: seq<nat>)
    requires SelectionValid(sel + ts)
    ensures Clicks(sel, ts) == sel + ts
    decreases |ts|
  {
    if ts != [] {
      var t := ts[0];
      var all := sel + ts;
      assert all[|sel|] == t;
      assert t !in sel by {
        forall k | 0 <= k < |sel|
          ensures sel[k] != t
        {
          assert all[k] == sel[k];
        }
      }
      if |sel| > 0 {
        assert all[|sel| - 1] == sel[|sel| - 1];
        IsAdjacentIsBoardAdjacency(sel[|sel| - 1], t);
      }
      assert Toggled(sel, t) == sel + [t];
      assert (sel + [t]) + ts[1..] == all;
      PathCanBeClicked(sel + [t], ts[1..]);
    }
  }

  /** Clicking the last selected tile again undoes the click that selected it. */
  lemma ClickingTwiceUndoes(sel: seq<nat>, t: nat)
    requires SelectionValid(sel) && t !in sel && CanSelect(sel, Row(t), Col(t))
    ensures Toggled(Toggled(sel, t), t) == sel
  {
    var r := sel + [t];
    assert t in r && r[|sel|] == t;
    assert IndexOf(r, t) == |sel| by {
      assert r[..|sel|] == sel;
    }
  }

  /** `#updateDisabledStates` for one tile: a selected tile is enabled
      (`Some(false)`), with nothing selected the attribute is removed
      (`None`), otherwise a tile is disabled unless it can be selected. */
  function DisabledState(sel: seq<nat>, t: nat): (d: Option<bool>)
    ensures d == None <==> t !in sel && |sel| == 0
    ensures d == Some(true) <==> t !in sel && !CanSelect(sel, Row(t), Col(t))
  {
    if t in sel then Some(false)
    else if |sel| == 0 then None
    else Some(!CanSelect(sel, Row(t), Col(t)))
  }

  /** A click on a tile shown disabled changes nothing; a click on any other
      tile changes the selection. */
  lemma {:induction false} DisabledTilesAreInert(sel: seq<nat>, t: nat)
    ensures Toggled(sel, t) == sel <==> DisabledState(sel, t) == Some(true)
  {
    if t in sel {
      assert |Toggled(sel, t)| < |sel|;
    } else if CanSelect(sel, Row(t), Col(t)) {
      assert |Toggled(sel, t)| == |sel| + 1;
    }
  }

  /** The Stimulus controller of the game board. `ariaSelected` holds the
      tiles whose `aria-selected` attribute is "true". */
  class GameBoardController {
    const letters: string
    var selectedTiles: seq<nat>
    var ariaSelected: set<nat>

    ghost predicate Valid()
      reads this
    {
      && |letters| == TileCount
      && SelectionValid(selectedTiles)
      && (forall t :: t in ariaSelected <==> t in selectedTiles)
    }

    /** `initialize`: nothing is selected. */
    constructor(letters: string)
      requires |letters| == TileCount
      ensures Valid() && this.letters == letters && selectedTiles == []
    {
      this.letters := letters;
      selectedTiles := [];
      ariaSelected := {};
    }

    /** The value dispatched with `boardChanged`. */
    function Value(): (w: string)
      requires Valid()
      reads this
      ensures Findable(letters, w)
    {
      SelectionIsFindable(letters, selectedTiles);
      Spelled(letters, selectedTiles)
    }

    /** `#selectTile`: selects the tile when it can be selected. */
    method SelectTile(t: nat)
      requires Valid() && t < TileCount && t !in ariaSelected
      modifies this
      ensures Valid()
      ensures selectedTiles == (if CanSelect(old(selectedTiles), Row(t), Col(t)) then old(selectedTiles) + [t] else old(selectedTiles))
    {
      var row, column := Row(t), Col(t);
      if CanSelect(selectedTiles, row, column) {
        ToggledKeepsValid(selectedTiles, t);
        ariaSelected := ariaSelected + {t};
        selectedTiles := selectedTiles + [t];
      }
    }

    /** `#deselectTileAndSubsequent`: the tile and every tile selected after
        it are deselected; an unselected tile changes nothing. */
    method DeselectTileAndSubsequent(t: nat)
      requires Valid()
      modifies this
      ensures Valid()
      ensures t in old(selectedTiles) ==> selectedTiles == old(selectedTiles)[..IndexOf(old(selectedTiles), t)]
      ensures t !in old(selectedTiles) ==> selectedTiles == old(selectedTiles)
    {
      if t in selectedTiles {
        var k := IndexOf(selectedTiles, t);
        var removed := selectedTiles[k..];
        ghost var kept := selectedTiles[..k];
        assert selectedTiles == kept + removed;
        assert forall x :: x in kept ==> x !in removed by {
          forall x | x in kept
            ensures x !in removed
          {
            var a :| 0 <= a < k && kept[a] == x;
            forall b | 0 <= b < |removed|
              ensures removed[b] != x
            {
              assert removed[b] == selectedTiles[k + b] && kept[a] == selectedTiles[a];
            }
          }
        }
        ariaSelected := ariaSelected - (set x | x in removed);
        selectedTiles := selectedTiles[..k];
      }
    }

    /** `toggleTile`: a click on a tile; answers the dispatched value. */
    method ToggleTile(t: nat) returns (value: string)
      requires Valid() && t < TileCount
      modifies this
      ensures Valid()
      ensures selectedTiles == Toggled(old(selectedTiles), t)
      ensures value == Spelled(letters, selectedTiles) && Findable(letters, value)
    {
      if t in ariaSelected {
        DeselectTileAndSubsequent(t);
      } else {
        SelectTile(t);
      }
      value := Value();
    }

    /** `resetAllTiles`: deselecting the first tile deselects them all. */
    method ResetAllTiles() returns (value: string)
      requires Valid()
      modifies this
      ensures Valid() && selectedTiles == [] && ariaSelected == {}
      ensures value == ""
    {
      if |selectedTiles| > 0 {
        DeselectTileAndSubsequent(selectedTiles[0]);
      }
      value := Value();
    }

    /** `aria-disabled` of a tile after `#updateDisabledStates`. */
    function Disabled(t: nat): (d: Option<bool>)
      requires Valid()
      reads this
      ensures d == Some(true) <==> Toggled(selectedTiles, t) == selectedTiles
    {
      DisabledTilesAreInert(selectedTiles, t);
      DisabledState(selectedTiles, t)
    }
  }
}
