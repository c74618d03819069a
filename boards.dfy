/**
 * A minimal model of the board class that the agent drives. Its source is not
 * part of this model; only the members the agent uses are given here: the
 * fields `w`, `h`, `n`, `player` and `board`, and the operations `free_cols`,
 * `copy` + `add_token`, `get_outcome` and `is_any_line_at`.
 *
 * The grid is indexed `grid[row][column]`; row 0 is the bottom row, so a token
 * dropped into a column lands in the lowest empty row of that column.
 */
module Boards {

  /** Cell contents: 0 is an empty cell, 1 and 2 are the two players' tokens. */
  type Grid = seq<seq<int>>

  datatype Board = Board(w: nat, h: nat, n: nat, player: int, grid: Grid)

  /**
   * A board of `h` rows of `w` cells. The line length `n` is at least 2: the
   * heuristic weighs own cells by 10^(n-2), which is an integer only from
   * n = 2 on. The player to move is 1 or 2. The agent never relies on the
   * cells holding only 0, 1 or 2, so the model does not require it.
   */
  predicate WellFormed(b: Board) {
    && 2 <= b.n
    && (b.player == 1 || b.player == 2)
    && |b.grid| == b.h
    && (forall r :: 0 <= r < |b.grid| ==> |b.grid[r]| == b.w)
  }

  type WfBoard = b: Board | WellFormed(b) witness Board(0, 0, 2, 1, [])

  /** The player who moves after `p`: 2 after 1, and 1 otherwise. */
  function Other(p: int): (q: int)
    ensures q == 1 || q == 2
    ensures q != p
  {
    if p == 1 then 2 else 1
  }

  /** Column `c` still has room: its top cell is empty. */
  predicate IsFree(b: WfBoard, c: int) {
    0 <= c < b.w && 0 < b.h && b.grid[b.h - 1][c] == 0
  }

  /** The free columns among c, c+1, ..., w-1, in ascending order. */
  function FreeColsFrom(b: WfBoard, c: nat): (cols: seq<nat>)
    decreases b.w - c
    ensures forall i :: 0 <= i < |cols| ==> IsFree(b, cols[i])
  {
    if c >= b.w then []
    else if IsFree(b, c) then [c] + FreeColsFrom(b, c + 1)
    else FreeColsFrom(b, c + 1)
  }

  /** The scan from column c lists every free column from c on, each once, in ascending order. */
  lemma {:induction false} FreeColsFromSpec(b: WfBoard, c: nat)
    decreases b.w - c
    ensures forall i :: 0 <= i < |FreeColsFrom(b, c)| ==> c <= FreeColsFrom(b, c)[i]
    ensures forall d :: c <= d && IsFree(b, d) ==> d in FreeColsFrom(b, c)
    ensures forall i, j :: 0 <= i < j < |FreeColsFrom(b, c)| ==> FreeColsFrom(b, c)[i] < FreeColsFrom(b, c)[j]
  {
    if c < b.w {
      FreeColsFromSpec(b, c + 1);
    }
  }

  /** `free_cols`: the columns with room, in ascending order. */
  function FreeCols(b: WfBoard): (cols: seq<nat>)
    ensures forall i :: 0 <= i < |cols| ==> IsFree(b, cols[i])
  {
    FreeColsFrom(b, 0)
  }

  /** `free_cols` lists exactly the columns with room, each once, in ascending order. */
  lemma FreeColsSpec(b: WfBoard)
    ensures forall c :: c in FreeCols(b) <==> IsFree(b, c)
    ensures forall i, j :: 0 <= i < j < |FreeCols(b)| ==> FreeCols(b)[i] < FreeCols(b)[j]
  {
    FreeColsFromSpec(b, 0);
  }

  /** The lowest empty row of the free column c, searching upwards from row r. */
  function LowestEmptyFrom(b: WfBoard, c: int, r: nat): (e: nat)
    requires IsFree(b, c) && r < b.h
    decreases b.h - r
    ensures r <= e < b.h
  {
    if b.grid[r][c] == 0 then r else LowestEmptyFrom(b, c, r + 1)
  }

  /** Searching upwards from r over occupied cells stops at the first empty cell. */
  lemma {:induction false} LowestEmptyFromSpec(b: WfBoard, c: int, r: nat)
    requires IsFree(b, c) && r < b.h
    requires forall k :: 0 <= k < r ==> b.grid[k][c] != 0
    decreases b.h - r
    ensures b.grid[LowestEmptyFrom(b, c, r)][c] == 0
    ensures forall k :: 0 <= k < LowestEmptyFrom(b, c, r) ==> b.grid[k][c] != 0
  {
    if b.grid[r][c] != 0 {
      LowestEmptyFromSpec(b, c, r + 1);
    }
  }

  /** The row a token dropped into the free column `c` falls to. */
  function LowestEmpty(b: WfBoard, c: int): (e: nat)
    requires IsFree(b, c)
    ensures e < b.h
  {
    LowestEmptyFrom(b, c, 0)
  }

  /**
   * `copy` followed by `add_token(c)`: a new board of the same size in which
   * the other player is to move. The board passed in is a value and stays as
   * it was.
   */
  function AddToken(b: WfBoard, c: int): (nb: WfBoard)
    requires IsFree(b, c)
    ensures nb.w == b.w && nb.h == b.h && nb.n == b.n
    ensures nb.player == Other(b.player)
  {
    var r := LowestEmpty(b, c);
    b.(player := Other(b.player), grid := b.grid[r := b.grid[r][c := b.player]])
  }

  /**
   * The token of the player to move lands in the lowest empty cell of column
   * c, every cell below it is occupied, and every other cell is unchanged.
   */
  lemma AddTokenCells(b: WfBoard, c: int)
    requires IsFree(b, c)
    ensures var e := LowestEmpty(b, c);
      && b.grid[e][c] == 0
      && (forall k :: 0 <= k < e ==> b.grid[k][c] != 0)
      && AddToken(b, c).grid[e][c] == b.player
      && forall r, k :: 0 <= r < b.h && 0 <= k < b.w && (r != e || k != c) ==>
           AddToken(b, c).grid[r][k] == b.grid[r][k]
  {
    LowestEmptyFromSpec(b, c, 0);
  }

  /**
   * The board queries whose code is not part of this model, given as
   * functions the agent is handed: `get_outcome` (0 while nobody has won,
   * otherwise the winner's number) and `is_any_line_at(x, y)`.
   */
  datatype Rules = Rules(outcome: WfBoard -> nat, anyLineAt: (WfBoard, int, int) -> bool)
}
