/**
 * The constraint masks of the solver (BitMaskState): one 32-bit set of used
 * values per row, per column and per block. A mask is modelled by the set of
 * its bit positions, so `m |= 1u << v` adds v, `m &= ~(1u << v)` removes v and
 * `m & (1u << v)` tests v. Only values 1..31 are ever recorded: anything else
 * is silently ignored, exactly as the guard in front of the shifts does.
 */
module BitMask {
  import opened Cells

  /** The bit positions set in one uint32_t mask. */
  type Mask = set<int>

  /** Values the masks can record: 1u << value must fit in a uint32_t, and bit 0 is unused. */
  predicate InMaskRange(value: int)
  {
    1 <= value <= 31
  }

  /**
   * The value of a BitMaskState: the three mask vectors. A BitMaskState is
   * copied by value whenever a subproblem is copied, so this is what a
   * subproblem holds.
   */
  datatype Masks = Masks(rowMask: seq<Mask>, colMask: seq<Mask>, blockMask: seq<Mask>)
  {
    /** Each of the three vectors holds N masks. */
    predicate Sized(n: int)
    {
      |rowMask| == n && |colMask| == n && |blockMask| == n
    }

    /** set(row, col, value): records value in the cell's row, column and block masks (see SetRecords). */
    function Set(n: int, blockSize: int, row: int, col: int, value: int): (r: Masks)
      requires Geometry(n, blockSize) && Sized(n) && OnBoard(n, row, col)
      ensures r.Sized(n)
    {
      if value < 1 || value > 31 then this
      else
        var blockIdx := BlockIndex(n, blockSize, row, col);
        Masks(rowMask[row := rowMask[row] + {value}],
              colMask[col := colMask[col] + {value}],
              blockMask[blockIdx := blockMask[blockIdx] + {value}])
    }

    /** unset(row, col, value): removes value from the cell's row, column and block masks (see UnsetClears). */
    function Unset(n: int, blockSize: int, row: int, col: int, value: int): (r: Masks)
      requires Geometry(n, blockSize) && Sized(n) && OnBoard(n, row, col)
      ensures r.Sized(n)
    {
      if value < 1 || value > 31 then this
      else
        var blockIdx := BlockIndex(n, blockSize, row, col);
        Masks(rowMask[row := rowMask[row] - {value}],
              colMask[col := colMask[col] - {value}],
              blockMask[blockIdx := blockMask[blockIdx] - {value}])
    }

    /** canPlace(row, col, value): value is in range and none of the three masks holds it. */
    predicate CanPlace(n: int, blockSize: int, row: int, col: int, value: int)
      requires Geometry(n, blockSize) && Sized(n) && OnBoard(n, row, col)
    {
      && InMaskRange(value)
      && value !in rowMask[row]
      && value !in colMask[col]
      && value !in blockMask[BlockIndex(n, blockSize, row, col)]
    }
  }

  /** A freshly constructed BitMaskState(N): N empty masks in each vector. */
  function Empty(n: nat): (m: Masks)
    ensures m.Sized(n)
    ensures forall i :: 0 <= i < n ==> m.rowMask[i] == {} && m.colMask[i] == {} && m.blockMask[i] == {}
  {
    Masks(seq(n, _ => {}), seq(n, _ => {}), seq(n, _ => {}))
  }

  /**
   * set adds value to exactly the row mask of row, the column mask of col
   * and the block mask of the cell's block, and changes nothing when value
   * is outside 1..31.
   */
  lemma SetRecords(m: Masks, n: int, blockSize: int, row: int, col: int, value: int)
    requires Geometry(n, blockSize) && m.Sized(n) && OnBoard(n, row, col)
    ensures var r := m.Set(n, blockSize, row, col, value);
      && (!InMaskRange(value) ==> r == m)
      && (forall i :: 0 <= i < n ==>
            r.rowMask[i] == if InMaskRange(value) && i == row then m.rowMask[i] + {value} else m.rowMask[i])
      && (forall i :: 0 <= i < n ==>
            r.colMask[i] == if InMaskRange(value) && i == col then m.colMask[i] + {value} else m.colMask[i])
      && (forall i :: 0 <= i < n ==>
            r.blockMask[i] == if InMaskRange(value) && i == BlockIndex(n, blockSize, row, col)
                              then m.blockMask[i] + {value} else m.blockMask[i])
  {
  }

  /**
   * unset removes value from exactly the cell's row, column and block masks,
   * after which value can be placed at the cell; outside 1..31 it changes nothing.
   */
  lemma UnsetClears(m: Masks, n: int, blockSize: int, row: int, col: int, value: int)
    requires Geometry(n, blockSize) && m.Sized(n) && OnBoard(n, row, col)
    ensures var r := m.Unset(n, blockSize, row, col, value);
      && (!InMaskRange(value) ==> r == m)
      && (InMaskRange(value) ==> r.CanPlace(n, blockSize, row, col, value))
      && (forall i :: 0 <= i < n ==>
            r.rowMask[i] == if InMaskRange(value) && i == row then m.rowMask[i] - {value} else m.rowMask[i])
      && (forall i :: 0 <= i < n ==>
            r.colMask[i] == if InMaskRange(value) && i == col then m.colMask[i] - {value} else m.colMask[i])
      && (forall i :: 0 <= i < n ==>
            r.blockMask[i] == if InMaskRange(value) && i == BlockIndex(n, blockSize, row, col)
                              then m.blockMask[i] - {value} else m.blockMask[i])
  {
  }

  /** Out-of-range values leave the masks alone and are never placeable. */
  lemma OutOfRangeIgnored(m: Masks, n: int, blockSize: int, row: int, col: int, value: int)
    requires Geometry(n, blockSize) && m.Sized(n) && OnBoard(n, row, col)
    requires !InMaskRange(value)
    ensures m.Set(n, blockSize, row, col, value) == m
    ensures m.Unset(n, blockSize, row, col, value) == m
    ensures !m.CanPlace(n, blockSize, row, col, value)
  {
  }

  /** A set that the masks allowed, undone by unset, restores all three vectors exactly. */
  lemma SetUnsetRoundTrip(m: Masks, n: int, blockSize: int, row: int, col: int, value: int)
    requires Geometry(n, blockSize) && m.Sized(n) && OnBoard(n, row, col)
    requires m.CanPlace(n, blockSize, row, col, value)
    ensures m.Set(n, blockSize, row, col, value).Unset(n, blockSize, row, col, value) == m
  {
    var r := m.Set(n, blockSize, row, col, value).Unset(n, blockSize, row, col, value);
    SetRecords(m, n, blockSize, row, col, value);
    UnsetClears(m.Set(n, blockSize, row, col, value), n, blockSize, row, col, value);
    assert r.rowMask == m.rowMask;
    assert r.colMask == m.colMask;
    assert r.blockMask == m.blockMask;
  }

  /**
   * After set(row, col, value) no cell sharing the row, the column or the
   * block can take value, and whether another value w fits anywhere is as
   * before.
   */
  lemma SetBlocksPeers(m: Masks, n: int, blockSize: int, row: int, col: int, value: int,
                       row': int, col': int, w: int)
    requires Geometry(n, blockSize) && m.Sized(n) && OnBoard(n, row, col) && OnBoard(n, row', col')
    requires InMaskRange(value)
    ensures var r := m.Set(n, blockSize, row, col, value);
      && (row' == row || col' == col || BlockIndex(n, blockSize, row', col') == BlockIndex(n, blockSize, row, col)
          ==> !r.CanPlace(n, blockSize, row', col', value))
      && (w != value ==> r.CanPlace(n, blockSize, row', col', w) == m.CanPlace(n, blockSize, row', col', w))
  {
    SetRecords(m, n, blockSize, row, col, value);
  }

  /**
   * A BitMaskState object: set and unset update its three vectors in place.
   * Value() is what it holds.
   */
  class BitMaskState {
    var rowMask: seq<Mask>
    var colMask: seq<Mask>
    var blockMask: seq<Mask>

    function Value(): Masks
      reads this
    {
      Masks(rowMask, colMask, blockMask)
    }

    /** BitMaskState(N): every mask zero. */
    constructor (n: nat)
      ensures Value() == Empty(n)
    {
      rowMask := seq(n, _ => {});
      colMask := seq(n, _ => {});
      blockMask := seq(n, _ => {});
    }

    /** The implicit copy constructor: a new object holding the same masks. */
    constructor Copy(m: Masks)
      ensures Value() == m
    {
      rowMask := m.rowMask;
      colMask := m.colMask;
      blockMask := m.blockMask;
    }

    method Set(n: int, blockSize: int, row: int, col: int, value: int)
      requires Geometry(n, blockSize) && Value().Sized(n) && OnBoard(n, row, col)
      modifies this
      ensures Value() == old(Value()).Set(n, blockSize, row, col, value)
    {
      if value < 1 || value > 31 {
        return;
      }
      var blockIdx := BlockIndex(n, blockSize, row, col);
      rowMask := rowMask[row := rowMask[row] + {value}];
      colMask := colMask[col := colMask[col] + {value}];
      blockMask := blockMask[blockIdx := blockMask[blockIdx] + {value}];
    }

    /** canPlace: the same guard and the same three bit tests, on the object's masks. */
    method CanPlace(n: int, blockSize: int, row: int, col: int, value: int) returns (ok: bool)
      requires Geometry(n, blockSize) && Value().Sized(n) && OnBoard(n, row, col)
      ensures ok == Value().CanPlace(n, blockSize, row, col, value)
    {
      if value < 1 || value > 31 {
        return false;
      }
      var blockIdx := BlockIndex(n, blockSize, row, col);
      return value !in rowMask[row] && value !in colMask[col] && value !in blockMask[blockIdx];
    }

    method Unset(n: int, blockSize: int, row: int, col: int, value: int)
      requires Geometry(n, blockSize) && Value().Sized(n) && OnBoard(n, row, col)
      modifies this
      ensures Value() == old(Value()).Unset(n, blockSize, row, col, value)
    {
      if value < 1 || value > 31 {
        return;
      }
      var blockIdx := BlockIndex(n, blockSize, row, col);
      rowMask := rowMask[row := rowMask[row] - {value}];
      colMask := colMask[col := colMask[col] - {value}];
      blockMask := blockMask[blockIdx := blockMask[blockIdx] - {value}];
    }
  }
}
