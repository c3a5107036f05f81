/** Which thread keeps which element of a tile, and in which register; and how a row-wise reduction
  walks the registers. The index formulas are the values of the emitted C expressions on
  non-negative operands.
 */
module FragmentLayouts {
  import opened Arithmetic

  datatype Kind = UNIFORM | WGMMA_ACC | REPLICATED_1D

  datatype Layout = Layout(
    kind: Kind,
    regsPerThread: nat,
    threadCount: nat,
    rows: nat,
    cols: nat,
    vecWidth: nat,
    rowsPerThread: nat,
    threadsPerRow: nat,
    replicate: nat,
    reduceRowStride: nat
  )

  datatype ReduceParams = ReduceParams(rowsPerThread: nat, localCols: nat, threadsPerRow: nat, threadCount: nat)

  // ----- factories -----

  function Ceiling(total: nat, threads: nat): nat {
    if threads > 0 then Quotient(total + threads - 1, threads) else total
  }

  function MakeUniform2D(rows: nat, cols: nat, threads: nat): Layout {
    var total := Times(rows, cols);
    var regs := Ceiling(total, threads);
    var vec := if regs >= 4 && regs % 4 == 0 && threads > 0 && Remainder(total, Times(threads, 4)) == 0 then 4 else 1;
    Layout(UNIFORM, regs, threads, rows, cols, vec, 0, 0, 0, 0)
  }

  function MakeWgmmaAcc(m: nat, n: nat): Layout {
    Layout(WGMMA_ACC, n / 2, 128, m, n, 1, 2, 4, 0, 0)
  }

  function MakeReplicated1D(n: nat, src: Layout): Layout {
    Layout(REPLICATED_1D, src.rowsPerThread, src.threadCount, n, 1, 1, src.rowsPerThread, 0, src.threadsPerRow, 0)
  }

  function MakeReduceDst(src: Layout): Layout {
    if src.kind == WGMMA_ACC then MakeReplicated1D(src.rows, src)
    else
      var rp := GetReduceParams(src);
      var stride := if rp.threadsPerRow > 0 then Quotient(src.threadCount, rp.threadsPerRow) else 0;
      Layout(REPLICATED_1D, rp.rowsPerThread, src.threadCount, src.rows, 1, 1,
             rp.rowsPerThread, rp.threadsPerRow, rp.threadsPerRow, stride)
  }

  // ----- index formulas -----

  /** Row-major position. */
  function Flat(l: Layout, i: nat, j: nat): nat {
    Times(i, l.cols) + j
  }

  function ForwardIndex(l: Layout, i: nat, j: nat): nat
    requires l.threadCount > 0 && l.vecWidth > 0
  {
    match l.kind
    case WGMMA_ACC => j / 8 * 4 + i % 16 / 8 * 2 + j % 2
    case REPLICATED_1D => i % 16 / 8
    case UNIFORM =>
      var flat := Flat(l, i, j);
      if l.vecWidth > 1 then
        Times(Quotient(flat, Times(l.threadCount, l.vecWidth)), l.vecWidth) + Remainder(flat, l.vecWidth)
      else Quotient(flat, l.threadCount)
  }

  function ForwardThread(l: Layout, i: nat, j: nat): nat
    requires l.threadCount > 0 && l.vecWidth > 0
  {
    match l.kind
    case WGMMA_ACC => i / 16 * 32 + i % 8 * 4 + j % 8 / 2
    case REPLICATED_1D => i / 16 * 32 + i % 8 * 4
    case UNIFORM =>
      var flat := Flat(l, i, j);
      if l.vecWidth > 1 then Remainder(Quotient(flat, l.vecWidth), l.threadCount)
      else Remainder(flat, l.threadCount)
  }

  function RowFromRegIndex(l: Layout, r: nat): nat {
    match l.kind
    case WGMMA_ACC => r % 4 / 2
    case REPLICATED_1D => r
    case UNIFORM => 0
  }

  function LogicalFlatFromReg(l: Layout, r: nat, tid: nat): nat
    requires l.kind == UNIFORM && l.vecWidth > 0
  {
    if l.vecWidth > 1 then
      Times(Quotient(r, l.vecWidth), Times(l.threadCount, l.vecWidth)) + Times(tid, l.vecWidth)
        + Remainder(r, l.vecWidth)
    else Times(r, l.threadCount) + tid
  }

  function LogicalRowFromReg(l: Layout, r: nat, tid: nat): nat
    requires l.vecWidth > 0 && (l.reduceRowStride > 0 ==> l.replicate > 0)
  {
    match l.kind
    case UNIFORM =>
      var flat := LogicalFlatFromReg(l, r, tid);
      if l.cols <= 1 then flat else Quotient(flat, l.cols)
    case WGMMA_ACC => tid / 32 * 16 + r % 4 / 2 * 8 + tid % 32 / 4
    case REPLICATED_1D =>
      if l.reduceRowStride > 0 then Times(r, l.reduceRowStride) + Quotient(tid, l.replicate)
      else tid / 32 * 16 + r % 4 / 2 * 8 + tid % 32 / 4
  }

  function LogicalColFromReg(l: Layout, r: nat, tid: nat): nat
    requires l.vecWidth > 0
  {
    match l.kind
    case UNIFORM => if l.cols <= 1 then 0 else Remainder(LogicalFlatFromReg(l, r, tid), l.cols)
    case WGMMA_ACC => r / 4 * 8 + tid % 32 % 4 * 2 + r % 2
    case REPLICATED_1D => 0
  }

  function GetReduceParams(l: Layout): ReduceParams {
    if l.kind == WGMMA_ACC then
      ReduceParams(l.rowsPerThread, if l.rowsPerThread > 0 then Quotient(l.regsPerThread, l.rowsPerThread) else 0,
                   l.threadsPerRow, l.threadCount)
    else if l.kind == UNIFORM && l.cols > 1 && l.threadCount > 0 then
      var columns := if l.cols < l.threadCount then 1 else Quotient(l.cols, l.threadCount);
      var localCols := if columns < 1 then 1 else columns;
      ReduceParams(Quotient(l.regsPerThread, localCols), localCols,
                   if l.cols < l.threadCount then l.cols else l.threadCount, l.threadCount)
    else
      ReduceParams(1, l.regsPerThread, 1, l.threadCount)
  }

  function ReduceLocalIndex(l: Layout, row: nat, rv: nat, localCols: nat): nat {
    match l.kind
    case WGMMA_ACC => rv / 2 * 4 + row * 2 + rv % 2
    case UNIFORM => Times(row, localCols) + rv
    case REPLICATED_1D => 0
  }

  // ----- elements and registers -----

  predicate InTile(l: Layout, i: nat, j: nat) {
    i < l.rows && j < l.cols
  }

  predicate InFile(l: Layout, r: nat, tid: nat) {
    r < l.regsPerThread && tid < l.threadCount
  }

  /** Element to register and thread, and back: the element returns. */
  ghost predicate ElementReturns(l: Layout, i: nat, j: nat)
    requires l.threadCount > 0 && l.vecWidth > 0 && l.reduceRowStride == 0
  {
    var r, tid := ForwardIndex(l, i, j), ForwardThread(l, i, j);
    InFile(l, r, tid) && LogicalRowFromReg(l, r, tid) == i && LogicalColFromReg(l, r, tid) == j
  }

  /** Register and thread to element, and back: the register and thread return. */
  ghost predicate RegisterReturns(l: Layout, r: nat, tid: nat)
    requires l.threadCount > 0 && l.vecWidth > 0 && l.reduceRowStride == 0
  {
    var i, j := LogicalRowFromReg(l, r, tid), LogicalColFromReg(l, r, tid);
    InTile(l, i, j) && ForwardIndex(l, i, j) == r && ForwardThread(l, i, j) == tid
  }

  // ----- accumulators of a warp group -----

  /** On 64 rows and whole column groups the accumulator layout is a bijection. */
  lemma AccumulatorIsBijective(n: nat, i: nat, j: nat, r: nat, tid: nat)
    requires n % 8 == 0
    ensures var l := MakeWgmmaAcc(64, n);
            && (InTile(l, i, j) ==> ElementReturns(l, i, j))
            && (InFile(l, r, tid) ==> RegisterReturns(l, r, tid))
  {
    hide ElementReturns, RegisterReturns;
    var l := MakeWgmmaAcc(64, n);
    if InTile(l, i, j) {
      AccElementReturns(n, i, j);
    }
    if InFile(l, r, tid) {
      AccRegisterReturns(n, r, tid);
    }
  }

  lemma Parts(a: nat, d: nat, q: nat, r: nat)
    requires r < d && a == q * d + r
    ensures a / d == q && a % d == r
  {
    DivisionIs(a, d, q, r);
  }

  /** The parts of a row, a column, a register and a thread. */
  lemma RowParts(warp: nat, half: nat, lane: nat)
    requires half < 2 && lane < 8
    ensures var i := warp * 16 + half * 8 + lane; i / 16 == warp && i % 16 / 8 == half && i % 8 == lane
  {
    var i := warp * 16 + half * 8 + lane;
    Parts(i, 16, warp, half * 8 + lane);
    Parts(half * 8 + lane, 8, half, lane);
    Parts(i, 8, warp * 2 + half, lane);
  }

  lemma ColParts(group: nat, pair: nat, parity: nat)
    requires pair < 4 && parity < 2
    ensures var j := group * 8 + pair * 2 + parity; j / 8 == group && j % 8 / 2 == pair && j % 2 == parity
  {
    var j := group * 8 + pair * 2 + parity;
    Parts(j, 8, group, pair * 2 + parity);
    Parts(pair * 2 + parity, 2, pair, parity);
    Parts(j, 2, group * 4 + pair, parity);
  }

  lemma RegParts(group: nat, half: nat, parity: nat)
    requires half < 2 && parity < 2
    ensures var r := group * 4 + half * 2 + parity; r / 4 == group && r % 4 / 2 == half && r % 2 == parity
  {
    var r := group * 4 + half * 2 + parity;
    Parts(r, 4, group, half * 2 + parity);
    Parts(half * 2 + parity, 2, half, parity);
    Parts(r, 2, group * 2 + half, parity);
  }

  lemma ThreadParts(warp: nat, lane: nat, pair: nat)
    requires lane < 8 && pair < 4
    ensures var tid := warp * 32 + lane * 4 + pair; tid / 32 == warp && tid % 32 / 4 == lane && tid % 32 % 4 == pair
  {
    var tid := warp * 32 + lane * 4 + pair;
    Parts(tid, 32, warp, lane * 4 + pair);
    Parts(lane * 4 + pair, 4, lane, pair);
  }

  lemma TileSplits(i: nat, j: nat)
    ensures i == i / 16 * 16 + i % 16 / 8 * 8 + i % 8 && j == j / 8 * 8 + j % 8 / 2 * 2 + j % 2
    ensures i % 16 / 8 < 2 && j % 8 / 2 < 4
  {
    RowParts(i / 16, i % 16 / 8, i % 16 % 8);
    ColParts(j / 8, j % 8 / 2, j % 8 % 2);
  }

  lemma FileSplits(r: nat, tid: nat)
    ensures r == r / 4 * 4 + r % 4 / 2 * 2 + r % 2 && r % 4 / 2 < 2
    ensures tid == tid / 32 * 32 + tid % 32 / 4 * 4 + tid % 32 % 4 && tid % 32 / 4 < 8
  {
    RegParts(r / 4, r % 4 / 2, r % 4 % 2);
  }

  lemma AccForward(n: nat, i: nat, j: nat)
    requires n % 8 == 0 && i < 64 && j < n
    ensures var l := MakeWgmmaAcc(64, n);
            && ForwardIndex(l, i, j) == j / 8 * 4 + i % 16 / 8 * 2 + j % 2
            && ForwardThread(l, i, j) == i / 16 * 32 + i % 8 * 4 + j % 8 / 2
  {
    hide Times, Quotient, Remainder;
  }

  /** The formulas invert the store of the hardware: with lane `lane` of warp `warp` at row `warp * 16 + lane / 4`
    and column `group * 8 + lane % 4 * 2`, its registers of the group hold that element and its right neighbour,
    and the two elements eight rows below. */
  lemma AccumulatorStores(n: nat, warp: nat, lane: nat, group: nat)
    requires warp < 4 && lane < 32 && group * 8 + 8 <= n
    ensures var l := MakeWgmmaAcc(64, n);
            var i, j, tid := warp * 16 + lane / 4, group * 8 + lane % 4 * 2, warp * 32 + lane;
            && ForwardIndex(l, i, j) == group * 4 && ForwardThread(l, i, j) == tid
            && ForwardIndex(l, i, j + 1) == group * 4 + 1 && ForwardThread(l, i, j + 1) == tid
            && ForwardIndex(l, i + 8, j) == group * 4 + 2 && ForwardThread(l, i + 8, j) == tid
            && ForwardIndex(l, i + 8, j + 1) == group * 4 + 3 && ForwardThread(l, i + 8, j + 1) == tid
            && InTile(l, i + 8, j + 1) && InFile(l, group * 4 + 3, tid)
  {
    hide Times, Quotient, Remainder;
    RowParts(warp, 0, lane / 4);
    RowParts(warp, 1, lane / 4);
    ColParts(group, lane % 4, 0);
    ColParts(group, lane % 4, 1);
  }

  lemma AccElementReturns(n: nat, i: nat, j: nat)
    requires n % 8 == 0 && i < 64 && j < n
    ensures ElementReturns(MakeWgmmaAcc(64, n), i, j)
  {
    hide Times, Quotient, Remainder, ForwardIndex, ForwardThread;
    AccForward(n, i, j);
    TileSplits(i, j);
    RegParts(j / 8, i % 16 / 8, j % 2);
    ThreadParts(i / 16, i % 8, j % 8 / 2);
  }

  lemma AccRegisterReturns(n: nat, r: nat, tid: nat)
    requires n % 8 == 0 && r < n / 2 && tid < 128
    ensures RegisterReturns(MakeWgmmaAcc(64, n), r, tid)
  {
    hide Times, Quotient, Remainder;
    FileSplits(r, tid);
    RowParts(tid / 32, r % 4 / 2, tid % 32 / 4);
    ColParts(r / 4, tid % 32 % 4, r % 2);
  }

  /** A row of an accumulator lies with consecutive threads, as many as the reduction takes for a row. */
  lemma RowIsShared(n: nat, r: nat, tid: nat, tid': nat)
    ensures var l := MakeWgmmaAcc(64, n);
            var width := GetReduceParams(l).threadsPerRow;
            width > 0 &&
            (LogicalRowFromReg(l, r, tid) == LogicalRowFromReg(l, r, tid') <==> tid / width == tid' / width)
  {
    hide Times, Quotient, Remainder, MakeUniform2D;
    FileSplits(r, tid);
    FileSplits(r, tid');
    ThreadParts(tid / 32, tid % 32 / 4, tid % 32 % 4);
    ThreadParts(tid' / 32, tid' % 32 / 4, tid' % 32 % 4);
    RowParts(tid / 32, r % 4 / 2, tid % 32 / 4);
    RowParts(tid' / 32, r % 4 / 2, tid' % 32 / 4);
    Parts(tid, 4, tid / 32 * 8 + tid % 32 / 4, tid % 32 % 4);
    Parts(tid', 4, tid' / 32 * 8 + tid' % 32 / 4, tid' % 32 % 4);
  }

  // ----- uniform layouts -----

  /** The threads together hold the tile in the least number of registers. Registers go in fours exactly if four for
    each thread divide a tile that is not empty. */
  lemma UniformIsLeast(rows: nat, cols: nat, threads: nat, regs: nat)
    requires threads > 0
    ensures var l := MakeUniform2D(rows, cols, threads);
            && Times(rows, cols) <= Times(l.regsPerThread, threads)
            && (Times(rows, cols) <= Times(regs, threads) ==> l.regsPerThread <= regs)
            && (l.vecWidth == 4 <==> rows > 0 && cols > 0 && Remainder(Times(rows, cols), Times(4, threads)) == 0)
            && (l.vecWidth == 4 || l.vecWidth == 1)
  {
    hide Times, Quotient, Remainder;
    var total, last := Times(rows, cols), Times(rows, cols) + threads - 1;
    var least := Quotient(last, threads);
    Division(last, threads);
    Cancel(least, regs, threads);
    Gap(regs, least, threads);
    Exchange(threads, 4);
    Units(rows);
    Units(cols);
    if Remainder(total, Times(threads, 4)) == 0 {
      EvenRegisters(total, threads);
      FoursOf(total, threads);
    }
    Exchange(rows, cols);
  }

  lemma Exchange(a: nat, b: nat)
    ensures Times(a, b) == Times(b, a)
  {
  }

  /** Multiples of four of the threads fill the registers by fours. */
  lemma FoursOf(total: nat, t: nat)
    requires t > 0 && Remainder(total, Times(t, 4)) == 0
    ensures var regs := Times(Quotient(total, Times(t, 4)), 4); regs % 4 == 0 && (regs >= 4 <==> total > 0)
  {
    hide Quotient, Remainder;
    var q := Quotient(total, Times(t, 4));
    Division(total, Times(t, 4));
    Parts(Times(q, 4), 4, q, 0);
    if q == 0 { Units(Times(t, 4)); }
  }

  /** Where a thread continues: consecutive registers of a group of `vecWidth` hold consecutive positions, the next
    thread goes on behind the group, and the next group of a thread behind the groups of all threads. */
  lemma RegistersAreCoalesced(l: Layout, r: nat, tid: nat)
    requires l.kind == UNIFORM && l.vecWidth > 0
    ensures LogicalFlatFromReg(l, 0, 0) == 0
    ensures (r + 1) % l.vecWidth != 0 ==> LogicalFlatFromReg(l, r + 1, tid) == LogicalFlatFromReg(l, r, tid) + 1
    ensures LogicalFlatFromReg(l, r, tid + 1) == LogicalFlatFromReg(l, r, tid) + l.vecWidth
    ensures LogicalFlatFromReg(l, r + l.vecWidth, tid)
            == LogicalFlatFromReg(l, r, tid) + Times(l.threadCount, l.vecWidth)
  {
    hide Times, Quotient, Remainder;
    var w, t := l.vecWidth, l.threadCount;
    Small(0, w);
    Units(w);
    Units(t);
    Units(Times(t, w));
    Distribute(tid, 1, w);
    var q := Quotient(r, w);
    Division(r, w);
    Distribute(q, 1, w);
    DivisionIs(r + w, w, q + 1, Remainder(r, w));
    Distribute(q, 1, Times(t, w));
    Distribute(r, 1, t);
    if (r + 1) % w != 0 { NextInGroup(r, w); }
  }

  lemma NextInGroup(r: nat, w: nat)
    requires w > 0 && (r + 1) % w != 0
    ensures Quotient(r + 1, w) == Quotient(r, w) && Remainder(r + 1, w) == Remainder(r, w) + 1
  {
    var q, s := Quotient(r, w), Remainder(r, w);
    Division(r, w);
    if s + 1 == w {
      Distribute(q, 1, w);
      DivisionIs(r + 1, w, q + 1, 0);
      assert false;
    }
    DivisionIs(r + 1, w, q, s + 1);
  }

  lemma FlatReturns(l: Layout, i: nat, j: nat)
    requires InTile(l, i, j)
    ensures Quotient(Flat(l, i, j), l.cols) == i && Remainder(Flat(l, i, j), l.cols) == j
    ensures Flat(l, i, j) < Times(l.rows, l.cols)
  {
    hide Times, Quotient, Remainder;
    DivisionIs(Flat(l, i, j), l.cols, i, j);
    Gap(i, l.rows, l.cols);
  }

  lemma FlatSplits(l: Layout, flat: nat)
    requires l.cols >= 1 && flat < Times(l.rows, l.cols)
    ensures InTile(l, Quotient(flat, l.cols), Remainder(flat, l.cols))
    ensures Flat(l, Quotient(flat, l.cols), Remainder(flat, l.cols)) == flat
  {
    hide Times, Quotient, Remainder;
    Division(flat, l.cols);
    Cancel(Quotient(flat, l.cols), l.rows, l.cols);
  }

  /** The register and thread of a flat position, one formula for the scalar and the vector form. */
  function RegOf(l: Layout, flat: nat): nat
    requires l.threadCount > 0 && l.vecWidth > 0
  {
    Times(Quotient(Quotient(flat, l.vecWidth), l.threadCount), l.vecWidth) + Remainder(flat, l.vecWidth)
  }

  function ThreadOf(l: Layout, flat: nat): nat
    requires l.threadCount > 0 && l.vecWidth > 0
  {
    Remainder(Quotient(flat, l.vecWidth), l.threadCount)
  }

  function FlatOf(l: Layout, r: nat, tid: nat): nat
    requires l.vecWidth > 0
  {
    Times(Times(Quotient(r, l.vecWidth), l.threadCount) + tid, l.vecWidth) + Remainder(r, l.vecWidth)
  }

  lemma ByOne(a: nat)
    ensures Quotient(a, 1) == a && Remainder(a, 1) == 0
  {
  }

  lemma OneFormula(l: Layout, i: nat, j: nat, r: nat, tid: nat)
    requires l.kind == UNIFORM && l.threadCount > 0 && l.vecWidth > 0
    ensures ForwardIndex(l, i, j) == RegOf(l, Flat(l, i, j)) && ForwardThread(l, i, j) == ThreadOf(l, Flat(l, i, j))
    ensures LogicalFlatFromReg(l, r, tid) == FlatOf(l, r, tid)
  {
    hide Times, Quotient, Remainder, Flat;
    var flat, t, w := Flat(l, i, j), l.threadCount, l.vecWidth;
    if w > 1 {
      NestedDivision(flat, t, w);
      Distribute(Times(Quotient(r, w), t), tid, w);
      Associate(Quotient(r, w), t, w);
    } else {
      ByOne(flat);
      ByOne(r);
      Units(Quotient(flat, t));
      Units(Times(r, t) + tid);
    }
  }

  /** From a flat position to register and thread and back. */
  lemma PositionReturns(l: Layout, flat: nat)
    requires l.threadCount > 0 && l.vecWidth > 0
    ensures FlatOf(l, RegOf(l, flat), ThreadOf(l, flat)) == flat
  {
    hide Times, Quotient, Remainder;
    var t, w := l.threadCount, l.vecWidth;
    var q := Quotient(Quotient(flat, w), t);
    DivisionIs(RegOf(l, flat), w, q, Remainder(flat, w));
    Division(Quotient(flat, w), t);
    Division(flat, w);
  }

  /** From register and thread to flat position and back. */
  lemma SlotReturns(l: Layout, r: nat, tid: nat)
    requires l.vecWidth > 0 && tid < l.threadCount
    ensures RegOf(l, FlatOf(l, r, tid)) == r && ThreadOf(l, FlatOf(l, r, tid)) == tid
  {
    hide Times, Quotient, Remainder;
    var t, w, flat := l.threadCount, l.vecWidth, FlatOf(l, r, tid);
    var unit := Times(Quotient(r, w), t) + tid;
    DivisionIs(flat, w, unit, Remainder(r, w));
    DivisionIs(unit, t, Quotient(r, w), tid);
    Division(r, w);
  }

  lemma RowAndCol(l: Layout, r: nat, tid: nat, i: nat, j: nat)
    requires l.kind == UNIFORM && l.vecWidth > 0 && l.reduceRowStride == 0
    requires j < l.cols && LogicalFlatFromReg(l, r, tid) == Flat(l, i, j)
    ensures LogicalRowFromReg(l, r, tid) == i && LogicalColFromReg(l, r, tid) == j
  {
    hide Times, Quotient, Remainder, LogicalFlatFromReg;
    DivisionIs(Flat(l, i, j), l.cols, i, j);
    Units(i);
  }

  /** A position of the tile needs no register beyond the last. */
  lemma RegisterCount(rows: nat, cols: nat, threads: nat, flat: nat)
    requires threads > 0 && flat < Times(rows, cols)
    ensures RegOf(MakeUniform2D(rows, cols, threads), flat) < MakeUniform2D(rows, cols, threads).regsPerThread
  {
    hide Times, Quotient, Remainder;
    var l := MakeUniform2D(rows, cols, threads);
    var total, t := Times(rows, cols), threads;
    if l.vecWidth == 1 {
      ByOne(flat);
      Units(Quotient(flat, t));
      Division(flat, t);
      Division(total + t - 1, t);
      Cancel(Quotient(flat, t), Quotient(total + t - 1, t), t);
    } else {
      var m := Quotient(total, Times(t, 4));
      EvenRegisters(total, t);
      Division(total, Times(t, 4));
      NestedDivision(flat, t, 4);
      Division(flat, Times(t, 4));
      Cancel(Quotient(flat, Times(t, 4)), m, Times(t, 4));
      Gap(Quotient(flat, Times(t, 4)), m, 4);
    }
  }

  /** Registers divided evenly among the threads, singly or in fours. */
  lemma EvenRegisters(total: nat, t: nat)
    requires t > 0
    ensures Remainder(total, t) == 0 ==> Ceiling(total, t) == Quotient(total, t)
    ensures Times(t, 4) > 0 && Remainder(total, Times(t, 4)) == 0 ==>
              Remainder(total, t) == 0 && Ceiling(total, t) == Times(Quotient(total, Times(t, 4)), 4)
  {
    hide Times, Quotient, Remainder;
    if Remainder(total, Times(t, 4)) == 0 {
      var m := Quotient(total, Times(t, 4));
      Division(total, Times(t, 4));
      Swap(m, t);
      DivisionIs(total, t, Times(m, 4), 0);
    }
    if Remainder(total, t) == 0 {
      Division(total, t);
      DivisionIs(total + t - 1, t, Quotient(total, t), t - 1);
    }
  }

  lemma Swap(m: nat, t: nat)
    ensures Times(m, Times(t, 4)) == Times(Times(m, 4), t)
  {
    assert m * (t * 4) == m * 4 * t;
  }

  /** Every element of a uniform tile comes back from its register and thread, whatever the thread count. */
  lemma UniformElementReturns(rows: nat, cols: nat, threads: nat, i: nat, j: nat)
    requires threads > 0 && i < rows && j < cols
    ensures ElementReturns(MakeUniform2D(rows, cols, threads), i, j)
  {
    hide Times, Quotient, Remainder, Flat, RegOf, ThreadOf, FlatOf, Ceiling;
    var l := MakeUniform2D(rows, cols, threads);
    var flat, r, tid := Flat(l, i, j), ForwardIndex(l, i, j), ForwardThread(l, i, j);
    FlatReturns(l, i, j);
    OneFormula(l, i, j, r, tid);
    PositionReturns(l, flat);
    RegisterCount(rows, cols, threads, flat);
    RowAndCol(l, r, tid, i, j);
  }

  /** A register of a thread comes back from its element exactly when the tile has one for it. */
  lemma UniformRegisterReturns(rows: nat, cols: nat, threads: nat, r: nat, tid: nat)
    requires cols >= 1 && InFile(MakeUniform2D(rows, cols, threads), r, tid)
    ensures var l := MakeUniform2D(rows, cols, threads);
            RegisterReturns(l, r, tid) <==> LogicalFlatFromReg(l, r, tid) < Times(rows, cols)
  {
    hide Times, Quotient, Remainder, Flat, RegOf, ThreadOf, FlatOf, Ceiling, ForwardIndex, ForwardThread,
         LogicalFlatFromReg;
    var l := MakeUniform2D(rows, cols, threads);
    var flat := LogicalFlatFromReg(l, r, tid);
    var i, j := LogicalRowFromReg(l, r, tid), LogicalColFromReg(l, r, tid);
    OneFormula(l, i, j, r, tid);
    if flat < Times(rows, cols) {
      FlatSplits(l, flat);
      RowAndCol(l, r, tid, Quotient(flat, cols), Remainder(flat, cols));
      SlotReturns(l, r, tid);
    } else if RegisterReturns(l, r, tid) {
      FlatReturns(l, i, j);
      PositionReturns(l, Flat(l, i, j));
    }
  }

  /** Exactly when the threads divide the tile evenly does every register of every thread hold an element. */
  lemma UniformIsBijectiveIffEven(rows: nat, cols: nat, threads: nat)
    requires threads > 0 && rows >= 1 && cols >= 1
    ensures var l := MakeUniform2D(rows, cols, threads);
            (forall r: nat, tid: nat :: InFile(l, r, tid) ==> RegisterReturns(l, r, tid)) <==>
              Remainder(Times(rows, cols), threads) == 0
  {
    hide Times, Quotient, Remainder, Ceiling, RegisterReturns, LogicalFlatFromReg;
    var l := MakeUniform2D(rows, cols, threads);
    if Remainder(Times(rows, cols), threads) == 0 {
      forall r: nat, tid: nat | InFile(l, r, tid) ensures RegisterReturns(l, r, tid)
      {
        EvenFlatFits(rows, cols, threads, r, tid);
        UniformRegisterReturns(rows, cols, threads, r, tid);
      }
    } else {
      UnevenFlatOverflows(rows, cols, threads);
      UniformRegisterReturns(rows, cols, threads, l.regsPerThread - 1, threads - 1);
      assert InFile(l, l.regsPerThread - 1, threads - 1);
    }
  }

  lemma EvenFlatFits(rows: nat, cols: nat, threads: nat, r: nat, tid: nat)
    requires threads > 0 && Remainder(Times(rows, cols), threads) == 0
    requires InFile(MakeUniform2D(rows, cols, threads), r, tid)
    ensures LogicalFlatFromReg(MakeUniform2D(rows, cols, threads), r, tid) < Times(rows, cols)
  {
    hide Times, Quotient, Remainder, Ceiling, FlatOf;
    var l := MakeUniform2D(rows, cols, threads);
    var total, t := Times(rows, cols), threads;
    EvenRegisters(total, t);
    if l.vecWidth == 1 {
      Division(total, t);
      Gap(r, Quotient(total, t), t);
    } else {
      var m, q := Quotient(total, Times(t, 4)), Quotient(r, 4);
      Division(total, Times(t, 4));
      Division(r, 4);
      Cancel(q, m, 4);
      Gap(q, m, Times(t, 4));
      Gap(tid, t, 4);
    }
  }

  lemma UnevenFlatOverflows(rows: nat, cols: nat, threads: nat)
    requires threads > 0 && Remainder(Times(rows, cols), threads) != 0
    ensures var l := MakeUniform2D(rows, cols, threads);
            l.regsPerThread > 0 && LogicalFlatFromReg(l, l.regsPerThread - 1, threads - 1) >= Times(rows, cols)
  {
    hide Times, Quotient, Remainder;
    var total, t := Times(rows, cols), threads;
    var n := Quotient(total, t);
    EvenRegisters(total, t);
    Division(total, t);
    Distribute(n, 1, t);
    Units(t);
    DivisionIs(total + t - 1, t, n + 1, Remainder(total, t) - 1);
  }

  // ----- row-wise reductions -----

  predicate InLoops(l: Layout, row: nat, rv: nat) {
    row < GetReduceParams(l).rowsPerThread && rv < GetReduceParams(l).localCols
  }

  /** The register of an iteration of the reduction loops. */
  function RegAt(l: Layout, row: nat, rv: nat): nat {
    ReduceLocalIndex(l, row, rv, GetReduceParams(l).localCols)
  }

  /** The loops come to register `r` in the iteration of this row and column. */
  ghost predicate ReadsAt(l: Layout, r: nat, row: nat, rv: nat) {
    InLoops(l, row, rv) && RegAt(l, row, rv) == r
  }

  /** The reduction loops read register `r` in one iteration and in no other. */
  ghost predicate ReadOnce(l: Layout, r: nat) {
    exists row: nat, rv: nat ::
      ReadsAt(l, r, row, rv) && forall row': nat, rv': nat :: ReadsAt(l, r, row', rv') ==> row' == row && rv' == rv
  }

  /** On an accumulator the reduction reads each register once, and each inner loop stays in one row. */
  lemma AccumulatorReduction(n: nat, r: nat, row: nat, rv: nat, tid: nat)
    requires n % 8 == 0
    ensures var l := MakeWgmmaAcc(64, n);
            && (r < l.regsPerThread ==> ReadOnce(l, r))
            && (InLoops(l, row, rv) ==>
                  && RegAt(l, row, rv) < l.regsPerThread
                  && LogicalRowFromReg(l, RegAt(l, row, rv), tid) == LogicalRowFromReg(l, RegAt(l, row, 0), tid))
  {
    hide Times, Quotient, Remainder, ReadOnce, LogicalRowFromReg, RegAt, GetReduceParams;
    var l := MakeWgmmaAcc(64, n);
    if r < l.regsPerThread {
      AccReadOnce(n, r);
    }
    if InLoops(l, row, rv) {
      AccStaysInRow(n, row, rv, tid);
    }
  }

  lemma AccStaysInRow(n: nat, row: nat, rv: nat, tid: nat)
    requires n % 8 == 0 && InLoops(MakeWgmmaAcc(64, n), row, rv)
    ensures var l := MakeWgmmaAcc(64, n);
            && RegAt(l, row, rv) < l.regsPerThread
            && LogicalRowFromReg(l, RegAt(l, row, rv), tid) == LogicalRowFromReg(l, RegAt(l, row, 0), tid)
  {
    hide Times, Quotient, Remainder, GetReduceParams;
    AccLoops(n);
    RegParts(rv / 2, row, rv % 2);
    RegParts(0, row, 0);
    assert rv / 2 * 4 + rv % 2 * 2 == rv * 2;
  }

  lemma AccLoops(n: nat)
    requires n % 8 == 0
    ensures GetReduceParams(MakeWgmmaAcc(64, n)) == ReduceParams(2, n / 8 * 2, 4, 128) && n == n / 8 * 8
  {
    hide Times, Remainder;
    Parts(n / 2, 2, n / 8 * 2, 0);
  }

  lemma AccIterationOf(n: nat, r: nat)
    requires n % 8 == 0 && r < n / 2
    ensures ReadsAt(MakeWgmmaAcc(64, n), r, r % 4 / 2, r / 4 * 2 + r % 2)
  {
    hide Times, Quotient, Remainder, GetReduceParams;
    AccLoops(n);
    FileSplits(r, 0);
    Parts(r / 4 * 2 + r % 2, 2, r / 4, r % 2);
    assert r / 4 * 4 <= r < n / 8 * 4;
  }

  lemma AccIterationIs(n: nat, r: nat, row: nat, rv: nat)
    requires ReadsAt(MakeWgmmaAcc(64, n), r, row, rv)
    ensures row == r % 4 / 2 && rv == r / 4 * 2 + r % 2
  {
    hide Times, Remainder;
    RegParts(rv / 2, row, rv % 2);
    assert rv == rv / 2 * 2 + rv % 2;
  }

  lemma AccReadOnce(n: nat, r: nat)
    requires n % 8 == 0 && r < n / 2
    ensures ReadOnce(MakeWgmmaAcc(64, n), r)
  {
    hide ReadsAt;
    var l, row, rv: nat := MakeWgmmaAcc(64, n), r % 4 / 2, r / 4 * 2 + r % 2;
    AccIterationOf(n, r);
    forall row': nat, rv': nat | ReadsAt(l, r, row', rv') ensures row' == row && rv' == rv
    {
      AccIterationIs(n, r, row', rv');
    }
  }

  /** The register of a replicated row vector that an accumulator register is combined with holds the
    row the accumulator register belongs to, in the first thread of its group of four. */
  lemma BroadcastRowMatches(n: nat, r: nat, tid: nat)
    requires n % 8 == 0 && InFile(MakeWgmmaAcc(64, n), r, tid)
    ensures var l := MakeWgmmaAcc(64, n);
            var vec, row := MakeReduceDst(l), LogicalRowFromReg(l, r, tid);
            && RowFromRegIndex(l, r) == ForwardIndex(vec, row, 0) < vec.regsPerThread
            && ForwardThread(vec, row, 0) == tid - tid % 4
            && row < vec.rows
  {
    hide Times, Quotient, Remainder;
    RowParts(tid / 32, r % 4 / 2, tid % 32 / 4);
    assert tid - tid % 4 == tid / 32 * 32 + tid % 32 / 4 * 4;
  }

  /** The replicated vector of an accumulator keeps two rows a thread, but its own row formula gives
    the row of the first for both: it is right exactly for register 0. */
  lemma ReplicatedRowIsRightIffFirst(n: nat, r: nat, tid: nat)
    requires n % 8 == 0 && InFile(MakeReduceDst(MakeWgmmaAcc(64, n)), r, tid)
    ensures var vec := MakeReduceDst(MakeWgmmaAcc(64, n));
            ForwardIndex(vec, LogicalRowFromReg(vec, r, tid), 0) == r <==> r == 0
  {
    hide Times, Quotient, Remainder;
    RowParts(tid / 32, 0, tid % 32 / 4);
    assert r % 4 / 2 == 0;
  }

  /** A scalar uniform tile of more than one column, evenly divided among the threads. */
  predicate IsReducible(l: Layout) {
    && l == MakeUniform2D(l.rows, l.cols, l.threadCount) && l.kind == UNIFORM && l.vecWidth == 1
    && l.rows >= 1 && l.cols > 1 && l.threadCount > 0 && Remainder(Times(l.rows, l.cols), l.threadCount) == 0
  }

  /** One of columns and threads divides the other. */
  predicate Divides(l: Layout)
    requires l.cols > 0 && l.threadCount > 0
  {
    Remainder(l.cols, l.threadCount) == 0 || Remainder(l.threadCount, l.cols) == 0
  }

  lemma RegistersTimesThreads(l: Layout)
    requires IsReducible(l)
    ensures Times(l.regsPerThread, l.threadCount) == Times(l.rows, l.cols) && l.regsPerThread > 0
  {
    hide Times, Quotient, Remainder;
    EvenRegisters(Times(l.rows, l.cols), l.threadCount);
    Division(Times(l.rows, l.cols), l.threadCount);
    Units(l.threadCount);
  }

  /** Equal numbers divide each other; otherwise only the smaller divides the larger. */
  lemma LargerIsMultiple(l: Layout)
    requires IsReducible(l) && Divides(l)
    ensures l.cols >= l.threadCount ==> l.cols == Times(Quotient(l.cols, l.threadCount), l.threadCount)
    ensures l.cols <= l.threadCount ==> l.threadCount == Times(Quotient(l.threadCount, l.cols), l.cols)
  {
    hide Times, Quotient, Remainder;
    Division(l.cols, l.threadCount);
    Division(l.threadCount, l.cols);
    if l.cols > l.threadCount {
      Small(l.threadCount, l.cols);
    } else if l.cols < l.threadCount {
      Small(l.cols, l.threadCount);
    } else {
      Units(l.cols);
      DivisionIs(l.cols, l.cols, 1, 0);
    }
  }

  lemma LoopsCoverRegisters(l: Layout)
    requires IsReducible(l) && Divides(l)
    ensures var p := GetReduceParams(l);
            p.localCols > 0 && Times(p.rowsPerThread, p.localCols) == l.regsPerThread
    ensures l.cols >= l.threadCount ==> GetReduceParams(l).rowsPerThread == l.rows
  {
    hide Times, Quotient, Remainder, MakeUniform2D, Divides;
    var t := l.threadCount;
    RegistersTimesThreads(l);
    LargerIsMultiple(l);
    if l.cols >= t {
      var q := Quotient(l.cols, t);
      Units(t);
      Cancel(0, q, t);
      Associate(l.rows, q, t);
      Cancel(l.regsPerThread, Times(l.rows, q), t);
      DivisionIs(l.regsPerThread, q, l.rows, 0);
    } else {
      ByOne(l.regsPerThread);
      Units(l.regsPerThread);
    }
  }

  /** When columns and threads divide one another, the reduction reads each register once. */
  lemma UniformReductionReadsOnce(l: Layout, r: nat)
    requires IsReducible(l) && Divides(l) && r < l.regsPerThread
    ensures ReadOnce(l, r)
  {
    hide Times, Quotient, Remainder, MakeUniform2D, Divides, GetReduceParams;
    LoopsCoverRegisters(l);
    var p := GetReduceParams(l);
    var row, rv := Quotient(r, p.localCols), Remainder(r, p.localCols);
    Division(r, p.localCols);
    Cancel(row, p.rowsPerThread, p.localCols);
    assert ReadsAt(l, r, row, rv);
    forall row': nat, rv': nat | ReadsAt(l, r, row', rv') ensures row' == row && rv' == rv
    {
      DivisionIs(r, p.localCols, row', rv');
    }
  }

  /** The row that the reduction's destination names for an outer iteration. */
  function DestinationRow(l: Layout, row: nat, tid: nat): nat
    requires IsReducible(l)
  {
    LogicalRowFromReg(MakeReduceDst(l), row, tid)
  }

  /** The register of an iteration lies in the row the destination names. */
  ghost predicate RowsAgree(l: Layout, row: nat, rv: nat, tid: nat)
    requires IsReducible(l)
  {
    LogicalRowFromReg(l, RegAt(l, row, rv), tid) == DestinationRow(l, row, tid)
  }

  ghost predicate AllRowsAgree(l: Layout)
    requires IsReducible(l)
  {
    forall row: nat, rv: nat, tid: nat :: InLoops(l, row, rv) && tid < l.threadCount ==> RowsAgree(l, row, rv, tid)
  }

  lemma RowsWritten(l: Layout, row: nat, rv: nat, tid: nat)
    requires IsReducible(l)
    ensures var p, t := GetReduceParams(l), l.threadCount;
            && LogicalRowFromReg(l, RegAt(l, row, rv), tid)
               == Quotient(Times(Times(row, p.localCols) + rv, t) + tid, l.cols)
            && (l.cols >= t ==> DestinationRow(l, row, tid) == row + Quotient(tid, t))
            && (l.cols < t ==> DestinationRow(l, row, tid) == Times(row, Quotient(t, l.cols)) + Quotient(tid, l.cols))
  {
    hide Times, Quotient, Remainder, MakeUniform2D;
    Units(row);
    Units(l.threadCount);
    DivisionIs(l.threadCount, l.threadCount, 1, 0);
    if l.cols < l.threadCount {
      Division(l.threadCount, l.cols);
      Units(l.cols);
      assert Quotient(l.threadCount, l.cols) > 0;
    }
  }

  /** The destination of a row reduction names the rows that were reduced, for every register, inner
    iteration and thread, exactly when one of columns and threads divides the other. */
  lemma ReducedRowsAgreeIffDividing(l: Layout)
    requires IsReducible(l)
    ensures AllRowsAgree(l) <==> Divides(l)
  {
    hide Times, Quotient, Remainder, MakeUniform2D, RowsAgree, InLoops, GetReduceParams;
    if Divides(l) {
      forall row: nat, rv: nat, tid: nat | InLoops(l, row, rv) && tid < l.threadCount ensures RowsAgree(l, row, rv, tid)
      {
        DividingRowsAgree(l, row, rv, tid);
      }
    } else {
      var tid := UnevenRowsDisagree(l);
      assert InLoops(l, 1, 0) && tid < l.threadCount && !RowsAgree(l, 1, 0, tid);
    }
  }

  lemma DividingRowsAgree(l: Layout, row: nat, rv: nat, tid: nat)
    requires IsReducible(l) && Divides(l) && InLoops(l, row, rv) && tid < l.threadCount
    ensures RowsAgree(l, row, rv, tid)
  {
    hide Times, Quotient, Remainder, MakeUniform2D, Divides, DestinationRow, LogicalRowFromReg, RegAt;
    RowsWritten(l, row, rv, tid);
    LargerIsMultiple(l);
    LoopsCoverRegisters(l);
    var t, cols := l.threadCount, l.cols;
    if cols >= t {
      var q := Quotient(cols, t);
      Distribute(Times(row, q), rv, t);
      Associate(row, q, t);
      Gap(rv, q, t);
      DivisionIs(Times(Times(row, q) + rv, t) + tid, cols, row, Times(rv, t) + tid);
      Small(tid, t);
    } else {
      var q := Quotient(t, cols);
      Units(row);
      Division(tid, cols);
      Distribute(Times(row, q), Quotient(tid, cols), cols);
      Associate(row, q, cols);
      DivisionIs(Times(row, t) + tid, cols, Times(row, q) + Quotient(tid, cols), Remainder(tid, cols));
    }
  }

  lemma UnevenRowsDisagree(l: Layout) returns (tid: nat)
    requires IsReducible(l) && !Divides(l)
    ensures InLoops(l, 1, 0) && tid < l.threadCount && !RowsAgree(l, 1, 0, tid)
  {
    hide Times, Quotient, Remainder, MakeUniform2D, DestinationRow, LogicalRowFromReg, RegAt;
    var t, cols := l.threadCount, l.cols;
    SecondRowExists(l);
    if cols > t {
      tid := 0;
      RowsWritten(l, 1, 0, tid);
      var q := Quotient(cols, t);
      Division(cols, t);
      Units(t);
      Cancel(0, q, t);
      Units(q);
      Small(Times(q, t), cols);
      Small(0, t);
    } else {
      Units(t);
      if cols == t {
        DivisionIs(cols, t, 1, 0);
      }
      var q, s := Quotient(t, cols), Remainder(t, cols);
      Division(t, cols);
      tid := cols - s;
      RowsWritten(l, 1, 0, tid);
      Units(1);
      Units(q);
      Units(cols);
      Distribute(q, 1, cols);
      DivisionIs(t + tid, cols, q + 1, 0);
      Small(tid, cols);
    }
  }

  /** A tile that neither divides has at least two outer iterations. */
  lemma SecondRowExists(l: Layout)
    requires IsReducible(l) && !Divides(l)
    ensures InLoops(l, 1, 0)
  {
    hide Times, Quotient, Remainder, MakeUniform2D;
    var t, cols, regs := l.threadCount, l.cols, l.regsPerThread;
    RegistersTimesThreads(l);
    Units(cols);
    Units(t);
    WholeDivision(cols, t, regs);
    WholeDivision(t, cols, l.rows);
    Gap(1, l.rows, cols);
    if cols >= t {
      var q := Quotient(cols, t);
      Division(cols, t);
      Cancel(0, q, t);
      Distribute(q, q, t);
      Cancel(q + q, regs, t);
      Division(regs, q);
      Units(q);
      Gap(Quotient(regs, q), 2, q);
      Distribute(1, 1, q);
    } else {
      ByOne(regs);
    }
  }

  // ----- the registers of a reduced vector -----

  /** The register index formula undoes the row formula, for every register and thread. */
  ghost predicate IndexInverts(vec: Layout)
    requires vec.kind == REPLICATED_1D && vec.vecWidth > 0 && vec.threadCount > 0 && vec.replicate > 0
  {
    forall r: nat, tid: nat :: r < vec.regsPerThread && tid < vec.threadCount ==>
      ForwardIndex(vec, LogicalRowFromReg(vec, r, tid), 0) == r
  }

  /** A vector whose thread `tid` has row `r * stride + tid / replicate` in register `r`. */
  predicate IsStrided(vec: Layout) {
    && vec.kind == REPLICATED_1D && vec.vecWidth > 0 && vec.replicate > 0 && vec.reduceRowStride > 0
    && vec.threadCount == Times(vec.reduceRowStride, vec.replicate) && vec.regsPerThread > 0
  }

  /** Thread `u * replicate` has row `r * stride + u`. */
  lemma RowOfThread(vec: Layout, r: nat, u: nat) returns (tid: nat)
    requires IsStrided(vec) && u < vec.reduceRowStride
    ensures tid < vec.threadCount
    ensures LogicalRowFromReg(vec, r, tid) == Times(r, vec.reduceRowStride) + u
  {
    hide Times, Quotient, Remainder;
    tid := Times(u, vec.replicate);
    DivisionIs(tid, vec.replicate, u, 0);
    Gap(u, vec.reduceRowStride, vec.replicate);
  }

  lemma ThreadHasRow(vec: Layout, tid: nat)
    requires IsStrided(vec) && tid < vec.threadCount
    ensures Quotient(tid, vec.replicate) < vec.reduceRowStride
  {
    hide Times, Quotient, Remainder;
    Division(tid, vec.replicate);
    Gap(vec.reduceRowStride, Quotient(tid, vec.replicate), vec.replicate);
  }

  /** The index formula is that of an accumulator whatever the stride is, so it undoes the row formula only
    for one register of up to eight rows, or two of exactly eight. */
  lemma StridedIndexInvertsIff(vec: Layout)
    requires IsStrided(vec)
    ensures vec.threadCount > 0
    ensures IndexInverts(vec) <==>
              || (vec.regsPerThread == 1 && vec.reduceRowStride <= 8)
              || (vec.regsPerThread == 2 && vec.reduceRowStride == 8)
  {
    hide Times, Quotient, Remainder;
    var s := vec.reduceRowStride;
    Units(s);
    if (vec.regsPerThread == 1 && s <= 8) || (vec.regsPerThread == 2 && s == 8) {
      forall r: nat, tid: nat | r < vec.regsPerThread && tid < vec.threadCount
        ensures ForwardIndex(vec, LogicalRowFromReg(vec, r, tid), 0) == r
      {
        ThreadHasRow(vec, tid);
      }
    } else if vec.regsPerThread > 2 {
      var tid := RowOfThread(vec, 2, 0);
    } else if s > 8 {
      var tid := RowOfThread(vec, 0, 8);
    } else {
      var tid := RowOfThread(vec, 1, 0);
    }
  }

  /** So it is with the destination of a uniform row reduction whose columns and threads divide one another. */
  lemma ReducedIndexInvertsIff(l: Layout)
    requires IsReducible(l) && Divides(l)
    ensures IsStrided(MakeReduceDst(l))
    ensures var vec := MakeReduceDst(l);
            IndexInverts(vec) <==>
              || (vec.regsPerThread == 1 && vec.reduceRowStride <= 8)
              || (vec.regsPerThread == 2 && vec.reduceRowStride == 8)
  {
    hide Times, Quotient, Remainder, IndexInverts, MakeUniform2D, Divides;
    var p, t := GetReduceParams(l), l.threadCount;
    RegistersTimesThreads(l);
    LoopsCoverRegisters(l);
    LargerIsMultiple(l);
    Units(p.localCols);
    Units(t);
    DivisionIs(t, t, 1, 0);
    Division(t, p.threadsPerRow);
    Units(p.threadsPerRow);
    StridedIndexInvertsIff(MakeReduceDst(l));
  }
}
