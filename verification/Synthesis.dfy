/** The synthesis filter's memory: a ring of 10 * rows entries with a nine-entry mirror, written
    at decreasing offsets, against the shift register of the A2DP specification (Appendix B,
    section 12.6). The matrix and the window, whose coefficients do not matter here, are functions. */
module Synthesis {

  /** What the filter computes: the new row values of a block, and an output from its ten taps. */
  datatype Filter = Filter(rows: nat, matrix: (seq<int>, nat) -> int, window: (seq<int>, nat) -> int)

  /** Eight rows for four subbands and sixteen for eight; the proof needs an even number that the
      arrays can hold. */
  predicate FilterValid(f: Filter) {
    0 < f.rows <= 16 && f.rows % 2 == 0
  }

  /** The shift register: reg[m][i] is the value of row i, m blocks ago. */
  type Register = seq<seq<int>>

  predicate RegisterFits(reg: Register, rows: nat) {
    |reg| == 10 && forall m :: 0 <= m < 10 ==> |reg[m]| == rows
  }

  function Rows(f: Filter, samples: seq<int>): (r: seq<int>)
    ensures |r| == f.rows
  {
    seq(f.rows, i requires 0 <= i < f.rows => f.matrix(samples, i))
  }

  function Shift(reg: Register, row: seq<int>): (r: Register)
    requires |reg| == 10
    ensures |r| == 10
  {
    [row] + reg[..9]
  }

  function Clip16(s: int): int {
    if s > 0x7FFF then 0x7FFF else if s < -0x8000 then -0x8000 else s
  }

  /** The ten taps of output i: even blocks from row i, odd blocks from the row half way up. */
  function Taps(reg: Register, rows: nat, i: nat): (r: seq<int>)
    requires RegisterFits(reg, rows) && i < rows / 2
    ensures |r| == 10
  {
    seq(10, m requires 0 <= m < 10 => reg[m][if m % 2 == 0 then i else i + rows / 2])
  }

  /** The outputs of one block after the register has been shifted. */
  function Outputs(f: Filter, reg: Register): (r: seq<int>)
    requires RegisterFits(reg, f.rows)
    ensures |r| == f.rows / 2
  {
    seq(f.rows / 2, i requires 0 <= i < f.rows / 2 => Clip16(f.window(Taps(reg, f.rows, i), i)))
  }

  function Zero(rows: nat): (r: Register)
    ensures RegisterFits(r, rows)
  {
    seq(10, m => seq(rows, i => 0))
  }

  /** The register after a run of blocks. */
  function RegisterAfter(f: Filter, reg: Register, blocks: seq<seq<int>>): (r: Register)
    requires RegisterFits(reg, f.rows)
    ensures RegisterFits(r, f.rows)
  {
    if blocks == [] then reg
    else Shift(RegisterAfter(f, reg, blocks[..|blocks| - 1]), Rows(f, blocks[|blocks| - 1]))
  }

  /** Everything the standard's filter puts out for a run of blocks. */
  function Decoded(f: Filter, reg: Register, blocks: seq<seq<int>>): seq<int>
    requires RegisterFits(reg, f.rows)
  {
    if blocks == [] then []
    else Decoded(f, reg, blocks[..|blocks| - 1]) + Outputs(f, RegisterAfter(f, reg, blocks))
  }

  /** Entry m of row i's window, in the arrays of one channel. */
  ghost function Entry(v: seq<int>, offset: seq<int>, i: nat, m: nat): int
    requires i < |offset| && 0 <= offset[i] + m < |v|
  {
    v[offset[i] + m]
  }

  /** The first n entries of row i's window are the row's last n values. */
  ghost predicate Window(v: seq<int>, offset: seq<int>, reg: Register, i: nat, n: nat)
    requires i < |offset| && n <= |reg| && forall m :: 0 <= m < n ==> i < |reg[m]|
  {
    0 <= offset[i] && offset[i] + n <= |v| && forall m: nat :: m < n ==> Entry(v, offset, i, m) == reg[m][i]
  }

  /** 10 * i + 10 moved down `phase` times round the ring. */
  function Place(rows: nat, i: int, phase: int): int {
    if 10 * i + 10 >= phase then 10 * i + 10 - phase else 10 * i + 10 - phase + 10 * rows
  }

  function NextPhase(rows: nat, phase: nat): nat {
    if phase == 10 * rows then 1 else phase + 1
  }

  /** In the middle of a block: the rows below i have moved and hold the new register, the others
      have not, and the oldest value of those is no longer needed. */
  ghost predicate Moving(rows: nat, v: seq<int>, offset: seq<int>, phase: nat, before: Register, after: Register, i: nat) {
    && |v| == 170 && |offset| == 16 && 0 < rows <= 16 && i <= rows && phase <= 10 * rows
    && RegisterFits(before, rows) && RegisterFits(after, rows)
    && (forall j: nat :: j < i ==> offset[j] == Place(rows, j, NextPhase(rows, phase)) && Window(v, offset, after, j, 10))
    && (forall j: nat :: i <= j < rows ==> offset[j] == Place(rows, j, phase) && Window(v, offset, before, j, 9))
  }

  /** The ring after the nine-entry mirror has been copied. */
  function Mirrored(rows: nat, v: seq<int>): (r: seq<int>)
    requires |v| == 170 && 9 <= 10 * rows <= 160
    ensures |r| == 170
  {
    v[..10 * rows] + v[..9] + v[10 * rows + 9..]
  }

  /** The ring after a row at `from` has moved down and taken in x. */
  function MovedRing(rows: nat, v: seq<int>, from: int, x: int): (r: seq<int>)
    requires |v| == 170 && 0 < rows <= 16 && 0 <= Down(rows, from) < 170
    ensures |r| == 170
  {
    (if from - 1 < 0 then Mirrored(rows, v) else v)[Down(rows, from) := x]
  }

  /** Where row i moves to. */
  function Down(rows: nat, at: int): int {
    if at - 1 < 0 then 10 * rows - 1 else at - 1
  }

  lemma DownIsNextPlace(rows: nat, i: nat, phase: nat)
    requires i < rows && phase <= 10 * rows
    ensures Down(rows, Place(rows, i, phase)) == Place(rows, i, NextPhase(rows, phase))
    ensures 0 <= Place(rows, i, NextPhase(rows, phase)) < 10 * rows
  {
  }

  /** The window of another row lies clear of what moving row i writes. */
  lemma OtherRowUntouched(rows: nat, i: nat, j: nat, phase: nat, m: nat)
    requires 0 < rows <= 16 && i < rows && j < rows && i != j && phase <= 10 * rows && m < 10 && (j > i ==> m < 9)
    ensures var at := Down(rows, Place(rows, i, phase));
      var k := m + Place(rows, j, if j < i then NextPhase(rows, phase) else phase);
      k != at && 0 <= k < 170 && (Place(rows, i, phase) == 0 ==> !(10 * rows <= k < 10 * rows + 9))
  {
  }

  lemma OwnWindow(rows: nat, v: seq<int>, offset: seq<int>, before: Register, row: seq<int>, i: nat, k: nat)
    requires 0 < rows <= 16 && |row| == rows && RegisterFits(before, rows) && i < rows && |v| == 170 && |offset| == 16
    requires 0 <= offset[i] <= 10 * rows && Window(v, offset, before, i, 9) && k < 10
    ensures var at := Down(rows, offset[i]);
      0 <= at < 10 * rows && MovedRing(rows, v, offset[i], row[i])[at + k] == Shift(before, row)[k][i]
  {
    if k > 0 {
      assert Entry(v, offset, i, k - 1) == before[k - 1][i];
    }
  }

  lemma OtherWindow(rows: nat, v: seq<int>, offset: seq<int>, phase: nat, reg: Register, i: nat, j: nat, n: nat, x: int)
    requires 0 < rows <= 16 && RegisterFits(reg, rows) && i < rows && j < rows && i != j
    requires |v| == 170 && |offset| == 16 && phase <= 10 * rows && n == if j < i then 10 else 9
    requires offset[i] == Place(rows, i, phase) && offset[j] == Place(rows, j, if j < i then NextPhase(rows, phase) else phase)
    requires Window(v, offset, reg, j, n)
    ensures 0 <= Down(rows, offset[i]) < 10 * rows
    ensures Window(MovedRing(rows, v, offset[i], x), offset[i := Down(rows, offset[i])], reg, j, n)
  {
    DownIsNextPlace(rows, i, phase);
    var w, places := MovedRing(rows, v, offset[i], x), offset[i := Down(rows, offset[i])];
    forall m: nat | m < n ensures Entry(w, places, j, m) == reg[m][j] {
      OtherRowUntouched(rows, i, j, phase, m);
      assert Entry(v, offset, j, m) == reg[m][j];
    }
  }

  /** Moving row i keeps every other window and extends its own. */
  lemma MoveRow(rows: nat, v: seq<int>, offset: seq<int>, phase: nat, before: Register, row: seq<int>, i: nat)
    requires |row| == rows && |before| == 10 && i < rows
    requires Moving(rows, v, offset, phase, before, Shift(before, row), i)
    ensures 0 <= Down(rows, offset[i]) < 10 * rows
    ensures Moving(rows, MovedRing(rows, v, offset[i], row[i]), offset[i := Down(rows, offset[i])], phase,
                   before, Shift(before, row), i + 1)
  {
    hide MovedRing, Window, Place, Down, NextPhase;
    PlaceInRing(rows, i, phase);
    DownIsNextPlace(rows, i, phase);
    var after := Shift(before, row);
    var w, places := MovedRing(rows, v, offset[i], row[i]), offset[i := Down(rows, offset[i])];
    OwnWindowMoved(rows, v, offset, before, row, i);
    forall j: nat | j < i ensures places[j] == Place(rows, j, NextPhase(rows, phase)) && Window(w, places, after, j, 10) {
      OtherWindow(rows, v, offset, phase, after, i, j, 10, row[i]);
    }
    forall j: nat | i < j < rows ensures places[j] == Place(rows, j, phase) && Window(w, places, before, j, 9) {
      OtherWindow(rows, v, offset, phase, before, i, j, 9, row[i]);
    }
  }

  lemma PlaceInRing(rows: nat, i: nat, phase: nat)
    requires i < rows && phase <= 10 * rows
    ensures 0 <= Place(rows, i, phase) <= 10 * rows
  {
  }

  lemma OwnWindowMoved(rows: nat, v: seq<int>, offset: seq<int>, before: Register, row: seq<int>, i: nat)
    requires 0 < rows <= 16 && |row| == rows && RegisterFits(before, rows) && i < rows && |v| == 170 && |offset| == 16
    requires 0 <= offset[i] <= 10 * rows && Window(v, offset, before, i, 9)
    ensures 0 <= Down(rows, offset[i]) < 10 * rows
    ensures Window(MovedRing(rows, v, offset[i], row[i]), offset[i := Down(rows, offset[i])], Shift(before, row), i, 10)
  {
    hide MovedRing;
    var w, places := MovedRing(rows, v, offset[i], row[i]), offset[i := Down(rows, offset[i])];
    forall m: nat | m < 10 ensures Entry(w, places, i, m) == Shift(before, row)[m][i] {
      OwnWindow(rows, v, offset, before, row, i, m);
    }
  }

  lemma StartMoving(rows: nat, v: seq<int>, offset: seq<int>, phase: nat, before: Register, row: seq<int>)
    requires |v| == 170 && |offset| == 16 && 0 < rows <= 16 && |row| == rows && phase <= 10 * rows && RegisterFits(before, rows)
    requires forall i: nat :: i < rows ==> offset[i] == Place(rows, i, phase) && Window(v, offset, before, i, 10)
    ensures Moving(rows, v, offset, phase, before, Shift(before, row), 0)
  {
    hide Place;
  }

  /** One channel of struct sbc_decoder_state. */
  class Channel {
    const filter: Filter
    const v: array<int>
    const offset: array<int>
    ghost var phase: nat
    ghost var reg: Register

    ghost predicate Valid()
      reads this, v, offset
    {
      && FilterValid(filter) && v.Length == 170 && offset.Length == 16 && v != offset
      && RegisterFits(reg, filter.rows) && phase <= 10 * filter.rows
      && forall i: nat :: i < filter.rows ==>
           offset[i] == Place(filter.rows, i, phase) && Window(v[..], offset[..], reg, i, 10)
    }

    /** sbc_decoder_init */
    constructor (filter: Filter)
      requires FilterValid(filter)
      ensures Valid() && this.filter == filter && reg == Zero(filter.rows)
      ensures fresh(v) && fresh(offset)
    {
      this.filter := filter;
      v := new int[170](_ => 0);
      offset := new int[16](i => 10 * i + 10);
      phase := 0;
      reg := Zero(filter.rows);
    }

    /** The first nine entries again behind the ring. */
    method CopyMirror()
      requires FilterValid(filter) && v.Length == 170
      modifies v
      ensures v[..] == Mirrored(filter.rows, old(v[..]))
    {
      for j := 0 to 9
        invariant forall k :: 0 <= k < 170 ==> v[k] == if 10 * filter.rows <= k < 10 * filter.rows + j then old(v[k - 10 * filter.rows]) else old(v[k])
      {
        v[j + 10 * filter.rows] := v[j];
      }
    }

    /** One row of the shifting loop. */
    method MoveDown(i: nat, x: int)
      requires FilterValid(filter) && v.Length == 170 && offset.Length == 16 && v != offset
      requires i < 16 && 0 <= offset[i] && 0 <= Down(filter.rows, offset[i]) < 170
      modifies v, offset
      ensures offset[..] == old(offset[..])[i := Down(filter.rows, old(offset[i]))]
      ensures v[..] == MovedRing(filter.rows, old(v[..]), old(offset[i]), x)
    {
      offset[i] := offset[i] - 1;
      if offset[i] < 0 {
        offset[i] := 10 * filter.rows - 1;
        CopyMirror();
      }
      v[offset[i]] := x;
    }

    /** The shifting loop of sbc_synthesize_four and sbc_synthesize_eight. */
    method ShiftIn(samples: seq<int>)
      requires Valid()
      modifies this`phase, this`reg, v, offset
      ensures Valid() && reg == Shift(old(reg), Rows(filter, samples))
    {
      hide Place, Window, Down, MovedRing;
      var rows := filter.rows;
      ghost var p, before, row := phase, reg, Rows(filter, samples);
      StartMoving(rows, v[..], offset[..], p, before, row);
      for i := 0 to rows
        invariant phase == p && reg == before
        invariant Moving(rows, v[..], offset[..], p, before, Shift(before, row), i)
      {
        MoveRow(rows, v[..], offset[..], p, before, row, i);
        RowStart(rows, offset[..], i, p);
        MoveDown(i, filter.matrix(samples, i));
      }
      phase, reg := NextPhase(rows, p), Shift(before, row);
    }

    /** The ten taps of one sum, from the windows of two rows. */
    method ReadTaps(i: nat) returns (taps: seq<int>)
      requires Valid() && i < filter.rows / 2
      ensures taps == Taps(reg, filter.rows, i)
    {
      hide Place;
      var k := i + filter.rows / 2;
      assert Window(v[..], offset[..], reg, i, 10) && Window(v[..], offset[..], reg, k, 10);
      TapsRead(v[..], offset[..], reg, filter.rows, i);
      taps := [v[offset[i] + 0], v[offset[k] + 1], v[offset[i] + 2], v[offset[k] + 3], v[offset[i] + 4],
               v[offset[k] + 5], v[offset[i] + 6], v[offset[k] + 7], v[offset[i] + 8], v[offset[k] + 9]];
    }

    /** The sums of sbc_synthesize_four and sbc_synthesize_eight: the ten taps of every output. */
    method Sums() returns (pcm: seq<int>)
      requires Valid()
      ensures pcm == Outputs(filter, reg)
    {
      pcm := [];
      var half := filter.rows / 2;
      for i := 0 to half
        invariant pcm == Outputs(filter, reg)[..i]
      {
        var taps := ReadTaps(i);
        pcm := pcm + [Clip16(filter.window(taps, i))];
      }
    }

    /** sbc_synthesize_four and sbc_synthesize_eight. */
    method SynthesizeBlock(samples: seq<int>) returns (pcm: seq<int>)
      requires Valid()
      modifies this`phase, this`reg, v, offset
      ensures Valid() && reg == Shift(old(reg), Rows(filter, samples))
      ensures pcm == Outputs(filter, reg)
    {
      ShiftIn(samples);
      pcm := Sums();
    }

    /** The block loop of sbc_synthesize_audio: whatever blocks come, the ring puts out what the
        shift register of the standard puts out. */
    method Synthesize(blocks: seq<seq<int>>) returns (pcm: seq<int>)
      requires Valid()
      modifies this`phase, this`reg, v, offset
      ensures Valid() && reg == RegisterAfter(filter, old(reg), blocks)
      ensures pcm == Decoded(filter, old(reg), blocks)
    {
      pcm := [];
      for blk := 0 to |blocks|
        invariant Valid() && reg == RegisterAfter(filter, old(reg), blocks[..blk])
        invariant pcm == Decoded(filter, old(reg), blocks[..blk])
      {
        assert blocks[..blk + 1][..blk] == blocks[..blk];
        var out := SynthesizeBlock(blocks[blk]);
        pcm := pcm + out;
      }
      assert blocks[..|blocks|] == blocks;
    }
  }

  lemma RowStart(rows: nat, offset: seq<int>, i: nat, phase: nat)
    requires i < rows <= 16 == |offset| && phase <= 10 * rows && offset[i] == Place(rows, i, phase)
    ensures 0 <= offset[i] && 0 <= Down(rows, offset[i]) < 170
  {
  }

  lemma TapsRead(v: seq<int>, offset: seq<int>, reg: Register, rows: nat, i: nat)
    requires RegisterFits(reg, rows) && i < rows / 2 && |offset| == 16 && rows <= 16 && rows % 2 == 0
    requires Window(v, offset, reg, i, 10) && Window(v, offset, reg, i + rows / 2, 10)
    ensures forall m: nat :: m < 10 ==>
      Entry(v, offset, if m % 2 == 0 then i else i + rows / 2, m) == Taps(reg, rows, i)[m]
  {
  }

  /** A run split in two is the same run: the filter's memory carries everything over. */
  lemma {:induction false} DecodedConcat(f: Filter, reg: Register, a: seq<seq<int>>, b: seq<seq<int>>)
    requires RegisterFits(reg, f.rows)
    ensures RegisterAfter(f, reg, a + b) == RegisterAfter(f, RegisterAfter(f, reg, a), b)
    ensures Decoded(f, reg, a + b) == Decoded(f, reg, a) + Decoded(f, RegisterAfter(f, reg, a), b)
  {
    if b == [] {
      assert a + b == a;
    } else {
      DecodedConcat(f, reg, a, b[..|b| - 1]);
      assert (a + b)[..|a + b| - 1] == a + b[..|b| - 1];
    }
  }

  /** In every state the windows of two rows never share a ring entry, and every index is below 170. */
  lemma WindowsDisjoint(rows: nat, i: nat, j: nat, phase: nat, m: nat, n: nat)
    requires 0 < rows <= 16 && i < j < rows && phase <= 10 * rows && m < 10 && n < 10
    ensures var (a, b) := (Place(rows, i, phase) + m, Place(rows, j, phase) + n);
      a % (10 * rows) != b % (10 * rows) && 0 <= a < 170 && 0 <= b < 170
  {
    var ring := 10 * rows;
    var (a, b) := (Place(rows, i, phase) + m, Place(rows, j, phase) + n);
    assert a == 10 * i + 10 - phase + m || a == 10 * i + 10 - phase + m + ring;
    assert b == 10 * j + 10 - phase + n || b == 10 * j + 10 - phase + n + ring;
    if a % ring == b % ring {
      SameResidue(a, b, ring);
    }
  }

  lemma SameResidue(a: nat, b: nat, ring: nat)
    requires ring > 0 && a % ring == b % ring
    ensures a == b || a - b >= ring || b - a >= ring
  {
    var x := a / ring - b / ring;
    assert a - b == x * ring;
    if x >= 1 {
      assert x * ring >= ring;
    } else if x <= -1 {
      assert x * ring <= -1 * ring;
    }
  }

  // ----- the standard's own terms

  lemma {:induction false} DecodedLength(f: Filter, reg: Register, blocks: seq<seq<int>>)
    requires RegisterFits(reg, f.rows)
    ensures |Decoded(f, reg, blocks)| == |blocks| * (f.rows / 2)
  {
    hide Outputs, RegisterAfter;
    if blocks != [] {
      var n := |blocks| - 1;
      DecodedLength(f, reg, blocks[..n]);
      assert |blocks| * (f.rows / 2) == n * (f.rows / 2) + f.rows / 2;
    }
  }

  /** The register holds the last ten blocks, the newest first, with zeros before the start. */
  lemma {:induction false} RegisterIsHistory(f: Filter, blocks: seq<seq<int>>, m: nat, i: nat)
    requires m < 10 && i < f.rows
    ensures RegisterAfter(f, Zero(f.rows), blocks)[m][i]
         == if m < |blocks| then f.matrix(blocks[|blocks| - 1 - m], i) else 0
  {
    if blocks != [] && m > 0 {
      RegisterIsHistory(f, blocks[..|blocks| - 1], m - 1, i);
    }
  }

  /** Entry k of the standard's vector V: the blocks of the register one after the other. */
  function V(reg: Register, rows: nat, k: nat): int
    requires RegisterFits(reg, rows) && rows > 0 && k < 10 * rows
  {
    reg[k / rows][k % rows]
  }

  /** The ten taps are the entries of V that section 12.6 moves into the vector U. */
  lemma TapsAreStandard(reg: Register, rows: nat, i: nat, j: nat)
    requires RegisterFits(reg, rows) && i < rows / 2 && j < 5
    ensures rows == 16 ==> Taps(reg, 16, i)[2 * j] == V(reg, 16, 32 * j + i) && Taps(reg, 16, i)[2 * j + 1] == V(reg, 16, 32 * j + 24 + i)
    ensures rows == 8 ==> Taps(reg, 8, i)[2 * j] == V(reg, 8, 16 * j + i) && Taps(reg, 8, i)[2 * j + 1] == V(reg, 8, 16 * j + 12 + i)
  {
    if rows == 16 {
      assert (32 * j + i) / 16 == 2 * j && (32 * j + 24 + i) / 16 == 2 * j + 1;
      assert (32 * j + i) % 16 == i && (32 * j + 24 + i) % 16 == 8 + i;
    }
    if rows == 8 {
      assert (16 * j + i) / 8 == 2 * j && (16 * j + 12 + i) / 8 == 2 * j + 1;
      assert (16 * j + i) % 8 == i && (16 * j + 12 + i) % 8 == 4 + i;
    }
    assert (2 * j) % 2 == 0 && (2 * j + 1) % 2 == 1;
  }

  function Distance(a: int, b: int): int {
    if a < b then b - a else a - b
  }

  /** The clipped value is the 16-bit value nearest to s. */
  lemma Clip16Nearest(s: int, y: int)
    requires -0x8000 <= y < 0x8000
    ensures -0x8000 <= Clip16(s) < 0x8000 && Distance(s, Clip16(s)) <= Distance(s, y)
  {
  }

  /** The taps of output i of block b, from the samples of that block and the nine before it. */
  function HistoryTaps(f: Filter, blocks: seq<seq<int>>, b: nat, i: nat): (r: seq<int>)
    requires b < |blocks|
    ensures |r| == 10
  {
    seq(10, m requires 0 <= m < 10 => if m <= b then f.matrix(blocks[b - m], if m % 2 == 0 then i else i + f.rows / 2) else 0)
  }

  /** From the start, output i of block b depends on that block and the nine before it alone. */
  lemma {:induction false} OutputAt(f: Filter, blocks: seq<seq<int>>, b: nat, i: nat)
    requires FilterValid(f) && b < |blocks| && i < f.rows / 2
    ensures b * (f.rows / 2) + i < |Decoded(f, Zero(f.rows), blocks)|
    ensures Decoded(f, Zero(f.rows), blocks)[b * (f.rows / 2) + i] == Clip16(f.window(HistoryTaps(f, blocks, b, i), i))
    decreases |blocks|
  {
    hide Clip16, RegisterAfter, HistoryTaps, Outputs;
    var n := |blocks| - 1;
    DecodedLength(f, Zero(f.rows), blocks[..n]);
    if b < n {
      OutputAt(f, blocks[..n], b, i);
      SameHistory(f, blocks, n, b, i);
    } else {
      LastOutput(f, blocks, i);
    }
  }

  lemma SameHistory(f: Filter, blocks: seq<seq<int>>, n: nat, b: nat, i: nat)
    requires b < n <= |blocks|
    ensures HistoryTaps(f, blocks[..n], b, i) == HistoryTaps(f, blocks, b, i)
  {
  }

  lemma LastOutput(f: Filter, blocks: seq<seq<int>>, i: nat)
    requires FilterValid(f) && blocks != [] && i < f.rows / 2
    ensures Outputs(f, RegisterAfter(f, Zero(f.rows), blocks))[i] == Clip16(f.window(HistoryTaps(f, blocks, |blocks| - 1, i), i))
  {
    hide RegisterAfter, Clip16, Taps, HistoryTaps, Zero;
    LastTaps(f, blocks, i);
    var reg := RegisterAfter(f, Zero(f.rows), blocks);
    assert Outputs(f, reg)[i] == Clip16(f.window(Taps(reg, f.rows, i), i));
  }

  lemma LastTaps(f: Filter, blocks: seq<seq<int>>, i: nat)
    requires FilterValid(f) && blocks != [] && i < f.rows / 2
    ensures Taps(RegisterAfter(f, Zero(f.rows), blocks), f.rows, i) == HistoryTaps(f, blocks, |blocks| - 1, i)
  {
    hide RegisterAfter, Zero, Taps, HistoryTaps;
    var taps := Taps(RegisterAfter(f, Zero(f.rows), blocks), f.rows, i);
    forall m: nat | m < 10 ensures taps[m] == HistoryTaps(f, blocks, |blocks| - 1, i)[m] {
      LastTap(f, blocks, i, m);
    }
  }

  lemma TapAt(reg: Register, rows: nat, i: nat, m: nat)
    requires RegisterFits(reg, rows) && i < rows / 2 && m < 10
    ensures RowOfTap(rows, i, m) < rows && Taps(reg, rows, i)[m] == reg[m][RowOfTap(rows, i, m)]
  {
  }

  function RowOfTap(rows: nat, i: nat, m: nat): nat {
    if m % 2 == 0 then i else i + rows / 2
  }

  lemma HistoryTapAt(f: Filter, blocks: seq<seq<int>>, i: nat, m: nat)
    requires blocks != [] && m < 10
    ensures HistoryTaps(f, blocks, |blocks| - 1, i)[m]
         == if m < |blocks| then f.matrix(blocks[|blocks| - 1 - m], RowOfTap(f.rows, i, m)) else 0
  {
  }

  lemma LastTap(f: Filter, blocks: seq<seq<int>>, i: nat, m: nat)
    requires FilterValid(f) && blocks != [] && i < f.rows / 2 && m < 10
    ensures Taps(RegisterAfter(f, Zero(f.rows), blocks), f.rows, i)[m] == HistoryTaps(f, blocks, |blocks| - 1, i)[m]
  {
    hide RegisterAfter, Zero, Taps, HistoryTaps, RowOfTap;
    var reg := RegisterAfter(f, Zero(f.rows), blocks);
    TapAt(reg, f.rows, i, m);
    HistoryTapAt(f, blocks, i, m);
    RegisterIsHistory(f, blocks, m, RowOfTap(f.rows, i, m));
  }
}
