/** The bit allocation of the codec, over a sequence of lanes: the subbands of one channel for
    MONO and DUAL_CHANNEL, the subbands of both channels in visiting order for the stereo modes.
    A lane has a bit need; lowering the slice by one gives one more bit to every lane above it,
    except that a lane starts with two bits and stops at sixteen. */
module BitAllocation {
  import opened Bits

  /** The bits a lane holds once the slice has come down to `slice`. */
  function Share(need: int, slice: int): (r: int)
    ensures 0 <= r <= MAX_BITS
  {
    if need < slice + 2 then 0 else if need - slice > MAX_BITS then MAX_BITS else need - slice
  }

  function Shares(needs: seq<int>, slice: int): (r: seq<int>)
    ensures |r| == |needs| && forall k :: 0 <= k < |r| ==> r[k] == Share(needs[k], slice)
  {
    seq(|needs|, k requires 0 <= k < |needs| => Share(needs[k], slice))
  }

  function Total(s: seq<int>): int {
    if s == [] then 0 else Total(s[..|s| - 1]) + s[|s| - 1]
  }

  /** The bits all lanes hold at a slice, in closed form. */
  function Demand(needs: seq<int>, slice: int): int {
    Total(Shares(needs, slice))
  }

  /** What one lane adds to slicecount at a slice. */
  function SliceBits(need: int, slice: int): int {
    if slice + 1 < need < slice + 16 then 1 else if need == slice + 1 then 2 else 0
  }

  /** slicecount after the first k lanes. */
  function SliceCount(needs: seq<int>, slice: int, k: nat): int
    requires k <= |needs|
  {
    if k == 0 then 0 else SliceCount(needs, slice, k - 1) + SliceBits(needs[k - 1], slice)
  }

  function MaxNeed(needs: seq<int>): (r: int)
    ensures r >= 0 && forall k :: 0 <= k < |needs| ==> needs[k] <= r
  {
    if needs == [] then 0
    else
      var m := MaxNeed(needs[..|needs| - 1]);
      var last := needs[|needs| - 1];
      if last > m then last else m
  }

  function MinNeed(needs: seq<int>): (r: int)
    ensures r <= 0 && forall k :: 0 <= k < |needs| ==> r <= needs[k]
  {
    if needs == [] then 0
    else
      var m := MinNeed(needs[..|needs| - 1]);
      var last := needs[|needs| - 1];
      if last < m then last else m
  }

  // ----- the slice loop

  lemma {:induction false} SliceCountIsDemandStep(needs: seq<int>, slice: int, k: nat)
    requires k <= |needs|
    ensures Demand(needs[..k], slice - 1) == Demand(needs[..k], slice) + SliceCount(needs, slice, k)
  {
    if k > 0 {
      SliceCountIsDemandStep(needs, slice, k - 1);
      DemandLast(needs[..k], slice);
      DemandLast(needs[..k], slice - 1);
      assert needs[..k][..k - 1] == needs[..k - 1];
    }
  }

  lemma DemandLast(needs: seq<int>, slice: int)
    requires needs != []
    ensures Demand(needs, slice) == Demand(needs[..|needs| - 1], slice) + Share(needs[|needs| - 1], slice)
  {
    assert Shares(needs, slice)[..|needs| - 1] == Shares(needs[..|needs| - 1], slice);
  }

  /** A slice above every need gives nothing; far enough below every need, all lanes are full. */
  lemma {:induction false} DemandExtremes(needs: seq<int>, slice: int)
    ensures 0 <= Demand(needs, slice) <= MAX_BITS * |needs|
    ensures MaxNeed(needs) <= slice + 1 ==> Demand(needs, slice) == 0
    ensures slice <= MinNeed(needs) - MAX_BITS ==> Demand(needs, slice) == MAX_BITS * |needs|
  {
    if needs != [] {
      DemandExtremes(needs[..|needs| - 1], slice);
      DemandLast(needs, slice);
    }
  }

  /** The slice at which the do-while loop stops when it looks at `slice` next. The recursion
      ends because of the bitpool guard of the callers. */
  function StopSlice(needs: seq<int>, pool: nat, slice: int): (r: int)
    requires pool <= MAX_BITS * |needs|
    ensures r <= slice && Demand(needs, r - 1) >= pool
    ensures forall s :: r <= s < slice ==> Demand(needs, s) < pool
    decreases slice - MinNeed(needs) + MAX_BITS
  {
    DemandExtremes(needs, slice - 1);
    if Demand(needs, slice - 1) >= pool then slice else StopSlice(needs, pool, slice - 1)
  }

  /** The loop can stop if and only if the bitpool passes the guard: the other way round no slice
      ever demands enough bits. */
  lemma SliceLoopStopsIffGuard(needs: seq<int>, pool: nat)
    ensures (exists slice :: Demand(needs, slice) >= pool) <==> pool <= MAX_BITS * |needs|
  {
    if pool <= MAX_BITS * |needs| {
      var s := MinNeed(needs) - MAX_BITS;
      DemandExtremes(needs, s);
      assert Demand(needs, s) >= pool;
    }
    forall slice | Demand(needs, slice) >= pool ensures pool <= MAX_BITS * |needs| {
      DemandExtremes(needs, slice);
    }
  }

  /** The slice the shares are taken at: one lower when it fits the bitpool exactly. */
  function FinalSlice(needs: seq<int>, pool: nat): (r: int)
    requires pool <= MAX_BITS * |needs|
    ensures Demand(needs, r) == pool || Demand(needs, r) < pool < Demand(needs, r - 1)
  {
    var top := MaxNeed(needs);
    var stop := StopSlice(needs, pool, top);
    DemandExtremes(needs, top);
    if Demand(needs, stop - 1) == pool then stop - 1 else stop
  }

  // ----- the two distribution passes

  datatype Spread = Spread(bits: seq<int>, count: int)

  /** First pass over the first k lanes: one more bit for a lane that has some, two for a lane
      just below the slice. */
  function TopUp(needs: seq<int>, pool: nat, slice: int, k: nat): (r: Spread)
    requires k <= |needs|
    ensures |r.bits| == |needs|
    ensures forall j :: k <= j < |needs| ==> r.bits[j] == Share(needs[j], slice)
  {
    if k == 0 then Spread(Shares(needs, slice), Demand(needs, slice))
    else
      var p := TopUp(needs, pool, slice, k - 1);
      var b := p.bits[k - 1];
      if p.count >= pool then p
      else if 2 <= b < MAX_BITS then Spread(p.bits[k - 1 := b + 1], p.count + 1)
      else if needs[k - 1] == slice + 1 && pool > p.count + 1 then Spread(p.bits[k - 1 := 2], p.count + 2)
      else p
  }

  /** Second pass over the first k lanes: one more bit for any lane that is not full. */
  function Fill(start: Spread, pool: nat, k: nat): (r: Spread)
    requires k <= |start.bits|
    ensures |r.bits| == |start.bits|
    ensures forall j :: k <= j < |r.bits| ==> r.bits[j] == start.bits[j]
  {
    if k == 0 then start
    else
      var p := Fill(start, pool, k - 1);
      if p.count < pool && p.bits[k - 1] < MAX_BITS
      then Spread(p.bits[k - 1 := p.bits[k - 1] + 1], p.count + 1)
      else p
  }

  function Allocation(needs: seq<int>, pool: nat): (r: seq<int>)
    requires pool <= MAX_BITS * |needs|
    ensures |r| == |needs|
  {
    Fill(TopUp(needs, pool, FinalSlice(needs, pool), |needs|), pool, |needs|).bits
  }

  lemma {:induction false} TotalUpdate(s: seq<int>, k: nat, x: int)
    requires k < |s|
    ensures Total(s[k := x]) == Total(s) - s[k] + x
  {
    var last := |s| - 1;
    if k < last {
      TotalUpdate(s[..last], k, x);
      assert s[k := x][..last] == s[..last][k := x];
    } else {
      assert s[k := x][..last] == s[..last];
    }
  }

  /** How far the first pass has come: every visited lane at its next share, or the bitpool used
      up, or one bit left that a lane asking for two could not take. */
  ghost predicate TopUpProgress(needs: seq<int>, pool: nat, slice: int, k: nat, p: Spread)
    requires k <= |needs| == |p.bits|
  {
    || (forall j :: 0 <= j < k ==> p.bits[j] == Share(needs[j], slice - 1))
    || p.count == pool
    || (p.count == pool - 1 && exists j :: 0 <= j < k && p.bits[j] == 0)
  }

  ghost predicate TopUpGood(needs: seq<int>, pool: nat, slice: int, k: nat)
    requires k <= |needs|
  {
    var p := TopUp(needs, pool, slice, k);
    && Total(p.bits) == p.count <= pool
    && (forall j :: 0 <= j < k ==> Share(needs[j], slice) <= p.bits[j] <= Share(needs[j], slice - 1))
    && TopUpProgress(needs, pool, slice, k, p)
  }

  lemma TopUpStep(needs: seq<int>, pool: nat, slice: int, k: nat)
    requires 0 < k <= |needs| && TopUpGood(needs, pool, slice, k - 1)
    ensures TopUpGood(needs, pool, slice, k)
  {
    hide Total, Demand, Shares;
    var p, q := TopUp(needs, pool, slice, k - 1), TopUp(needs, pool, slice, k);
    if p != q {
      TotalUpdate(p.bits, k - 1, q.bits[k - 1]);
    }
    if p.count == pool - 1 && needs[k - 1] == slice + 1 {
      assert p.bits[k - 1] == 0;
    }
    if p.count == pool - 1 && !(forall j :: 0 <= j < k - 1 ==> p.bits[j] == Share(needs[j], slice - 1)) {
      var j :| 0 <= j < k - 1 && p.bits[j] == 0;
      assert q.bits[j] == 0;
    }
  }

  lemma {:induction false} TopUpInvariant(needs: seq<int>, pool: nat, slice: int, k: nat)
    requires k <= |needs|
    requires Demand(needs, slice) <= pool
    ensures TopUpGood(needs, pool, slice, k)
  {
    if k > 0 {
      TopUpInvariant(needs, pool, slice, k - 1);
      TopUpStep(needs, pool, slice, k);
    }
  }

  /** After the first pass at most one bit is left, and then some lane has none. */
  lemma AfterTopUp(needs: seq<int>, pool: nat)
    requires pool <= MAX_BITS * |needs|
    ensures var slice := FinalSlice(needs, pool);
      var p := TopUp(needs, pool, slice, |needs|);
      && Total(p.bits) == p.count
      && (forall j :: 0 <= j < |needs| ==> Share(needs[j], slice) <= p.bits[j] <= Share(needs[j], slice - 1))
      && (p.count == pool || (p.count == pool - 1 && exists j :: 0 <= j < |needs| && p.bits[j] == 0))
  {
    hide Total, TopUp, Shares, Share, MaxNeed, StopSlice;
    var slice := FinalSlice(needs, pool);
    TopUpInvariant(needs, pool, slice, |needs|);
    var p := TopUp(needs, pool, slice, |needs|);
    if Demand(needs, slice) == pool {
      TopUpKeepsFull(needs, pool, slice, |needs|);
    } else {
      DemandOfShares(needs, slice - 1, p.bits);
    }
  }

  lemma DemandOfShares(needs: seq<int>, slice: int, bits: seq<int>)
    requires |bits| == |needs|
    ensures (forall j :: 0 <= j < |needs| ==> bits[j] == Share(needs[j], slice)) ==> Total(bits) == Demand(needs, slice)
  {
    if forall j :: 0 <= j < |needs| ==> bits[j] == Share(needs[j], slice) {
      assert bits == Shares(needs, slice);
    }
  }

  lemma {:induction false} TopUpKeepsFull(needs: seq<int>, pool: nat, slice: int, k: nat)
    requires k <= |needs| && Demand(needs, slice) == pool
    ensures TopUp(needs, pool, slice, k).count == pool
  {
    if k > 0 {
      TopUpKeepsFull(needs, pool, slice, k - 1);
    }
  }

  /** The second pass hands the last bit, if there is one, to one lane and changes no other. */
  lemma {:induction false} FillInvariant(start: Spread, pool: nat, k: nat) returns (extra: int)
    requires k <= |start.bits| && Total(start.bits) == start.count
    requires start.count == pool || start.count == pool - 1
    ensures var q := Fill(start, pool, k);
      && Total(q.bits) == q.count
      && -1 <= extra < k
      && (extra == -1 ==> q == start && (q.count == pool || forall j :: 0 <= j < k ==> start.bits[j] >= MAX_BITS))
      && (extra >= 0 ==>
           start.bits[extra] < MAX_BITS && q == Spread(start.bits[extra := start.bits[extra] + 1], pool))
      && (extra >= 0 ==> start.count == pool - 1 && forall j :: 0 <= j < extra ==> start.bits[j] >= MAX_BITS)
  {
    hide Total;
    extra := -1;
    if k > 0 {
      extra := FillInvariant(start, pool, k - 1);
      if extra == -1 && start.count < pool && start.bits[k - 1] < MAX_BITS {
        TotalUpdate(start.bits, k - 1, start.bits[k - 1] + 1);
        extra := k - 1;
      }
    }
  }

  ghost predicate WithinWaterline(needs: seq<int>, bits: seq<int>, slice: int, extra: int)
    requires |needs| == |bits|
  {
    forall k :: 0 <= k < |needs| ==>
      && Share(needs[k], slice) <= bits[k] <= MAX_BITS
      && bits[k] <= Share(needs[k], slice - 1) + if k == extra then 1 else 0
  }

  lemma AllocationShape(needs: seq<int>, pool: nat) returns (extra: int)
    requires pool <= MAX_BITS * |needs|
    ensures Total(Allocation(needs, pool)) == pool
    ensures WithinWaterline(needs, Allocation(needs, pool), FinalSlice(needs, pool), extra)
  {
    var slice := FinalSlice(needs, pool);
    AfterTopUp(needs, pool);
    var p := TopUp(needs, pool, slice, |needs|);
    extra := FillInvariant(p, pool, |needs|);
  }

  /** Conservation of the bit budget: every lane holds 0 to 16 bits and together they hold exactly
      the bitpool. Fairness: at one slice every lane lies between its share and its next share,
      but for at most one lane that takes the single bit left over. */
  lemma Conservation(needs: seq<int>, pool: nat)
    requires pool <= MAX_BITS * |needs|
    ensures Total(Allocation(needs, pool)) == pool
    ensures forall k :: 0 <= k < |needs| ==> 0 <= Allocation(needs, pool)[k] <= MAX_BITS
    ensures exists slice, extra :: WithinWaterline(needs, Allocation(needs, pool), slice, extra)
  {
    var extra := AllocationShape(needs, pool);
    var bits, slice := Allocation(needs, pool), FinalSlice(needs, pool);
    assert WithinWaterline(needs, bits, slice, extra);
    forall k | 0 <= k < |needs| ensures 0 <= bits[k] <= MAX_BITS {
      assert Share(needs[k], slice) <= bits[k];
    }
  }

  // ----- who is served

  /** A lane that has bits and room for more. */
  predicate Growing(need: int, slice: int) {
    2 <= Share(need, slice) < MAX_BITS
  }

  /** A lane whose first two bits come with the next slice. */
  predicate Starting(need: int, slice: int) {
    need == slice + 1
  }

  predicate Served(need: int, bits: int, slice: int) {
    bits > Share(need, slice)
  }

  /** A lane that holds a single bit, or more than the next slice gives it. */
  predicate Leftover(need: int, bits: int, slice: int) {
    bits == 1 || bits > Share(need, slice - 1)
  }

  /** A bit is left over only when every growing lane has what the next slice gives it. */
  ghost predicate LeftoverLast(needs: seq<int>, bits: seq<int>, slice: int)
    requires |needs| == |bits|
  {
    forall j, k :: 0 <= j < |needs| && 0 <= k < |needs| && Leftover(needs[k], bits[k], slice) && Growing(needs[j], slice) ==> bits[j] >= Share(needs[j], slice - 1)
  }

  /** It goes to the first lane that is not full. */
  ghost predicate LeftoverFirst(needs: seq<int>, bits: seq<int>, slice: int)
    requires |needs| == |bits|
  {
    forall j, k :: 0 <= j < k < |needs| && Leftover(needs[k], bits[k], slice) ==> bits[j] == MAX_BITS
  }

  /** Growing lanes are served in visiting order. */
  ghost predicate GrowingInOrder(needs: seq<int>, bits: seq<int>, slice: int)
    requires |needs| == |bits|
  {
    forall j, k :: 0 <= j < k < |needs| && Growing(needs[j], slice) && Growing(needs[k], slice) && Served(needs[k], bits[k], slice) ==> Served(needs[j], bits[j], slice)
  }

  /** A starting lane gets its two bits only when all lanes before it have been served. */
  ghost predicate StartingInOrder(needs: seq<int>, bits: seq<int>, slice: int)
    requires |needs| == |bits|
  {
    forall j, k :: 0 <= j < k < |needs| && Starting(needs[k], slice) && bits[k] >= 2 ==> (Growing(needs[j], slice) || Starting(needs[j], slice) ==> bits[j] >= 2 && Served(needs[j], bits[j], slice))
  }

  /** A starting lane is passed over only when less than two bits are left: a growing lane that is
      still served behind it is the last lane to be served. */
  ghost predicate LastAfterStarting(needs: seq<int>, bits: seq<int>, slice: int)
    requires |needs| == |bits|
  {
    forall j, k, l :: 0 <= j < k < l < |needs| && Starting(needs[j], slice) && bits[j] < 2 && Growing(needs[k], slice) && Served(needs[k], bits[k], slice) ==> !Served(needs[l], bits[l], slice)
  }

  ghost predicate FirstServed(needs: seq<int>, bits: seq<int>, slice: int)
    requires |needs| == |bits|
  {
    && LeftoverLast(needs, bits, slice) && LeftoverFirst(needs, bits, slice)
    && GrowingInOrder(needs, bits, slice) && StartingInOrder(needs, bits, slice) && LastAfterStarting(needs, bits, slice)
  }

  /** The rules for a lane and one visited later. */
  predicate ServedBefore(need: int, bits: int, need': int, bits': int, slice: int) {
    && (Leftover(need', bits', slice) ==> bits == MAX_BITS)
    && (Leftover(need, bits, slice) && Growing(need', slice) ==> bits' >= Share(need', slice - 1))
    && (Growing(need, slice) && Growing(need', slice) && Served(need', bits', slice) ==> Served(need, bits, slice))
    && (Starting(need', slice) && bits' >= 2 ==> (Growing(need, slice) || Starting(need, slice) ==> bits >= 2 && Served(need, bits, slice)))
  }

  lemma ServedPair(needs: seq<int>, bits: seq<int>, slice: int, j: nat, k: nat)
    requires j < k < |needs| == |bits| && FirstServed(needs, bits, slice)
    ensures ServedBefore(needs[j], bits[j], needs[k], bits[k], slice)
  {
  }

  /** What a lane takes in the first pass, when `count` bits are spent before it is visited. */
  function Takes(need: int, slice: int, pool: nat, count: int): int {
    if Growing(need, slice) then (if count < pool then 1 else 0)
    else if Starting(need, slice) then (if count + 1 < pool then 2 else 0)
    else 0
  }

  /** Lane j takes what it can when counts[j] bits are spent, and these counts include what the lanes
      before it have taken. */
  ghost predicate Visits(needs: seq<int>, bits: seq<int>, slice: int, pool: nat, counts: seq<int>) {
    && |needs| == |bits| == |counts|
    && (forall j :: 0 <= j < |needs| ==> bits[j] == Share(needs[j], slice) + Takes(needs[j], slice, pool, counts[j]))
    && (forall j, k :: 0 <= j < k < |needs| ==> counts[j] + Takes(needs[j], slice, pool, counts[j]) <= counts[k])
  }

  lemma {:induction false} TopUpTakes(needs: seq<int>, pool: nat, slice: int, k: nat, j: nat)
    requires j < k <= |needs|
    ensures TopUp(needs, pool, slice, k).bits[j] ==
            Share(needs[j], slice) + Takes(needs[j], slice, pool, TopUp(needs, pool, slice, j).count)
  {
    hide Demand, Shares;
    if j < k - 1 {
      TopUpTakes(needs, pool, slice, k - 1, j);
    }
  }

  lemma {:induction false} CountGrows(needs: seq<int>, pool: nat, slice: int, j: nat, k: nat)
    requires j < k <= |needs|
    ensures var count := TopUp(needs, pool, slice, j).count;
      count + Takes(needs[j], slice, pool, count) <= TopUp(needs, pool, slice, k).count
  {
    hide Demand, Shares;
    if j < k - 1 {
      CountGrows(needs, pool, slice, j, k - 1);
    } else {
      assert TopUp(needs, pool, slice, j).bits[j] == Share(needs[j], slice);
    }
  }

  lemma TakesToNextShare(need: int, slice: int, pool: nat, count: int)
    ensures Share(need, slice) + Takes(need, slice, pool, count) <= Share(need, slice - 1)
    ensures !Leftover(need, Share(need, slice) + Takes(need, slice, pool, count), slice)
    ensures Growing(need, slice) && count < pool ==> Share(need, slice) + Takes(need, slice, pool, count) == Share(need, slice - 1)
    ensures Starting(need, slice) ==> Share(need, slice) == 0
  {
  }

  lemma VisitsInOrder(needs: seq<int>, bits: seq<int>, slice: int, pool: nat, counts: seq<int>)
    requires Visits(needs, bits, slice, pool, counts)
    ensures GrowingInOrder(needs, bits, slice)
    ensures StartingInOrder(needs, bits, slice)
  {
    hide Share;
    forall j | 0 <= j < |needs| ensures Starting(needs[j], slice) ==> Share(needs[j], slice) == 0 && !Growing(needs[j], slice) {
      TakesToNextShare(needs[j], slice, pool, counts[j]);
    }
  }

  lemma VisitsLast(needs: seq<int>, bits: seq<int>, slice: int, pool: nat, counts: seq<int>)
    requires Visits(needs, bits, slice, pool, counts)
    ensures LastAfterStarting(needs, bits, slice)
  {
    hide Share;
    forall j, k, l | 0 <= j < k < l < |needs| && Starting(needs[j], slice) && bits[j] < 2 && Growing(needs[k], slice) && Served(needs[k], bits[k], slice)
      ensures !Served(needs[l], bits[l], slice)
    {
      TakesToNextShare(needs[j], slice, pool, counts[j]);
      assert pool <= counts[j] + 1 <= counts[k] + 1 <= counts[l];
    }
  }

  /** The first pass serves in order and leaves nothing to spare but a single bit. */
  lemma TopUpFirstServed(needs: seq<int>, pool: nat, slice: int)
    ensures var p := TopUp(needs, pool, slice, |needs|);
      && FirstServed(needs, p.bits, slice)
      && (forall j :: 0 <= j < |needs| ==> !Leftover(needs[j], p.bits[j], slice))
      && (p.count < pool ==> forall j :: 0 <= j < |needs| && Growing(needs[j], slice) ==> p.bits[j] == Share(needs[j], slice - 1))
  {
    hide Demand, Shares, TopUp, Share, Takes, Leftover, Growing, Starting, GrowingInOrder, StartingInOrder, LastAfterStarting;
    var n := |needs|;
    var p := TopUp(needs, pool, slice, n);
    var counts := seq(n, j requires 0 <= j < n => TopUp(needs, pool, slice, j).count);
    forall j | 0 <= j < n
      ensures p.bits[j] == Share(needs[j], slice) + Takes(needs[j], slice, pool, counts[j])
      ensures !Leftover(needs[j], p.bits[j], slice)
      ensures p.count < pool && Growing(needs[j], slice) ==> p.bits[j] == Share(needs[j], slice - 1)
    {
      TopUpTakes(needs, pool, slice, n, j);
      CountGrows(needs, pool, slice, j, n);
      TakesToNextShare(needs[j], slice, pool, counts[j]);
      assert counts[j] <= p.count by { TakesSome(needs[j], slice, pool, counts[j]); }
    }
    forall j, k | 0 <= j < k < n ensures counts[j] + Takes(needs[j], slice, pool, counts[j]) <= counts[k] {
      CountGrows(needs, pool, slice, j, k);
    }
    VisitsInOrder(needs, p.bits, slice, pool, counts);
    VisitsLast(needs, p.bits, slice, pool, counts);
  }

  lemma TakesSome(need: int, slice: int, pool: nat, count: int)
    ensures Takes(need, slice, pool, count) >= 0
  {
  }

  /** Handing the last bit to the first lane that is not full keeps the order. */
  lemma LeftoverFirstServed(needs: seq<int>, bits: seq<int>, slice: int, extra: nat)
    requires extra < |needs| == |bits| && FirstServed(needs, bits, slice)
    requires forall j :: 0 <= j < |needs| ==> Share(needs[j], slice) <= bits[j] <= MAX_BITS && !Leftover(needs[j], bits[j], slice)
    requires forall j :: 0 <= j < |needs| && Growing(needs[j], slice) ==> bits[j] == Share(needs[j], slice - 1)
    requires bits[extra] < MAX_BITS && forall j :: 0 <= j < extra ==> bits[j] == MAX_BITS
    ensures FirstServed(needs, bits[extra := bits[extra] + 1], slice)
  {
    hide Share;
    var all := bits[extra := bits[extra] + 1];
    forall j | 0 <= j < |needs| && Growing(needs[j], slice) ensures Served(needs[j], bits[j], slice) {
      NextShareHigher(needs[j], slice);
    }
    assert LeftoverLast(needs, all, slice) && LeftoverFirst(needs, all, slice);
    assert GrowingInOrder(needs, all, slice);
    assert StartingInOrder(needs, all, slice) by {
      assert forall k :: 0 <= k < |needs| && all[k] >= 2 ==> bits[k] >= 2;
    }
    assert LastAfterStarting(needs, all, slice);
  }

  lemma NextShareHigher(need: int, slice: int)
    ensures Growing(need, slice) ==> Share(need, slice - 1) > Share(need, slice)
  {
  }

  /** The whole allocation: the waterline of Conservation, and who is served first at it. */
  lemma AllocationServes(needs: seq<int>, pool: nat) returns (slice: int, extra: int)
    requires pool <= MAX_BITS * |needs|
    ensures WithinWaterline(needs, Allocation(needs, pool), slice, extra)
    ensures FirstServed(needs, Allocation(needs, pool), slice)
  {
    hide Demand, Total, TopUp, Fill, Share, FirstServed;
    slice := FinalSlice(needs, pool);
    AfterTopUp(needs, pool);
    TopUpFirstServed(needs, pool, slice);
    var p := TopUp(needs, pool, slice, |needs|);
    extra := FillInvariant(p, pool, |needs|);
    if extra >= 0 {
      LeftoverFirstServed(needs, p.bits, slice, extra);
    }
  }

  // ----- the loops

  lemma TopUpSettles(needs: seq<int>, pool: nat, slice: int, k: nat, n: nat)
    requires k <= n <= |needs| && TopUp(needs, pool, slice, k).count >= pool
    ensures TopUp(needs, pool, slice, n) == TopUp(needs, pool, slice, k)
    decreases n
  {
  }

  lemma FillSettles(start: Spread, pool: nat, k: nat, n: nat)
    requires k <= n <= |start.bits| && Fill(start, pool, k).count >= pool
    ensures Fill(start, pool, n) == Fill(start, pool, k)
    decreases n
  {
  }

  method CountSlice(needs: seq<int>, bitslice: int) returns (slicecount: int)
    ensures Demand(needs, bitslice) + slicecount == Demand(needs, bitslice - 1)
  {
    slicecount := 0;
    for sb := 0 to |needs|
      invariant slicecount == SliceCount(needs, bitslice, sb)
    {
      if needs[sb] > bitslice + 1 && needs[sb] < bitslice + 16 {
        slicecount := slicecount + 1;
      } else if needs[sb] == bitslice + 1 {
        slicecount := slicecount + 2;
      }
    }
    SliceCountIsDemandStep(needs, bitslice, |needs|);
    assert needs[..|needs|] == needs;
  }

  /** The slice loop: lowers bitslice, counting as it goes, until the bitpool is reached. */
  method FindSlice(needs: seq<int>, maxBitneed: int, pool: nat) returns (bitcount: int, bitslice: int)
    requires pool <= MAX_BITS * |needs| && maxBitneed == MaxNeed(needs)
    ensures bitslice == FinalSlice(needs, pool) && bitcount == Demand(needs, bitslice)
  {
    hide Demand, MaxNeed;
    var slicecount := 0;
    bitcount, bitslice := 0, maxBitneed + 1;
    var more := true;
    ghost var stop := StopSlice(needs, pool, maxBitneed);
    DemandExtremes(needs, maxBitneed);
    DemandExtremes(needs, maxBitneed + 1);
    while more
      invariant stop <= bitslice && (more ==> stop < bitslice) && (!more ==> stop == bitslice)
      invariant bitslice <= maxBitneed + 1
      invariant bitcount == Demand(needs, bitslice)
      invariant bitcount + slicecount == Demand(needs, bitslice - 1)
      decreases bitslice - stop, more
    {
      bitslice := bitslice - 1;
      bitcount := bitcount + slicecount;
      slicecount := CountSlice(needs, bitslice);
      more := bitcount + slicecount < pool;
    }
    if bitcount + slicecount == pool {
      bitcount := bitcount + slicecount;
      bitslice := bitslice - 1;
    }
  }

  /** The first distribution pass, in place. */
  method TopUpPass(needs: seq<int>, pool: nat, bitslice: int, bits: array<int>, count: int) returns (bitcount: int)
    requires Spread(bits[..], count) == TopUp(needs, pool, bitslice, 0)
    modifies bits
    ensures Spread(bits[..], bitcount) == TopUp(needs, pool, bitslice, |needs|)
  {
    hide Demand, Shares, Share;
    var k := 0;
    bitcount := count;
    while bitcount < pool && k < |needs|
      invariant k <= |needs| == bits.Length
      invariant bits[..] == TopUp(needs, pool, bitslice, k).bits
      invariant bitcount == TopUp(needs, pool, bitslice, k).count
    {
      if bits[k] >= 2 && bits[k] < 16 {
        bits[k] := bits[k] + 1;
        bitcount := bitcount + 1;
      } else if needs[k] == bitslice + 1 && pool > bitcount + 1 {
        bits[k] := 2;
        bitcount := bitcount + 2;
      }
      k := k + 1;
    }
    if k < |needs| {
      TopUpSettles(needs, pool, bitslice, k, |needs|);
    }
  }

  /** The second distribution pass, in place. */
  method FillPass(pool: nat, bits: array<int>, count: int) returns (bitcount: int)
    modifies bits
    ensures Spread(bits[..], bitcount) == Fill(Spread(old(bits[..]), count), pool, bits.Length)
  {
    ghost var start := Spread(bits[..], count);
    var k := 0;
    bitcount := count;
    while bitcount < pool && k < bits.Length
      invariant k <= bits.Length
      invariant bits[..] == Fill(start, pool, k).bits
      invariant bitcount == Fill(start, pool, k).count
    {
      if bits[k] < 16 {
        bits[k] := bits[k] + 1;
        bitcount := bitcount + 1;
      }
      k := k + 1;
    }
    if k < bits.Length {
      FillSettles(start, pool, k, bits.Length);
    }
  }

  /** The whole allocation: the shares at the final slice, then the two distribution passes. */
  method AllocateLanes(needs: seq<int>, maxBitneed: int, pool: nat) returns (bits: array<int>)
    requires pool <= MAX_BITS * |needs| && maxBitneed == MaxNeed(needs)
    ensures fresh(bits) && bits[..] == Allocation(needs, pool)
  {
    var bitcount, bitslice := FindSlice(needs, maxBitneed, pool);
    bits := new int[|needs|];
    for k := 0 to |needs|
      invariant forall j :: 0 <= j < k ==> bits[j] == Share(needs[j], bitslice)
    {
      if needs[k] < bitslice + 2 {
        bits[k] := 0;
      } else {
        bits[k] := needs[k] - bitslice;
        if bits[k] > 16 {
          bits[k] := 16;
        }
      }
    }
    assert bits[..] == Shares(needs, bitslice);
    bitcount := TopUpPass(needs, pool, bitslice, bits, bitcount);
    bitcount := FillPass(pool, bits, bitcount);
  }
}
