/**
 * channel/scheduler_utils.py: the two posting policies.
 *
 * Times are integers. `nowMs` is the current instant in milliseconds since
 * the Unix epoch (UTC); the clock is read by the caller, once. Offsets of the
 * sequential schedule are in seconds, as in the source; absolute starting
 * times are in milliseconds. `chartDelaySeconds` stands for the settle delay
 * `constants.CHART_DELAY_SECONDS`.
 */
module SchedulerUtils {
  import opened PyCore
  import opened Alignment

  // ---------------------------------------------------------------------
  // SimultaneousScheduler
  // ---------------------------------------------------------------------

  /**
   * `SimultaneousScheduler.__get_ms_until_next_interval`: the wait until the
   * next multiple of the posting interval after UTC midnight, plus the settle
   * delay. The core wait (without the delay) is never zero: on a boundary it
   * is a whole interval. A zero interval raises ZeroDivisionError.
   */
  function MsUntilNextInterval(postingInterval: int, chartDelaySeconds: int, nowMs: int): (r: Result<int>)
    ensures r.Err? <==> postingInterval == 0
    ensures postingInterval > 0 ==>
      var core := r.value - chartDelaySeconds * 1000;
      && 0 < core <= postingInterval * 1000
      && (SinceMidnight(nowMs, MsPerDay) + core) % (postingInterval * 1000) == 0
    ensures postingInterval < 0 ==>
      var core := r.value - chartDelaySeconds * 1000;
      postingInterval * 1000 <= core < 0
  {
    if postingInterval == 0 then Err(ZeroDivisionError)
    else Ok(UntilNextBoundary(postingInterval * 1000, SinceMidnight(nowMs, MsPerDay)) + chartDelaySeconds * 1000)
  }

  /** The settle delay only shifts the result: the wait with delay `d` is the wait with no delay plus `d` seconds. */
  lemma SettleDelayIsAdditive(postingInterval: int, chartDelaySeconds: int, nowMs: int)
    requires postingInterval != 0
    ensures MsUntilNextInterval(postingInterval, chartDelaySeconds, nowMs).value
         == MsUntilNextInterval(postingInterval, 0, nowMs).value + chartDelaySeconds * 1000
  {
  }

  /** The wait is the NEXT boundary: no boundary lies strictly between now and the end of the core wait. */
  lemma SimultaneousWaitIsFirstBoundary(postingInterval: int, chartDelaySeconds: int, nowMs: int, d: int)
    requires postingInterval > 0
    requires 0 < d < MsUntilNextInterval(postingInterval, chartDelaySeconds, nowMs).value - chartDelaySeconds * 1000
    ensures (SinceMidnight(nowMs, MsPerDay) + d) % (postingInterval * 1000) != 0
  {
    NextBoundaryIsFirst(postingInterval * 1000, SinceMidnight(nowMs, MsPerDay), d);
  }

  class SimultaneousScheduler {
    const postingInterval: int
    /** The first posting instant, in ms since the Unix epoch; None until computed. */
    var startingTime: Option<int>

    /** The source's constructor raises ZeroDivisionError on a zero interval, so that case has no object. */
    constructor (postingInterval: int, chartDelaySeconds: int, nowMs: int)
      requires postingInterval != 0
      ensures this.postingInterval == postingInterval
      ensures startingTime == Some(nowMs + MsUntilNextInterval(postingInterval, chartDelaySeconds, nowMs).value)
    {
      this.postingInterval := postingInterval;
      startingTime := None;
      new;
      GetStartingTime(chartDelaySeconds, nowMs);
    }

    /**
     * `__get_starting_time`: now plus the wait. For a positive interval the
     * starting time, less the settle delay, is a boundary of the interval
     * counted from UTC midnight, strictly after now and at most one interval
     * away.
     */
    method GetStartingTime(chartDelaySeconds: int, nowMs: int)
      requires postingInterval != 0
      modifies this`startingTime
      ensures startingTime == Some(nowMs + MsUntilNextInterval(postingInterval, chartDelaySeconds, nowMs).value)
      ensures postingInterval > 0 ==>
        var fire := startingTime.value - chartDelaySeconds * 1000;
        && nowMs < fire <= nowMs + postingInterval * 1000
        && (fire - LastMidnight(nowMs, MsPerDay)) % (postingInterval * 1000) == 0
    {
      var timeUntilStart := MsUntilNextInterval(postingInterval, chartDelaySeconds, nowMs).value;
      startingTime := Some(nowMs + timeUntilStart);
    }
  }

  // ---------------------------------------------------------------------
  // SequentialScheduler: timing helpers
  // ---------------------------------------------------------------------

  /** A pair with its posting offset in seconds, counted from the last posting boundary. */
  datatype PairSlot = PairSlot(pair: string, offset: int)

  /** One entry of the starting schedule; `startingTime` in ms since the Unix epoch. */
  datatype ScheduleEntry = ScheduleEntry(pair: string, startingTime: int)

  /**
   * `__get_ms_since_last_posting`: how far now lies into the current posting
   * cycle, cycles being counted from UTC midnight. A zero interval raises.
   */
  function MsSinceLastPosting(postingInterval: int, nowMs: int): (r: Result<int>)
    ensures r.Err? <==> postingInterval == 0
    ensures postingInterval > 0 ==>
      && 0 <= r.value < postingInterval * 1000
      && (SinceMidnight(nowMs, MsPerDay) - r.value) % (postingInterval * 1000) == 0
  {
    if postingInterval == 0 then Err(ZeroDivisionError)
    else Ok(FloorMod(SinceMidnight(nowMs, MsPerDay), postingInterval * 1000))
  }

  /**
   * `__get_last_posting_time`: the most recent cycle boundary at or before
   * now, itself a whole number of intervals after UTC midnight.
   */
  function LastPostingTime(postingInterval: int, nowMs: int): (r: Result<int>)
    ensures r.Err? <==> postingInterval == 0
    ensures postingInterval > 0 ==>
      && r.value <= nowMs < r.value + postingInterval * 1000
      && (r.value - LastMidnight(nowMs, MsPerDay)) % (postingInterval * 1000) == 0
  {
    var elapsed :- MsSinceLastPosting(postingInterval, nowMs);
    Ok(nowMs - elapsed)
  }

  /**
   * `__get_next_scheduled_pair_index`: one more than the number of whole pair
   * intervals elapsed in the cycle, or 0 when that reaches the number of
   * pairs. For positive intervals the result is the first pair whose baseline
   * slot `i * pair_interval` lies strictly after now, or 0 when none does.
   */
  function NextScheduledPairIndex(postingInterval: int, pairInterval: int, nPairs: int, nowMs: int): (r: Result<int>)
    ensures r.Err? <==> postingInterval == 0 || pairInterval == 0
    ensures postingInterval > 0 && pairInterval > 0 ==>
      var e := MsSinceLastPosting(postingInterval, nowMs).value;
      && (r.value == 0 <==> (nPairs - 1) * (pairInterval * 1000) <= e)
      && (r.value != 0 ==> 1 <= r.value < nPairs && (r.value - 1) * (pairInterval * 1000) <= e < r.value * (pairInterval * 1000))
  {
    var elapsed :- MsSinceLastPosting(postingInterval, nowMs);
    if pairInterval == 0 then Err(ZeroDivisionError)
    else
      var whole := TruncDiv(elapsed, pairInterval * 1000);
      var next := whole + 1;
      if postingInterval > 0 && pairInterval > 0 then
        NextIndexFacts(elapsed, pairInterval * 1000, whole, nPairs);
        if next >= nPairs then Ok(0) else Ok(next)
      else
        if next >= nPairs then Ok(0) else Ok(next)
  }

  /** The arithmetic behind NextScheduledPairIndex's contract. */
  lemma NextIndexFacts(e: int, d: int, whole: int, nPairs: int)
    requires d > 0 && e >= 0
    requires whole * d <= e < whole * d + d
    ensures whole >= 0
    ensures whole + 1 >= nPairs <==> (nPairs - 1) * d <= e
    ensures whole * d == (whole + 1 - 1) * d && (whole + 1) * d == whole * d + d
  {
    if whole < 0 {
      MulMonotone(whole, -1, d);
    }
    if whole + 1 >= nPairs {
      MulMonotone(nPairs - 1, whole, d);
    } else {
      MulMonotone(whole + 1, nPairs - 1, d);
    }
  }

  // ---------------------------------------------------------------------
  // SequentialScheduler: the left roll
  // ---------------------------------------------------------------------

  /**
   * What `calculate_left_rolled_posting_times(lst, shift)` computes, stated
   * by position: with `s = shift % len(lst)`, entry `j` of the result is
   * input entry `j + s` taken cyclically, and it gets `postingInterval` added
   * when it wrapped past the end of the list, or when `s` is 0 (a full cycle
   * has passed). An empty list raises ZeroDivisionError at `shift % len(lst)`.
   */
  function LeftRolled(lst: seq<PairSlot>, shift: int, postingInterval: int): (r: Result<seq<PairSlot>>)
    ensures r.Err? <==> |lst| == 0
    ensures r.Ok? ==> |r.value| == |lst|
  {
    if |lst| == 0 then Err(ZeroDivisionError)
    else
      var n := |lst|;
      var s := FloorMod(shift, n);
      Ok(seq(n, j requires 0 <= j < n =>
        var wrapped := j + s >= n;
        var src := if wrapped then lst[j + s - n] else lst[j + s];
        PairSlot(src.pair, src.offset + if s == 0 || wrapped then postingInterval else 0)))
  }

  /**
   * The roll is `lst[s:] + lst[:s]` with offsets patched: the first `n - s`
   * entries keep their offset and the last `s` get `postingInterval` added,
   * or every entry does when `s == 0`.
   */
  lemma LeftRolledPatchesRotation(lst: seq<PairSlot>, shift: int, postingInterval: int)
    requires |lst| > 0
    ensures var n := |lst|;
            var s := FloorMod(shift, n);
            var rotated := lst[s..] + lst[..s];
            var r := LeftRolled(lst, shift, postingInterval).value;
            && |rotated| == n
            && (forall j :: 0 <= j < n ==>
                  r[j] == PairSlot(rotated[j].pair, rotated[j].offset + if s == 0 || j >= n - s then postingInterval else 0))
  {
    var n := |lst|;
    var s := FloorMod(shift, n);
    var rotated := lst[s..] + lst[..s];
    forall j | 0 <= j < n
      ensures rotated[j] == if j + s >= n then lst[j + s - n] else lst[j + s]
    {
      if j < n - s {
        assert rotated[j] == lst[s..][j];
      } else {
        assert rotated[j] == lst[..s][j - (n - s)];
      }
    }
  }

  function Pairs(slots: seq<PairSlot>): (r: seq<string>)
    ensures |r| == |slots|
    ensures forall j :: 0 <= j < |slots| ==> r[j] == slots[j].pair
  {
    seq(|slots|, j requires 0 <= j < |slots| => slots[j].pair)
  }

  /** The roll loses and duplicates no pair: its pairs are the input's pairs rotated, hence a permutation of them. */
  lemma LeftRolledIsPermutation(lst: seq<PairSlot>, shift: int, postingInterval: int)
    requires |lst| > 0
    ensures var s := FloorMod(shift, |lst|);
            var r := LeftRolled(lst, shift, postingInterval).value;
            && Pairs(r) == Pairs(lst)[s..] + Pairs(lst)[..s]
            && multiset(Pairs(r)) == multiset(Pairs(lst))
  {
    var s := FloorMod(shift, |lst|);
    var r := LeftRolled(lst, shift, postingInterval).value;
    var p := Pairs(lst);
    LeftRolledPatchesRotation(lst, shift, postingInterval);
    assert Pairs(r) == p[s..] + p[..s] by {
      forall j | 0 <= j < |lst|
        ensures Pairs(r)[j] == (p[s..] + p[..s])[j]
      {
        if j < |lst| - s {
          assert (lst[s..] + lst[..s])[j] == lst[j + s];
        } else {
          assert (lst[s..] + lst[..s])[j] == lst[j + s - |lst|];
        }
      }
    }
    assert p == p[..s] + p[s..];
    assert multiset(p[s..] + p[..s]) == multiset(p[s..]) + multiset(p[..s]);
  }

  /**
   * The example in the roll's docstring: `[0, 3600, 7200]` rolled by one with
   * a 43200 s interval. The code gives `[3600, 7200, 43200]` (the wrapped
   * first pair moves to its slot in the next cycle), not the docstring's
   * `[3600, 7200, 46800]`.
   */
  lemma DocstringRollExample()
    ensures LeftRolled([PairSlot("A", 0), PairSlot("B", 3600), PairSlot("C", 7200)], 1, 43200)
         == Ok([PairSlot("B", 3600), PairSlot("C", 7200), PairSlot("A", 43200)])
    ensures LeftRolled([PairSlot("A", 0), PairSlot("B", 3600), PairSlot("C", 7200)], 1, 43200)
         != Ok([PairSlot("B", 3600), PairSlot("C", 7200), PairSlot("A", 46800)])
  {
    DivModUnique(1, 3, 0, 1);
    var r := LeftRolled([PairSlot("A", 0), PairSlot("B", 3600), PairSlot("C", 7200)], 1, 43200).value;
    assert r[0] == PairSlot("B", 3600);
    assert r[1] == PairSlot("C", 7200);
    assert r[2] == PairSlot("A", 43200);
    assert |r| == 3;
    assert r == [PairSlot("B", 3600), PairSlot("C", 7200), PairSlot("A", 43200)];
  }

  /** `calculate_left_rolled_posting_times`, with its `for`/`append` loop. */
  method CalculateLeftRolledPostingTimes(lst: seq<PairSlot>, shift: int, postingInterval: int)
    returns (r: Result<seq<PairSlot>>)
    ensures r == LeftRolled(lst, shift, postingInterval)
  {
    if |lst| == 0 {
      return Err(ZeroDivisionError);
    }
    var s := FloorMod(shift, |lst|);
    var initialRolled := lst[s..] + lst[..s];
    ghost var spec := LeftRolled(lst, shift, postingInterval).value;
    LeftRolledPatchesRotation(lst, shift, postingInterval);
    var finalRolled: seq<PairSlot> := [];
    for i := 0 to |initialRolled|
      invariant finalRolled == spec[..i]
    {
      var info := initialRolled[i];
      if s != 0 {
        if i > |initialRolled| - Abs(s) - 1 {
          finalRolled := finalRolled + [PairSlot(info.pair, info.offset + postingInterval)];
        } else {
          finalRolled := finalRolled + [PairSlot(info.pair, info.offset)];
        }
      } else {
        finalRolled := finalRolled + [PairSlot(info.pair, info.offset + postingInterval)];
      }
    }
    assert finalRolled == spec;
    return Ok(finalRolled);
  }

  // ---------------------------------------------------------------------
  // SequentialScheduler: the starting schedule
  // ---------------------------------------------------------------------

  /** `zip(pair_list, [i * pair_interval for i in range(n_pairs)])`. */
  function BaselineSlots(pairList: seq<string>, pairInterval: int): (r: seq<PairSlot>)
    ensures |r| == |pairList|
    ensures forall i :: 0 <= i < |pairList| ==> r[i] == PairSlot(pairList[i], i * pairInterval)
  {
    seq(|pairList|, i requires 0 <= i < |pairList| => PairSlot(pairList[i], i * pairInterval))
  }

  /** The rolled and patched offsets that `__get_starting_schedule` turns into times. */
  function StartingOffsets(postingInterval: int, pairInterval: int, pairList: seq<string>, nowMs: int): (r: Result<seq<PairSlot>>)
    ensures r.Err? <==> postingInterval == 0 || pairInterval == 0 || |pairList| == 0
  {
    var firstPairToPost :- NextScheduledPairIndex(postingInterval, pairInterval, |pairList|, nowMs);
    LeftRolled(BaselineSlots(pairList, pairInterval), firstPairToPost, postingInterval)
  }

  /** `__get_starting_schedule`: each rolled offset, plus the settle delay, added to the last posting time. */
  function StartingSchedule(postingInterval: int, pairInterval: int, pairList: seq<string>, chartDelaySeconds: int, nowMs: int)
    : (r: Result<seq<ScheduleEntry>>)
    ensures r.Err? <==> postingInterval == 0 || pairInterval == 0 || |pairList| == 0
    ensures r.Ok? ==> |r.value| == |pairList|
  {
    var rolled :- StartingOffsets(postingInterval, pairInterval, pairList, nowMs);
    var last := LastPostingTime(postingInterval, nowMs).value;
    Ok(seq(|rolled|, j requires 0 <= j < |rolled| =>
      ScheduleEntry(rolled[j].pair, last + (rolled[j].offset + chartDelaySeconds) * 1000)))
  }

  /**
   * The slot a pair should get: its baseline offset if that is still ahead
   * of the elapsed part of the cycle, otherwise the same offset in the next
   * cycle.
   */
  function UpcomingOffset(baseline: int, postingInterval: int, elapsedMs: int): int {
    if baseline * 1000 > elapsedMs then baseline else baseline + postingInterval
  }

  /** Where the pair at position `i` of the pair list lands after a left roll by `k`. */
  function RolledPosition(i: int, k: int, n: int): int {
    if i >= k then i - k else i + n - k
  }

  /** Which pair-list position lands at position `j` after a left roll by `k`. */
  function OriginalPosition(j: int, k: int, n: int): int {
    if j + k < n then j + k else j + k - n
  }

  lemma StrictMul(x: int, y: int, c: int)
    requires x < y && c > 0
    ensures x * c < y * c
  {
    MulMonotone(x + 1, y, c);
  }

  /** Entry `j` of the baseline slots rolled by an in-range `k`, by position. */
  lemma RolledBaselineAt(pairList: seq<string>, pairInterval: int, k: int, postingInterval: int, j: int)
    requires 0 <= k < |pairList| && 0 <= j < |pairList|
    ensures var n := |pairList|;
            var i := OriginalPosition(j, k, n);
            && 0 <= i < n
            && LeftRolled(BaselineSlots(pairList, pairInterval), k, postingInterval).value[j]
               == PairSlot(pairList[i], i * pairInterval + if k == 0 || j + k >= n then postingInterval else 0)
  {
    DivModUnique(k, |pairList|, 0, k);
  }

  /** The roll patches exactly the pairs whose baseline slot is already past. */
  lemma PatchIsUpcoming(i: int, j: int, k: int, n: int, pairInterval: int, d: int, e: int)
    requires d == pairInterval * 1000
    requires d > 0 && 0 <= k < n && 0 <= j < n && i == OriginalPosition(j, k, n)
    requires k == 0 <==> (n - 1) * d <= e
    requires k != 0 ==> (k - 1) * d <= e < k * d
    ensures (k == 0 || j + k >= n) <==> i * pairInterval * 1000 <= e
  {
    assert i * pairInterval * 1000 == i * d;
    if k == 0 {
      MulMonotone(i, n - 1, d);
    } else if j + k < n {
      MulMonotone(k, i, d);
    } else {
      MulMonotone(i, k - 1, d);
    }
  }

  /** The rolled entry at position `j` is the pair at OriginalPosition(j) with its upcoming slot. */
  lemma RolledEntry(postingInterval: int, pairInterval: int, pairList: seq<string>, nowMs: int, j: int)
    requires postingInterval > 0 && pairInterval > 0 && 0 <= j < |pairList|
    ensures StartingOffsets(postingInterval, pairInterval, pairList, nowMs).Ok?
    ensures var n := |pairList|;
            var k := NextScheduledPairIndex(postingInterval, pairInterval, n, nowMs).value;
            var e := MsSinceLastPosting(postingInterval, nowMs).value;
            var i := OriginalPosition(j, k, n);
            && 0 <= k < n && 0 <= i < n
            && StartingOffsets(postingInterval, pairInterval, pairList, nowMs).value[j]
               == PairSlot(pairList[i], UpcomingOffset(i * pairInterval, postingInterval, e))
  {
    var n := |pairList|;
    var k := NextScheduledPairIndex(postingInterval, pairInterval, n, nowMs).value;
    var e := MsSinceLastPosting(postingInterval, nowMs).value;
    var d := pairInterval * 1000;
    var i := OriginalPosition(j, k, n);
    RolledBaselineAt(pairList, pairInterval, k, postingInterval, j);
    PatchIsUpcoming(i, j, k, n, pairInterval, d, e);
  }

  /**
   * Next upcoming slot: after rolling and patching, the pair at position `i`
   * of the pair list gets exactly its own upcoming slot, `i * pair_interval`
   * if that is still ahead in the current cycle and one posting interval
   * later otherwise, and it sits at RolledPosition(i) of the schedule.
   */
  lemma {:induction false} StartingOffsetsAreUpcomingSlots(postingInterval: int, pairInterval: int, pairList: seq<string>, nowMs: int)
    requires postingInterval > 0 && pairInterval > 0 && |pairList| > 0
    ensures StartingOffsets(postingInterval, pairInterval, pairList, nowMs).Ok?
    ensures var n := |pairList|;
            var rolled := StartingOffsets(postingInterval, pairInterval, pairList, nowMs).value;
            var k := NextScheduledPairIndex(postingInterval, pairInterval, n, nowMs).value;
            var e := MsSinceLastPosting(postingInterval, nowMs).value;
            && |rolled| == n && 0 <= k < n
            && (forall i :: 0 <= i < n ==>
                  && 0 <= RolledPosition(i, k, n) < n
                  && rolled[RolledPosition(i, k, n)] == PairSlot(pairList[i], UpcomingOffset(i * pairInterval, postingInterval, e)))
            && (forall j :: 0 <= j < n ==> rolled[j].offset * 1000 > e)
  {
    var n := |pairList|;
    RolledEntry(postingInterval, pairInterval, pairList, nowMs, 0);
    var rolled := StartingOffsets(postingInterval, pairInterval, pairList, nowMs).value;
    var k := NextScheduledPairIndex(postingInterval, pairInterval, n, nowMs).value;
    var e := MsSinceLastPosting(postingInterval, nowMs).value;
    forall i | 0 <= i < n
      ensures 0 <= RolledPosition(i, k, n) < n
      ensures rolled[RolledPosition(i, k, n)] == PairSlot(pairList[i], UpcomingOffset(i * pairInterval, postingInterval, e))
    {
      PairGetsUpcomingSlot(postingInterval, pairInterval, pairList, nowMs, rolled, k, e, i);
    }
    forall j | 0 <= j < n
      ensures rolled[j].offset * 1000 > e
    {
      RolledOffsetIsAhead(postingInterval, pairInterval, pairList, nowMs, rolled, e, j);
    }
  }

  /** One pair of the list: it sits at RolledPosition(i) of the rolled slots, with its upcoming slot. */
  lemma PairGetsUpcomingSlot(postingInterval: int, pairInterval: int, pairList: seq<string>, nowMs: int,
                             rolled: seq<PairSlot>, k: int, e: int, i: int)
    requires postingInterval > 0 && pairInterval > 0 && 0 <= i < |pairList|
    requires StartingOffsets(postingInterval, pairInterval, pairList, nowMs) == Ok(rolled)
    requires NextScheduledPairIndex(postingInterval, pairInterval, |pairList|, nowMs) == Ok(k)
    requires MsSinceLastPosting(postingInterval, nowMs) == Ok(e)
    ensures 0 <= RolledPosition(i, k, |pairList|) < |rolled| == |pairList|
    ensures rolled[RolledPosition(i, k, |pairList|)] == PairSlot(pairList[i], UpcomingOffset(i * pairInterval, postingInterval, e))
  {
    var n := |pairList|;
    RolledEntry(postingInterval, pairInterval, pairList, nowMs, 0);
    var j := RolledPosition(i, k, n);
    RolledEntry(postingInterval, pairInterval, pairList, nowMs, j);
    assert OriginalPosition(j, k, n) == i;
  }

  /** One rolled slot: its offset lies after the elapsed part of the cycle. */
  lemma RolledOffsetIsAhead(postingInterval: int, pairInterval: int, pairList: seq<string>, nowMs: int,
                            rolled: seq<PairSlot>, e: int, j: int)
    requires postingInterval > 0 && pairInterval > 0 && 0 <= j < |pairList|
    requires StartingOffsets(postingInterval, pairInterval, pairList, nowMs) == Ok(rolled)
    requires MsSinceLastPosting(postingInterval, nowMs) == Ok(e)
    ensures j < |rolled| && rolled[j].offset * 1000 > e
  {
    var k := NextScheduledPairIndex(postingInterval, pairInterval, |pairList|, nowMs).value;
    RolledEntry(postingInterval, pairInterval, pairList, nowMs, 0);
    RolledEntry(postingInterval, pairInterval, pairList, nowMs, j);
    MulMonotone(0, OriginalPosition(j, k, |pairList|), pairInterval);
  }

  /** The offset at rolled position `j`, written without the elapsed time. */
  function RolledOffsetFormula(j: int, k: int, n: int, pairInterval: int, postingInterval: int): int {
    OriginalPosition(j, k, n) * pairInterval + if k != 0 && j + k < n then 0 else postingInterval
  }

  lemma RolledOffset(postingInterval: int, pairInterval: int, pairList: seq<string>, nowMs: int, j: int)
    requires postingInterval > 0 && pairInterval > 0 && 0 <= j < |pairList|
    ensures StartingOffsets(postingInterval, pairInterval, pairList, nowMs).Ok?
    ensures var n := |pairList|;
            var k := NextScheduledPairIndex(postingInterval, pairInterval, n, nowMs).value;
            StartingOffsets(postingInterval, pairInterval, pairList, nowMs).value[j].offset
            == RolledOffsetFormula(j, k, n, pairInterval, postingInterval)
  {
    var n := |pairList|;
    var k := NextScheduledPairIndex(postingInterval, pairInterval, n, nowMs).value;
    DivModUnique(k, n, 0, k);
    assert FloorMod(k, n) == k;
  }

  lemma RolledOffsetFormulaOrdered(j1: int, j2: int, k: int, n: int, pairInterval: int, postingInterval: int)
    requires 0 <= k < n && 0 <= j1 < j2 < n && pairInterval > 0
    requires pairInterval * (n - 1) < postingInterval
    ensures RolledOffsetFormula(j1, k, n, pairInterval, postingInterval) < RolledOffsetFormula(j2, k, n, pairInterval, postingInterval)
  {
    var i1, i2 := OriginalPosition(j1, k, n), OriginalPosition(j2, k, n);
    MulMonotone(i1, n - 1, pairInterval);
    MulMonotone(i2, n - 1, pairInterval);
    MulMonotone(0, i1, pairInterval);
    MulMonotone(0, i2, pairInterval);
    if (k != 0 && j1 + k < n) == (k != 0 && j2 + k < n) {
      StrictMul(i1, i2, pairInterval);
    }
  }

  /**
   * Ordering: when the pairs fit inside one posting interval
   * (`pair_interval * (n_pairs - 1) < posting_interval`), the offsets in
   * rolled order strictly increase, so rolled order is firing order, and
   * consecutive pairs are exactly one pair interval apart except across the
   * wrap-around.
   */
  lemma {:induction false} RolledOrderIsFiringOrder(postingInterval: int, pairInterval: int, pairList: seq<string>, nowMs: int)
    requires postingInterval > 0 && pairInterval > 0 && |pairList| > 0
    requires pairInterval * (|pairList| - 1) < postingInterval
    ensures StartingOffsets(postingInterval, pairInterval, pairList, nowMs).Ok?
    ensures var n := |pairList|;
            var rolled := StartingOffsets(postingInterval, pairInterval, pairList, nowMs).value;
            var k := NextScheduledPairIndex(postingInterval, pairInterval, n, nowMs).value;
            && |rolled| == n
            && (forall j1, j2 :: 0 <= j1 < j2 < n ==> rolled[j1].offset < rolled[j2].offset)
            && (forall j :: 0 <= j < n - 1 && j + 1 + k != n ==> rolled[j + 1].offset == rolled[j].offset + pairInterval)
  {
    var n := |pairList|;
    var rolled := StartingOffsets(postingInterval, pairInterval, pairList, nowMs).value;
    var k := NextScheduledPairIndex(postingInterval, pairInterval, n, nowMs).value;
    RolledEntry(postingInterval, pairInterval, pairList, nowMs, 0);
    forall j1, j2 | 0 <= j1 < j2 < n
      ensures rolled[j1].offset < rolled[j2].offset
    {
      RolledOffsetsIncrease(postingInterval, pairInterval, pairList, nowMs, rolled, k, j1, j2);
    }
    forall j | 0 <= j < n - 1 && j + 1 + k != n
      ensures rolled[j + 1].offset == rolled[j].offset + pairInterval
    {
      RolledOffsetStep(postingInterval, pairInterval, pairList, nowMs, rolled, k, j);
    }
  }

  /** Two rolled slots, in rolled order, fire in that order. */
  lemma RolledOffsetsIncrease(postingInterval: int, pairInterval: int, pairList: seq<string>, nowMs: int,
                              rolled: seq<PairSlot>, k: int, j1: int, j2: int)
    requires postingInterval > 0 && pairInterval > 0 && 0 <= j1 < j2 < |pairList|
    requires pairInterval * (|pairList| - 1) < postingInterval
    requires StartingOffsets(postingInterval, pairInterval, pairList, nowMs) == Ok(rolled)
    requires NextScheduledPairIndex(postingInterval, pairInterval, |pairList|, nowMs) == Ok(k)
    ensures j2 < |rolled| && rolled[j1].offset < rolled[j2].offset
  {
    RolledEntry(postingInterval, pairInterval, pairList, nowMs, 0);
    RolledOffset(postingInterval, pairInterval, pairList, nowMs, j1);
    RolledOffset(postingInterval, pairInterval, pairList, nowMs, j2);
    RolledOffsetFormulaOrdered(j1, j2, k, |pairList|, pairInterval, postingInterval);
  }

  /** Neighbouring rolled slots that do not straddle the wrap-around are one pair interval apart. */
  lemma RolledOffsetStep(postingInterval: int, pairInterval: int, pairList: seq<string>, nowMs: int,
                         rolled: seq<PairSlot>, k: int, j: int)
    requires postingInterval > 0 && pairInterval > 0 && 0 <= j < |pairList| - 1 && j + 1 + k != |pairList|
    requires StartingOffsets(postingInterval, pairInterval, pairList, nowMs) == Ok(rolled)
    requires NextScheduledPairIndex(postingInterval, pairInterval, |pairList|, nowMs) == Ok(k)
    ensures j + 1 < |rolled| && rolled[j + 1].offset == rolled[j].offset + pairInterval
  {
    RolledEntry(postingInterval, pairInterval, pairList, nowMs, 0);
    RolledOffset(postingInterval, pairInterval, pairList, nowMs, j);
    RolledOffset(postingInterval, pairInterval, pairList, nowMs, j + 1);
    RolledOffsetFormulaStep(j, k, |pairList|, pairInterval, postingInterval);
  }

  lemma RolledOffsetFormulaStep(j: int, k: int, n: int, pairInterval: int, postingInterval: int)
    requires 0 <= k < n && 0 <= j < n - 1 && j + 1 + k != n
    ensures RolledOffsetFormula(j + 1, k, n, pairInterval, postingInterval)
            == RolledOffsetFormula(j, k, n, pairInterval, postingInterval) + pairInterval
  {
    var i := OriginalPosition(j, k, n);
    assert OriginalPosition(j + 1, k, n) == i + 1;
    assert (i + 1) * pairInterval == i * pairInterval + pairInterval;
  }

  /** The quotient of an exact division. */
  lemma ExactQuotient(x: int, p: int) returns (c: int)
    requires p > 0 && x % p == 0
    ensures x == p * c
  {
    c := x / p;
  }

  /** The arithmetic of one entry of StartingScheduleIsNextOccurrence. */
  lemma UpcomingFireArith(postingInterval: int, baseline: int, e: int, last: int, midnight: int, c: int)
    requires postingInterval > 0 && baseline >= 0 && 0 <= e < postingInterval * 1000
    requires last - midnight == postingInterval * 1000 * c
    ensures var fire := last + UpcomingOffset(baseline, postingInterval, e) * 1000;
            && last + e < fire
            && (fire - midnight - baseline * 1000) % (postingInterval * 1000) == 0
            && (baseline < postingInterval ==> fire <= last + e + postingInterval * 1000)
  {
    var p := postingInterval * 1000;
    var fire := last + UpcomingOffset(baseline, postingInterval, e) * 1000;
    if baseline * 1000 > e {
      DivModUnique(fire - midnight - baseline * 1000, p, c, 0);
    } else {
      DivModUnique(fire - midnight - baseline * 1000, p, c + 1, 0);
    }
  }

  /** Entry `j` of the starting schedule is rolled entry `j`, timed from the last posting time. */
  lemma StartingScheduleAt(postingInterval: int, pairInterval: int, pairList: seq<string>, chartDelaySeconds: int, nowMs: int, j: int)
    requires postingInterval > 0 && pairInterval > 0 && 0 <= j < |pairList|
    ensures StartingSchedule(postingInterval, pairInterval, pairList, chartDelaySeconds, nowMs).Ok?
    ensures StartingOffsets(postingInterval, pairInterval, pairList, nowMs).Ok?
    ensures var rolled := StartingOffsets(postingInterval, pairInterval, pairList, nowMs).value;
            var last := LastPostingTime(postingInterval, nowMs).value;
            && |rolled| == |pairList|
            && StartingSchedule(postingInterval, pairInterval, pairList, chartDelaySeconds, nowMs).value[j]
               == ScheduleEntry(rolled[j].pair, last + (rolled[j].offset + chartDelaySeconds) * 1000)
  {
    RolledEntry(postingInterval, pairInterval, pairList, nowMs, j);
  }

  /** One entry of StartingScheduleIsNextOccurrence. */
  lemma ScheduleEntryIsNextOccurrence(
    postingInterval: int, pairInterval: int, pairList: seq<string>, chartDelaySeconds: int, nowMs: int, i: int)
    requires postingInterval > 0 && pairInterval > 0 && 0 <= i < |pairList|
    ensures StartingSchedule(postingInterval, pairInterval, pairList, chartDelaySeconds, nowMs).Ok?
    ensures var n := |pairList|;
            var schedule := StartingSchedule(postingInterval, pairInterval, pairList, chartDelaySeconds, nowMs).value;
            var k := NextScheduledPairIndex(postingInterval, pairInterval, n, nowMs).value;
            var j := RolledPosition(i, k, n);
            var fire := schedule[j].startingTime - chartDelaySeconds * 1000;
            && 0 <= j < n
            && schedule[j].pair == pairList[i]
            && nowMs < fire
            && (fire - LastMidnight(nowMs, MsPerDay) - i * pairInterval * 1000) % (postingInterval * 1000) == 0
            && (pairInterval * (n - 1) < postingInterval ==> fire <= nowMs + postingInterval * 1000)
  {
    var n := |pairList|;
    var schedule := StartingSchedule(postingInterval, pairInterval, pairList, chartDelaySeconds, nowMs).value;
    var rolled := StartingOffsets(postingInterval, pairInterval, pairList, nowMs).value;
    var k := NextScheduledPairIndex(postingInterval, pairInterval, n, nowMs).value;
    var e := MsSinceLastPosting(postingInterval, nowMs).value;
    var last := LastPostingTime(postingInterval, nowMs).value;
    var midnight := LastMidnight(nowMs, MsPerDay);
    var j := RolledPosition(i, k, n);
    RolledEntry(postingInterval, pairInterval, pairList, nowMs, j);
    StartingScheduleAt(postingInterval, pairInterval, pairList, chartDelaySeconds, nowMs, j);
    assert OriginalPosition(j, k, n) == i;
    var baseline := i * pairInterval;
    assert rolled[j].offset == UpcomingOffset(baseline, postingInterval, e);
    var fire := schedule[j].startingTime - chartDelaySeconds * 1000;
    assert fire == last + rolled[j].offset * 1000;
    assert last == nowMs - e;
    var c := ExactQuotient(last - midnight, postingInterval * 1000);
    MulMonotone(0, i, pairInterval);
    UpcomingFireArith(postingInterval, baseline, e, last, midnight, c);
    if pairInterval * (n - 1) < postingInterval {
      MulMonotone(i, n - 1, pairInterval);
      assert (n - 1) * pairInterval == pairInterval * (n - 1);
      assert baseline < postingInterval;
      assert fire <= nowMs + postingInterval * 1000;
    }
  }

  /**
   * Every entry of the starting schedule fires, settle delay aside, strictly
   * after now, at an instant congruent to its pair's stagger position
   * `i * pair_interval` modulo the posting interval (counted from UTC
   * midnight). When the pairs fit inside one interval that instant is at most
   * one interval away, so it is the pair's next occurrence.
   */
  lemma {:induction false} StartingScheduleIsNextOccurrence(
    postingInterval: int, pairInterval: int, pairList: seq<string>, chartDelaySeconds: int, nowMs: int)
    requires postingInterval > 0 && pairInterval > 0 && |pairList| > 0
    ensures StartingSchedule(postingInterval, pairInterval, pairList, chartDelaySeconds, nowMs).Ok?
    ensures var n := |pairList|;
            var schedule := StartingSchedule(postingInterval, pairInterval, pairList, chartDelaySeconds, nowMs).value;
            var k := NextScheduledPairIndex(postingInterval, pairInterval, n, nowMs).value;
            forall i :: 0 <= i < n ==>
              var j := RolledPosition(i, k, n);
              var fire := schedule[j].startingTime - chartDelaySeconds * 1000;
              && 0 <= j < n
              && schedule[j].pair == pairList[i]
              && nowMs < fire
              && (fire - LastMidnight(nowMs, MsPerDay) - i * pairInterval * 1000) % (postingInterval * 1000) == 0
              && (pairInterval * (n - 1) < postingInterval ==> fire <= nowMs + postingInterval * 1000)
  {
    ScheduleEntryIsNextOccurrence(postingInterval, pairInterval, pairList, chartDelaySeconds, nowMs, 0);
    forall i | 0 <= i < |pairList| {
      ScheduleEntryIsNextOccurrence(postingInterval, pairInterval, pairList, chartDelaySeconds, nowMs, i);
    }
  }

  /**
   * Restart within a slot: two start-ups in the same posting cycle and the
   * same pair slot compute the same rotation and the same schedule.
   */
  lemma RestartWithinSlotKeepsSchedule(
    postingInterval: int, pairInterval: int, pairList: seq<string>, chartDelaySeconds: int, nowMs1: int, nowMs2: int)
    requires postingInterval > 0 && pairInterval > 0 && |pairList| > 0
    requires LastPostingTime(postingInterval, nowMs1) == LastPostingTime(postingInterval, nowMs2)
    requires TruncDiv(MsSinceLastPosting(postingInterval, nowMs1).value, pairInterval * 1000)
          == TruncDiv(MsSinceLastPosting(postingInterval, nowMs2).value, pairInterval * 1000)
    ensures NextScheduledPairIndex(postingInterval, pairInterval, |pairList|, nowMs1)
         == NextScheduledPairIndex(postingInterval, pairInterval, |pairList|, nowMs2)
    ensures StartingSchedule(postingInterval, pairInterval, pairList, chartDelaySeconds, nowMs1)
         == StartingSchedule(postingInterval, pairInterval, pairList, chartDelaySeconds, nowMs2)
  {
  }

  /**
   * Worked example: pairs BTC, ETH, SOL, a 43200 s interval, a 3600 s
   * stagger, 5000 s into the cycle. The roll is by 2, giving SOL, BTC, ETH at
   * offsets 7200, 43200, 46800.
   */
  lemma MidCycleExample()
    ensures NextScheduledPairIndex(43200, 3600, 3, 5_000_000) == Ok(2)
    ensures StartingOffsets(43200, 3600, ["BTC", "ETH", "SOL"], 5_000_000)
         == Ok([PairSlot("SOL", 7200), PairSlot("BTC", 43200), PairSlot("ETH", 46800)])
  {
    DivModUnique(5_000_000, MsPerDay, 0, 5_000_000);
    DivModUnique(5_000_000, 43_200_000, 0, 5_000_000);
    DivModUnique(2, 3, 0, 2);
    var r := StartingOffsets(43200, 3600, ["BTC", "ETH", "SOL"], 5_000_000).value;
    assert |r| == 3;
    assert r[0] == PairSlot("SOL", 7200);
    assert r[1] == PairSlot("BTC", 43200);
    assert r[2] == PairSlot("ETH", 46800);
    assert r == [PairSlot("SOL", 7200), PairSlot("BTC", 43200), PairSlot("ETH", 46800)];
  }

  /**
   * Worked example: the same pairs 8000 s into the cycle, past every
   * baseline slot. The roll is by 0 and every pair moves to the next cycle:
   * offsets 43200, 46800, 50400.
   */
  lemma AfterLastSlotExample()
    ensures NextScheduledPairIndex(43200, 3600, 3, 8_000_000) == Ok(0)
    ensures StartingOffsets(43200, 3600, ["BTC", "ETH", "SOL"], 8_000_000)
         == Ok([PairSlot("BTC", 43200), PairSlot("ETH", 46800), PairSlot("SOL", 50400)])
  {
    DivModUnique(8_000_000, MsPerDay, 0, 8_000_000);
    DivModUnique(8_000_000, 43_200_000, 0, 8_000_000);
    DivModUnique(0, 3, 0, 0);
    var r := StartingOffsets(43200, 3600, ["BTC", "ETH", "SOL"], 8_000_000).value;
    assert |r| == 3;
    assert r[0] == PairSlot("BTC", 43200);
    assert r[1] == PairSlot("ETH", 46800);
    assert r[2] == PairSlot("SOL", 50400);
    assert r == [PairSlot("BTC", 43200), PairSlot("ETH", 46800), PairSlot("SOL", 50400)];
  }

  // ---------------------------------------------------------------------
  // SequentialScheduler: the object and its rendering
  // ---------------------------------------------------------------------

  const ScheduleTitle: string := "Sequential mode starting schedule: "
  const ScheduleHeader: string := ScheduleTitle + "\n"

  /** One rendered line, `f"{pair}: {starting_time}\n"`; `fmt` renders a datetime. */
  function ScheduleLine(entry: ScheduleEntry, fmt: int -> string): string {
    entry.pair + ": " + fmt(entry.startingTime) + "\n"
  }

  /** The rendered lines of `entries`, in order. */
  function ScheduleLines(entries: seq<ScheduleEntry>, fmt: int -> string): string
    decreases |entries|
  {
    if entries == [] then "" else ScheduleLine(entries[0], fmt) + ScheduleLines(entries[1..], fmt)
  }

  lemma {:induction false} ScheduleLinesAppend(entries: seq<ScheduleEntry>, entry: ScheduleEntry, fmt: int -> string)
    ensures ScheduleLines(entries + [entry], fmt) == ScheduleLines(entries, fmt) + ScheduleLine(entry, fmt)
    decreases |entries|
  {
    if entries == [] {
      assert [entry][1..] == [];
    } else {
      assert (entries + [entry])[1..] == entries[1..] + [entry];
      ScheduleLinesAppend(entries[1..], entry, fmt);
    }
  }

  /** The text of the line for `entry`, without its newline. */
  function LineText(entry: ScheduleEntry, fmt: int -> string): string {
    entry.pair + ": " + fmt(entry.startingTime)
  }

  /**
   * When no pair name and no rendered time holds a newline, the rendered
   * lines split on newlines into exactly one line per entry, in order,
   * followed by the empty text after the final newline.
   */
  lemma {:induction false} ScheduleLinesSplit(entries: seq<ScheduleEntry>, fmt: int -> string)
    requires forall j :: 0 <= j < |entries| ==> '\n' !in entries[j].pair && '\n' !in fmt(entries[j].startingTime)
    ensures Split(ScheduleLines(entries, fmt), '\n')
         == seq(|entries|, j requires 0 <= j < |entries| => LineText(entries[j], fmt)) + [""]
    decreases |entries|
  {
    if entries == [] {
    } else {
      var head := LineText(entries[0], fmt);
      assert '\n' !in head;
      ScheduleLinesSplit(entries[1..], fmt);
      assert ScheduleLines(entries, fmt) == head + ['\n'] + ScheduleLines(entries[1..], fmt);
      SplitAfterHead(head, '\n', ScheduleLines(entries[1..], fmt));
    }
  }

  lemma ScheduleTitleIsOneLine()
    ensures '\n' !in ScheduleTitle
    ensures ScheduleHeader == ScheduleTitle + ['\n']
  {
  }

  /** The composed message is the header line followed by exactly one line per schedule entry, in schedule order. */
  lemma ComposedScheduleLines(entries: seq<ScheduleEntry>, fmt: int -> string)
    requires forall j :: 0 <= j < |entries| ==> '\n' !in entries[j].pair && '\n' !in fmt(entries[j].startingTime)
    ensures Split(ScheduleHeader + ScheduleLines(entries, fmt), '\n')
         == [ScheduleTitle]
            + seq(|entries|, j requires 0 <= j < |entries| => LineText(entries[j], fmt)) + [""]
  {
    var lines := ScheduleLines(entries, fmt);
    ScheduleLinesSplit(entries, fmt);
    ScheduleTitleIsOneLine();
    assert ScheduleHeader + lines == ScheduleTitle + ['\n'] + lines;
    SplitAfterHead(ScheduleTitle, '\n', lines);
  }

  class SequentialScheduler {
    const postingInterval: int
    const pairInterval: int
    const pairList: seq<string>
    const nPairs: int
    var startingSchedule: seq<ScheduleEntry>

    /** The source's constructor raises ZeroDivisionError for a zero interval or an empty pair list, so those have no object. */
    constructor (postingInterval: int, pairInterval: int, pairList: seq<string>, chartDelaySeconds: int, nowMs: int)
      requires postingInterval != 0 && pairInterval != 0 && |pairList| > 0
      ensures this.postingInterval == postingInterval && this.pairInterval == pairInterval
      ensures this.pairList == pairList && nPairs == |pairList|
      ensures Ok(startingSchedule) == StartingSchedule(postingInterval, pairInterval, pairList, chartDelaySeconds, nowMs)
    {
      this.postingInterval := postingInterval;
      this.pairInterval := pairInterval;
      this.pairList := pairList;
      nPairs := |pairList|;
      startingSchedule := [];
      new;
      GetStartingSchedule(chartDelaySeconds, nowMs);
    }

    /** `__get_starting_schedule`: roll the baseline slots and append one entry per rolled slot. */
    method GetStartingSchedule(chartDelaySeconds: int, nowMs: int)
      requires postingInterval != 0 && pairInterval != 0 && |pairList| > 0 && nPairs == |pairList|
      modifies this`startingSchedule
      ensures Ok(startingSchedule) == StartingSchedule(postingInterval, pairInterval, pairList, chartDelaySeconds, nowMs)
    {
      var firstPairToPostIdx := NextScheduledPairIndex(postingInterval, pairInterval, nPairs, nowMs).value;
      var pairTimes := seq(nPairs, i => i * pairInterval);
      var pairPostingTimesZipped := seq(nPairs, i requires 0 <= i < nPairs => PairSlot(pairList[i], pairTimes[i]));
      assert pairPostingTimesZipped == BaselineSlots(pairList, pairInterval);
      var rolledPostingTimes := CalculateLeftRolledPostingTimes(pairPostingTimesZipped, firstPairToPostIdx, postingInterval);
      var rolled := rolledPostingTimes.value;
      var last := LastPostingTime(postingInterval, nowMs).value;
      ghost var spec := StartingSchedule(postingInterval, pairInterval, pairList, chartDelaySeconds, nowMs).value;
      var schedule: seq<ScheduleEntry> := [];
      for j := 0 to |rolled|
        invariant schedule == spec[..j]
      {
        var startingTime := last + (rolled[j].offset + chartDelaySeconds) * 1000;
        schedule := schedule + [ScheduleEntry(rolled[j].pair, startingTime)];
      }
      assert schedule == spec;
      startingSchedule := schedule;
    }

    /** `compose_starting_schedule`: the header, then one rendered line per schedule entry, in schedule order. */
    method ComposeStartingSchedule(fmt: int -> string) returns (scheduleString: string)
      ensures scheduleString == ScheduleHeader + ScheduleLines(startingSchedule, fmt)
    {
      scheduleString := ScheduleHeader;
      for j := 0 to |startingSchedule|
        invariant scheduleString == ScheduleHeader + ScheduleLines(startingSchedule[..j], fmt)
      {
        ScheduleLinesAppend(startingSchedule[..j], startingSchedule[j], fmt);
        assert startingSchedule[..j + 1] == startingSchedule[..j] + [startingSchedule[j]];
        scheduleString := scheduleString + ScheduleLine(startingSchedule[j], fmt);
      }
      assert startingSchedule[..|startingSchedule|] == startingSchedule;
    }
  }
}
