/**
 The branch statistics of `extractBranches` (src/cmd/fdo/branches.go):
 aggregation of `perf script -F brstack` records into per-edge
 predicted/missed counters, filtering of the edges worth reporting, their two
 rankings, and the fixed-window jump heuristic that marks layout candidates.

 Hit ratios are exact reals rather than `float64`. The one place where
 floating point shows through is kept: an edge seen only with the `-` flag
 has a total of zero, and `0/0` is NaN, which compares false with anything.
 */
module Branches {
  import opened Base
  import opened Hex
  import opened Sorting
  import opened PerfScript

  /** The highest user-space address; anything above it is a kernel address. */
  const UserTop: u64 := 0x0000_7fff_ffff_ffff

  predicate IsUserAddress(a: u64) {
    a <= UserTop
  }

  /** One branch edge, `branchKey`: where the branch was and where it went. */
  datatype EdgeKey = EdgeKey(source: u64, target: u64)

  /** Counters for one edge, `branchStats`. */
  datatype EdgeStats = EdgeStats(predicted: nat, missed: nat)

  /** The aggregate table `bi`. */
  type Table = map<EdgeKey, EdgeStats>

  function Total(s: EdgeStats): nat {
    s.predicted + s.missed
  }

  /** The prediction-flag texts `"P"` and `"M"`. */
  const Predicted: Bytes := [0x50]
  const Mispredicted: Bytes := [0x4d]

  // ---------------------------------------------------------------------------
  // Aggregation (src/cmd/fdo/branches.go:46-77)
  // ---------------------------------------------------------------------------

  /**
   What the record callback indexes without checking: three fields, the
   first two at least two bytes long (their `0x` prefix is cut off blindly).
   The brstack pattern guarantees it; anything else would make Go panic.
   */
  predicate WellFormedRecord(rec: Record) {
    |rec| >= 3 && |rec[0]| >= 2 && |rec[1]| >= 2
  }

  predicate AllWellFormed(rs: seq<Record>) {
    forall j :: 0 <= j < |rs| ==> WellFormedRecord(rs[j])
  }

  /**
   The edge a record counts towards: both addresses, with their first two
   bytes removed, must parse as 64-bit hexadecimal and lie in user space;
   otherwise the record is skipped (None).
   */
  function EdgeOf(rec: Record): (r: Option<EdgeKey>)
    requires WellFormedRecord(rec)
    ensures r.Some? ==> IsUserAddress(r.value.source) && IsUserAddress(r.value.target)
  {
    match ParseHex(rec[0][2..])
    case None => None
    case Some(source) =>
      match ParseHex(rec[1][2..])
      case None => None
      case Some(target) =>
        if source > UserTop || target > UserTop then None
        else Some(EdgeKey(source, target))
  }

  /**
   In terms of the digits: a record names an edge exactly when both address
   fields (after their first two bytes) are non-empty hexadecimal numerals
   whose values are user-space addresses, and the edge is that pair of values.
   */
  lemma EdgeOfFields(rec: Record)
    requires WellFormedRecord(rec)
    ensures EdgeOf(rec).Some? <==>
              && IsNumeral(rec[0][2..]) && IsNumeral(rec[1][2..])
              && Value(rec[0][2..]) <= UserTop as int && Value(rec[1][2..]) <= UserTop as int
    ensures EdgeOf(rec).Some? ==>
              EdgeOf(rec).value.source as int == Value(rec[0][2..]) && EdgeOf(rec).value.target as int == Value(rec[1][2..])
  {
  }

  /** The counters of `k`, or zero counters for an edge not yet in the table. */
  function StatsOf(t: Table, k: EdgeKey): EdgeStats {
    if k in t then t[k] else EdgeStats(0, 0)
  }

  /**
   The record callback: a skipped record leaves the table as it is; an
   accepted one makes sure its edge has an entry (even for the `-` flag, which
   leaves both counters at zero) and counts `P` as predicted and `M` as missed.
   */
  function Observe(t: Table, rec: Record): (t': Table)
    requires WellFormedRecord(rec)
    ensures EdgeOf(rec).None? ==> t' == t
    ensures EdgeOf(rec).Some? ==>
              var k := EdgeOf(rec).value;
              && t'.Keys == t.Keys + {k}
              && (forall o :: o in t && o != k ==> t'[o] == t[o])
              && t'[k].predicted == StatsOf(t, k).predicted + (if rec[2] == Predicted then 1 else 0)
              && t'[k].missed == StatsOf(t, k).missed + (if rec[2] == Mispredicted then 1 else 0)
  {
    var e := EdgeOf(rec);
    if e.None? then t
    else
      var k := e.value;
      var s := StatsOf(t, k);
      if rec[2] == Predicted then t[k := EdgeStats(s.predicted + 1, s.missed)]
      else if rec[2] == Mispredicted then t[k := EdgeStats(s.predicted, s.missed + 1)]
      else t[k := s]
  }

  /** The table after feeding `rs` to the callback, in order, starting from `t`. */
  function AggregateInto(t: Table, rs: seq<Record>): (r: Table)
    requires AllWellFormed(rs)
    ensures (forall k :: k in t ==> IsUserAddress(k.source) && IsUserAddress(k.target)) ==>
              forall k :: k in r ==> IsUserAddress(k.source) && IsUserAddress(k.target)
  {
    if |rs| == 0 then t
    else Observe(AggregateInto(t, rs[..|rs| - 1]), rs[|rs| - 1])
  }

  /** The table `bi` once every record has been seen. */
  function Aggregate(rs: seq<Record>): Table
    requires AllWellFormed(rs)
  {
    AggregateInto(map[], rs)
  }

  /** How many records of `rs` are accepted for edge `k` and carry `flag`: a reference count. */
  function Count(rs: seq<Record>, k: EdgeKey, flag: Bytes): nat
    requires AllWellFormed(rs)
  {
    if |rs| == 0 then 0
    else Count(rs[..|rs| - 1], k, flag) + (if EdgeOf(rs[|rs| - 1]) == Some(k) && rs[|rs| - 1][2] == flag then 1 else 0)
  }

  /** Some record of `rs` is accepted for edge `k`. */
  predicate Mentions(rs: seq<Record>, k: EdgeKey)
    requires AllWellFormed(rs)
  {
    exists j :: 0 <= j < |rs| && EdgeOf(rs[j]) == Some(k)
  }

  /**
   The table holds exactly the edges some accepted record names, and each
   edge's counters are the number of accepted records for it flagged `P` and
   flagged `M`.
   */
  lemma {:induction false} AggregateCounts(rs: seq<Record>)
    requires AllWellFormed(rs)
    ensures forall k :: k in Aggregate(rs) <==> Mentions(rs, k)
    ensures forall k :: k in Aggregate(rs) ==>
              Aggregate(rs)[k] == EdgeStats(Count(rs, k, Predicted), Count(rs, k, Mispredicted))
  {
    if |rs| > 0 {
      var init, last := rs[..|rs| - 1], rs[|rs| - 1];
      AggregateCounts(init);
      MentionsSnoc(rs);
      forall k | k in Aggregate(rs)
        ensures Aggregate(rs)[k] == EdgeStats(Count(rs, k, Predicted), Count(rs, k, Mispredicted))
      {
        CountsSnoc(rs, k);
      }
    }
  }

  /** The edges the records name are those the earlier records name plus the last record's edge. */
  lemma MentionsSnoc(rs: seq<Record>)
    requires AllWellFormed(rs) && |rs| > 0
    ensures forall k :: Mentions(rs, k) <==> Mentions(rs[..|rs| - 1], k) || EdgeOf(rs[|rs| - 1]) == Some(k)
  {
    var init := rs[..|rs| - 1];
    forall k
      ensures Mentions(rs, k) <==> Mentions(init, k) || EdgeOf(rs[|rs| - 1]) == Some(k)
    {
      if Mentions(rs, k) {
        var j :| 0 <= j < |rs| && EdgeOf(rs[j]) == Some(k);
        if j < |rs| - 1 {
          assert init[j] == rs[j];
        }
      }
      if Mentions(init, k) {
        var j :| 0 <= j < |init| && EdgeOf(init[j]) == Some(k);
        assert rs[j] == init[j];
      }
    }
  }

  /** One inductive step of `AggregateCounts` for one edge. */
  lemma CountsSnoc(rs: seq<Record>, k: EdgeKey)
    requires AllWellFormed(rs) && |rs| > 0
    requires var init := rs[..|rs| - 1];
             && (forall o :: o in Aggregate(init) <==> Mentions(init, o))
             && (forall o :: o in Aggregate(init) ==>
                   Aggregate(init)[o] == EdgeStats(Count(init, o, Predicted), Count(init, o, Mispredicted)))
    requires k in Aggregate(rs)
    ensures Aggregate(rs)[k] == EdgeStats(Count(rs, k, Predicted), Count(rs, k, Mispredicted))
  {
    var init, last := rs[..|rs| - 1], rs[|rs| - 1];
    var t0 := Aggregate(init);
    assert Aggregate(rs) == Observe(t0, last);
    if k !in t0 {
      CountWithoutMention(init, k, Predicted);
      CountWithoutMention(init, k, Mispredicted);
    }
    assert StatsOf(t0, k) == EdgeStats(Count(init, k, Predicted), Count(init, k, Mispredicted));
  }

  lemma {:induction false} CountWithoutMention(rs: seq<Record>, k: EdgeKey, flag: Bytes)
    requires AllWellFormed(rs)
    requires !Mentions(rs, k)
    ensures Count(rs, k, flag) == 0
  {
    if |rs| > 0 {
      var init := rs[..|rs| - 1];
      forall j | 0 <= j < |init| ensures EdgeOf(init[j]) != Some(k) {
        assert init[j] == rs[j];
      }
      CountWithoutMention(init, k, flag);
    }
  }

  /** Kernel addresses never reach the table, however often they occur. */
  lemma OnlyUserEdges(rs: seq<Record>, k: EdgeKey)
    requires AllWellFormed(rs)
    requires !IsUserAddress(k.source) || !IsUserAddress(k.target)
    ensures k !in Aggregate(rs)
  {
  }

  // ---------------------------------------------------------------------------
  // Filtering (src/cmd/fdo/branches.go:79-97)
  // ---------------------------------------------------------------------------

  /**
   The tunables `-branch_minimum`, `-branch_low_threshold` and
   `-branch_high_threshold`. Go flags accept any value, so nothing orders them.
   */
  datatype Config = Config(branchMinimum: int, low: real, high: real)

  /** The flags' defaults. */
  const Defaults: Config := Config(100, 0.10, 0.90)

  /** A `float64` hit ratio: NaN for an edge with no counted sample, else the exact ratio. */
  datatype Hit = NaN | Ratio(value: real)

  /** `float64(predicted) / float64(total)`. */
  function HitRatio(s: EdgeStats): (h: Hit)
    ensures h.Ratio? <==> Total(s) > 0
    ensures h.Ratio? ==> 0.0 <= h.value <= 1.0 && h.value * Total(s) as real == s.predicted as real
  {
    if Total(s) == 0 then NaN else Ratio(s.predicted as real / Total(s) as real)
  }

  /** Go's `hit < x`; false for NaN. */
  predicate Below(h: Hit, x: real) {
    h.Ratio? && h.value < x
  }

  /** Go's `hit > x`; false for NaN. */
  predicate Above(h: Hit, x: real) {
    h.Ratio? && h.value > x
  }

  /**
   The edge is kept: enough samples, and its hit ratio not strictly inside
   (low, high). A NaN ratio is never inside the band.
   */
  function Survives(cfg: Config, s: EdgeStats): (kept: bool)
    ensures kept ==> Total(s) >= cfg.branchMinimum
    ensures Total(s) == 0 ==> (kept <==> cfg.branchMinimum <= 0)
    ensures cfg.high <= cfg.low ==> (kept <==> Total(s) >= cfg.branchMinimum)
  {
    var h := HitRatio(s);
    Total(s) >= cfg.branchMinimum && !(Above(h, cfg.low) && Below(h, cfg.high))
  }

  function Survivors(cfg: Config, t: Table): set<EdgeKey> {
    set k | k in t && Survives(cfg, t[k])
  }

  /**
   Survival in plain arithmetic: the total reaches the minimum and the ratio
   `predicted / total` is at most `low` or at least `high`; an edge with no
   counted sample survives exactly when the minimum is not positive.
   */
  lemma SurvivesIff(cfg: Config, s: EdgeStats)
    ensures Survives(cfg, s) <==>
              && Total(s) >= cfg.branchMinimum
              && (|| Total(s) == 0
                  || s.predicted as real <= cfg.low * Total(s) as real
                  || s.predicted as real >= cfg.high * Total(s) as real)
  {
    if Total(s) > 0 {
      var h := HitRatio(s);
      var n := Total(s) as real;
      assert h.value * n == s.predicted as real;
      assert h.value <= cfg.low <==> h.value * n <= cfg.low * n;
      assert h.value >= cfg.high <==> h.value * n >= cfg.high * n;
    }
  }

  /** With a positive minimum, every survivor has a defined hit ratio. */
  lemma PositiveMinimumDefinesRatios(cfg: Config, t: Table)
    requires cfg.branchMinimum >= 1
    ensures forall k :: k in Survivors(cfg, t) ==> HitRatio(t[k]).Ratio?
  {
  }

  /** Raising the minimum can only drop edges. */
  lemma SurvivorsShrinkWithMinimum(cfg: Config, cfg': Config, t: Table)
    requires cfg'.low == cfg.low && cfg'.high == cfg.high
    requires cfg.branchMinimum <= cfg'.branchMinimum
    ensures Survivors(cfg', t) <= Survivors(cfg, t)
  {
  }

  /** Narrowing the discarded band (low, high) can only keep more edges. */
  lemma SurvivorsGrowAsBandNarrows(cfg: Config, cfg': Config, t: Table)
    requires cfg'.branchMinimum == cfg.branchMinimum
    requires cfg.low <= cfg'.low && cfg'.high <= cfg.high
    ensures Survivors(cfg, t) <= Survivors(cfg', t)
  {
  }

  // ---------------------------------------------------------------------------
  // Ranking (src/cmd/fdo/branches.go:82-99)
  // ---------------------------------------------------------------------------

  /** `s` lists every edge of `edges` exactly once, and only those. */
  ghost predicate Enumerates(s: seq<EdgeKey>, edges: set<EdgeKey>) {
    multiset(s) == multiset(edges)
  }

  /** `sortedByTotal`: the survivors, most samples first. */
  ghost predicate RankedByTotal(cfg: Config, t: Table, s: seq<EdgeKey>) {
    && Enumerates(s, Survivors(cfg, t))
    && (forall i :: 0 <= i < |s| ==> s[i] in t)
    && (forall i, j :: 0 <= i < j < |s| ==> Total(t[s[i]]) >= Total(t[s[j]]))
  }

  /**
   `sortedByHit`: the survivors, worst predicted first. A NaN ratio makes
   Go's comparison inconsistent, so only defined ratios are ordered.
   */
  ghost predicate RankedByHit(cfg: Config, t: Table, s: seq<EdgeKey>) {
    && Enumerates(s, Survivors(cfg, t))
    && (forall i :: 0 <= i < |s| ==> s[i] in t)
    && (forall i, j :: 0 <= i < j < |s| && HitRatio(t[s[i]]).Ratio? && HitRatio(t[s[j]]).Ratio? ==>
          HitRatio(t[s[i]]).value <= HitRatio(t[s[j]]).value)
  }

  /** Sort key for the total ranking: descending totals are ascending negated totals. */
  function TotalKey(t: Table): EdgeKey -> real {
    k => if k in t then -(Total(t[k]) as real) else 0.0
  }

  /** Sort key for the hit ranking; NaN goes first, one of the orders Go may produce. */
  function HitKey(t: Table): EdgeKey -> real {
    k => if k in t then (match HitRatio(t[k]) case NaN => -1.0 case Ratio(v) => v) else 0.0
  }

  lemma MembersOfPermutation(s: seq<EdgeKey>, edges: set<EdgeKey>, t: Table)
    requires multiset(s) == multiset(edges) && edges <= t.Keys
    ensures forall i :: 0 <= i < |s| ==> s[i] in edges && s[i] in t
  {
    forall i | 0 <= i < |s| ensures s[i] in edges {
      assert s[i] in multiset(s);
    }
  }

  /** Sorting the collected survivors by `TotalKey` yields `sortedByTotal`. */
  lemma SortedByTotalRanks(cfg: Config, t: Table, kept: seq<EdgeKey>)
    requires Enumerates(kept, Survivors(cfg, t))
    ensures RankedByTotal(cfg, t, SortBy(kept, TotalKey(t)))
  {
    var s := SortBy(kept, TotalKey(t));
    MembersOfPermutation(s, Survivors(cfg, t), t);
    forall i, j | 0 <= i < j < |s| ensures Total(t[s[i]]) >= Total(t[s[j]]) {
      assert TotalKey(t)(s[i]) <= TotalKey(t)(s[j]);
    }
  }

  /** Sorting the collected survivors by `HitKey` yields `sortedByHit`. */
  lemma SortedByHitRanks(cfg: Config, t: Table, kept: seq<EdgeKey>)
    requires Enumerates(kept, Survivors(cfg, t))
    ensures RankedByHit(cfg, t, SortBy(kept, HitKey(t)))
  {
    var s := SortBy(kept, HitKey(t));
    MembersOfPermutation(s, Survivors(cfg, t), t);
    forall i, j | 0 <= i < j < |s| && HitRatio(t[s[i]]).Ratio? && HitRatio(t[s[j]]).Ratio?
      ensures HitRatio(t[s[i]]).value <= HitRatio(t[s[j]]).value
    {
      assert HitKey(t)(s[i]) <= HitKey(t)(s[j]);
    }
  }

  /**
   With a positive minimum no survivor has a NaN ratio, so the hit ranking
   orders every pair of survivors; Go's `less` is then a consistent order.
   */
  lemma RankedByHitTotally(cfg: Config, t: Table, s: seq<EdgeKey>)
    requires cfg.branchMinimum >= 1 && RankedByHit(cfg, t, s)
    ensures forall i :: 0 <= i < |s| ==> HitRatio(t[s[i]]).Ratio?
    ensures forall i, j :: 0 <= i < j < |s| ==> HitRatio(t[s[i]]).value <= HitRatio(t[s[j]]).value
  {
    PositiveMinimumDefinesRatios(cfg, t);
    MembersOfPermutation(s, Survivors(cfg, t), t);
  }

  /** Visiting one more key of the map: the survivors seen so far grow by that key if it survives. */
  lemma VisitKey(survivors: set<EdgeKey>, rest: set<EdgeKey>, k: EdgeKey)
    requires k in rest
    ensures k in survivors ==> multiset(survivors - (rest - {k})) == multiset(survivors - rest) + multiset{k}
    ensures k !in survivors ==> survivors - (rest - {k}) == survivors - rest
  {
    if k in survivors {
      assert survivors - (rest - {k}) == (survivors - rest) + {k};
    }
  }

  /**
   The survivors collected in map iteration order (any order), then the two
   `sort.Slice` calls: `sortedByTotal` and `sortedByHit`.
   */
  method Rank(cfg: Config, t: Table) returns (byTotal: seq<EdgeKey>, byHit: seq<EdgeKey>)
    ensures RankedByTotal(cfg, t, byTotal)
    ensures RankedByHit(cfg, t, byHit)
  {
    var kept: seq<EdgeKey> := [];
    var rest := t.Keys;
    while rest != {}
      invariant rest <= t.Keys
      invariant multiset(kept) == multiset(Survivors(cfg, t) - rest)
      decreases rest
    {
      var k :| k in rest;
      VisitKey(Survivors(cfg, t), rest, k);
      if Survives(cfg, t[k]) {
        kept := kept + [k];
      }
      rest := rest - {k};
    }
    assert Survivors(cfg, t) - rest == Survivors(cfg, t);
    byTotal := SortBy(kept, TotalKey(t));
    byHit := SortBy(kept, HitKey(t));
    SortedByTotalRanks(cfg, t, kept);
    SortedByHitRanks(cfg, t, kept);
  }

  // ---------------------------------------------------------------------------
  // Candidate selection (src/cmd/fdo/branches.go:119-152)
  // ---------------------------------------------------------------------------

  /**
   `isJump`: the target follows the source within 16 bytes. The sum
   `source + 16` is a `uint64` sum and wraps around.
   */
  function IsJump(k: EdgeKey): (jump: bool)
    ensures k.source as int + 16 < TwoTo64 ==>
              (jump <==> k.source as int < k.target as int <= k.source as int + 16)
    ensures k.source as int + 16 >= TwoTo64 ==> !jump
  {
    k.target > k.source && k.target as int <= (k.source as int + 16) % TwoTo64
  }

  /** For a user-space source the sum cannot wrap: the window is exactly (source, source + 16]. */
  lemma IsJumpForUserSource(k: EdgeKey)
    requires IsUserAddress(k.source)
    ensures IsJump(k) <==> k.source as int < k.target as int <= k.source as int + 16
  {
  }

  /**
   The `if / else if` chain of the candidate loop: a mostly mispredicted or a
   mostly predicted edge is a candidate when it is a jump; a mostly
   mispredicted non-jump is deliberately left alone.
   */
  function Decide(cfg: Config, h: Hit, jump: bool): (marked: bool)
    ensures marked <==> jump && (Below(h, cfg.low) || Above(h, cfg.high))
  {
    if Below(h, cfg.low) && jump then true
    else if Below(h, cfg.low) && !jump then false
    else if Above(h, cfg.high) && jump then true
    else false
  }

  /** `candidates`: the edges of `sortedByTotal` the chain marks. */
  function Candidates(cfg: Config, t: Table, order: seq<EdgeKey>): (c: set<EdgeKey>)
    requires forall i :: 0 <= i < |order| ==> order[i] in t
    ensures forall k :: k in c ==> k in order && IsJump(k)
  {
    set k | k in order && Decide(cfg, HitRatio(t[k]), IsJump(k))
  }

  /**
   The independent description of a candidate: a table edge that survives
   filtering, is a jump, and whose predicted count is strictly below `low`
   or strictly above `high` times its total.
   */
  predicate IsCandidate(cfg: Config, t: Table, k: EdgeKey) {
    && k in t && Survives(cfg, t[k]) && IsJump(k)
    && Total(t[k]) > 0
    && (|| t[k].predicted as real < cfg.low * Total(t[k]) as real
        || t[k].predicted as real > cfg.high * Total(t[k]) as real)
  }

  /**
   Over the total ranking, an edge is a candidate iff it survives filtering,
   is a jump, and its ratio is strictly below `low` or strictly above `high`.
   */
  lemma CandidatesIff(cfg: Config, t: Table, order: seq<EdgeKey>)
    requires RankedByTotal(cfg, t, order)
    ensures forall k :: k in Candidates(cfg, t, order) <==> IsCandidate(cfg, t, k)
  {
    forall k {
      CandidateIff(cfg, t, order, k);
    }
  }

  lemma CandidateIff(cfg: Config, t: Table, order: seq<EdgeKey>, k: EdgeKey)
    requires RankedByTotal(cfg, t, order)
    ensures k in Candidates(cfg, t, order) <==> IsCandidate(cfg, t, k)
  {
    assert k in order <==> k in Survivors(cfg, t) by {
      assert k in order <==> k in multiset(order);
    }
    if k in t {
      var h := HitRatio(t[k]);
      RatioComparisons(t[k], cfg.low);
      RatioComparisons(t[k], cfg.high);
      assert k in Candidates(cfg, t, order) <==> k in order && Decide(cfg, h, IsJump(k));
      assert Decide(cfg, h, IsJump(k)) <==> IsJump(k) && (Below(h, cfg.low) || Above(h, cfg.high));
    }
  }

  /** Go's float comparisons of the hit ratio against a threshold, in integer-scaled form. */
  lemma RatioComparisons(s: EdgeStats, x: real)
    ensures Below(HitRatio(s), x) <==> Total(s) > 0 && s.predicted as real < x * Total(s) as real
    ensures Above(HitRatio(s), x) <==> Total(s) > 0 && s.predicted as real > x * Total(s) as real
  {
    if Total(s) > 0 {
      var h, n := HitRatio(s), Total(s) as real;
      assert h.value * n == s.predicted as real;
      assert h.value < x <==> h.value * n < x * n;
      assert h.value > x <==> h.value * n > x * n;
    }
  }

  /** An edge whose ratio equals a threshold exactly is kept by the filter but never a candidate. */
  lemma ThresholdRatioNeverCandidate(cfg: Config, t: Table, order: seq<EdgeKey>, k: EdgeKey)
    requires RankedByTotal(cfg, t, order)
    requires cfg.low <= cfg.high
    requires k in t && Total(t[k]) >= cfg.branchMinimum
    requires HitRatio(t[k]) == Ratio(cfg.low) || HitRatio(t[k]) == Ratio(cfg.high)
    ensures k in Survivors(cfg, t)
    ensures k !in Candidates(cfg, t, order)
  {
  }
}
