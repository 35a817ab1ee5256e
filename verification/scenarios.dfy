/**
 Concrete brstack entries as the profiler prints them, and the behaviour of
 the aggregation, filtering and classification on small workloads: a hot,
 always mispredicted short forward branch, a rarely taken branch, and an
 address in kernel space.
 */
module Scenarios {
  import opened Base
  import opened Hex
  import opened PerfScript
  import opened Branches
  import opened Fdo

  /** `0x` followed by the `%x` digits of `a`. */
  function AddressText(a: u64): Bytes {
    [0x30, 0x78] + FormatHex(a as nat)
  }

  /** The six groups of one printed entry `0x<source>/0x<target>/<flag>/-/-/1`. */
  function Entry(source: u64, target: u64, flag: Bytes): (rec: Record)
    ensures WellFormedRecord(rec)
  {
    [AddressText(source), AddressText(target), flag, Dash, Dash, [0x31]]
  }

  /** With a flag the pattern allows, a printed entry is a record the brstack pattern delivers. */
  lemma EntryIsBrstack(source: u64, target: u64, flag: Bytes)
    requires flag == Predicted || flag == Mispredicted || flag == Dash
    ensures IsBrstackRecord(Entry(source, target, flag))
  {
    var rec := Entry(source, target, flag);
    assert rec[0][2..] == FormatHex(source as nat);
    assert rec[1][2..] == FormatHex(target as nat);
  }

  /** `n` copies of one record. */
  function Repeat(rec: Record, n: nat): (rs: seq<Record>)
    ensures |rs| == n && forall j :: 0 <= j < n ==> rs[j] == rec
  {
    seq(n, _ => rec)
  }

  /** A printed entry is counted for exactly its own edge, unless an address is in kernel space. */
  lemma EdgeOfEntry(source: u64, target: u64, flag: Bytes)
    ensures EdgeOf(Entry(source, target, flag)) ==
              if IsUserAddress(source) && IsUserAddress(target) then Some(EdgeKey(source, target)) else None
  {
    var rec := Entry(source, target, flag);
    assert rec[0][2..] == FormatHex(source as nat);
    assert rec[1][2..] == FormatHex(target as nat);
    RoundTrip(source);
    RoundTrip(target);
  }

  /** Feeding records one batch after another is feeding their concatenation. */
  lemma {:induction false} AggregateAppend(t: Table, a: seq<Record>, b: seq<Record>)
    requires AllWellFormed(a) && AllWellFormed(b)
    ensures AllWellFormed(a + b)
    ensures AggregateInto(t, a + b) == AggregateInto(AggregateInto(t, a), b)
  {
    assert forall j :: 0 <= j < |a + b| ==> (a + b)[j] == if j < |a| then a[j] else b[j - |a|];
    if |b| > 0 {
      var b' := b[..|b| - 1];
      assert (a + b)[..|a + b| - 1] == a + b';
      AggregateAppend(t, a, b');
    } else {
      assert a + b == a;
    }
  }

  /** `t` with `dp` more predicted and `dm` more missed samples for `k`, which it then holds. */
  function Bump(t: Table, k: EdgeKey, dp: nat, dm: nat): Table {
    t[k := EdgeStats(StatsOf(t, k).predicted + dp, StatsOf(t, k).missed + dm)]
  }

  lemma BumpTwice(t: Table, k: EdgeKey, a: nat, b: nat, c: nat, d: nat)
    ensures Bump(Bump(t, k, a, b), k, c, d) == Bump(t, k, a + c, b + d)
  {
  }

  /** The callback on an accepted record, as one `Bump`. */
  lemma ObserveAccepted(t: Table, rec: Record)
    requires WellFormedRecord(rec) && EdgeOf(rec).Some?
    ensures Observe(t, rec) ==
              Bump(t, EdgeOf(rec).value, if rec[2] == Predicted then 1 else 0, if rec[2] == Mispredicted then 1 else 0)
  {
  }

  /** Any number of copies of a skipped record leave the table alone. */
  lemma {:induction false} RepeatSkipped(t: Table, rec: Record, n: nat)
    requires WellFormedRecord(rec) && EdgeOf(rec).None?
    ensures AllWellFormed(Repeat(rec, n))
    ensures AggregateInto(t, Repeat(rec, n)) == t
  {
    if n > 0 {
      assert Repeat(rec, n)[..n - 1] == Repeat(rec, n - 1);
      RepeatSkipped(t, rec, n - 1);
    }
  }

  /** `n` copies of a record accepted for `k` add `n` to the counter its flag names. */
  lemma {:induction false} RepeatAccepted(t: Table, rec: Record, k: EdgeKey, n: nat)
    requires WellFormedRecord(rec) && EdgeOf(rec) == Some(k) && n > 0
    ensures AllWellFormed(Repeat(rec, n))
    ensures AggregateInto(t, Repeat(rec, n)) ==
              Bump(t, k, if rec[2] == Predicted then n else 0, if rec[2] == Mispredicted then n else 0)
  {
    assert Repeat(rec, n)[..n - 1] == Repeat(rec, n - 1);
    ObserveAccepted(AggregateInto(t, Repeat(rec, n - 1)), rec);
    if n > 1 {
      RepeatAccepted(t, rec, k, n - 1);
      BumpTwice(t, k, if rec[2] == Predicted then n - 1 else 0, if rec[2] == Mispredicted then n - 1 else 0,
                if rec[2] == Predicted then 1 else 0, if rec[2] == Mispredicted then 1 else 0);
    } else {
      assert Repeat(rec, 0) == [];
    }
  }

  const HotEdge: EdgeKey := EdgeKey(0x1000, 0x1008)
  const ColdEdge: EdgeKey := EdgeKey(0x2000, 0x3000)

  /** `hot` mispredicted samples of a branch to 8 bytes ahead, then `cold` predicted samples of a long branch. */
  function Workload(hot: nat, cold: nat): (rs: seq<Record>)
    ensures AllWellFormed(rs)
  {
    Repeat(Entry(0x1000, 0x1008, Mispredicted), hot) + Repeat(Entry(0x2000, 0x3000, Predicted), cold)
  }

  /** A batch of misses for one edge followed by a batch of hits for another. */
  lemma TwoBatches(hotEntry: Record, coldEntry: Record, hotEdge: EdgeKey, coldEdge: EdgeKey, hot: nat, cold: nat)
    requires WellFormedRecord(hotEntry) && WellFormedRecord(coldEntry)
    requires EdgeOf(hotEntry) == Some(hotEdge) && hotEntry[2] == Mispredicted
    requires EdgeOf(coldEntry) == Some(coldEdge) && coldEntry[2] == Predicted
    requires hotEdge != coldEdge && hot > 0 && cold > 0
    ensures AllWellFormed(Repeat(hotEntry, hot) + Repeat(coldEntry, cold))
    ensures Aggregate(Repeat(hotEntry, hot) + Repeat(coldEntry, cold)) ==
              map[hotEdge := EdgeStats(0, hot), coldEdge := EdgeStats(cold, 0)]
  {
    var first := map[hotEdge := EdgeStats(0, hot)];
    assert Predicted[0] != Mispredicted[0];
    assert StatsOf(first, coldEdge) == EdgeStats(0, 0);
    AggregateAppend(map[], Repeat(hotEntry, hot), Repeat(coldEntry, cold));
    RepeatAccepted(map[], hotEntry, hotEdge, hot);
    assert AggregateInto(map[], Repeat(hotEntry, hot)) == first;
    RepeatAccepted(first, coldEntry, coldEdge, cold);
    assert Bump(first, coldEdge, cold, 0) == first[coldEdge := EdgeStats(cold, 0)];
  }

  /** Aggregating the workload counts `hot` misses for the hot edge and `cold` hits for the cold one. */
  lemma WorkloadAggregate(hot: nat, cold: nat)
    requires hot > 0 && cold > 0
    ensures Aggregate(Workload(hot, cold)) == map[HotEdge := EdgeStats(0, hot), ColdEdge := EdgeStats(cold, 0)]
  {
    EdgeOfEntry(0x1000, 0x1008, Mispredicted);
    EdgeOfEntry(0x2000, 0x3000, Predicted);
    TwoBatches(Entry(0x1000, 0x1008, Mispredicted), Entry(0x2000, 0x3000, Predicted), HotEdge, ColdEdge, hot, cold);
  }

  /**
   With the default flags, an always mispredicted jump to 8 bytes ahead with
   at least 100 samples survives (ratio 0) and is the only candidate; a branch
   with fewer than 100 samples is dropped (for instance 150 and 50 samples).
   */
  lemma HotBranchScenario(hot: nat, cold: nat)
    requires hot >= 100 && 0 < cold < 100
    ensures Survivors(Defaults, Aggregate(Workload(hot, cold))) == {HotEdge}
    ensures forall k :: IsCandidate(Defaults, Aggregate(Workload(hot, cold)), k) <==> k == HotEdge
  {
    WorkloadAggregate(hot, cold);
    HotBranchTable(hot, cold);
  }

  /** The filtering and classification of the workload's table. */
  lemma HotBranchTable(hot: nat, cold: nat)
    requires hot >= 100 && 0 < cold < 100
    ensures var t := map[HotEdge := EdgeStats(0, hot), ColdEdge := EdgeStats(cold, 0)];
            && Survivors(Defaults, t) == {HotEdge}
            && forall k :: IsCandidate(Defaults, t, k) <==> k == HotEdge
  {
    var t := map[HotEdge := EdgeStats(0, hot), ColdEdge := EdgeStats(cold, 0)];
    SurvivesIff(Defaults, t[HotEdge]);
    SurvivesIff(Defaults, t[ColdEdge]);
    assert IsJump(HotEdge);
  }

  /**
   An entry with an address above `userTop`, such as `0xffffffffffff0000`,
   never creates a table entry, however often it occurs.
   */
  lemma KernelScenario(source: u64, target: u64, flag: Bytes, n: nat)
    requires !IsUserAddress(source) || !IsUserAddress(target)
    ensures Aggregate(Repeat(Entry(source, target, flag), n)) == map[]
  {
    EdgeOfEntry(source, target, flag);
    RepeatSkipped(map[], Entry(source, target, flag), n);
  }

  /**
   The classification examples: with the default thresholds a ratio of 0.05
   marks a jump but not a non-jump, a ratio of 0.95 marks a jump, and an edge
   predicted exactly half the time is filtered out before classification.
   */
  lemma ClassificationExamples()
    ensures Decide(Defaults, Ratio(0.05), true)
    ensures !Decide(Defaults, Ratio(0.05), false)
    ensures Decide(Defaults, Ratio(0.95), true)
    ensures forall s :: Total(s) > 0 && 2 * s.predicted == Total(s) ==> !Survives(Defaults, s)
  {
    forall s | Total(s) > 0 && 2 * s.predicted == Total(s) ensures !Survives(Defaults, s) {
      SurvivesIff(Defaults, s);
    }
  }
}
