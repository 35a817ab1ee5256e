/**
 The "apply branches" path end to end: `extractBranches` runs the
 extraction loop of `runPerfScript` with the brstack pattern, feeds each
 record to the aggregation callback, and ranks and selects candidates from
 the finished table (src/cmd/fdo/branches.go:34-167). The pattern is given
 as a matcher whose matches have the shape the regular expression at
 src/cmd/fdo/branches.go:31 guarantees.
 */
module Fdo {
  import opened Base
  import opened Hex
  import opened PerfScript
  import opened Extractor
  import opened Branches

  // ---------------------------------------------------------------------------
  // The brstack pattern `(0x[0-9a-f]+)/(0x[0-9a-f]+)/(M|P|-)/(X|-)/(A|-)/([0-9]+)`
  // ---------------------------------------------------------------------------

  predicate IsDecimalDigit(c: byte) {
    0x30 <= c <= 0x39
  }

  /** `0x[0-9a-f]+` */
  predicate IsAddressText(s: Bytes) {
    && |s| >= 3 && s[0] == 0x30 && s[1] == 0x78
    && forall i :: 2 <= i < |s| ==> IsLowerDigit(s[i])
  }

  const Dash: Bytes := [0x2d]

  /** The six capture groups of one brstack entry. */
  predicate IsBrstackRecord(rec: Record) {
    && |rec| == 6
    && IsAddressText(rec[0]) && IsAddressText(rec[1])
    && (rec[2] == Mispredicted || rec[2] == Predicted || rec[2] == Dash)
    && (rec[3] == [0x58] || rec[3] == Dash)
    && (rec[4] == [0x41] || rec[4] == Dash)
    && |rec[5]| >= 1 && forall i :: 0 <= i < |rec[5]| ==> IsDecimalDigit(rec[5][i])
  }

  /** `find` is a matcher for the brstack pattern: its matches are well formed and their groups have the pattern's shape. */
  ghost predicate BrstackMatcher(find: Bytes -> Option<Match>) {
    forall b :: find(b).Some? ==>
      WellFormedMatch(b, find(b).value) && IsBrstackRecord(Groups(b, find(b).value))
  }

  /** A brstack record is safe to hand to the callback, and an address of at most 16 digits always parses. */
  lemma BrstackRecordFields(rec: Record)
    requires IsBrstackRecord(rec)
    ensures WellFormedRecord(rec)
    ensures |rec[0]| <= 18 ==> ParseHex(rec[0][2..]).Some?
    ensures |rec[1]| <= 18 ==> ParseHex(rec[1][2..]).Some?
  {
    if |rec[0]| <= 18 {
      ShortFieldParses(rec[0][2..]);
    }
    if |rec[1]| <= 18 {
      ShortFieldParses(rec[1][2..]);
    }
  }

  /**
   The edge of a brstack record, whatever the length of its address fields:
   both digit strings are read as numbers, and the record counts exactly when
   both are user-space addresses.
   */
  lemma BrstackEdge(rec: Record)
    requires IsBrstackRecord(rec)
    ensures IsNumeral(rec[0][2..]) && IsNumeral(rec[1][2..])
    ensures WellFormedRecord(rec)
    ensures EdgeOf(rec) ==
              if Value(rec[0][2..]) <= UserTop as int && Value(rec[1][2..]) <= UserTop as int
              then Some(EdgeKey(Value(rec[0][2..]) as u64, Value(rec[1][2..]) as u64))
              else None
  {
    assert forall i :: 0 <= i < |rec[0][2..]| ==> IsLowerDigit(rec[0][2..][i]);
    assert forall i :: 0 <= i < |rec[1][2..]| ==> IsLowerDigit(rec[1][2..][i]);
    EdgeOfFields(rec);
  }

  /** Everything the extraction loop delivers under a brstack matcher is a brstack record. */
  lemma DeliveredAreBrstack(find: Bytes -> Option<Match>, results: seq<ReadResult>, k: nat, cut: nat,
                            records: seq<Record>, cuts: seq<nat>, at: seq<nat>, before: seq<nat>)
    requires BrstackMatcher(find)
    requires History(find, results, k, cut, records, cuts, at, before)
    ensures forall j :: 0 <= j < |records| ==> IsBrstackRecord(records[j])
    ensures AllWellFormed(records)
  {
    forall j | 0 <= j < |records| ensures IsBrstackRecord(records[j]) {
      assert Delivered(find, results, at[j], cuts[j], cuts[j + 1], records[j]);
    }
  }

  // ---------------------------------------------------------------------------
  // The analysis of the finished table (src/cmd/fdo/branches.go:79-152)
  // ---------------------------------------------------------------------------

  /** The two rankings and the candidate set. */
  datatype Analysis = Analysis(byTotal: seq<EdgeKey>, byHit: seq<EdgeKey>, candidates: set<EdgeKey>)

  /**
   Filtering, ranking and candidate selection over the table built from
   `records`. With no survivor the Go function returns before the report and
   the candidate loop; the candidate set is then empty either way.
   */
  method Analyze(cfg: Config, records: seq<Record>) returns (a: Analysis)
    requires AllWellFormed(records)
    ensures RankedByTotal(cfg, Aggregate(records), a.byTotal)
    ensures RankedByHit(cfg, Aggregate(records), a.byHit)
    ensures forall k :: k in a.candidates <==> IsCandidate(cfg, Aggregate(records), k)
    ensures |a.byTotal| == 0 ==> a.candidates == {}
  {
    var t := Aggregate(records);
    var byTotal, byHit := Rank(cfg, t);
    CandidatesIff(cfg, t, byTotal);
    a := Analysis(byTotal, byHit, Candidates(cfg, t, byTotal));
  }

  /**
   `extractBranches` without its reporting: scan the `perf script` output
   (the successive `results` of reading it) with the brstack matcher, count
   every record, and analyse the table. A read error aborts with that error
   and the partial table is dropped. The ghost outputs describe the scan as
   `Scan` does.
   */
  method ExtractBranches(cfg: Config, find: Bytes -> Option<Match>, results: seq<ReadResult>)
    returns (r: Result<Analysis, ReadError>,
             ghost records: seq<Record>, ghost k: nat, ghost cuts: seq<nat>, ghost at: seq<nat>, ghost before: seq<nat>)
    requires BrstackMatcher(find)
    ensures |cuts| == |records| + 1 && History(find, results, k, cuts[|records|], records, cuts, at, before)
    ensures forall i :: 0 <= i < k - 1 ==> Continues(results[i])
    // the records are all the loop delivered: on success the stream was read to its end and nothing matches in what is left
    ensures Ended(find, results, records, if r.Failure? then Aborted(r.error) else Finished, k, cuts, at, before)
    ensures r.Failure? <==> k > 0 && results[k - 1].Broken?
    ensures r.Failure? ==> results[k - 1] == Broken(r.error)
    // the first read that stops the loop decides between failure and success
    ensures r.Failure? <==> FirstStop(results) < |results| && results[FirstStop(results)].Broken?
    ensures r.Failure? ==> r.error == results[FirstStop(results)].err
    ensures r.Success? ==>
              && AllWellFormed(records)
              && RankedByTotal(cfg, Aggregate(records), r.value.byTotal)
              && RankedByHit(cfg, Aggregate(records), r.value.byHit)
              && forall e :: e in r.value.candidates <==> IsCandidate(cfg, Aggregate(records), e)
  {
    var scanned, status;
    scanned, status, k, cuts, at, before := Scan(find, results);
    records := scanned;
    assert Ended(find, results, records, status, k, cuts, at, before);
    DeliveredAreBrstack(find, results, k, cuts[|records|], records, cuts, at, before);
    if status.Aborted? {
      return Failure(status.err), records, k, cuts, at, before;
    }
    var a := Analyze(cfg, scanned);
    r := Success(a);
  }
}
