/**
 The extraction loop itself, over the read results and matcher described in
 `PerfScript`.
 */
module Extractor {
  import opened Base
  import opened PerfScript

  /** How the loop ended: normally, or with the read error it returns. */
  datatype Status = Finished | Aborted(err: ReadError)

  /**
   The loop at src/cmd/fdo/fdo.go:136-163. Besides the records and how the
   loop ended, it returns (as ghost values) the number `k` of reads made, and
   for the j-th record the reads made before it (`at[j]`) and the discarded
   prefix before and after it (`cuts[j]`, `cuts[j + 1]`); `before[i]` is the
   discarded prefix when the i-th read was made. Running out of `results` reads
   as a zero-byte end-of-file.
   */
  method Scan(find: Bytes -> Option<Match>, results: seq<ReadResult>)
    returns (records: seq<Record>, status: Status,
             ghost k: nat, ghost cuts: seq<nat>, ghost at: seq<nat>, ghost before: seq<nat>)
    requires IsMatcher(find)
    ensures Ended(find, results, records, status, k, cuts, at, before)
    // the loop stops at the first read that does not let it go on, failing exactly when that read failed
    ensures status.Aborted? <==> FirstStop(results) < |results| && results[FirstStop(results)].Broken?
    ensures status.Aborted? ==> status.err == results[FirstStop(results)].err
    // every callback consumed at least one received byte
    ensures |records| <= |Received(results, FirstStop(results))|
  {
    var buf: Bytes := [];
    var i: nat := 0;
    ghost var cut: nat := 0;
    records, cuts, at, before := [], [0], [], [];
    while true
      invariant Progress(find, results, i, buf, cut, records, cuts, at, before)
      decreases |results| - i, |buf|
    {
      if find(buf).None? && i == |results| {
        // No match and nothing left to read: a zero-byte end-of-file.
        EndOfResults(find, results, buf, i, cut, records, cuts, at, before);
        status, k := Finished, i;
        StopsAtFirstStop(find, results, records, status, k, cuts, at, before);
        return;
      }
      if find(buf).None? && !Continues(results[i]) {
        // No match, and the read fails or is a zero-byte end-of-file.
        StoppingRead(find, results, buf, i, cut, records, cuts, at, before);
        status := if results[i].Broken? then Aborted(results[i].err) else Finished;
        k, before := i + 1, before + [cut];
        StopsAtFirstStop(find, results, records, status, k, cuts, at, before);
        return;
      }
      buf, i, cut, records, cuts, at, before := Advance(find, results, buf, i, cut, records, cuts, at, before);
    }
  }

  /**
   How the loop left things after `k` reads: the callbacks and reads form a
   `History`; every read but the last let the loop go on; an abort is the
   error of the last read and came after every callback; a normal exit is
   the end of the results or a zero-byte end-of-file, and leaves no match in
   what was not discarded.
   */
  ghost predicate Ended(find: Bytes -> Option<Match>, results: seq<ReadResult>, records: seq<Record>, status: Status,
                        k: nat, cuts: seq<nat>, at: seq<nat>, before: seq<nat>)
  {
    && |cuts| == |records| + 1 && History(find, results, k, cuts[|records|], records, cuts, at, before)
    && (forall i :: 0 <= i < k - 1 ==> Continues(results[i]))
    && (status.Aborted? ==>
          k > 0 && results[k - 1] == Broken(status.err) && forall j :: 0 <= j < |records| ==> at[j] < k)
    && (status.Finished? ==>
          || (k == |results| && (k == 0 || Continues(results[k - 1])))
          || (k > 0 && results[k - 1] == Got([], true)))
    && (status.Finished? ==>
          cuts[|records|] <= |Received(results, k)| && find(Received(results, k)[cuts[|records|]..]).None?)
  }

  /** Stopping because the results ran out with no match in the buffer. */
  lemma EndOfResults(find: Bytes -> Option<Match>, results: seq<ReadResult>, buf: Bytes, i: nat, cut: nat,
                     records: seq<Record>, cuts: seq<nat>, at: seq<nat>, before: seq<nat>)
    requires Progress(find, results, i, buf, cut, records, cuts, at, before)
    requires find(buf).None? && i == |results|
    ensures Ended(find, results, records, Finished, i, cuts, at, before)
  {
  }

  /** Stopping at a read that fails or is a zero-byte end-of-file, with no match in the buffer. */
  lemma StoppingRead(find: Bytes -> Option<Match>, results: seq<ReadResult>, buf: Bytes, i: nat, cut: nat,
                     records: seq<Record>, cuts: seq<nat>, at: seq<nat>, before: seq<nat>)
    requires Progress(find, results, i, buf, cut, records, cuts, at, before)
    requires find(buf).None? && i < |results| && !Continues(results[i])
    ensures Ended(find, results, records, if results[i].Broken? then Aborted(results[i].err) else Finished,
                  i + 1, cuts, at, before + [cut])
  {
    ReadExtendsHistory(find, results, i, cut, records, cuts, at, before);
    LastReadAddsNothing(results, i);
  }

  /** Where the loop stopped, restated through `FirstStop`. */
  lemma StopsAtFirstStop(find: Bytes -> Option<Match>, results: seq<ReadResult>, records: seq<Record>, status: Status,
                         k: nat, cuts: seq<nat>, at: seq<nat>, before: seq<nat>)
    requires Ended(find, results, records, status, k, cuts, at, before)
    ensures status.Aborted? <==> FirstStop(results) < |results| && results[FirstStop(results)].Broken?
    ensures status.Aborted? ==> status.err == results[FirstStop(results)].err
    ensures |records| <= |Received(results, FirstStop(results))|
  {
    RecordsBoundedByCut(find, results, k, cuts[|records|], records, cuts, at, before);
    if status.Aborted? || (status.Finished? && !(k == |results| && (k == 0 || Continues(results[k - 1])))) {
      FirstStopUnique(results, k - 1);
      LastReadAddsNothing(results, k - 1);
    } else {
      FirstStopUnique(results, k);
    }
  }

  /** One round of the loop that does not end it: deliver the match in the buffer, or read more. */
  method Advance(find: Bytes -> Option<Match>, results: seq<ReadResult>, buf: Bytes, i: nat, ghost cut: nat,
                 records: seq<Record>, ghost cuts: seq<nat>, ghost at: seq<nat>, ghost before: seq<nat>)
    returns (buf': Bytes, i': nat, ghost cut': nat,
             records': seq<Record>, ghost cuts': seq<nat>, ghost at': seq<nat>, ghost before': seq<nat>)
    requires IsMatcher(find)
    requires Progress(find, results, i, buf, cut, records, cuts, at, before)
    requires find(buf).Some? || (i < |results| && Continues(results[i]))
    ensures Progress(find, results, i', buf', cut', records', cuts', at', before')
    ensures i < i' || (i == i' && |buf'| < |buf|)
    ensures i' <= |results|
  {
    var found := find(buf);
    if found.Some? {
      DeliverKeepsProgress(find, results, i, buf, cut, records, cuts, at, before);
      var m := found.value;
      return buf[m.end..], i, cut + m.end, records + [Groups(buf, m)], cuts + [cut + m.end], at + [i], before;
    }
    ReadKeepsProgress(find, results, i, buf, cut, records, cuts, at, before);
    return buf + results[i].data, i + 1, cut, records, cuts, at, before + [cut];
  }
}
