/**
 What the match-extraction loop of `runPerfScript` (src/cmd/fdo/fdo.go)
 works on and what it guarantees; the loop itself is `Extractor.Scan`. The
 output of `perf script` is read into a growable buffer; the buffer is
 scanned for a match of a pattern, each match's capture groups are
 handed to a callback and the buffer is cut down to the text after the match;
 when nothing matches, up to 1024 more bytes are read and appended.

 The subprocess is replaced by the finite sequence of results its reads
 return, and the regular-expression engine by a function `find` that reports
 the match the engine finds in a buffer, if any; the callback's arguments are collected into
 the returned sequence of records, in call order.
 */
module PerfScript {
  import opened Base

  /** How many bytes one read may deliver: the loop extends the buffer by this much before reading. */
  const ReadSize: nat := 1024

  type Chunk = d: Bytes | |d| <= ReadSize

  /** An error from the stream other than end-of-file. */
  datatype ReadError = ReadError(code: nat)

  /** What one `Read` call returns: `n` bytes with or without `io.EOF`, or another error. */
  datatype ReadResult = Got(data: Chunk, eof: bool) | Broken(err: ReadError)

  /** A read after which the loop goes on: it delivered bytes, or it was not end-of-file. */
  predicate Continues(r: ReadResult) {
    r.Got? && !(|r.data| == 0 && r.eof)
  }

  /** A capture group's position in the buffer, as a pair of `FindSubmatchIndex` entries. */
  datatype Span = Span(lo: nat, hi: nat)

  /** A match: the whole match `[start, end)` and its capture groups in group order. */
  datatype Match = Match(start: nat, end: nat, groups: seq<Span>)

  /**
   What the loop relies on from the pattern: a match lies inside the buffer,
   is not empty (the pattern cannot match empty text) and holds its groups.
   */
  predicate WellFormedMatch(buf: Bytes, m: Match) {
    && m.start < m.end <= |buf|
    && forall g :: 0 <= g < |m.groups| ==> m.start <= m.groups[g].lo <= m.groups[g].hi <= m.end
  }

  /** `find(buf)` stands for `FindSubmatchIndex(buf)`: the match the engine reports in `buf`, if any. */
  ghost predicate IsMatcher(find: Bytes -> Option<Match>) {
    forall b :: find(b).Some? ==> WellFormedMatch(b, find(b).value)
  }

  /** The strings handed to the callback: one per capture group. */
  type Record = seq<Bytes>

  /** The text of each capture group of `m`, in group order (group 0, the whole match, is not included). */
  function Groups(buf: Bytes, m: Match): (rec: Record)
    requires WellFormedMatch(buf, m)
    ensures |rec| == |m.groups|
    ensures forall g :: 0 <= g < |rec| ==>
              rec[g] == buf[m.start..m.end][m.groups[g].lo - m.start..m.groups[g].hi - m.start]
  {
    seq(|m.groups|, g requires 0 <= g < |m.groups| => buf[m.groups[g].lo..m.groups[g].hi])
  }

  /** All bytes delivered by the first `n` results, in order. */
  function Received(results: seq<ReadResult>, n: nat): Bytes
    requires n <= |results|
  {
    if n == 0 then []
    else Received(results, n - 1) + (if results[n - 1].Got? then results[n - 1].data else [])
  }

  /**
   The callback received `rec` while `n` reads had completed and the first
   `from` received bytes had been discarded: the buffer was exactly the
   received bytes after `from`, `rec` holds the groups of the match `find`
   reported in that buffer, and everything up to the match end (`to`) was
   discarded next.
   */
  ghost predicate Delivered(find: Bytes -> Option<Match>, results: seq<ReadResult>,
                            n: nat, from: nat, to: nat, rec: Record)
  {
    && n <= |results|
    && from <= |Received(results, n)|
    && var buf := Received(results, n)[from..];
    && find(buf).Some?
    && WellFormedMatch(buf, find(buf).value)
    && rec == Groups(buf, find(buf).value)
    && to == from + find(buf).value.end
  }

  /**
   What has happened after `i` reads, with the first `cut` received bytes
   discarded: `records` were delivered as `Delivered` describes, consumed
   front to back, and each read was made, with `before[x]` bytes discarded,
   only once the buffer held no match.
   */
  ghost predicate History(find: Bytes -> Option<Match>, results: seq<ReadResult>, i: nat, cut: nat,
                          records: seq<Record>, cuts: seq<nat>, at: seq<nat>, before: seq<nat>)
  {
    && i <= |results| && |before| == i
    && cut <= |Received(results, i)|
    && |cuts| == |records| + 1 && cuts[0] == 0 && cuts[|records|] == cut && |at| == |records|
    && (forall j :: 0 <= j < |records| ==>
          at[j] <= i && Delivered(find, results, at[j], cuts[j], cuts[j + 1], records[j]))
    && (forall j :: 0 <= j < |records| ==> cuts[j] < cuts[j + 1])
    && (forall j :: 0 <= j < |cuts| ==> cuts[j] <= cut)
    && (forall j, j' :: 0 <= j < j' < |records| ==> at[j] <= at[j'])
    && (forall x {:trigger before[x]} :: 0 <= x < i ==>
          before[x] <= |Received(results, x)| && find(Received(results, x)[before[x]..]).None?)
    && (forall x :: 0 <= x < i ==> before[x] <= cut)
    && (forall x, j {:trigger at[j], before[x]} :: 0 <= x < i && 0 <= j < |records| ==>
          (at[j] <= x ==> cuts[j + 1] <= before[x]) && (x < at[j] ==> before[x] <= cuts[j]))
  }

  /** The loop state between iterations: the history so far, every read let the loop go on, and the buffer is the undiscarded rest. */
  ghost predicate Progress(find: Bytes -> Option<Match>, results: seq<ReadResult>, i: nat, buf: Bytes, cut: nat,
                           records: seq<Record>, cuts: seq<nat>, at: seq<nat>, before: seq<nat>)
  {
    && History(find, results, i, cut, records, cuts, at, before)
    && (forall x :: 0 <= x < i ==> Continues(results[x]))
    && buf == Received(results, i)[cut..]
  }

  /** Delivering the match found in the buffer and cutting it off keeps `Progress`. */
  lemma DeliverKeepsProgress(find: Bytes -> Option<Match>, results: seq<ReadResult>, i: nat, buf: Bytes, cut: nat,
                             records: seq<Record>, cuts: seq<nat>, at: seq<nat>, before: seq<nat>)
    requires IsMatcher(find)
    requires Progress(find, results, i, buf, cut, records, cuts, at, before)
    requires find(buf).Some?
    ensures WellFormedMatch(buf, find(buf).value)
    ensures var m := find(buf).value;
            Progress(find, results, i, buf[m.end..], cut + m.end,
                     records + [Groups(buf, m)], cuts + [cut + m.end], at + [i], before)
  {
    var m := find(buf).value;
    assert Delivered(find, results, i, cut, cut + m.end, Groups(buf, m));
    DeliverExtendsHistory(find, results, i, cut, cut + m.end, Groups(buf, m), records, cuts, at, before);
    assert Received(results, i)[cut..][m.end..] == Received(results, i)[cut + m.end..];
  }

  /** A record delivered from the undiscarded rest after the `i` reads so far extends the history. */
  lemma DeliverExtendsHistory(find: Bytes -> Option<Match>, results: seq<ReadResult>, i: nat, cut: nat, cut': nat,
                              rec: Record, records: seq<Record>, cuts: seq<nat>, at: seq<nat>, before: seq<nat>)
    requires History(find, results, i, cut, records, cuts, at, before)
    requires Delivered(find, results, i, cut, cut', rec) && cut < cut'
    ensures History(find, results, i, cut', records + [rec], cuts + [cut'], at + [i], before)
  {
    var records', cuts', at' := records + [rec], cuts + [cut'], at + [i];
    assert cut' <= |Received(results, i)|;
    forall j | 0 <= j < |records'|
      ensures at'[j] <= i && Delivered(find, results, at'[j], cuts'[j], cuts'[j + 1], records'[j])
    {
      if j < |records| {
        assert records'[j] == records[j] && at'[j] == at[j] && cuts'[j] == cuts[j] && cuts'[j + 1] == cuts[j + 1];
      }
    }
    forall j | 0 <= j < |records'| ensures cuts'[j] < cuts'[j + 1] {
      if j < |records| {
        assert cuts'[j] == cuts[j] && cuts'[j + 1] == cuts[j + 1];
      }
    }
    forall j | 0 <= j < |cuts'| ensures cuts'[j] <= cut' {
      if j < |cuts| {
        assert cuts'[j] == cuts[j];
      }
    }
    forall j, j' | 0 <= j < j' < |records'| ensures at'[j] <= at'[j'] {
      if j' < |records| {
        assert at'[j] == at[j] && at'[j'] == at[j'];
      }
    }
    forall x, j | 0 <= x < i && 0 <= j < |records'|
      ensures (at'[j] <= x ==> cuts'[j + 1] <= before[x]) && (x < at'[j] ==> before[x] <= cuts'[j])
    {
      if j < |records| {
        assert at'[j] == at[j] && cuts'[j] == cuts[j] && cuts'[j + 1] == cuts[j + 1];
      }
    }
  }

  /** A read made when the buffer holds no match extends the history, whatever the read returns. */
  lemma ReadExtendsHistory(find: Bytes -> Option<Match>, results: seq<ReadResult>, i: nat, cut: nat,
                           records: seq<Record>, cuts: seq<nat>, at: seq<nat>, before: seq<nat>)
    requires History(find, results, i, cut, records, cuts, at, before)
    requires i < |results| && find(Received(results, i)[cut..]).None?
    ensures History(find, results, i + 1, cut, records, cuts, at, before + [cut])
    ensures forall j :: 0 <= j < |records| ==> at[j] < i + 1
  {
    var before' := before + [cut];
    assert Received(results, i + 1) == Received(results, i) + (if results[i].Got? then results[i].data else []);
    forall x | 0 <= x < i + 1
      ensures before'[x] <= |Received(results, x)| && find(Received(results, x)[before'[x]..]).None?
    {
      if x < i {
        assert before'[x] == before[x];
      }
    }
  }

  /** A read that lets the loop go on appends exactly the bytes it delivered to the buffer. */
  lemma ReadKeepsProgress(find: Bytes -> Option<Match>, results: seq<ReadResult>, i: nat, buf: Bytes, cut: nat,
                          records: seq<Record>, cuts: seq<nat>, at: seq<nat>, before: seq<nat>)
    requires Progress(find, results, i, buf, cut, records, cuts, at, before)
    requires i < |results| && find(buf).None? && Continues(results[i])
    ensures Progress(find, results, i + 1, buf + results[i].data, cut, records, cuts, at, before + [cut])
  {
    ReadExtendsHistory(find, results, i, cut, records, cuts, at, before);
    assert Received(results, i + 1) == Received(results, i) + results[i].data;
    assert (Received(results, i) + results[i].data)[cut..] == Received(results, i)[cut..] + results[i].data;
  }

  /** The position of the first read after which the loop cannot go on, or `|results|` if every read lets it. */
  function FirstStop(results: seq<ReadResult>): (n: nat)
    ensures n <= |results|
    ensures forall i :: 0 <= i < n ==> Continues(results[i])
    ensures n < |results| ==> !Continues(results[n])
  {
    if |results| == 0 || !Continues(results[0]) then 0 else 1 + FirstStop(results[1..])
  }

  /** `FirstStop` is the only position with its two properties. */
  lemma FirstStopUnique(results: seq<ReadResult>, n: nat)
    requires n <= |results|
    requires forall i :: 0 <= i < n ==> Continues(results[i])
    requires n < |results| ==> !Continues(results[n])
    ensures FirstStop(results) == n
  {
  }

  /** Each record cuts off at least one byte, so there are no more records than bytes discarded. */
  lemma RecordsBoundedByCut(find: Bytes -> Option<Match>, results: seq<ReadResult>, i: nat, cut: nat,
                            records: seq<Record>, cuts: seq<nat>, at: seq<nat>, before: seq<nat>)
    requires History(find, results, i, cut, records, cuts, at, before)
    ensures |records| <= cut
  {
    CutsOutgrowIndex(cuts, |records|);
  }

  /** In a strictly increasing sequence of naturals, the j-th is at least j. */
  lemma {:induction false} CutsOutgrowIndex(cuts: seq<nat>, j: nat)
    requires j < |cuts|
    requires forall x :: 0 <= x < |cuts| - 1 ==> cuts[x] < cuts[x + 1]
    ensures j <= cuts[j]
  {
    if j > 0 {
      CutsOutgrowIndex(cuts, j - 1);
    }
  }

  /** A last read adds no byte to the buffer: end-of-file with nothing, or an error. */
  lemma LastReadAddsNothing(results: seq<ReadResult>, i: nat)
    requires i < |results| && !Continues(results[i])
    ensures Received(results, i + 1) == Received(results, i)
  {
  }
}
