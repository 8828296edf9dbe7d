/** The statistics file: one header line, then fixed-width lines split over the ranks. */
module StatsFile {
  import opened Bytes
  import opened Collectives
  import opened ParallelFile
  import opened Partition
  import opened Sequences
  import opened TopK

  const LINE_BYTES: nat := 90

  /** Every line comes out at the fixed width. */
  ghost predicate FixedWidth(lines: seq<seq<Byte>>) {
    forall i :: 0 <= i < |lines| ==> |lines[i]| == LINE_BYTES
  }

  lemma {:induction false} LinesLength(lines: seq<seq<Byte>>, n: nat)
    requires FixedWidth(lines) && n <= |lines|
    ensures |Flatten(lines[..n])| == n * LINE_BYTES
  {
    if n > 0 {
      LinesLength(lines, n - 1);
      FlattenPrefix(lines, n - 1);
    } else {
      assert lines[..0] == [];
    }
  }

  /** Rank r's buffer: its lines, with the header in front on rank 0. */
  ghost function Buffer(header: seq<Byte>, lines: seq<seq<Byte>>, r: nat, size: nat): seq<Byte>
    requires r < size
  {
    (if r == 0 then header else []) + Flatten(Part(lines, r, size))
  }

  ghost predicate AreBuffers(header: seq<Byte>, lines: seq<seq<Byte>>, buffers: seq<seq<Byte>>) {
    forall r :: 0 <= r < |buffers| ==> buffers[r] == Buffer(header, lines, r, |buffers|)
  }

  /** The buffers of the first r ranks are the header and the lines before rank r's. */
  lemma {:induction false} BuffersPrefix(header: seq<Byte>, lines: seq<seq<Byte>>, buffers: seq<seq<Byte>>, r: nat)
    requires AreBuffers(header, lines, buffers) && 0 < r <= |buffers|
    ensures SplitPoint(|lines|, r, |buffers|) <= |lines|
    ensures Flatten(buffers[..r]) == header + Flatten(lines[..SplitPoint(|lines|, r, |buffers|)])
  {
    hide SplitPoint, Flatten;
    var size := |buffers|;
    SplitAscends(|lines|, r - 1, r, size);
    FlattenPrefix(buffers, r - 1);
    LinesJoin(lines, r - 1, size);
    if r == 1 {
      SplitEnds(|lines|, size);
      NothingBefore(buffers, lines);
    } else {
      BuffersPrefix(header, lines, buffers, r - 1);
    }
    var before := Flatten(lines[..SplitPoint(|lines|, r - 1, size)]);
    Associate(header, before, Flatten(Part(lines, r - 1, size)));
    assert buffers[r - 1] == Buffer(header, lines, r - 1, size);
    assert [] + Flatten(Part(lines, r - 1, size)) == Flatten(Part(lines, r - 1, size));
  }

  lemma NothingBefore(buffers: seq<seq<Byte>>, lines: seq<seq<Byte>>)
    requires |buffers| > 0
    ensures Flatten(buffers[..0]) == [] && Flatten(lines[..0]) == []
  {
  }

  lemma LinesJoin(lines: seq<seq<Byte>>, r: nat, size: nat)
    requires r < size && SplitPoint(|lines|, r, size) <= SplitPoint(|lines|, r + 1, size) <= |lines|
    ensures Flatten(lines[..SplitPoint(|lines|, r + 1, size)])
            == Flatten(lines[..SplitPoint(|lines|, r, size)]) + Flatten(Part(lines, r, size))
  {
    hide SplitPoint, Flatten;
    var a, b := SplitPoint(|lines|, r, size), SplitPoint(|lines|, r + 1, size);
    FlattenConcat(lines[..a], lines[a..b]);
    assert lines[..a] + lines[a..b] == lines[..b];
  }

  /** Offsets are a pure function of the line index, and they tile the file. */
  lemma BuffersTile(header: seq<Byte>, lines: seq<seq<Byte>>, buffers: seq<seq<Byte>>)
    requires FixedWidth(lines) && AreBuffers(header, lines, buffers) && |buffers| > 0
    ensures Flatten(buffers) == header + Flatten(lines)
    ensures |Flatten(buffers)| == |header| + |lines| * LINE_BYTES
    ensures forall r :: 0 <= r < |buffers| ==>
      Start(buffers, r) == if r == 0 then 0 else |header| + SplitPoint(|lines|, r, |buffers|) * LINE_BYTES
  {
    hide SplitPoint, Flatten;
    var size := |buffers|;
    SplitEnds(|lines|, size);
    BuffersPrefix(header, lines, buffers, size);
    assert buffers[..size] == buffers && lines[..|lines|] == lines;
    LinesLength(lines, |lines|);
    forall r | 0 <= r < size
      ensures Start(buffers, r) == if r == 0 then 0 else |header| + SplitPoint(|lines|, r, size) * LINE_BYTES
    {
      if r == 0 {
        NothingBefore(buffers, lines);
      } else {
        BuffersPrefix(header, lines, buffers, r);
        LinesLength(lines, SplitPoint(|lines|, r, size));
      }
    }
  }

  /** The rank formats its own lines one by one and gives up at the first of another width. */
  method FillBuffer(format: PatternStat -> seq<Byte>, stats: seq<PatternStat>, header: seq<Byte>, rank: nat, size: nat)
    returns (ok: bool, buffer: seq<Byte>)
    requires rank < size
    ensures ok <==> FixedWidth(Part(Each(format, stats), rank, size))
    ensures ok ==> buffer == Buffer(header, Each(format, stats), rank, size)
  {
    var k := |stats|;
    SplitAscends(k, rank, rank + 1, size);
    var begin, end := SplitPoint(k, rank, size), SplitPoint(k, rank + 1, size);
    ghost var mine := Part(Each(format, stats), rank, size);
    ghost var front := if rank == 0 then header else [];
    assert |mine| == end - begin && forall i :: begin <= i < end ==> mine[i - begin] == format(stats[i]);
    hide Flatten, SplitPoint, Part, FixedWidth;
    buffer := if rank == 0 then header else [];
    NoLines(mine, front);
    for i := begin to end
      invariant buffer == front + Flatten(mine[..i - begin]) && FixedWidth(mine[..i - begin])
    {
      var line := format(stats[i]);
      assert line == mine[i - begin];
      LineStep(mine, front, i - begin);
      if |line| != LINE_BYTES { return false, buffer; }
      buffer := buffer + line;
    }
    assert mine[..end - begin] == mine;
    ok := true;
  }

  lemma NoLines(mine: seq<seq<Byte>>, front: seq<Byte>)
    ensures front + Flatten(mine[..0]) == front && FixedWidth(mine[..0])
  {
  }

  lemma LineStep(mine: seq<seq<Byte>>, front: seq<Byte>, i: nat)
    requires i < |mine|
    ensures front + Flatten(mine[..i + 1]) == front + Flatten(mine[..i]) + mine[i]
    ensures FixedWidth(mine[..i + 1]) <==> FixedWidth(mine[..i]) && |mine[i]| == LINE_BYTES
    ensures |mine[i]| != LINE_BYTES ==> !FixedWidth(mine)
  {
    hide Flatten;
    FlattenPrefix(mine, i);
    Associate(front, Flatten(mine[..i]), mine[i]);
    assert mine[..i + 1] == mine[..i] + [mine[i]];
  }

  /** Every line lies in some rank's part. */
  lemma WidthsByPart(lines: seq<seq<Byte>>, size: nat)
    requires size > 0
    ensures FixedWidth(lines) <==> forall r :: 0 <= r < size ==> FixedWidth(Part(lines, r, size))
  {
    hide SplitPoint, Flatten;
    PartsTile(lines, size);
    var parts := Parts(lines, size);
    if forall r :: 0 <= r < size ==> FixedWidth(Part(lines, r, size)) {
      forall i | 0 <= i < |lines| ensures |lines[i]| == LINE_BYTES {
        var r, j := FlattenLocate(parts, i);
        assert FixedWidth(Part(lines, r, size));
      }
    }
    if FixedWidth(lines) {
      forall r, j | 0 <= r < size && 0 <= j < |parts[r]| ensures |parts[r][j]| == LINE_BYTES { FlattenAt(parts, r, j); }
      assert forall r :: 0 <= r < size ==> FixedWidth(parts[r]);
    }
  }

  lemma WidthsInNumbers(format: PatternStat -> seq<Byte>, stats: seq<PatternStat>)
    ensures FixedWidth(Each(format, stats)) <==> forall i :: 0 <= i < |stats| ==> |format(stats[i])| == 90
  {
    forall i | 0 <= i < |stats| ensures Each(format, stats)[i] == format(stats[i]) {}
  }

  /** Line i of the finished file, at its place. */
  lemma LinesInPlace(header: seq<Byte>, format: PatternStat -> seq<Byte>, stats: seq<PatternStat>, content: seq<Byte>)
    requires FixedWidth(Each(format, stats)) && content == header + Flatten(Each(format, stats))
    ensures |content| == |header| + 90 * |stats| && content[..|header|] == header
    ensures forall i :: 0 <= i < |stats| ==> content[|header| + 90 * i..|header| + 90 * i + 90] == format(stats[i])
  {
    var lines := Each(format, stats);
    hide Flatten, FixedWidth;
    LinesLength(lines, |lines|);
    assert lines[..|lines|] == lines;
    forall i | 0 <= i < |stats| ensures content[|header| + 90 * i..|header| + 90 * i + 90] == format(stats[i]) {
      FlattenSlice(lines, i);
      LinesLength(lines, i);
      LinesLength(lines, i + 1);
      assert content[|header|..] == Flatten(lines);
      SliceOfSlice(content, |header|, |content|, 90 * i, 90 * i + 90);
    }
  }

  /** A rank may give up before the write; otherwise the write ends alike on all ranks. */
  datatype Report = NoHeader | LineOverflow(rank: nat) | Finished(outcomes: seq<Outcome>)

  /** Every rank writes its own lines; if the ranks return, the file is the header followed by
      all lines in order, whatever was there before. */
  method WritePatternStatsFile(file: SharedFile, header: seq<Byte>, format: PatternStat -> seq<Byte>, stats: seq<PatternStat>, size: nat)
    returns (report: Report)
    requires size > 0
    modifies file
    ensures report.NoHeader? <==> header == []
    ensures report.LineOverflow? ==>
      && report.rank < size && !FixedWidth(Part(Each(format, stats), report.rank, size))
      && forall q :: 0 <= q < report.rank ==> FixedWidth(Part(Each(format, stats), q, size))
    ensures report.LineOverflow? <==> header != [] && exists i :: 0 <= i < |stats| && |format(stats[i])| != 90
    ensures report.Finished? ==> |report.outcomes| == size && (AllReturned(report.outcomes) || AllThrew(report.outcomes))
    ensures old(file.calls) <= file.calls && (!report.Finished? ==> file.content == old(file.content) && file.calls == old(file.calls))
    ensures report.Finished? ==>
      (AllReturned(report.outcomes) <==> forall c :: |old(file.calls)| <= c < |file.calls| ==> file.calls[c].ok)
    ensures report.Finished? && AllReturned(report.outcomes) ==> file.content == header + Flatten(Each(format, stats))
    ensures report.Finished? && AllReturned(report.outcomes) ==>
      && |file.content| == |header| + 90 * |stats| && file.content[..|header|] == header
      && forall i :: 0 <= i < |stats| ==> file.content[|header| + 90 * i..|header| + 90 * i + 90] == format(stats[i])
  {
    hide Flatten, SplitPoint, Buffer, FixedWidth;
    if header == [] { return NoHeader; }
    var k := |stats|;
    WidthsByPart(Each(format, stats), size);
    WidthsInNumbers(format, stats);
    var buffers, offsets: seq<nat> := [], [];
    for r := 0 to size
      invariant |buffers| == |offsets| == r && file.content == old(file.content) && file.calls == old(file.calls)
      invariant forall q :: 0 <= q < r ==> FixedWidth(Part(Each(format, stats), q, size))
      invariant forall q :: 0 <= q < r ==> buffers[q] == Buffer(header, Each(format, stats), q, size)
      invariant forall q :: 0 <= q < r ==> offsets[q] == if q == 0 then 0 else |header| + SplitPoint(k, q, size) * LINE_BYTES
    {
      var ok, buffer := FillBuffer(format, stats, header, r, size);
      if !ok { return LineOverflow(r); }
      buffers := buffers + [buffer];
      offsets := offsets + [if r == 0 then 0 else |header| + SplitPoint(k, r, size) * LINE_BYTES];
    }
    BuffersTile(header, Each(format, stats), buffers);
    ghost var errors;
    var outcomes;
    outcomes, errors := WriteSharedFile(file, [], buffers, offsets, |header| + k * LINE_BYTES);
    report := Finished(outcomes);
    if AllReturned(outcomes) { LinesInPlace(header, format, stats, file.content); }
  }
}
