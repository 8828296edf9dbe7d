/** All ranks writing one shared file: short writes in any order, failures agreed on by all. */
module ParallelFile {
  import opened Bytes
  import opened Sequences

  /** What one pwrite leaves: the data at its offset, a gap filled with zeros, the rest kept. */
  function Overlay(c: seq<Byte>, d: seq<Byte>, offset: nat): (r: seq<Byte>)
    ensures |r| == if |c| > offset + |d| then |c| else offset + |d|
    ensures forall i :: 0 <= i < |r| ==>
      r[i] == if offset <= i < offset + |d| then d[i - offset] else if i < |c| then c[i] else 0
  {
    seq(if |c| > offset + |d| then |c| else offset + |d|,
        i requires 0 <= i => if offset <= i < offset + |d| then d[i - offset] else if i < |c| then c[i] else 0)
  }

  /** What ftruncate leaves: cut off, or filled up with zeros. */
  function Resize(c: seq<Byte>, n: nat): (r: seq<Byte>)
    ensures |r| == n && forall i :: 0 <= i < n ==> r[i] == if i < |c| then c[i] else 0
  {
    if n <= |c| then c[..n] else c + seq(n - |c|, _ => 0)
  }

  datatype Kind = Open | Write | Truncate | Close

  /** One system call of one rank, whether it succeeded, and for a write its offset. */
  datatype Call = Call(kind: Kind, rank: nat, ok: bool, at: nat)

  /** The ranks one of whose calls failed. */
  ghost function Failed(calls: seq<Call>): set<nat> {
    if calls == [] then {} else
      var last := calls[|calls| - 1];
      Failed(calls[..|calls| - 1]) + if last.ok then {} else {last.rank}
  }

  lemma FailedSnoc(calls: seq<Call>, c: Call)
    ensures Failed(calls + [c]) == Failed(calls) + if c.ok then {} else {c.rank}
  {
    assert (calls + [c])[..|calls|] == calls;
  }

  lemma {:induction false} FailedConcat(a: seq<Call>, b: seq<Call>)
    ensures Failed(a + b) == Failed(a) + Failed(b)
  {
    if b == [] {
      assert a + b == a;
    } else {
      var n := |b| - 1;
      FailedConcat(a, b[..n]);
      assert (a + b)[..|a + b| - 1] == a + b[..n];
    }
  }

  lemma {:induction false} FailedExactly(calls: seq<Call>, r: nat)
    ensures r in Failed(calls) <==> exists c :: 0 <= c < |calls| && calls[c].rank == r && !calls[c].ok
  {
    if calls != [] {
      var n := |calls| - 1;
      FailedExactly(calls[..n], r);
      assert forall c :: 0 <= c < n ==> calls[..n][c] == calls[c];
      assert calls[n].rank == r && !calls[n].ok ==> r in Failed(calls);
    }
  }

  lemma NoneFailed(calls: seq<Call>)
    ensures Failed(calls) == {} <==> forall c :: 0 <= c < |calls| ==> calls[c].ok
  {
    forall c | 0 <= c < |calls| && !calls[c].ok ensures calls[c].rank in Failed(calls) { FailedExactly(calls, calls[c].rank); }
    forall r | r in Failed(calls) ensures exists c :: 0 <= c < |calls| && !calls[c].ok { FailedExactly(calls, r); }
  }

  class SharedFile {
    var content: seq<Byte>
    var stalls: nat // writes that will still return 0 bytes without an error
    ghost var calls: seq<Call> // every call made, in order

    constructor (content: seq<Byte>, stalls: nat)
      ensures this.content == content && this.stalls == stalls && calls == []
    {
      this.content, this.stalls, calls := content, stalls, [];
    }

    method Open(rank: nat) returns (ok: bool)
      modifies this`calls
      ensures calls == old(calls) + [Call(Kind.Open, rank, ok, 0)]
    {
      ok := *;
      calls := calls + [Call(Kind.Open, rank, ok, 0)];
    }

    /** Fails or writes nothing and leaves the file alone, or writes some leading bytes. */
    method Pwrite(rank: nat, data: seq<Byte>, offset: nat) returns (w: int)
      requires data != []
      modifies this
      ensures w <= |data|
      ensures w <= 0 ==> content == old(content)
      ensures w > 0 ==> content == Overlay(old(content), data[..w], offset)
      ensures if w == 0 then stalls < old(stalls) else stalls == old(stalls)
      ensures calls == old(calls) + [Call(Write, rank, w >= 0, offset)]
    {
      w := *;
      if w == 0 && stalls > 0 {
        stalls := stalls - 1;
      } else if w >= 0 {
        w :| 0 < w <= |data|;
        content := Overlay(content, data[..w], offset);
      }
      calls := calls + [Call(Write, rank, w >= 0, offset)];
    }

    method Truncate(rank: nat, total: nat) returns (ok: bool)
      modifies this
      ensures content == if ok then Resize(old(content), total) else old(content)
      ensures calls == old(calls) + [Call(Kind.Truncate, rank, ok, total)]
    {
      ok := *;
      if ok { content := Resize(content, total); }
      calls := calls + [Call(Kind.Truncate, rank, ok, total)];
    }

    method Close(rank: nat) returns (ok: bool)
      modifies this`calls
      ensures calls == old(calls) + [Call(Kind.Close, rank, ok, 0)]
    {
      ok := *;
      calls := calls + [Call(Kind.Close, rank, ok, 0)];
    }
  }

  // ----- who writes what -------------------------------------------------------

  /** Piece 0 is the head, written by rank 0 before its own data; piece r + 1 is rank r's data. */
  function Writer(piece: nat): nat { if piece == 0 then 0 else piece - 1 }

  /** The piece is its rank's next: rank alive, bytes left, and the head written first. */
  predicate Ready(pieces: seq<seq<Byte>>, done: seq<nat>, failed: set<nat>, i: nat)
    requires |done| == |pieces|
  {
    && i < |pieces| && Writer(i) !in failed && done[i] < |pieces[i]|
    && (i == 1 ==> done[0] == |pieces[0]|)
  }

  /** Every byte reported as written is in the file, at its place. */
  ghost predicate Written(content: seq<Byte>, pieces: seq<seq<Byte>>, done: seq<nat>)
  {
    && |done| == |pieces|
    && (forall i :: 0 <= i < |pieces| ==> done[i] <= |pieces[i]|)
    && forall i, j :: 0 <= i < |pieces| && 0 <= j < done[i] ==> At(content, Start(pieces, i) + j, pieces[i][j])
  }

  predicate At(content: seq<Byte>, k: nat, b: Byte) {
    k < |content| && content[k] == b
  }

  lemma PlacesApart(pieces: seq<seq<Byte>>, i: nat, j: nat, q: nat, p: nat)
    requires i < |pieces| && q < |pieces| && i != q && j < |pieces[i]| && p < |pieces[q]|
    ensures Start(pieces, i) + j != Start(pieces, q) + p
  {
    FlattenPrefix(pieces, i);
    FlattenPrefix(pieces, q);
    if i < q { StartMonotone(pieces, i + 1, q); } else { StartMonotone(pieces, q + 1, i); }
  }

  /** One short write of piece i keeps everything written and adds its bytes. */
  lemma WriteKeeps(content: seq<Byte>, pieces: seq<seq<Byte>>, done: seq<nat>, i: nat, w: nat)
    requires Written(content, pieces, done) && i < |pieces| && done[i] + w <= |pieces[i]|
    ensures Written(Overlay(content, pieces[i][done[i]..][..w], Start(pieces, i) + done[i]), pieces, done[i := done[i] + w])
  {
    hide Flatten;
    var off, d := Start(pieces, i) + done[i], pieces[i][done[i]..][..w];
    var content', done' := Overlay(content, d, off), done[i := done[i] + w];
    forall q, j | 0 <= q < |pieces| && 0 <= j < done'[q] ensures At(content', Start(pieces, q) + j, pieces[q][j]) {
      if q == i && j >= done[i] {
        assert d[j - done[i]] == pieces[i][j];
      } else {
        assert At(content, Start(pieces, q) + j, pieces[q][j]);
        NotOverwritten(pieces, done, i, w, q, j);
      }
    }
  }

  lemma NotOverwritten(pieces: seq<seq<Byte>>, done: seq<nat>, i: nat, w: nat, q: nat, j: nat)
    requires |done| == |pieces| && i < |pieces| && q < |pieces| && done[i] + w <= |pieces[i]| && j < done[q] <= |pieces[q]|
    ensures !(Start(pieces, i) + done[i] <= Start(pieces, q) + j < Start(pieces, i) + done[i] + w)
  {
    hide Flatten;
    var k := Start(pieces, q) + j - Start(pieces, i);
    if q != i && done[i] <= k < done[i] + w { PlacesApart(pieces, i, k, q, j); }
  }

  /** When every piece is done, the file begins with the sequential serialisation. */
  lemma AllWritten(content: seq<Byte>, pieces: seq<seq<Byte>>, done: seq<nat>)
    requires Written(content, pieces, done) && forall i :: 0 <= i < |pieces| ==> done[i] == |pieces[i]|
    ensures Resize(content, |Flatten(pieces)|) == Flatten(pieces)
  {
    hide Flatten;
    var whole := Flatten(pieces);
    forall k | 0 <= k < |whole| ensures At(content, k, whole[k]) {
      var i, j := FlattenLocate(pieces, k);
      assert At(content, Start(pieces, i) + j, pieces[i][j]);
    }
    if whole != [] { assert At(content, |whole| - 1, whole[|whole| - 1]); }
  }

  lemma {:induction false} SumUpdate(s: seq<nat>, i: nat, v: nat)
    requires i < |s|
    ensures Sum(s[i := v]) == Sum(s) - s[i] + v
  {
    var n := |s| - 1;
    if i < n {
      SumUpdate(s[..n], i, v);
      assert s[i := v][..n] == s[..n][i := v];
    } else {
      assert s[i := v][..n] == s[..n];
    }
  }

  lemma DoneBounded(pieces: seq<seq<Byte>>, done: seq<nat>)
    requires |done| == |pieces| && forall i :: 0 <= i < |pieces| ==> done[i] <= |pieces[i]|
    ensures Sum(done) <= |Flatten(pieces)|
  {
    FlattenLength(pieces);
    SumLe(done, Lengths(pieces));
  }

  // ----- writing ---------------------------------------------------------------

  ghost predicate Sized(pieces: seq<seq<Byte>>, places: seq<nat>, failed: set<nat>) {
    && |pieces| > 1 && (forall r :: r in failed ==> r < |pieces| - 1)
    && |places| == |pieces| && forall i :: 0 <= i < |places| ==> places[i] == Start(pieces, i)
  }

  /** Each pwrite brings the end nearer: a rank fewer, more bytes, or one stall fewer. */
  ghost predicate Nearer(pieces: seq<seq<Byte>>, done: seq<nat>, failed: set<nat>, stalls: nat,
                         done': seq<nat>, failed': set<nat>, stalls': nat)
  {
    || |Range(|pieces|) - failed'| < |Range(|pieces|) - failed|
    || (failed' == failed && Sum(done') > Sum(done))
    || (failed' == failed && done' == done && stalls' < stalls)
  }

  /** How far piece i is after a pwrite that returned w. */
  function Done(done: seq<nat>, i: nat, w: int): (d: seq<nat>)
    requires i < |done|
    ensures |d| == |done|
  {
    if w > 0 then done[i := done[i] + w] else done
  }

  /** Who has stopped after a pwrite of piece i that returned w. */
  function Stopped(failed: set<nat>, i: nat, w: int): set<nat> {
    if w < 0 then failed + {Writer(i)} else failed
  }

  /** What one pwrite leaves, whether it failed, stalled or wrote w bytes. */
  lemma AfterWrite(content: seq<Byte>, pieces: seq<seq<Byte>>, places: seq<nat>, done: seq<nat>, failed: set<nat>, i: nat,
                   w: int, stalls: nat, content': seq<Byte>, stalls': nat)
    requires Sized(pieces, places, failed) && Written(content, pieces, done) && Ready(pieces, done, failed, i)
    requires i < |pieces| == |places| == |done| && places[i] == Start(pieces, i) && done[i] + w <= |pieces[i]|
    requires content' == if w <= 0 then content else Overlay(content, pieces[i][done[i]..][..w], Start(pieces, i) + done[i])
    requires if w == 0 then stalls' < stalls else stalls' == stalls
    ensures Sized(pieces, places, Stopped(failed, i, w)) && Written(content', pieces, Done(done, i, w))
    ensures Nearer(pieces, done, failed, stalls, Done(done, i, w), Stopped(failed, i, w), stalls')
  {
    WrittenSize(content, pieces, done);
    hide Overlay, Flatten, At, Sized, Nearer, Written, Ready, Start;
    if w < 0 {
      RankStops(pieces, places, done, failed, i, stalls);
    } else if w > 0 {
      WriteKeeps(content, pieces, done, i, w);
      MoreDone(pieces, done, failed, i, w, stalls);
    } else {
      OneStallFewer(pieces, done, failed, stalls, stalls');
    }
  }

  lemma ReadyRoom(pieces: seq<seq<Byte>>, places: seq<nat>, done: seq<nat>, failed: set<nat>, i: nat)
    requires Sized(pieces, places, failed) && |done| == |pieces| && Ready(pieces, done, failed, i)
    ensures i < |pieces| == |places| && done[i] < |pieces[i]| && places[i] == Start(pieces, i) && Writer(i) < |pieces| - 1
  {
  }

  lemma RankStops(pieces: seq<seq<Byte>>, places: seq<nat>, done: seq<nat>, failed: set<nat>, i: nat, stalls: nat)
    requires Sized(pieces, places, failed) && |done| == |pieces| && Ready(pieces, done, failed, i)
    ensures Sized(pieces, places, failed + {Writer(i)})
    ensures Nearer(pieces, done, failed, stalls, done, failed + {Writer(i)}, stalls)
  {
    FewerAlive(|pieces|, failed, Writer(i));
  }

  lemma MoreDone(pieces: seq<seq<Byte>>, done: seq<nat>, failed: set<nat>, i: nat, w: nat, stalls: nat)
    requires i < |done| && w > 0
    ensures Nearer(pieces, done, failed, stalls, done[i := done[i] + w], failed, stalls)
  {
    SumUpdate(done, i, done[i] + w);
  }

  lemma OneStallFewer(pieces: seq<seq<Byte>>, done: seq<nat>, failed: set<nat>, stalls: nat, stalls': nat)
    requires stalls' < stalls
    ensures Nearer(pieces, done, failed, stalls, done, failed, stalls')
  {
  }

  lemma WrittenSize(content: seq<Byte>, pieces: seq<seq<Byte>>, done: seq<nat>)
    requires Written(content, pieces, done)
    ensures |done| == |pieces| && forall i :: 0 <= i < |pieces| ==> done[i] <= |pieces[i]|
  {
  }

  /** Only writes of ranks that have a piece, and the failed ranks are those of before and those
      whose write failed. */
  ghost predicate WritesOnly(calls: seq<Call>, before: set<nat>, failed: set<nat>, size: nat) {
    && failed == before + Failed(calls)
    && forall c :: 0 <= c < |calls| ==> calls[c].kind == Write && calls[c].rank < size
  }

  lemma WritesSnoc(calls: seq<Call>, before: set<nat>, failed: set<nat>, size: nat, rank: nat, ok: bool, at: nat)
    requires WritesOnly(calls, before, failed, size) && rank < size
    ensures WritesOnly(calls + [Call(Write, rank, ok, at)], before, failed + if ok then {} else {rank}, size)
  {
    FailedSnoc(calls, Call(Write, rank, ok, at));
    hide Failed;
  }

  /** Where rank r goes on writing: in the head, which rank 0 writes first, or in its own piece. */
  ghost function Front(pieces: seq<seq<Byte>>, done: seq<nat>, r: nat): nat
    requires |done| == |pieces| && r + 1 < |pieces|
  {
    if r == 0 && done[0] < |pieces[0]| then done[0] else Start(pieces, r + 1) + done[r + 1]
  }

  /** The write starts inside the rank's own piece, or inside the head if the rank is 0. */
  ghost predicate InPlace(call: Call, pieces: seq<seq<Byte>>) {
    && call.rank + 1 < |pieces|
    && var start := Start(pieces, call.rank + 1);
       start <= call.at < start + |pieces[call.rank + 1]| || (call.rank == 0 && call.at < |pieces[0]|)
  }

  /** Every rank writes in place and front to back, none that has not opened the file, and none
      after a failure. */
  ghost predicate InOrder(calls: seq<Call>, pieces: seq<seq<Byte>>, unopened: set<nat>) {
    && (forall c :: 0 <= c < |calls| ==> InPlace(calls[c], pieces) && calls[c].rank !in unopened)
    && forall c, d :: 0 <= c < d < |calls| && calls[c].rank == calls[d].rank ==> calls[c].ok && calls[c].at <= calls[d].at
  }

  ghost predicate Behind(calls: seq<Call>, pieces: seq<seq<Byte>>, done: seq<nat>)
    requires |done| == |pieces|
  {
    forall c :: 0 <= c < |calls| ==> calls[c].rank + 1 < |pieces| && calls[c].at <= Front(pieces, done, calls[c].rank)
  }

  /** A write starts where its rank goes on, and the rank's next one no earlier. */
  lemma FrontMoves(pieces: seq<seq<Byte>>, places: seq<nat>, done: seq<nat>, failed: set<nat>, i: nat, v: nat, r: nat, ok: bool)
    requires Sized(pieces, places, failed) && |done| == |pieces| && Ready(pieces, done, failed, i)
    requires done[i] <= v <= |pieces[i]| && r + 1 < |pieces|
    ensures Writer(i) + 1 < |pieces| && places[i] + done[i] == Front(pieces, done, Writer(i))
    ensures InPlace(Call(Write, Writer(i), ok, places[i] + done[i]), pieces)
    ensures Front(pieces, done, r) <= Front(pieces, done[i := v], r)
  {
    hide Flatten, Start;
    HeadFirst(pieces);
  }

  lemma HeadFirst(pieces: seq<seq<Byte>>)
    requires |pieces| > 1
    ensures Start(pieces, 0) == 0 && Start(pieces, 1) == |pieces[0]|
  {
    FlattenPrefix(pieces, 0);
    assert pieces[..0] == [];
  }

  lemma OrderSnoc(calls: seq<Call>, pieces: seq<seq<Byte>>, places: seq<nat>, done: seq<nat>, failed: set<nat>,
                  unopened: set<nat>, i: nat, v: nat, ok: bool)
    requires Sized(pieces, places, failed) && |done| == |pieces| && Ready(pieces, done, failed, i)
    requires done[i] <= v <= |pieces[i]| && failed == unopened + Failed(calls)
    requires InOrder(calls, pieces, unopened) && Behind(calls, pieces, done)
    ensures InOrder(calls + [Call(Write, Writer(i), ok, places[i] + done[i])], pieces, unopened)
    ensures Behind(calls + [Call(Write, Writer(i), ok, places[i] + done[i])], pieces, done[i := v])
  {
    var call := Call(Write, Writer(i), ok, places[i] + done[i]);
    FrontMoves(pieces, places, done, failed, i, v, Writer(i), ok);
    assert Writer(i) !in failed;
    hide Sized, Ready, Front, Writer, Failed, InPlace;
    forall c | 0 <= c < |calls| ensures calls[c].at <= Front(pieces, done[i := v], calls[c].rank) {
      FrontMoves(pieces, places, done, failed, i, v, calls[c].rank, ok);
    }
    forall c | 0 <= c < |calls| && calls[c].rank == call.rank ensures calls[c].ok && calls[c].at <= call.at {
      FailedExactly(calls, call.rank);
    }
    InOrderSnoc(calls, call, pieces, unopened);
  }

  lemma InOrderSnoc(calls: seq<Call>, call: Call, pieces: seq<seq<Byte>>, unopened: set<nat>)
    requires InOrder(calls, pieces, unopened) && InPlace(call, pieces) && call.rank !in unopened
    requires forall c :: 0 <= c < |calls| && calls[c].rank == call.rank ==> calls[c].ok && calls[c].at <= call.at
    ensures InOrder(calls + [call], pieces, unopened)
  {
    hide InPlace;
  }

  /** Between two writes: what has been written is in the file, and the calls made so far are
      writes, of which exactly those of the stopped ranks failed. */
  ghost predicate Going(content: seq<Byte>, pieces: seq<seq<Byte>>, places: seq<nat>, done: seq<nat>,
                        failed: set<nat>, unopened: set<nat>, made: seq<Call>)
  {
    && |done| == |pieces| && Written(content, pieces, done) && Sized(pieces, places, failed)
    && CallsGo(pieces, done, failed, unopened, made)
  }

  ghost predicate CallsGo(pieces: seq<seq<Byte>>, done: seq<nat>, failed: set<nat>, unopened: set<nat>, made: seq<Call>)
    requires |done| == |pieces| > 1
  {
    WritesOnly(made, unopened, failed, |pieces| - 1) && InOrder(made, pieces, unopened) && Behind(made, pieces, done)
  }

  /** One more write of piece i keeps the calls in order. */
  lemma CallsSnoc(pieces: seq<seq<Byte>>, places: seq<nat>, done: seq<nat>, failed: set<nat>, unopened: set<nat>,
                  made: seq<Call>, i: nat, w: int)
    requires |done| == |pieces| > 1 && Sized(pieces, places, failed) && CallsGo(pieces, done, failed, unopened, made)
    requires Ready(pieces, done, failed, i) && done[i] + w <= |pieces[i]| && i < |places|
    ensures CallsGo(pieces, Done(done, i, w), Stopped(failed, i, w), unopened,
                    made + [Call(Write, Writer(i), w >= 0, places[i] + done[i])])
  {
    assert failed == unopened + Failed(made) && Writer(i) < |pieces| - 1;
    var v := if w > 0 then done[i] + w else done[i];
    DoneIs(done, i, w);
    StoppedIs(failed, i, w);
    hide Ready, Sized, WritesOnly, Writer, InOrder, Behind, Failed, Done, Stopped;
    WritesSnoc(made, unopened, failed, |pieces| - 1, Writer(i), w >= 0, places[i] + done[i]);
    OrderSnoc(made, pieces, places, done, failed, unopened, i, v, w >= 0);
  }

  lemma DoneIs(done: seq<nat>, i: nat, w: int)
    requires i < |done|
    ensures Done(done, i, w) == done[i := if w > 0 then done[i] + w else done[i]]
  {
  }

  lemma StoppedIs(failed: set<nat>, i: nat, w: int)
    ensures Stopped(failed, i, w) == failed + if w >= 0 then {} else {Writer(i)}
  {
  }

  lemma GoingRoom(content: seq<Byte>, pieces: seq<seq<Byte>>, places: seq<nat>, done: seq<nat>,
                  failed: set<nat>, unopened: set<nat>, made: seq<Call>, i: nat)
    requires Going(content, pieces, places, done, failed, unopened, made) && |done| == |pieces| && Ready(pieces, done, failed, i)
    ensures i < |pieces| == |places| && done[i] < |pieces[i]| && places[i] == Start(pieces, i)
  {
    hide Written, CallsGo;
    ReadyRoom(pieces, places, done, failed, i);
  }

  /** One pwrite that returned w keeps everything going and brings the end nearer. */
  lemma GoingStep(content: seq<Byte>, content': seq<Byte>, stalls: nat, stalls': nat, pieces: seq<seq<Byte>>, places: seq<nat>,
                  done: seq<nat>, failed: set<nat>, unopened: set<nat>, made: seq<Call>, i: nat, w: int)
    requires Going(content, pieces, places, done, failed, unopened, made) && |done| == |pieces| && Ready(pieces, done, failed, i)
    requires i < |pieces| == |places| && places[i] == Start(pieces, i) && done[i] + w <= |pieces[i]|
    requires content' == if w <= 0 then content else Overlay(content, pieces[i][done[i]..][..w], places[i] + done[i])
    requires if w == 0 then stalls' < stalls else stalls' == stalls
    ensures Going(content', pieces, places, Done(done, i, w), Stopped(failed, i, w), unopened,
                  made + [Call(Write, Writer(i), w >= 0, places[i] + done[i])])
    ensures Nearer(pieces, done, failed, stalls, Done(done, i, w), Stopped(failed, i, w), stalls')
  {
    GoingParts(content, pieces, places, done, failed, unopened, made);
    WrittenSize(content, pieces, done);
    hide Overlay, Written, Ready, Sized, Nearer, Writer, CallsGo, Start, Flatten, Failed, Done, Stopped;
    AfterWrite(content, pieces, places, done, failed, i, w, stalls, content', stalls');
    CallsSnoc(pieces, places, done, failed, unopened, made, i, w);
  }

  /** One pwrite of one rank: it fails and the rank stops, or it goes on from where it is. */
  method WriteOnce(file: SharedFile, pieces: seq<seq<Byte>>, places: seq<nat>, done: seq<nat>, failed: set<nat>, i: nat,
                   ghost unopened: set<nat>, ghost made: seq<Call>, ghost earlier: seq<Call>)
    returns (done': seq<nat>, failed': set<nat>, ghost made': seq<Call>)
    requires Going(file.content, pieces, places, done, failed, unopened, made) && |done| == |pieces|
    requires Ready(pieces, done, failed, i) && file.calls == earlier + made
    modifies file
    ensures Going(file.content, pieces, places, done', failed', unopened, made') && |done'| == |pieces|
    ensures file.calls == earlier + made'
    ensures Nearer(pieces, done, failed, old(file.stalls), done', failed', file.stalls)
  {
    GoingRoom(file.content, pieces, places, done, failed, unopened, made, i);
    hide Going, Ready, Writer, Nearer, Overlay, Start, Stopped;
    ghost var content, stalls := file.content, file.stalls;
    var w := file.Pwrite(Writer(i), pieces[i][done[i]..], places[i] + done[i]);
    done', failed' := Done(done, i, w), Stopped(failed, i, w);
    made' := made + [Call(Write, Writer(i), w >= 0, places[i] + done[i])];
    Associate(earlier, made, [Call(Write, Writer(i), w >= 0, places[i] + done[i])]);
    GoingStep(content, file.content, stalls, file.stalls, pieces, places, done, failed, unopened, made, i, w);
  }

  lemma GoingBounded(content: seq<Byte>, pieces: seq<seq<Byte>>, places: seq<nat>, done: seq<nat>,
                     failed: set<nat>, unopened: set<nat>, made: seq<Call>)
    requires Going(content, pieces, places, done, failed, unopened, made)
    ensures Sum(done) <= |Flatten(pieces)|
  {
    WrittenSize(content, pieces, done);
    DoneBounded(pieces, done);
  }

  lemma NothingDone(content: seq<Byte>, pieces: seq<seq<Byte>>, places: seq<nat>, unopened: set<nat>)
    requires Sized(pieces, places, unopened)
    ensures Going(content, pieces, places, seq(|pieces|, _ => 0), unopened, unopened, [])
  {
  }

  /** Nobody failed and nobody can go on: the file begins with the serialisation. */
  lemma WritingOver(content: seq<Byte>, pieces: seq<seq<Byte>>, places: seq<nat>, done: seq<nat>, unopened: set<nat>, made: seq<Call>)
    requires Going(content, pieces, places, done, {}, unopened, made) && |done| == |pieces|
    requires forall i: nat :: i < |pieces| ==> !Ready(pieces, done, {}, i)
    ensures Resize(content, |Flatten(pieces)|) == Flatten(pieces)
  {
    hide Flatten, Resize, Ready, Sized, WritesOnly;
    WrittenSize(content, pieces, done);
    NothingReady(pieces, done, places);
    AllWritten(content, pieces, done);
  }

  /** Ranks that opened the file write their pieces, one short write at a time, in an order
      nobody controls; a rank whose write fails stops, and no other rank does. */
  method WritePieces(file: SharedFile, pieces: seq<seq<Byte>>, places: seq<nat>, unopened: set<nat>)
    returns (failed: set<nat>, ghost made: seq<Call>)
    requires Sized(pieces, places, unopened)
    modifies file
    ensures Sized(pieces, places, failed)
    ensures file.calls == old(file.calls) + made && WritesOnly(made, unopened, failed, |pieces| - 1)
    ensures failed == unopened + Failed(made) && InOrder(made, pieces, unopened)
    ensures failed == {} ==> Resize(file.content, |Flatten(pieces)|) == Flatten(pieces)
  {
    NothingDone(file.content, pieces, places, unopened);
    hide Flatten, Resize, Ready, Going, Sum;
    failed, made := unopened, [];
    var done: seq<nat> := seq(|pieces|, _ => 0);
    while exists i: nat :: i < |pieces| && Ready(pieces, done, failed, i)
      invariant |done| == |pieces| && Going(file.content, pieces, places, done, failed, unopened, made)
      invariant file.calls == old(file.calls) + made
      decreases |Range(|pieces|) - failed|, |Flatten(pieces)| - Sum(done), file.stalls
    {
      var i: nat :| i < |pieces| && Ready(pieces, done, failed, i);
      GoingBounded(file.content, pieces, places, done, failed, unopened, made);
      done, failed, made := WriteOnce(file, pieces, places, done, failed, i, unopened, made, old(file.calls));
    }
    GoingParts(file.content, pieces, places, done, failed, unopened, made);
    if failed == {} { WritingOver(file.content, pieces, places, done, unopened, made); }
  }

  lemma GoingParts(content: seq<Byte>, pieces: seq<seq<Byte>>, places: seq<nat>, done: seq<nat>,
                   failed: set<nat>, unopened: set<nat>, made: seq<Call>)
    requires Going(content, pieces, places, done, failed, unopened, made)
    ensures Sized(pieces, places, failed) && WritesOnly(made, unopened, failed, |pieces| - 1)
    ensures failed == unopened + Failed(made) && InOrder(made, pieces, unopened) && |pieces| > 1
  {
  }

  lemma FewerAlive(n: nat, failed: set<nat>, r: nat)
    requires r < n && r !in failed
    ensures |Range(n) - (failed + {r})| < |Range(n) - failed|
  {
    assert Range(n) - failed == (Range(n) - (failed + {r})) + {r};
  }

  /** Nobody failed and nobody can go on: everything is written. */
  lemma NothingReady(pieces: seq<seq<Byte>>, done: seq<nat>, places: seq<nat>)
    requires Sized(pieces, places, {}) && |done| == |pieces| && forall i :: 0 <= i < |pieces| ==> done[i] <= |pieces[i]|
    requires forall i: nat :: i < |pieces| ==> !Ready(pieces, done, {}, i)
    ensures forall i :: 0 <= i < |pieces| ==> done[i] == |pieces[i]|
  {
    assert !Ready(pieces, done, {}, 0);
    forall i | 0 <= i < |pieces| ensures done[i] == |pieces[i]| { assert !Ready(pieces, done, {}, i); }
  }

  datatype Outcome = Returned | Threw(ownError: bool)

  /** The allreduce of everyone's success: all go on together or all throw together. */
  method AgreeOrThrow(errors: set<nat>, size: nat) returns (outcomes: seq<Outcome>)
    requires forall r :: r in errors ==> r < size
    ensures |outcomes| == size
    ensures forall r :: 0 <= r < size ==> outcomes[r] == if errors == {} then Returned else Threw(r in errors)
  {
    outcomes := [];
    for r := 0 to size
      invariant |outcomes| == r
      invariant forall q :: 0 <= q < r ==> outcomes[q] == if errors == {} then Returned else Threw(q in errors)
    {
      outcomes := outcomes + [if errors == {} then Returned else Threw(r in errors)];
    }
  }

  /** Every rank makes the call once, in rank order. */
  ghost predicate EachOnce(calls: seq<Call>, kind: Kind, size: nat) {
    |calls| == size && forall r :: 0 <= r < size ==> calls[r].kind == kind && calls[r].rank == r && calls[r].at == 0
  }

  /** Every rank opens the file. */
  method OpenAll(file: SharedFile, size: nat) returns (unopened: set<nat>, ghost made: seq<Call>)
    modifies file`calls
    ensures file.calls == old(file.calls) + made && EachOnce(made, Kind.Open, size) && unopened == Failed(made)
  {
    unopened, made := {}, [];
    for r := 0 to size
      invariant file.calls == old(file.calls) + made && EachOnce(made, Kind.Open, r) && unopened == Failed(made)
    {
      var ok := file.Open(r);
      FailedSnoc(made, Call(Kind.Open, r, ok, 0));
      made := made + [Call(Kind.Open, r, ok, 0)];
      if !ok { unopened := unopened + {r}; }
    }
  }

  /** Every rank closes the file. */
  method CloseAll(file: SharedFile, size: nat) returns (unclosed: set<nat>, ghost made: seq<Call>)
    modifies file`calls
    ensures file.calls == old(file.calls) + made && EachOnce(made, Kind.Close, size) && unclosed == Failed(made)
  {
    unclosed, made := {}, [];
    for r := 0 to size
      invariant file.calls == old(file.calls) + made && EachOnce(made, Kind.Close, r) && unclosed == Failed(made)
    {
      var ok := file.Close(r);
      FailedSnoc(made, Call(Kind.Close, r, ok, 0));
      made := made + [Call(Kind.Close, r, ok, 0)];
      if !ok { unclosed := unclosed + {r}; }
    }
  }

  lemma PiecesTile(head: seq<Byte>, datas: seq<seq<Byte>>)
    ensures Flatten([head] + datas) == head + Flatten(datas)
    ensures Start([head] + datas, 0) == 0
    ensures forall r :: 0 <= r < |datas| ==> Start([head] + datas, r + 1) == |head| + Start(datas, r)
  {
    hide Flatten;
    JustHead(head);
    FlattenConcat([head], datas);
    forall r | 0 <= r < |datas| ensures Start([head] + datas, r + 1) == |head| + Start(datas, r) {
      FlattenConcat([head], datas[..r]);
      assert ([head] + datas)[..r + 1] == [head] + datas[..r];
    }
    assert ([head] + datas)[..0] == [];
  }

  lemma JustHead(head: seq<Byte>)
    ensures Flatten([head]) == head && Flatten<Byte>([]) == []
  {
    assert [head][..0] == [];
  }

  ghost predicate AllReturned(outcomes: seq<Outcome>) {
    forall r :: 0 <= r < |outcomes| ==> outcomes[r].Returned?
  }

  ghost predicate AllThrew(outcomes: seq<Outcome>) {
    forall r :: 0 <= r < |outcomes| ==> outcomes[r].Threw?
  }

  ghost predicate OnlyKinds(calls: seq<Call>, a: Kind, b: Kind) {
    forall c :: 0 <= c < |calls| ==> calls[c].kind == a || calls[c].kind == b
  }

  /** Nobody failed, so every rank's one call of this kind is among the calls and succeeded. */
  lemma AllOk(calls: seq<Call>, kind: Kind, size: nat)
    requires EachOnce(calls, kind, size) && Failed(calls) == {}
    ensures forall r :: 0 <= r < size ==> Call(kind, r, true, 0) in calls
  {
    NoneFailed(calls);
    forall r | 0 <= r < size ensures Call(kind, r, true, 0) in calls { assert calls[r] == Call(kind, r, true, 0); }
  }

  /** What every rank does and does not do, over all calls since entry: writes start in its own
      range, or in the head on rank 0; its writes go front to back; and after a failed open or
      write it makes no call any more whose result counts. */
  ghost predicate Disciplined(calls: seq<Call>, head: seq<Byte>, datas: seq<seq<Byte>>, offsets: seq<nat>)
    requires |offsets| == |datas|
  {
    && (forall c :: 0 <= c < |calls| ==> calls[c].rank < |datas|)
    && (forall c :: 0 <= c < |calls| && calls[c].kind == Write ==>
          var r, at := calls[c].rank, calls[c].at;
          offsets[r] <= at < offsets[r] + |datas[r]| || (r == 0 && at < |head|))
    && (forall c, d :: 0 <= c < d < |calls| && calls[c].kind == Write && calls[d].kind == Write && calls[c].rank == calls[d].rank ==>
          calls[c].at <= calls[d].at)
    && forall c, d :: 0 <= c < d < |calls| && calls[c].rank == calls[d].rank && !calls[c].ok ==>
         calls[c].kind != Kind.Open && calls[c].kind != Write
  }

  lemma WritesDisciplined(opens: seq<Call>, writes: seq<Call>, head: seq<Byte>, datas: seq<seq<Byte>>, offsets: seq<nat>)
    requires |datas| > 0 && |offsets| == |datas|
    requires forall r :: 0 <= r < |datas| ==> offsets[r] == Start([head] + datas, r + 1)
    requires EachOnce(opens, Kind.Open, |datas|) && InOrder(writes, [head] + datas, Failed(opens))
    requires forall c :: 0 <= c < |writes| ==> writes[c].kind == Write
    ensures Disciplined(opens + writes, head, datas, offsets)
  {
    hide Flatten, Start;
    var calls := opens + writes;
    forall c | 0 <= c < |writes| ensures InPlace(writes[c], [head] + datas) && writes[c].rank !in Failed(opens) {}
    hide Failed;
    forall c, d | 0 <= c < d < |calls| && calls[c].rank == calls[d].rank ensures calls[c].ok {
      if c < |opens| <= d { FailedExactly(opens, calls[c].rank); }
    }
  }

  lemma FinishDisciplined(early: seq<Call>, late: seq<Call>, head: seq<Byte>, datas: seq<seq<Byte>>, offsets: seq<nat>)
    requires |offsets| == |datas| && Disciplined(early, head, datas, offsets) && Failed(early) == {}
    requires OnlyKinds(late, Kind.Truncate, Kind.Close) && forall c :: 0 <= c < |late| ==> late[c].rank < |datas|
    ensures Disciplined(early + late, head, datas, offsets)
  {
    NoneFailed(early);
    hide Failed;
    var calls := early + late;
    forall c | |early| <= c < |calls| ensures calls[c] == late[c - |early|] {}
  }

  ghost predicate Begun(calls: seq<Call>, size: nat) {
    forall r :: 0 <= r < size ==> Call(Kind.Open, r, true, 0) in calls
  }

  ghost predicate Ended(calls: seq<Call>, size: nat, total: nat) {
    Call(Kind.Truncate, 0, true, total) in calls && forall r :: 0 <= r < size ==> Call(Kind.Close, r, true, 0) in calls
  }

  /** Every rank opened and closed the file, and rank 0 cut it to its size. */
  ghost predicate Finished(calls: seq<Call>, size: nat, total: nat) {
    && (forall r :: 0 <= r < size ==> Call(Kind.Open, r, true, 0) in calls && Call(Kind.Close, r, true, 0) in calls)
    && Call(Kind.Truncate, 0, true, total) in calls
  }

  /** After a failed open or write nobody cuts the file or makes a close whose result counts. */
  ghost predicate OnePhase(calls: seq<Call>) {
    forall c, d :: 0 <= c < |calls| && 0 <= d < |calls| && !calls[c].ok && (calls[c].kind == Kind.Open || calls[c].kind == Write) ==>
      calls[d].kind == Kind.Open || calls[d].kind == Write
  }

  /** The calls of a first phase that leaves the given ranks with an error. */
  ghost predicate EarlyPhase(made: seq<Call>, failed: set<nat>, head: seq<Byte>, datas: seq<seq<Byte>>, offsets: seq<nat>)
    requires |offsets| == |datas|
  {
    && failed == Failed(made) && OnlyKinds(made, Kind.Open, Write) && Disciplined(made, head, datas, offsets)
    && (failed == {} ==> Begun(made, |datas|))
  }

  lemma EarlyCalls(opens: seq<Call>, writes: seq<Call>, failed: set<nat>, head: seq<Byte>, datas: seq<seq<Byte>>, offsets: seq<nat>)
    requires |datas| > 0 && |offsets| == |datas|
    requires forall r :: 0 <= r < |datas| ==> offsets[r] == Start([head] + datas, r + 1)
    requires EachOnce(opens, Kind.Open, |datas|) && WritesOnly(writes, Failed(opens), failed, |datas|)
    requires InOrder(writes, [head] + datas, Failed(opens))
    ensures EarlyPhase(opens + writes, failed, head, datas, offsets)
  {
    WritesDisciplined(opens, writes, head, datas, offsets);
    hide InOrder, Disciplined, Failed;
    FailedConcat(opens, writes);
    if failed == {} { AllOk(opens, Kind.Open, |datas|); }
  }

  /** First phase: every rank opens the file and writes what it has. */
  method WritePhase(file: SharedFile, head: seq<Byte>, datas: seq<seq<Byte>>, offsets: seq<nat>)
    returns (failed: set<nat>, ghost made: seq<Call>)
    requires |datas| > 0 && |offsets| == |datas|
    requires forall r :: 0 <= r < |datas| ==> offsets[r] == |head| + Start(datas, r)
    modifies file
    ensures file.calls == old(file.calls) + made && EarlyPhase(made, failed, head, datas, offsets)
    ensures forall r :: r in failed ==> r < |datas|
    ensures failed == {} ==> Resize(file.content, |head| + |Flatten(datas)|) == head + Flatten(datas)
  {
    PiecesTile(head, datas);
    hide Flatten, Resize, Start, Failed, EachOnce, WritesOnly, InOrder, EarlyPhase;
    var size := |datas|;
    ghost var opens, writes;
    var unopened;
    unopened, opens := OpenAll(file, size);
    FailedInRange(opens, Kind.Open, size);
    failed, writes := WritePieces(file, [head] + datas, [0] + offsets, unopened);
    made := opens + writes;
    EarlyCalls(opens, writes, failed, head, datas, offsets);
  }

  lemma FailedInRange(calls: seq<Call>, kind: Kind, size: nat)
    requires EachOnce(calls, kind, size)
    ensures forall r :: r in Failed(calls) ==> r < size
  {
    hide Failed;
    forall r | r in Failed(calls) ensures r < size { FailedExactly(calls, r); }
  }

  ghost predicate LatePhase(made: seq<Call>, failed: set<nat>, size: nat, total: nat) {
    && failed == Failed(made) && OnlyKinds(made, Kind.Truncate, Kind.Close)
    && (forall c :: 0 <= c < |made| ==> made[c].rank < size)
    && (failed == {} ==> Ended(made, size, total))
  }

  lemma LateCalls(closes: seq<Call>, unclosed: set<nat>, truncated: bool, size: nat, total: nat)
    requires size > 0 && EachOnce(closes, Kind.Close, size) && unclosed == Failed(closes)
    ensures LatePhase([Call(Kind.Truncate, 0, truncated, total)] + closes, if truncated then unclosed else unclosed + {0}, size, total)
  {
    var first := Call(Kind.Truncate, 0, truncated, total);
    FailedCons(first, closes);
    hide Failed;
    var made := [first] + closes;
    forall c | 0 <= c < |made| ensures made[c] == if c == 0 then first else closes[c - 1] {}
    if unclosed == {} && truncated {
      AllOk(closes, Kind.Close, size);
      forall r | 0 <= r < size ensures Call(Kind.Close, r, true, 0) in made { assert Call(Kind.Close, r, true, 0) in closes; }
    }
  }

  lemma FailedCons(c: Call, calls: seq<Call>)
    ensures Failed([c] + calls) == Failed(calls) + if c.ok then {} else {c.rank}
  {
    FailedSnoc([], c);
    assert [] + [c] == [c] && Failed([]) == {};
    FailedConcat([c], calls);
  }

  /** Second phase: rank 0 cuts the file to its size, then every rank closes it. */
  method FinishPhase(file: SharedFile, total: nat, size: nat) returns (failed: set<nat>, ghost made: seq<Call>)
    requires size > 0
    modifies file
    ensures file.calls == old(file.calls) + made && LatePhase(made, failed, size, total)
    ensures forall r :: r in failed ==> r < size
    ensures failed == {} ==> file.content == Resize(old(file.content), total)
  {
    hide Resize, LatePhase, Failed;
    var truncated := file.Truncate(0, total);
    ghost var closes;
    var unclosed;
    unclosed, closes := CloseAll(file, size);
    FailedInRange(closes, Kind.Close, size);
    failed := if truncated then unclosed else unclosed + {0};
    made := [Call(Kind.Truncate, 0, truncated, total)] + closes;
    LateCalls(closes, unclosed, truncated, size, total);
  }

  lemma PhasesJoin(early: seq<Call>, late: seq<Call>, size: nat, total: nat)
    requires OnlyKinds(early, Kind.Open, Write) && OnlyKinds(late, Kind.Truncate, Kind.Close) && Failed(early) == {}
    ensures Failed(early + late) == Failed(late) && OnePhase(early + late)
    ensures Begun(early, size) && Ended(late, size, total) ==> Finished(early + late, size, total)
  {
    FailedConcat(early, late);
    NoneFailed(early);
    hide Failed;
  }

  lemma EarlyThrow(made: seq<Call>, failed: set<nat>, head: seq<Byte>, datas: seq<seq<Byte>>, offsets: seq<nat>)
    requires |offsets| == |datas| && EarlyPhase(made, failed, head, datas, offsets)
    ensures Failed(made) == failed && OnePhase(made) && Disciplined(made, head, datas, offsets)
  {
    hide Failed, Disciplined;
  }

  lemma BothPhases(early: seq<Call>, late: seq<Call>, failed: set<nat>, head: seq<Byte>, datas: seq<seq<Byte>>, offsets: seq<nat>, total: nat)
    requires |offsets| == |datas| && EarlyPhase(early, {}, head, datas, offsets) && LatePhase(late, failed, |datas|, total)
    ensures Failed(early + late) == failed && OnePhase(early + late) && Disciplined(early + late, head, datas, offsets)
    ensures failed == {} ==> Finished(early + late, |datas|, total)
  {
    hide Failed, Disciplined, OnePhase, Finished, OnlyKinds;
    PhasesJoin(early, late, |datas|, total);
    FinishDisciplined(early, late, head, datas, offsets);
  }

  /** Whatever was in the file and however the writes interleave: every rank returns, with the
      file being the head followed by the ranks' data in rank order, exactly when no call of any
      rank failed; otherwise every rank throws and knows whether a call of its own failed. */
  method WriteSharedFile(file: SharedFile, head: seq<Byte>, datas: seq<seq<Byte>>, offsets: seq<nat>, total: nat)
    returns (outcomes: seq<Outcome>, ghost errors: set<nat>)
    requires |datas| > 0 && |offsets| == |datas|
    requires forall r :: 0 <= r < |datas| ==> offsets[r] == |head| + Start(datas, r)
    requires total == |head| + |Flatten(datas)|
    modifies file
    ensures |outcomes| == |datas| && old(file.calls) <= file.calls
    ensures forall r :: 0 <= r < |datas| ==> outcomes[r] == if errors == {} then Returned else Threw(r in errors)
    ensures forall r :: r in errors <==>
      exists c :: |old(file.calls)| <= c < |file.calls| && file.calls[c].rank == r && !file.calls[c].ok
    ensures AllReturned(outcomes) || AllThrew(outcomes)
    ensures AllReturned(outcomes) <==> forall c :: |old(file.calls)| <= c < |file.calls| ==> file.calls[c].ok
    ensures AllReturned(outcomes) ==> file.content == head + Flatten(datas)
    ensures AllReturned(outcomes) ==> Finished(file.calls[|old(file.calls)|..], |datas|, total)
    ensures OnePhase(file.calls[|old(file.calls)|..])
    ensures Disciplined(file.calls[|old(file.calls)|..], head, datas, offsets)
  {
    hide Flatten, Resize, Failed, Start, EarlyPhase, LatePhase, Disciplined, OnePhase, Finished;
    var size := |datas|;
    ghost var made;
    var failed;
    failed, made := WritePhase(file, head, datas, offsets);
    outcomes := AgreeOrThrow(failed, size);
    EarlyThrow(made, failed, head, datas, offsets);
    errors := failed;
    if failed == {} {
      ghost var more;
      var late;
      late, more := FinishPhase(file, total, size);
      BothPhases(made, more, late, head, datas, offsets, total);
      outcomes := AgreeOrThrow(late, size);
      errors, made := late, made + more;
    }
    assert file.calls[|old(file.calls)|..] == made;
    FailedSince(file.calls, |old(file.calls)|);
  }

  lemma FailedSince(calls: seq<Call>, from: nat)
    requires from <= |calls|
    ensures forall r :: r in Failed(calls[from..]) <==> exists c :: from <= c < |calls| && calls[c].rank == r && !calls[c].ok
    ensures Failed(calls[from..]) == {} <==> forall c :: from <= c < |calls| ==> calls[c].ok
  {
    var since := calls[from..];
    NoneFailed(since);
    forall c | from <= c < |calls| ensures calls[c] == since[c - from] {}
    forall r ensures r in Failed(since) <==> exists c :: from <= c < |calls| && calls[c].rank == r && !calls[c].ok {
      FailedExactly(since, r);
      if i :| 0 <= i < |since| && since[i].rank == r && !since[i].ok { assert calls[from + i] == since[i]; }
    }
  }
}
