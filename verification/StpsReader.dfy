/** The .stps reader as it runs: one open file, a position, and the remembered header. */
module StpsReader {
  import opened Bytes
  import opened Partition
  import opened Sequences
  import opened Stps

  class FileHandle {
    const bytes: seq<Byte>
    var pos: nat

    constructor (bytes: seq<Byte>)
      ensures this.bytes == bytes && pos == 0
    {
      this.bytes := bytes;
      pos := 0;
    }

    /** The position is cast to a signed 64-bit offset; a negative one is refused. */
    method SeekTo(target: nat) returns (ok: bool)
      modifies this
      ensures ok <==> target % 0x1_0000_0000_0000_0000 < 0x8000_0000_0000_0000
      ensures pos == if ok then target % 0x1_0000_0000_0000_0000 else old(pos)
    {
      ok := target % TWO64 < TWO63;
      if ok { pos := target % TWO64; }
    }

    /** All n bytes or an error; the position moves past whatever was there. */
    method ReadExact(n: nat) returns (r: Result<seq<Byte>>)
      modifies this
      ensures r == if n == 0 then Ok([]) else if old(pos) + n > |bytes| then Err(Truncated) else Ok(bytes[old(pos)..old(pos) + n])
      ensures r.Ok? ==> pos == old(pos) + n
    {
      if n == 0 { return Ok([]); }
      if pos + n > |bytes| {
        if pos < |bytes| { pos := |bytes|; }
        return Err(Truncated);
      }
      r := Ok(bytes[pos..pos + n]);
      pos := pos + n;
    }

    method WordsAt(target: nat, n: nat) returns (r: Result<seq<nat>>)
      modifies this
      ensures r == ReadWords(bytes, target, n)
      ensures r.Ok? ==> pos == target % TWO64 + 8 * n
    {
      var ok := SeekTo(target);
      if !ok { return Err(SeekFailed); }
      var b := ReadExact(8 * n);
      if b.Err? { return Err(b.error); }
      r := Ok(DecodeWords(b.value));
    }
  }

  class Reader {
    const file: FileHandle
    var m: nat
    var totalK: nat
    var hasCoords: bool

    ghost function Fields(): Header
      reads this
    {
      Header(m, totalK, hasCoords)
    }

    constructor (file: FileHandle, h: Header)
      ensures this.file == file && Fields() == h
    {
      this.file := file;
      m, totalK, hasCoords := h.m, h.totalK, h.hasCoords;
    }

    method Window(offs: seq<nat>, begin: nat) returns (r: Result<PatchSlice<RawPoint>>)
      requires |offs| > 0 && Monotone(offs)
      modifies file
      ensures r == ReadWindow(file.bytes, Fields(), offs, begin)
    {
      hide Monotone, Covers, CutAt, Counting, PairUp, ReadWords, HashBase, CoordBase;
      var n, h := |offs| - 1, Header(m, totalK, hasCoords);
      MonotoneAscends(offs, 0, n);
      var hashes := file.WordsAt(HashBase(h) + offs[0] * 8, offs[n] - offs[0]);
      if hashes.Err? { return Err(hashes.error); }
      CoversWindow(offs, hashes.value);
      var pts := [];
      if hasCoords {
        var words := file.WordsAt(CoordBase(h) + offs[0] * 16, 2 * (offs[n] - offs[0]));
        if words.Err? { return Err(words.error); }
        pts := PairUp(words.value);
        CoversWindow(offs, pts);
      }
      var slice := SplitSlice(hashes.value, pts, offs, begin, hasCoords);
      r := Ok(slice);
    }

    /** Patches begin..end, or the first error the checks meet. */
    method Slice(begin: nat, end: nat) returns (r: Result<PatchSlice<RawPoint>>)
      modifies file
      ensures r == ReadSlice(file.bytes, Fields(), begin, end)
    {
      hide Monotone, ReadWords, ReadWindow;
      if begin > end || end > m { return Err(OutOfRange); }
      var offsets := file.WordsAt(HEADER_BYTES + begin * 8, end - begin + 1);
      if offsets.Err? { return Err(offsets.error); }
      var rising := CheckMonotone(offsets.value);
      if !rising { return Err(NotMonotone); }
      if offsets.value[end - begin] > totalK { return Err(PastSection); }
      r := Window(offsets.value, begin);
    }
  }

  lemma CoversWindow<T>(offs: seq<nat>, flat: seq<T>)
    requires |offs| > 0 && Monotone(offs) && offs[|offs| - 1] == offs[0] + |flat|
    ensures Covers(offs, flat)
  {
  }

  method CheckMonotone(offs: seq<nat>) returns (ok: bool)
    requires |offs| > 0
    ensures ok <==> Monotone(offs)
  {
    for i := 0 to |offs| - 1
      invariant forall j :: 0 <= j < i ==> offs[j] <= offs[j + 1]
    {
      if offs[i] > offs[i + 1] { return false; }
    }
    ok := true;
  }

  /** One pass over the slice's patches, cutting hashes and locations at the same offsets. */
  method SplitSlice(flat: seq<nat>, pts: seq<RawPoint>, offs: seq<nat>, begin: nat, hasCoords: bool)
    returns (slice: PatchSlice<RawPoint>)
    requires Covers(offs, flat) && (hasCoords ==> Covers(offs, pts))
    ensures slice == PatchSlice(CutAt(flat, offs), Counting(begin, |offs| - 1), if hasCoords then CutAt(pts, offs) else [])
  {
    assert |offs| > 0;
    var n := |offs| - 1;
    hide Covers;
    hide Piece, CutAt, Counting;
    var patches, ids, coords := [], [], [];
    ghost var parts, numbers, places := CutAt(flat, offs), Counting(begin, n), if hasCoords then CutAt(pts, offs) else [];
    for p := 0 to n
      invariant patches == parts[..p] && ids == numbers[..p]
      invariant coords == if hasCoords then places[..p] else []
    {
      PieceBounds(flat, offs, p);
      TakeNext(parts, p);
      TakeNext(numbers, p);
      var b, e := offs[p] - offs[0], offs[p + 1] - offs[0];
      patches, ids := patches + [flat[b..e]], ids + [begin + p];
      if hasCoords {
        PieceBounds(pts, offs, p);
        TakeNext(places, p);
        coords := coords + [pts[b..e]];
      }
    }
    assert parts[..n] == parts && numbers[..n] == numbers;
    slice := PatchSlice(patches, ids, coords);
  }

  /** Open a file: the header and end offsets are checked before any patch is read. */
  method OpenPatchFile(bytes: seq<Byte>) returns (r: Result<Reader>)
    ensures r.Err? ==> OpenFile(bytes) == Err(r.error)
    ensures r.Ok? ==> fresh(r.value) && fresh(r.value.file) && r.value.file.bytes == bytes && OpenFile(bytes) == Ok(r.value.Fields())
  {
    hide DecodeWords, SectionBytes;
    var file := new FileHandle(bytes);
    var ok := file.SeekTo(0);
    var magic := file.ReadExact(8);
    if magic.Err? { return Err(magic.error); }
    if magic.value != MAGIC_V1 && magic.value != MAGIC_V2 { return Err(BadMagic); }
    var words := file.WordsAt(file.pos, 3);
    if words.Err? { return Err(words.error); }
    var h := Header(words.value[0], words.value[1], magic.value == MAGIC_V2);
    if !Plausible(|bytes|, h) { return Err(CorruptHeader); }
    if |bytes| != SectionBytes(h) % TWO64 { return Err(SizeMismatch); }
    var first := file.WordsAt(HEADER_BYTES, 1);
    if first.Err? { return Err(first.error); }
    var last := file.WordsAt(HEADER_BYTES + h.m * 8, 1);
    if last.Err? { return Err(last.error); }
    if first.value[0] != 0 || last.value[0] != h.totalK { return Err(CorruptEndpoints); }
    var reader := new Reader(file, h);
    r := Ok(reader);
  }
}
