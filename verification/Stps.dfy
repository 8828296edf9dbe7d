/** The .stps patch file: a compressed store on disk, written whole and read by slices. */
module Stps {
  import opened Bytes
  import opened Partition
  import opened Sequences

  const HEADER_BYTES: nat := 32
  const MAGIC_V1: seq<Byte> := [83, 84, 80, 83, 80, 65, 84, 49]
  const MAGIC_V2: seq<Byte> := [83, 84, 80, 83, 80, 65, 84, 50]

  /** The bit patterns of two packed doubles. */
  datatype RawPoint = RawPoint(x: nat, y: nat)

  datatype Option<T> = None | Some(value: T)

  datatype Error = BadMagic | Truncated | SeekFailed | CorruptHeader | SizeMismatch | CorruptEndpoints
                 | OutOfRange | NotMonotone | PastSection | ShapeMismatch

  datatype Result<T> = Ok(value: T) | Err(error: Error) {
    predicate IsFailure() { Err? }

    function PropagateFailure<U>(): Result<U>
      requires IsFailure()
    {
      Err(error)
    }

    function Extract(): T
      requires !IsFailure()
    {
      value
    }
  }

  datatype Header = Header(m: nat, totalK: nat, hasCoords: bool)

  // ----- reading bytes ---------------------------------------------------------

  /** Seek, then read exactly n bytes; positions wrap at 64 bits and must fit off_t. */
  function ReadBytes(bytes: seq<Byte>, pos: nat, n: nat): (r: Result<seq<Byte>>)
    ensures r.Ok? ==> |r.value| == n
  {
    var at := pos % TWO64;
    if at >= TWO63 then Err(SeekFailed)
    else if n == 0 then Ok([])
    else if at + n > |bytes| then Err(Truncated)
    else Ok(bytes[at..at + n])
  }

  function ReadWords(bytes: seq<Byte>, pos: nat, n: nat): (r: Result<seq<nat>>)
    ensures r.Ok? ==> |r.value| == n && Fit(r.value)
  {
    var b :- ReadBytes(bytes, pos, 8 * n);
    Ok(DecodeWords(b))
  }

  // ----- opening ---------------------------------------------------------------

  /** What the declared sections take up. */
  function SectionBytes(h: Header): nat {
    HEADER_BYTES + (h.m + 1) * 8 + h.totalK * 8 + (if h.hasCoords then h.totalK * 16 else 0)
  }

  /** The bounds checked before the sections are multiplied out. */
  predicate Plausible(size: nat, h: Header) {
    h.m < size / 8 && h.totalK <= size / 8
  }

  /** The size check as computed, modulo 2^64. */
  predicate SizeAccepted(size: nat, h: Header) {
    Plausible(size, h) && size == SectionBytes(h) % TWO64
  }

  function OpenFile(bytes: seq<Byte>): Result<Header> {
    var magic :- ReadBytes(bytes, 0, 8);
    if magic != MAGIC_V1 && magic != MAGIC_V2 then Err(BadMagic) else
    var words :- ReadWords(bytes, 8, 3);
    var h := Header(words[0], words[1], magic == MAGIC_V2);
    if !Plausible(|bytes|, h) then Err(CorruptHeader)
    else if !SizeAccepted(|bytes|, h) then Err(SizeMismatch)
    else
      var first :- ReadWords(bytes, HEADER_BYTES, 1);
      var last :- ReadWords(bytes, HEADER_BYTES + h.m * 8, 1);
      if first[0] != 0 || last[0] != h.totalK then Err(CorruptEndpoints) else Ok(h)
  }

  /** From this file size on the size sum can exceed 64 bits although the bounds hold. */
  function SumLimit(hasCoords: bool): nat {
    if hasCoords then TWO64 / 4 - 8 else TWO64 / 2 - 16
  }

  /** Behind the bounds the size sum is the true one, for every header of this file size. */
  ghost predicate SumNeverWraps(size: nat, hasCoords: bool) {
    forall h: Header :: h.hasCoords == hasCoords && Plausible(size, h) ==> SectionBytes(h) < TWO64
  }

  lemma LargestSum(size: nat, h: Header)
    requires Plausible(size, h)
    ensures SectionBytes(h) <= SectionBytes(Header(size / 8 - 1, size / 8, h.hasCoords))
  {
  }

  /** The bounds keep the sum from wrapping exactly below 2^62 - 8 bytes with coordinates,
      and below 2^63 - 16 bytes without. */
  lemma SumWrapsExactly(size: nat, hasCoords: bool)
    ensures SumNeverWraps(size, hasCoords) <==> size < SumLimit(hasCoords)
  {
    if size < SumLimit(hasCoords) {
      forall h: Header | h.hasCoords == hasCoords && Plausible(size, h) ensures SectionBytes(h) < TWO64 {
        LargestSum(size, h);
      }
    } else {
      var h := Header(size / 8 - 1, size / 8, hasCoords);
      assert Plausible(size, h) && SectionBytes(h) >= TWO64;
    }
  }

  /** The smallest file size whose size check can accept a wrapped sum. */
  const WRAP_SIZE: nat := 6148914691236517200

  lemma HonestBelow(size: nat, h: Header)
    requires size < TWO63 && SizeAccepted(size, h)
    requires !h.hasCoords || size < WRAP_SIZE || size % 8 != 0
    ensures SectionBytes(h) == size
  {
  }

  // ----- reading a slice -------------------------------------------------------

  predicate Monotone(offs: seq<nat>) {
    forall i :: 0 <= i < |offs| - 1 ==> offs[i] <= offs[i + 1]
  }

  lemma {:induction false} MonotoneAscends(offs: seq<nat>, i: nat, j: nat)
    requires Monotone(offs) && i <= j < |offs|
    ensures offs[i] <= offs[j]
  {
    if i < j { MonotoneAscends(offs, i, j - 1); }
  }

  function PairUp(words: seq<nat>): (pts: seq<RawPoint>)
    requires |words| % 2 == 0
    ensures |pts| == |words| / 2
  {
    if words == [] then [] else
      var n := |words| - 2;
      PairUp(words[..n]) + [RawPoint(words[n], words[n + 1])]
  }

  function PointWords(pts: seq<RawPoint>): (words: seq<nat>)
    ensures |words| == 2 * |pts|
  {
    if pts == [] then [] else
      var n := |pts| - 1;
      PointWords(pts[..n]) + [pts[n].x, pts[n].y]
  }

  lemma WordsOfSnoc(pts: seq<RawPoint>, p: RawPoint)
    ensures PointWords(pts + [p]) == PointWords(pts) + [p.x, p.y]
  {
    assert (pts + [p])[..|pts|] == pts;
  }

  lemma PairUpSnoc(words: seq<nat>, x: nat, y: nat)
    requires |words| % 2 == 0
    ensures PairUp(words + [x, y]) == PairUp(words) + [RawPoint(x, y)]
  {
    assert (words + [x, y])[..|words|] == words;
  }

  lemma {:induction false} PairUpInverse(words: seq<nat>)
    requires |words| % 2 == 0
    ensures PointWords(PairUp(words)) == words
  {
    if words != [] {
      hide PairUp, PointWords;
      var n := |words| - 2;
      var head := words[..n];
      PairUpInverse(head);
      PairUpSnoc(head, words[n], words[n + 1]);
      WordsOfSnoc(PairUp(head), RawPoint(words[n], words[n + 1]));
      assert words[n..] == [words[n], words[n + 1]];
      TakeDrop(words, n);
    }
  }

  lemma {:induction false} PointWordsInverse(pts: seq<RawPoint>)
    ensures PairUp(PointWords(pts)) == pts
  {
    if pts != [] {
      hide PairUp, PointWords;
      var n := |pts| - 1;
      var head := pts[..n];
      PointWordsInverse(head);
      WordsOfSnoc(head, pts[n]);
      PairUpSnoc(PointWords(head), pts[n].x, pts[n].y);
      assert pts == head + [pts[n]];
    }
  }

  /** The offsets cover the flat list exactly, counted from the first. */
  predicate Covers<T>(offs: seq<nat>, flat: seq<T>) {
    |offs| > 0 && Monotone(offs) && offs[|offs| - 1] == offs[0] + |flat|
  }

  lemma OffsetsInside<T>(offs: seq<nat>, flat: seq<T>, p: nat)
    requires Covers(offs, flat) && p < |offs|
    ensures offs[0] <= offs[p] <= offs[0] + |flat|
  {
    MonotoneAscends(offs, 0, p);
    MonotoneAscends(offs, p, |offs| - 1);
  }

  function Piece<T>(flat: seq<T>, offs: seq<nat>, p: nat): seq<T>
    requires Covers(offs, flat) && p < |offs| - 1
  {
    OffsetsInside(offs, flat, p);
    OffsetsInside(offs, flat, p + 1);
    flat[offs[p] - offs[0]..offs[p + 1] - offs[0]]
  }

  lemma PieceBounds<T>(flat: seq<T>, offs: seq<nat>, p: nat)
    requires Covers(offs, flat) && p < |offs| - 1
    ensures offs[0] <= offs[p] <= offs[p + 1] <= offs[0] + |flat|
    ensures Piece(flat, offs, p) == flat[offs[p] - offs[0]..offs[p + 1] - offs[0]]
  {
    OffsetsInside(offs, flat, p);
    OffsetsInside(offs, flat, p + 1);
  }

  /** Cut a flat list at the given offsets. */
  function CutAt<T>(flat: seq<T>, offs: seq<nat>): (parts: seq<seq<T>>)
    requires Covers(offs, flat)
    ensures |parts| == |offs| - 1 && forall p :: 0 <= p < |parts| ==> parts[p] == Piece(flat, offs, p)
  {
    seq(|offs| - 1, p requires 0 <= p < |offs| - 1 => Piece(flat, offs, p))
  }

  function Counting(begin: nat, n: nat): (ids: seq<nat>)
    ensures |ids| == n && forall i :: 0 <= i < n ==> ids[i] == begin + i
  {
    seq(n, i requires 0 <= i < n => begin + i)
  }

  function HashBase(h: Header): nat { HEADER_BYTES + (h.m + 1) * 8 }

  function CoordBase(h: Header): nat { HashBase(h) + h.totalK * 8 }

  function ReadPoints(bytes: seq<Byte>, h: Header, first: nat, n: nat): (r: Result<seq<RawPoint>>)
    ensures r.Ok? ==> |r.value| == n
  {
    var words :- ReadWords(bytes, CoordBase(h) + first * 16, 2 * n);
    Ok(PairUp(words))
  }

  /** The hashes, and locations if there are any, of the patches between the given offsets. */
  function ReadWindow(bytes: seq<Byte>, h: Header, offs: seq<nat>, begin: nat): Result<PatchSlice<RawPoint>>
    requires |offs| > 0 && Monotone(offs)
  {
    var n := |offs| - 1;
    MonotoneAscends(offs, 0, n);
    var flat :- ReadWords(bytes, HashBase(h) + offs[0] * 8, offs[n] - offs[0]);
    if h.hasCoords then
      var pts :- ReadPoints(bytes, h, offs[0], offs[n] - offs[0]);
      Ok(PatchSlice(CutAt(flat, offs), Counting(begin, n), CutAt(pts, offs)))
    else
      Ok(PatchSlice(CutAt(flat, offs), Counting(begin, n), []))
  }

  function ReadSlice(bytes: seq<Byte>, h: Header, begin: nat, end: nat): Result<PatchSlice<RawPoint>> {
    if begin > end || end > h.m then Err(OutOfRange) else
    var offs :- ReadWords(bytes, HEADER_BYTES + begin * 8, end - begin + 1);
    if !Monotone(offs) then Err(NotMonotone)
    else if offs[end - begin] > h.totalK then Err(PastSection)
    else ReadWindow(bytes, h, offs, begin)
  }

  // ----- the file as a list of words -------------------------------------------

  /** Everything behind the magic, as 64-bit words. */
  ghost predicate Holds(bytes: seq<Byte>, magic: seq<Byte>, w: seq<nat>) {
    |magic| == 8 && Fit(w) && bytes == magic + EncodeWords(w) && |bytes| < TWO63
  }

  /** Reading words of a file finds exactly the words at that place. */
  lemma ReadsWords(bytes: seq<Byte>, magic: seq<Byte>, w: seq<nat>, a: nat, n: nat)
    requires Holds(bytes, magic, w) && a + n <= |w|
    ensures ReadWords(bytes, 8 + 8 * a, n) == Ok(w[a..a + n])
  {
    hide DecodeWords, EncodeWords;
    var e := EncodeWords(w);
    EncodeSlice(w, a, a + n);
    assert Fit(w[a..a + n]);
    DecodeEncodeWords(w[a..a + n]);
    var lo, hi := 8 + 8 * a, 8 + 8 * (a + n);
    assert bytes[lo..hi] == e[8 * a..8 * (a + n)];
  }

  lemma ReadsMagic(bytes: seq<Byte>, magic: seq<Byte>, w: seq<nat>)
    requires Holds(bytes, magic, w)
    ensures ReadBytes(bytes, 0, 8) == Ok(magic)
  {
  }

  /** A byte string of whole words is a file of words. */
  lemma HoldsItself(bytes: seq<Byte>)
    requires 8 <= |bytes| < TWO63 && |bytes| % 8 == 0
    ensures Holds(bytes, bytes[..8], DecodeWords(bytes[8..]))
  {
    hide EncodeWords, DecodeWords;
    EncodeDecodeWords(bytes[8..]);
    assert bytes == bytes[..8] + bytes[8..];
  }

  // ----- which files open although their sections do not fill them -------------

  function MagicOf(hasCoords: bool): seq<Byte> { if hasCoords then MAGIC_V2 else MAGIC_V1 }

  /** The smallest file size at which such a file opens: 8 bytes past WRAP_SIZE, since the
      last offset must lie inside the file as well. */
  const OPEN_WRAP_SIZE: nat := 6148914691236517208

  /** Every file of this size that opens has sections that fill it exactly. */
  ghost predicate OpensHonestly(size: nat, hasCoords: bool) {
    forall bytes: seq<Byte>, h: Header ::
      |bytes| == size && h.hasCoords == hasCoords && OpenFile(bytes) == Ok(h) ==> SectionBytes(h) == size
  }

  lemma OpenedHonestBelow(bytes: seq<Byte>, h: Header)
    requires |bytes| < TWO63 && OpenFile(bytes) == Ok(h)
    requires !h.hasCoords || |bytes| < OPEN_WRAP_SIZE || |bytes| % 8 != 0
    ensures SectionBytes(h) == |bytes|
  {
    hide DecodeWords, SizeAccepted, ReadWords, Plausible;
    assert SizeAccepted(|bytes|, h) && ReadWords(bytes, HEADER_BYTES + h.m * 8, 1).Ok?;
    hide OpenFile;
    LastRead(bytes, h);
    LastInside(|bytes|, h);
  }

  lemma LastRead(bytes: seq<Byte>, h: Header)
    requires |bytes| < TWO63 && SizeAccepted(|bytes|, h) && ReadWords(bytes, HEADER_BYTES + h.m * 8, 1).Ok?
    ensures HEADER_BYTES + h.m * 8 + 8 <= |bytes|
  {
    hide DecodeWords;
  }

  lemma LastInside(size: nat, h: Header)
    requires size < TWO63 && SizeAccepted(size, h) && HEADER_BYTES + h.m * 8 + 8 <= size
    requires !h.hasCoords || size < OPEN_WRAP_SIZE || size % 8 != 0
    ensures SectionBytes(h) == size
  {
    var x := SectionBytes(h);
    AcceptedBounds(size, h);
    if x != size {
      WrapDistance(x, size);
      hide SizeAccepted, Plausible;
      assert false;
    }
  }

  lemma AcceptedBounds(size: nat, h: Header)
    requires SizeAccepted(size, h)
    ensures SectionBytes(h) % TWO64 == size && SectionBytes(h) % 8 == 0 && 8 * h.totalK <= size
  {
    SectionsInWords(h);
    hide SectionBytes;
  }

  lemma SectionsInWords(h: Header)
    ensures SectionBytes(h) % 8 == 0
  {
    assert SectionBytes(h) == 8 * (5 + h.m + h.totalK + if h.hasCoords then 2 * h.totalK else 0);
  }

  lemma WrapDistance(x: nat, size: nat)
    requires x % TWO64 == size && x % 8 == 0 && x != size
    ensures x >= size + TWO64 && size % 8 == 0
  {
    var q := x / TWO64;
    assert x == q * TWO64 + size;
    assert size == x - 8 * (q * (TWO64 / 8));
  }

  /** A header and end offsets that pass every check of the open. */
  lemma OpensWords(bytes: seq<Byte>, w: seq<nat>, h: Header)
    requires Holds(bytes, MagicOf(h.hasCoords), w) && SizeAccepted(|bytes|, h)
    requires 3 + h.m < |w| && w[0] == h.m && w[1] == h.totalK && w[3] == 0 && w[3 + h.m] == h.totalK
    ensures OpenFile(bytes) == Ok(h)
  {
    hide ReadBytes, ReadWords, SectionBytes, DecodeWords, EncodeWords;
    var magic := MagicOf(h.hasCoords);
    ReadsMagic(bytes, magic, w);
    ReadsWords(bytes, magic, w, 0, 3);
    ReadsWords(bytes, magic, w, 3, 1);
    ReadsWords(bytes, magic, w, 3 + h.m, 1);
    assert w[0..3][0] == h.m && w[0..3][1] == h.totalK;
    assert w[3..4][0] == 0 && w[3 + h.m..4 + h.m][0] == h.totalK;
  }

  /** For every larger multiple of 8 a header whose wrapped sum passes, with its last offset
      inside the file. */
  lemma WrappedHeader(size: nat) returns (h: Header)
    requires OPEN_WRAP_SIZE <= size < TWO63 && size % 8 == 0
    ensures h.hasCoords && SizeAccepted(size, h) && SectionBytes(h) == size + TWO64
    ensures 0 < h.m && HEADER_BYTES + h.m * 8 + 8 <= size
  {
    var f := size / 8;
    var rest := f + TWO64 / 8 - 5;
    var k := if (rest - 1) / 3 < f then (rest - 1) / 3 else f;
    h := Header(rest - 3 * k, k, true);
    assert SectionBytes(h) == size + TWO64;
  }

  /** A file with just the words the open looks at. */
  lemma WrappedFile(size: nat, h: Header) returns (bytes: seq<Byte>)
    requires size < TWO63 && size % 8 == 0 && SizeAccepted(size, h) && 0 < h.m && HEADER_BYTES + h.m * 8 + 8 <= size
    ensures |bytes| == size && OpenFile(bytes) == Ok(h)
  {
    var blank: seq<nat> := seq(size / 8 - 1, _ => 0);
    var w := blank[0 := h.m][1 := h.totalK][3 + h.m := h.totalK];
    bytes := MagicOf(h.hasCoords) + EncodeWords(w);
    OpensWords(bytes, w, h);
  }

  /** A file can open although its sections do not fill it exactly when it has coordinates,
      its size is a multiple of 8, and that size is at least OPEN_WRAP_SIZE. */
  lemma OpensHonestlyExactly(size: nat, hasCoords: bool)
    requires size < TWO63
    ensures OpensHonestly(size, hasCoords) <==> !hasCoords || size < OPEN_WRAP_SIZE || size % 8 != 0
  {
    hide OpenFile, SectionBytes;
    if !hasCoords || size < OPEN_WRAP_SIZE || size % 8 != 0 {
      forall bytes: seq<Byte>, h: Header | |bytes| == size && h.hasCoords == hasCoords && OpenFile(bytes) == Ok(h)
        ensures SectionBytes(h) == size
      {
        OpenedHonestBelow(bytes, h);
      }
    } else {
      var h := WrappedHeader(size);
      var bytes := WrappedFile(size, h);
    }
  }

  /** One such header, in numbers: some file of the smallest size opens with it. */
  lemma WrappedExample() returns (bytes: seq<Byte>)
    ensures |bytes| == 6148914691236517208
    ensures OpenFile(bytes) == Ok(Header(768614336404564645, 768614336404564651, true))
    ensures SectionBytes(Header(768614336404564645, 768614336404564651, true)) == |bytes| + TWO64
  {
    bytes := WrappedFile(6148914691236517208, Header(768614336404564645, 768614336404564651, true));
  }

  // ----- a file with honest sections -------------------------------------------

  /** The words of a file, section by section. */
  ghost predicate Sections(w: seq<nat>, h: Header, offs: seq<nat>, flat: seq<nat>, pts: seq<RawPoint>) {
    && |w| == 4 + h.m + h.totalK + (if h.hasCoords then 2 * h.totalK else 0)
    && w[0] == h.m && w[1] == h.totalK
    && w[3..4 + h.m] == offs
    && w[4 + h.m..4 + h.m + h.totalK] == flat
    && |pts| == (if h.hasCoords then h.totalK else 0)
    && w[4 + h.m + h.totalK..] == PointWords(pts)
  }

  ghost predicate Laid(bytes: seq<Byte>, w: seq<nat>, h: Header, offs: seq<nat>, flat: seq<nat>, pts: seq<RawPoint>) {
    Holds(bytes, MagicOf(h.hasCoords), w) && Sections(w, h, offs, flat, pts)
  }

  /** The sections fill the file, so its size is accepted. */
  lemma LaidSize(bytes: seq<Byte>, w: seq<nat>, h: Header, offs: seq<nat>, flat: seq<nat>, pts: seq<RawPoint>)
    requires Laid(bytes, w, h, offs, flat, pts)
    ensures SectionBytes(h) == |bytes| && SizeAccepted(|bytes|, h)
  {
  }

  lemma OpensLaid(bytes: seq<Byte>, w: seq<nat>, h: Header, offs: seq<nat>, flat: seq<nat>, pts: seq<RawPoint>)
    requires Laid(bytes, w, h, offs, flat, pts)
    ensures OpenFile(bytes) == if offs[0] == 0 && offs[h.m] == h.totalK then Ok(h) else Err(CorruptEndpoints)
  {
    hide ReadBytes, ReadWords, SizeAccepted, SectionBytes, DecodeWords, EncodeWords, PointWords;
    var magic := MagicOf(h.hasCoords);
    LaidSize(bytes, w, h, offs, flat, pts);
    ReadsMagic(bytes, magic, w);
    ReadsWords(bytes, magic, w, 0, 3);
    ReadsWords(bytes, magic, w, 3, 1);
    ReadsWords(bytes, magic, w, 3 + h.m, 1);
    assert w[0..3][0] == h.m && w[0..3][1] == h.totalK;
    assert w[3..4][0] == offs[0] && w[3 + h.m..4 + h.m][0] == offs[h.m];
    PlausibleIfAccepted(|bytes|, h);
  }

  lemma PlausibleIfAccepted(size: nat, h: Header)
    requires SizeAccepted(size, h)
    ensures Plausible(size, h)
  {
  }

  /** The part of the sections that belongs to patches begin..end. */
  ghost function SliceOf(h: Header, offs: seq<nat>, flat: seq<nat>, pts: seq<RawPoint>, begin: nat, end: nat): PatchSlice<RawPoint>
    requires |offs| == h.m + 1 && |flat| == h.totalK && |pts| == (if h.hasCoords then h.totalK else 0)
    requires begin <= end <= h.m && Monotone(offs[begin..end + 1]) && offs[end] <= h.totalK
  {
    var o := offs[begin..end + 1];
    MonotoneAscends(o, 0, end - begin);
    PatchSlice(CutAt(flat[offs[begin]..offs[end]], o), Counting(begin, end - begin),
               if h.hasCoords then CutAt(pts[offs[begin]..offs[end]], o) else [])
  }

  lemma {:induction false} PointWordsConcat(a: seq<RawPoint>, b: seq<RawPoint>)
    ensures PointWords(a + b) == PointWords(a) + PointWords(b)
  {
    if b == [] {
      assert a + b == a;
    } else {
      var n := |b| - 1;
      PointWordsConcat(a, b[..n]);
      assert (a + b)[..|a + b| - 1] == a + b[..n];
    }
  }

  lemma PointWordsSlice(pts: seq<RawPoint>, a: nat, b: nat)
    requires a <= b <= |pts|
    ensures PointWords(pts)[2 * a..2 * b] == PointWords(pts[a..b])
  {
    hide PointWords;
    var x, y, z := pts[..a], pts[a..b], pts[b..];
    SplitThree(pts, a, b);
    PointWordsConcat(x + y, z);
    PointWordsConcat(x, y);
    Middle(PointWords(x), PointWords(y), PointWords(z));
    assert 2 * a == |PointWords(x)| && 2 * b == |PointWords(x)| + |PointWords(y)|;
  }

  lemma ReadsPoints(bytes: seq<Byte>, w: seq<nat>, h: Header, offs: seq<nat>, flat: seq<nat>, pts: seq<RawPoint>, a: nat, b: nat)
    requires Laid(bytes, w, h, offs, flat, pts) && h.hasCoords && a <= b <= h.totalK
    ensures ReadPoints(bytes, h, a, b - a) == Ok(pts[a..b])
  {
    hide ReadWords, PointWords, DecodeWords, EncodeWords;
    var base := 4 + h.m + h.totalK;
    ReadsWords(bytes, MagicOf(true), w, base + 2 * a, 2 * (b - a));
    PointWordsSlice(pts, a, b);
    assert w[base..] == w[base..|w|];
    SliceOfSlice(w, base, |w|, 2 * a, 2 * b);
    PointWordsInverse(pts[a..b]);
  }

  lemma ReadsOffsets(bytes: seq<Byte>, w: seq<nat>, h: Header, offs: seq<nat>, flat: seq<nat>, pts: seq<RawPoint>, begin: nat, end: nat)
    requires Laid(bytes, w, h, offs, flat, pts) && begin <= end <= h.m
    ensures ReadWords(bytes, HEADER_BYTES + begin * 8, end - begin + 1) == Ok(offs[begin..end + 1])
  {
    hide ReadWords, PointWords, EncodeWords;
    ReadsWords(bytes, MagicOf(h.hasCoords), w, 3 + begin, end - begin + 1);
    SliceOfSlice(w, 3, 4 + h.m, begin, end + 1);
  }

  lemma ReadsHashes(bytes: seq<Byte>, w: seq<nat>, h: Header, offs: seq<nat>, flat: seq<nat>, pts: seq<RawPoint>, a: nat, b: nat)
    requires Laid(bytes, w, h, offs, flat, pts) && a <= b <= h.totalK
    ensures ReadWords(bytes, HashBase(h) + a * 8, b - a) == Ok(flat[a..b])
  {
    hide ReadWords, PointWords, EncodeWords;
    ReadsWords(bytes, MagicOf(h.hasCoords), w, 4 + h.m + a, b - a);
    SliceOfSlice(w, 4 + h.m, 4 + h.m + h.totalK, a, b);
  }

  lemma LaidSizes(bytes: seq<Byte>, w: seq<nat>, h: Header, offs: seq<nat>, flat: seq<nat>, pts: seq<RawPoint>)
    requires Laid(bytes, w, h, offs, flat, pts)
    ensures |offs| == h.m + 1 && |flat| == h.totalK && |pts| == (if h.hasCoords then h.totalK else 0)
  {
  }

  lemma RefusesSlice(bytes: seq<Byte>, w: seq<nat>, h: Header, offs: seq<nat>, flat: seq<nat>, pts: seq<RawPoint>, begin: nat, end: nat)
    requires Laid(bytes, w, h, offs, flat, pts) && |offs| == h.m + 1
    requires begin > end || end > h.m || !Monotone(offs[begin..end + 1]) || offs[end] > h.totalK
    ensures ReadSlice(bytes, h, begin, end) ==
            if begin > end || end > h.m then Err(OutOfRange)
            else if !Monotone(offs[begin..end + 1]) then Err(NotMonotone)
            else Err(PastSection)
  {
    hide Laid, ReadWords, ReadPoints, HashBase, Monotone, Covers;
    if begin <= end <= h.m { ReadsOffsets(bytes, w, h, offs, flat, pts, begin, end); }
  }

  lemma GrantsSlice(bytes: seq<Byte>, w: seq<nat>, h: Header, offs: seq<nat>, flat: seq<nat>, pts: seq<RawPoint>, begin: nat, end: nat)
    requires Laid(bytes, w, h, offs, flat, pts)
    requires |offs| == h.m + 1 && |flat| == h.totalK && |pts| == (if h.hasCoords then h.totalK else 0)
    requires begin <= end <= h.m && Monotone(offs[begin..end + 1]) && offs[end] <= h.totalK
    ensures ReadSlice(bytes, h, begin, end) == Ok(SliceOf(h, offs, flat, pts, begin, end))
  {
    hide Laid, ReadWords, ReadPoints, CutAt, Counting, HashBase, Monotone, Covers;
    ReadsOffsets(bytes, w, h, offs, flat, pts, begin, end);
    MonotoneAscends(offs[begin..end + 1], 0, end - begin);
    ReadsHashes(bytes, w, h, offs, flat, pts, offs[begin], offs[end]);
    if h.hasCoords { ReadsPoints(bytes, w, h, offs, flat, pts, offs[begin], offs[end]); }
  }

  /** On a file with honest sections a slice read fails exactly for a bad range, offsets that
      fall, or offsets past the hashes; every byte it reads lies in its own section. */
  lemma ReadsSlice(bytes: seq<Byte>, w: seq<nat>, h: Header, offs: seq<nat>, flat: seq<nat>, pts: seq<RawPoint>, begin: nat, end: nat)
    requires Laid(bytes, w, h, offs, flat, pts)
    ensures ReadSlice(bytes, h, begin, end) ==
            if begin > end || end > h.m then Err(OutOfRange)
            else if !Monotone(offs[begin..end + 1]) then Err(NotMonotone)
            else if offs[end] > h.totalK then Err(PastSection)
            else Ok(SliceOf(h, offs, flat, pts, begin, end))
  {
    LaidSizes(bytes, w, h, offs, flat, pts);
    hide ReadSlice, SliceOf, Laid, Monotone;
    if begin > end || end > h.m || !Monotone(offs[begin..end + 1]) || offs[end] > h.totalK {
      RefusesSlice(bytes, w, h, offs, flat, pts, begin, end);
    } else {
      GrantsSlice(bytes, w, h, offs, flat, pts, begin, end);
    }
  }

  // ----- writing ---------------------------------------------------------------

  ghost function Offsets(patches: seq<seq<nat>>): (offs: seq<nat>)
    ensures |offs| == |patches| + 1 && forall p :: 0 <= p < |offs| ==> offs[p] == Start(patches, p)
  {
    seq(|patches| + 1, p requires 0 <= p < |patches| + 1 => Start(patches, p))
  }

  predicate Shaped(patches: seq<seq<nat>>, coords: Option<seq<seq<RawPoint>>>) {
    coords.Some? ==> |coords.value| == |patches| && forall p :: 0 <= p < |patches| ==> |coords.value[p]| == |patches[p]|
  }

  ghost function FlatPoints(coords: Option<seq<seq<RawPoint>>>): seq<RawPoint> {
    if coords.Some? then Flatten(coords.value) else []
  }

  /** Header, offsets, hashes, coordinates. */
  ghost function FileWords(patches: seq<seq<nat>>, coords: Option<seq<seq<RawPoint>>>): seq<nat> {
    [|patches|, |Flatten(patches)|, 0] + Offsets(patches) + Flatten(patches) + PointWords(FlatPoints(coords))
  }

  ghost function Serialise(patches: seq<seq<nat>>, coords: Option<seq<seq<RawPoint>>>): seq<Byte> {
    MagicOf(coords.Some?) + EncodeWords(FileWords(patches, coords))
  }

  /** All values are 64-bit and the file is one a 64-bit off_t can address. */
  ghost predicate Storable(patches: seq<seq<nat>>, coords: Option<seq<seq<RawPoint>>>) {
    && Shaped(patches, coords)
    && Fit(Flatten(patches)) && Fit(PointWords(FlatPoints(coords)))
    && |Serialise(patches, coords)| < TWO63
  }

  method PrefixSums(patches: seq<seq<nat>>) returns (offsets: seq<nat>)
    ensures offsets == Offsets(patches)
  {
    offsets := [0];
    for p := 0 to |patches|
      invariant |offsets| == p + 1 && forall q :: 0 <= q <= p ==> offsets[q] == Start(patches, q)
    {
      FlattenPrefix(patches, p);
      offsets := offsets + [offsets[p] + |patches[p]|];
    }
  }

  method CheckShape(patches: seq<seq<nat>>, coords: Option<seq<seq<RawPoint>>>) returns (ok: bool)
    ensures ok <==> Shaped(patches, coords)
  {
    if coords.Some? {
      if |coords.value| != |patches| { return false; }
      for p := 0 to |patches|
        invariant forall q :: 0 <= q < p ==> |coords.value[q]| == |patches[q]|
      {
        if |coords.value[p]| != |patches[p]| { return false; }
      }
    }
    ok := true;
  }

  lemma AppendWords(file: seq<Byte>, magic: seq<Byte>, a: seq<nat>, b: seq<nat>)
    requires file == magic + EncodeWords(a)
    ensures file + EncodeWords(b) == magic + EncodeWords(a + b)
  {
    hide EncodeWords;
    EncodeConcat(a, b);
    Associate(magic, EncodeWords(a), EncodeWords(b));
  }

  method AppendPatches(file: seq<Byte>, patches: seq<seq<nat>>) returns (longer: seq<Byte>)
    ensures longer == file + EncodeWords(Flatten(patches))
  {
    hide EncodeWords;
    longer := file;
    assert patches[..0] == [] && file + EncodeWords([]) == file;
    for p := 0 to |patches|
      invariant longer == file + EncodeWords(Flatten(patches[..p]))
    {
      FlattenPrefix(patches, p);
      EncodeConcat(Flatten(patches[..p]), patches[p]);
      Associate(file, EncodeWords(Flatten(patches[..p])), EncodeWords(patches[p]));
      longer := longer + EncodeWords(patches[p]);
    }
    assert patches[..|patches|] == patches;
  }

  method AppendCoords(file: seq<Byte>, coords: seq<seq<RawPoint>>) returns (longer: seq<Byte>)
    ensures longer == file + EncodeWords(PointWords(Flatten(coords)))
  {
    hide EncodeWords, PointWords;
    longer := file;
    EmptyWords();
    assert coords[..0] == [];
    for p := 0 to |coords|
      invariant longer == file + EncodeWords(PointWords(Flatten(coords[..p])))
    {
      FlattenPrefix(coords, p);
      var before, next := PointWords(Flatten(coords[..p])), PointWords(coords[p]);
      PointWordsConcat(Flatten(coords[..p]), coords[p]);
      EncodeConcat(before, next);
      Associate(file, EncodeWords(before), EncodeWords(next));
      longer := longer + EncodeWords(next);
    }
    assert coords[..|coords|] == coords;
  }

  lemma EmptyWords()
    ensures EncodeWords([]) == [] && PointWords([]) == []
  {
  }

  lemma {:induction false} PointWordsAt(pts: seq<RawPoint>, i: nat)
    requires i < |pts|
    ensures PointWords(pts)[2 * i] == pts[i].x && PointWords(pts)[2 * i + 1] == pts[i].y
  {
    var n := |pts| - 1;
    if i < n { PointWordsAt(pts[..n], i); }
  }

  /** Which number stands where: patch count, hash count, a zero, the hashes before each patch
      and in all, the hashes, then x and y of every location. */
  lemma FileWordsAre(patches: seq<seq<nat>>, coords: Option<seq<seq<RawPoint>>>)
    requires Shaped(patches, coords)
    ensures var w, m, k := FileWords(patches, coords), |patches|, |Flatten(patches)|;
            && |w| == 4 + m + k + (if coords.Some? then 2 * k else 0)
            && w[0] == m && w[1] == k && w[2] == 0
            && (forall p :: 0 <= p <= m ==> w[3 + p] == |Flatten(patches[..p])|)
            && (forall i :: 0 <= i < k ==> w[4 + m + i] == Flatten(patches)[i])
            && (coords.Some? ==> |Flatten(coords.value)| == k && forall i :: 0 <= i < k ==>
                  w[4 + m + k + 2 * i] == Flatten(coords.value)[i].x && w[4 + m + k + 2 * i + 1] == Flatten(coords.value)[i].y)
  {
    hide PointWords, Flatten;
    FlatPointsSize(patches, coords);
    hide FlatPoints, Start;
    var a, offs, flat := [|patches|, |Flatten(patches)|, 0], Offsets(patches), Flatten(patches);
    FourAt(a, offs, flat, PointWords(FlatPoints(coords)));
    assert forall p :: 0 <= p <= |patches| ==> offs[p] == |Flatten(patches[..p])| by { StartsAreSizes(patches); }
    if coords.Some? {
      assert FlatPoints(coords) == Flatten(coords.value) by { PointsFlat(coords); }
      forall i | 0 <= i < |flat|
        ensures PointWords(FlatPoints(coords))[2 * i] == Flatten(coords.value)[i].x
        ensures PointWords(FlatPoints(coords))[2 * i + 1] == Flatten(coords.value)[i].y
      {
        PointWordsAt(Flatten(coords.value), i);
      }
    }
  }

  lemma PointsFlat(coords: Option<seq<seq<RawPoint>>>)
    requires coords.Some?
    ensures FlatPoints(coords) == Flatten(coords.value)
  {
  }

  lemma StartsAreSizes(patches: seq<seq<nat>>)
    ensures |Offsets(patches)| == |patches| + 1
    ensures forall p :: 0 <= p <= |patches| ==> Offsets(patches)[p] == |Flatten(patches[..p])|
  {
  }

  lemma FourAt<T>(a: seq<T>, b: seq<T>, c: seq<T>, d: seq<T>)
    ensures var w := a + b + c + d;
            && |w| == |a| + |b| + |c| + |d|
            && (forall i :: 0 <= i < |a| ==> w[i] == a[i])
            && (forall i :: 0 <= i < |b| ==> w[|a| + i] == b[i])
            && (forall i :: 0 <= i < |c| ==> w[|a| + |b| + i] == c[i])
            && (forall i :: 0 <= i < |d| ==> w[|a| + |b| + |c| + i] == d[i])
  {
  }

  /** The file byte by byte: the eight letters, then every word with its lowest byte first. */
  lemma SerialisedBytes(patches: seq<seq<nat>>, coords: Option<seq<seq<RawPoint>>>)
    ensures |Serialise(patches, coords)| == 8 + 8 * |FileWords(patches, coords)|
    ensures Serialise(patches, coords)[..8] == [83, 84, 80, 83, 80, 65, 84, if coords.Some? then 50 else 49]
    ensures forall j, i :: 0 <= j < |FileWords(patches, coords)| && 0 <= i < 8 ==>
      Serialise(patches, coords)[8 + 8 * j + i] == (FileWords(patches, coords)[j] / Pow256(i)) % 256
  {
    hide EncodeWords, Pow256, FileWords;
    var w := FileWords(patches, coords);
    forall j, i | 0 <= j < |w| && 0 <= i < 8 ensures Serialise(patches, coords)[8 + 8 * j + i] == (w[j] / Pow256(i)) % 256 {
      WordByte(w, j, i);
    }
  }

  /** Magic, header, offsets, every patch, then every coordinate list. */
  method WritePatchFile(patches: seq<seq<nat>>, coords: Option<seq<seq<RawPoint>>>) returns (r: Result<seq<Byte>>)
    ensures r == if Shaped(patches, coords) then Ok(Serialise(patches, coords)) else Err(ShapeMismatch)
    ensures r.Ok? ==> |r.value| == 8 + 8 * |FileWords(patches, coords)|
    ensures r.Ok? ==> r.value[..8] == [83, 84, 80, 83, 80, 65, 84, if coords.Some? then 50 else 49]
    ensures r.Ok? ==> forall j, i :: 0 <= j < |FileWords(patches, coords)| && 0 <= i < 8 ==>
      r.value[8 + 8 * j + i] == (FileWords(patches, coords)[j] / Pow256(i)) % 256
  {
    hide EncodeWords, PointWords, Flatten;
    var offsets := PrefixSums(patches);
    var totalK := offsets[|patches|];
    assert patches[..|patches|] == patches;
    var ok := CheckShape(patches, coords);
    if !ok { return Err(ShapeMismatch); }
    SerialisedBytes(patches, coords);
    hide Pow256;
    var magic := if coords.Some? then MAGIC_V2 else MAGIC_V1;
    var file := magic + EncodeWords([|patches|, totalK, 0]);
    file := file + EncodeWords(offsets);
    AppendWords(magic + EncodeWords([|patches|, totalK, 0]), magic, [|patches|, totalK, 0], offsets);
    AppendWords(file, magic, [|patches|, totalK, 0] + offsets, Flatten(patches));
    file := AppendPatches(file, patches);
    AppendWords(file, magic, [|patches|, totalK, 0] + offsets + Flatten(patches), PointWords(FlatPoints(coords)));
    if coords.Some? {
      file := AppendCoords(file, coords.value);
    } else {
      EmptyWords();
      assert file + EncodeWords(PointWords(FlatPoints(coords))) == file;
    }
    r := Ok(file);
  }

  // ----- what is written reads back --------------------------------------------

  lemma FlatPointsSize(patches: seq<seq<nat>>, coords: Option<seq<seq<RawPoint>>>)
    requires Shaped(patches, coords)
    ensures |FlatPoints(coords)| == if coords.Some? then |Flatten(patches)| else 0
  {
    if coords.Some? {
      SameStarts(patches, coords.value, 0);
    }
  }

  lemma FourParts<T>(a: seq<T>, b: seq<T>, c: seq<T>, d: seq<T>)
    ensures var w := a + b + c + d;
            && w[|a|..|a| + |b|] == b
            && w[|a| + |b|..|a| + |b| + |c|] == c
            && w[|a| + |b| + |c|..] == d
  {
  }

  lemma OffsetsFit(patches: seq<seq<nat>>, limit: nat)
    requires |Flatten(patches)| < limit
    ensures forall p :: 0 <= p < |Offsets(patches)| ==> Offsets(patches)[p] < limit
  {
    hide Flatten;
    forall p | 0 <= p < |Offsets(patches)| ensures Offsets(patches)[p] < limit {
      StartMonotone(patches, p, |patches|);
      assert patches[..|patches|] == patches;
    }
  }

  lemma WordsFit(patches: seq<seq<nat>>, coords: Option<seq<seq<RawPoint>>>)
    requires Storable(patches, coords)
    ensures Fit(FileWords(patches, coords))
  {
    hide EncodeWords, PointWords, Flatten;
    OffsetsFit(patches, TWO64);
  }

  lemma WrittenSections(patches: seq<seq<nat>>, coords: Option<seq<seq<RawPoint>>>)
    requires Shaped(patches, coords)
    ensures Sections(FileWords(patches, coords), Header(|patches|, |Flatten(patches)|, coords.Some?),
                     Offsets(patches), Flatten(patches), FlatPoints(coords))
  {
    hide PointWords, Flatten;
    FlatPointsSize(patches, coords);
    hide FlatPoints;
    FourParts([|patches|, |Flatten(patches)|, 0], Offsets(patches), Flatten(patches), PointWords(FlatPoints(coords)));
  }

  lemma WrittenIsLaid(patches: seq<seq<nat>>, coords: Option<seq<seq<RawPoint>>>)
    requires Storable(patches, coords)
    ensures Laid(Serialise(patches, coords), FileWords(patches, coords), Header(|patches|, |Flatten(patches)|, coords.Some?),
                 Offsets(patches), Flatten(patches), FlatPoints(coords))
  {
    hide EncodeWords, PointWords, Flatten, FileWords, Sections, FlatPoints;
    WordsFit(patches, coords);
    WrittenSections(patches, coords);
  }

  ghost predicate AreStarts<T>(lists: seq<seq<T>>, offs: seq<nat>) {
    |offs| == |lists| + 1 && forall p :: 0 <= p < |offs| ==> offs[p] == Start(lists, p)
  }

  lemma WindowCovers<T>(lists: seq<seq<T>>, offs: seq<nat>, begin: nat, end: nat)
    requires begin <= end <= |lists| && AreStarts(lists, offs)
    ensures offs[begin] <= offs[end] <= |Flatten(lists)|
    ensures Covers(offs[begin..end + 1], Flatten(lists)[offs[begin]..offs[end]])
  {
    StartOfAll(lists);
    hide Flatten, Start;
    var o := offs[begin..end + 1];
    forall i | 0 <= i < |o| - 1 ensures o[i] <= o[i + 1] {
      assert o[i] == Start(lists, begin + i) && o[i + 1] == Start(lists, begin + i + 1);
      StartMonotone(lists, begin + i, begin + i + 1);
    }
    StartMonotone(lists, begin, end);
    StartMonotone(lists, end, |lists|);
    assert o[0] == offs[begin] && o[|o| - 1] == offs[end];
  }

  lemma StartOfAll<T>(lists: seq<seq<T>>)
    ensures Start(lists, |lists|) == |Flatten(lists)|
  {
    assert lists[..|lists|] == lists;
  }

  lemma PieceBack<T>(lists: seq<seq<T>>, offs: seq<nat>, begin: nat, end: nat, p: nat)
    requires begin + p < end <= |lists| && AreStarts(lists, offs)
    requires offs[begin] <= offs[end] <= |Flatten(lists)|
    requires Covers(offs[begin..end + 1], Flatten(lists)[offs[begin]..offs[end]])
    ensures Piece(Flatten(lists)[offs[begin]..offs[end]], offs[begin..end + 1], p) == lists[begin + p]
  {
    var o, q := offs[begin..end + 1], begin + p;
    PieceBounds(Flatten(lists)[offs[begin]..offs[end]], o, p);
    hide Flatten, Start, Covers, Monotone, Piece;
    assert o[0] == offs[begin] && o[p] == offs[q] && o[p + 1] == offs[q + 1];
    assert offs[begin] == Start(lists, begin) && offs[end] == Start(lists, end);
    assert offs[q] == Start(lists, q) && offs[q + 1] == Start(lists, q + 1);
    hide AreStarts;
    FlattenSlice(lists, q);
    StartMonotone(lists, begin, q);
    StartMonotone(lists, q + 1, end);
    SliceOfSlice(Flatten(lists), offs[begin], offs[end], offs[q] - offs[begin], offs[q + 1] - offs[begin]);
  }

  /** Cutting the flat list at the patches' own offsets gives the patches. */
  lemma CutsBack<T>(lists: seq<seq<T>>, offs: seq<nat>, begin: nat, end: nat)
    requires begin <= end <= |lists| && AreStarts(lists, offs)
    ensures offs[begin] <= offs[end] <= |Flatten(lists)|
    ensures Covers(offs[begin..end + 1], Flatten(lists)[offs[begin]..offs[end]])
    ensures CutAt(Flatten(lists)[offs[begin]..offs[end]], offs[begin..end + 1]) == lists[begin..end]
  {
    hide Flatten, Covers, AreStarts, Piece;
    StartsCount(lists, offs);
    WindowCovers(lists, offs, begin, end);
    var parts := CutAt(Flatten(lists)[offs[begin]..offs[end]], offs[begin..end + 1]);
    forall p | 0 <= p < |parts| ensures parts[p] == lists[begin..end][p] {
      PieceBack(lists, offs, begin, end, p);
    }
  }

  lemma StartsCount<T>(lists: seq<seq<T>>, offs: seq<nat>)
    requires AreStarts(lists, offs)
    ensures |offs| == |lists| + 1
  {
  }

  /** Writing, then opening: the header comes back. */
  lemma WriteThenOpen(patches: seq<seq<nat>>, coords: Option<seq<seq<RawPoint>>>)
    requires Storable(patches, coords)
    ensures OpenFile(Serialise(patches, coords)) == Ok(Header(|patches|, |Flatten(patches)|, coords.Some?))
  {
    hide OpenFile, Laid;
    var h := Header(|patches|, |Flatten(patches)|, coords.Some?);
    WrittenIsLaid(patches, coords);
    OpensLaid(Serialise(patches, coords), FileWords(patches, coords), h, Offsets(patches), Flatten(patches), FlatPoints(coords));
    assert patches[..|patches|] == patches && patches[..0] == [];
  }

  /** The slice of the original data a reader of patches begin..end must get. */
  ghost function Expected(patches: seq<seq<nat>>, coords: Option<seq<seq<RawPoint>>>, begin: nat, end: nat): PatchSlice<RawPoint>
    requires Shaped(patches, coords) && begin <= end <= |patches|
  {
    PatchSlice(patches[begin..end], Counting(begin, end - begin), if coords.Some? then coords.value[begin..end] else [])
  }

  /** Writing, then reading any slice: exactly those patches, IDs and coordinates. */
  lemma WriteThenRead(patches: seq<seq<nat>>, coords: Option<seq<seq<RawPoint>>>, begin: nat, end: nat)
    requires Storable(patches, coords) && begin <= end <= |patches|
    ensures ReadSlice(Serialise(patches, coords), Header(|patches|, |Flatten(patches)|, coords.Some?), begin, end)
            == Ok(Expected(patches, coords, begin, end))
  {
    hide ReadSlice, Laid, Flatten, CutAt, Covers, PointWords;
    var h, offs := Header(|patches|, |Flatten(patches)|, coords.Some?), Offsets(patches);
    WrittenIsLaid(patches, coords);
    ReadsSlice(Serialise(patches, coords), FileWords(patches, coords), h, offs, Flatten(patches), FlatPoints(coords), begin, end);
    CutsBack(patches, offs, begin, end);
    CoversMonotone(offs[begin..end + 1], Flatten(patches)[offs[begin]..offs[end]]);
    if coords.Some? {
      forall p | 0 <= p < |offs| ensures offs[p] == Start(coords.value, p) { SameStarts(patches, coords.value, p); }
      CutsBack(coords.value, offs, begin, end);
    }
  }

  lemma CoversMonotone<T>(offs: seq<nat>, flat: seq<T>)
    requires Covers(offs, flat)
    ensures Monotone(offs)
  {
  }

  /** Every rank reads its own part; the parts of all ranks concatenate to what was written. */
  lemma AllRanksReadBack(patches: seq<seq<nat>>, coords: Option<seq<seq<RawPoint>>>, size: nat, slices: seq<PatchSlice<RawPoint>>)
    requires Storable(patches, coords) && size > 0 && |slices| == size
    requires forall r :: 0 <= r < size ==>
      ReadSlice(Serialise(patches, coords), Header(|patches|, |Flatten(patches)|, coords.Some?),
                SplitPoint(|patches|, r, size), SplitPoint(|patches|, r + 1, size)) == Ok(slices[r])
    ensures Flatten(PatchesOf(slices)) == patches
    ensures Flatten(IdsOf(slices)) == Counting(0, |patches|)
    ensures coords.Some? ==> Flatten(CoordsOf(slices)) == coords.value
  {
    hide ReadSlice, Serialise, Storable, Flatten, SplitPoint;
    forall r | 0 <= r < size
      ensures slices[r].patches == Part(patches, r, size)
      ensures |slices[r].globalIds| == SplitPoint(|patches|, r + 1, size) - SplitPoint(|patches|, r, size)
      ensures forall i :: 0 <= i < |slices[r].globalIds| ==> slices[r].globalIds[i] == SplitPoint(|patches|, r, size) + i
      ensures coords.Some? ==> |coords.value| == |patches| && slices[r].coords == Part(coords.value, r, size)
    {
      SplitAscends(|patches|, r, r + 1, size);
      StorableShaped(patches, coords);
      WriteThenRead(patches, coords, SplitPoint(|patches|, r, size), SplitPoint(|patches|, r + 1, size));
    }
    assert PatchesOf(slices) == Parts(patches, size);
    PartsTile(patches, size);
    SplitEnds(|patches|, size);
    SliceIdsCount(|patches|, size, IdsOf(slices), size);
    assert IdsOf(slices)[..size] == IdsOf(slices);
    if coords.Some? {
      StorableShaped(patches, coords);
      assert CoordsOf(slices) == Parts(coords.value, size);
      PartsTile(coords.value, size);
    }
  }

  lemma StorableShaped(patches: seq<seq<nat>>, coords: Option<seq<seq<RawPoint>>>)
    requires Storable(patches, coords)
    ensures Shaped(patches, coords)
  {
  }

  ghost function PatchesOf(slices: seq<PatchSlice<RawPoint>>): (p: seq<seq<seq<nat>>>)
    ensures |p| == |slices| && forall r :: 0 <= r < |p| ==> p[r] == slices[r].patches
  {
    seq(|slices|, r requires 0 <= r < |slices| => slices[r].patches)
  }

  ghost function IdsOf(slices: seq<PatchSlice<RawPoint>>): (p: seq<seq<nat>>)
    ensures |p| == |slices| && forall r :: 0 <= r < |p| ==> p[r] == slices[r].globalIds
  {
    seq(|slices|, r requires 0 <= r < |slices| => slices[r].globalIds)
  }

  ghost function CoordsOf(slices: seq<PatchSlice<RawPoint>>): (p: seq<seq<seq<RawPoint>>>)
    ensures |p| == |slices| && forall r :: 0 <= r < |p| ==> p[r] == slices[r].coords
  {
    seq(|slices|, r requires 0 <= r < |slices| => slices[r].coords)
  }

  // ----- what reads back rewrites ----------------------------------------------

  /** An accepted file is whole words: a magic, three header words, M+1 offsets at least. */
  lemma AcceptedWords(bytes: seq<Byte>, h: Header) returns (w: seq<nat>)
    requires |bytes| < TWO63 && OpenFile(bytes) == Ok(h)
    ensures Holds(bytes, MagicOf(h.hasCoords), w) && |w| >= 3 && w[0] == h.m && w[1] == h.totalK
    ensures SizeAccepted(|bytes|, h)
  {
    hide EncodeWords, DecodeWords;
    AcceptedSize(bytes, h);
    HoldsItself(bytes);
    w := DecodeWords(bytes[8..]);
    ReadsMagic(bytes, bytes[..8], w);
    ReadsWords(bytes, bytes[..8], w, 0, 3);
  }

  lemma AcceptedSize(bytes: seq<Byte>, h: Header)
    requires |bytes| < TWO63 && OpenFile(bytes) == Ok(h)
    ensures SizeAccepted(|bytes|, h) && 32 <= |bytes| && |bytes| % 8 == 0
  {
    hide DecodeWords;
    SectionsWhole(h);
  }

  lemma SectionsWhole(h: Header)
    ensures SectionBytes(h) % TWO64 % 8 == 0
  {
    var whole := 5 + h.m + h.totalK + (if h.hasCoords then 2 * h.totalK else 0);
    assert SectionBytes(h) == 8 * whole;
    assert SectionBytes(h) % TWO64 == 8 * (whole - TWO64 / 8 * (SectionBytes(h) / TWO64));
  }

  /** A file whose size sum wrapped never reads back whole: its coordinates end past the file. */
  lemma WrappedUnreadable(bytes: seq<Byte>, h: Header)
    requires |bytes| < TWO63 && SizeAccepted(|bytes|, h) && SectionBytes(h) != |bytes|
    ensures h.hasCoords && ReadPoints(bytes, h, 0, h.totalK).Err?
  {
    hide DecodeWords, PairUp;
    if !h.hasCoords || |bytes| < WRAP_SIZE || |bytes| % 8 != 0 { HonestBelow(|bytes|, h); }
    assert SectionBytes(h) == |bytes| + TWO64;
    assert 16 * h.totalK > TWO63;
  }

  /** Reading the offsets shows the words the open check looked at. */
  lemma FullOffsets(bytes: seq<Byte>, h: Header, w: seq<nat>)
    requires OpenFile(bytes) == Ok(h) && Holds(bytes, MagicOf(h.hasCoords), w)
    requires h.m < TWO63 && ReadWords(bytes, HEADER_BYTES, h.m + 1).Ok?
    ensures |w| >= 4 + h.m && w[3] == 0 && w[3 + h.m] == h.totalK
    ensures ReadWords(bytes, HEADER_BYTES, h.m + 1) == Ok(w[3..4 + h.m])
  {
    hide EncodeWords, DecodeWords;
    var magic := MagicOf(h.hasCoords);
    ReadsWords(bytes, magic, w, 3, 1);
    ReadsWords(bytes, magic, w, 3 + h.m, 1);
    ReadsWords(bytes, magic, w, 3, h.m + 1);
  }

  /** If every patch reads back, the sections fill the file exactly. */
  lemma FullSliceHonest(bytes: seq<Byte>, h: Header, w: seq<nat>)
    requires |bytes| < TWO63 && OpenFile(bytes) == Ok(h) && Holds(bytes, MagicOf(h.hasCoords), w) && SizeAccepted(|bytes|, h)
    requires ReadSlice(bytes, h, 0, h.m).Ok?
    ensures SectionBytes(h) == |bytes| && |w| >= 4 + h.m && w[3] == 0 && w[3 + h.m] == h.totalK
  {
    hide ReadWords, ReadPoints, OpenFile, EncodeWords, CutAt, Counting, SectionBytes;
    FullOffsets(bytes, h, w);
    var offs := w[3..4 + h.m];
    assert offs[0] == w[3] && offs[h.m] == w[3 + h.m];
    if SectionBytes(h) != |bytes| { WrappedUnreadable(bytes, h); }
  }

  lemma LaysOut(bytes: seq<Byte>, h: Header, w: seq<nat>) returns (offs: seq<nat>, flat: seq<nat>, pts: seq<RawPoint>)
    requires Holds(bytes, MagicOf(h.hasCoords), w) && SectionBytes(h) == |bytes| && |w| >= 2 && w[0] == h.m && w[1] == h.totalK
    ensures Laid(bytes, w, h, offs, flat, pts)
  {
    hide EncodeWords, PointWords, PairUp;
    offs, flat := w[3..4 + h.m], w[4 + h.m..4 + h.m + h.totalK];
    var rest := w[4 + h.m + h.totalK..];
    pts := PairUp(rest);
    PairUpInverse(rest);
  }

  lemma JoinAt<T>(s: seq<T>, i: nat, j: nat)
    requires i <= j <= |s|
    ensures s[..i] + s[i..j] == s[..j]
  {
  }

  lemma {:induction false} CutFlatten<T>(flat: seq<T>, offs: seq<nat>, p: nat)
    requires Covers(offs, flat) && p < |offs|
    ensures offs[0] <= offs[p] <= offs[0] + |flat|
    ensures Flatten(CutAt(flat, offs)[..p]) == flat[..offs[p] - offs[0]]
  {
    OffsetsInside(offs, flat, p);
    if p > 0 {
      MonotoneAscends(offs, p - 1, p);
      hide Flatten, Covers;
      CutFlatten(flat, offs, p - 1);
      FlattenPrefix(CutAt(flat, offs), p - 1);
      JoinAt(flat, offs[p - 1] - offs[0], offs[p] - offs[0]);
    }
  }

  /** Cutting and concatenating again loses nothing, and the starts are the offsets. */
  lemma CutRoundTrip<T>(flat: seq<T>, offs: seq<nat>)
    requires Covers(offs, flat) && offs[0] == 0
    ensures Flatten(CutAt(flat, offs)) == flat
    ensures forall p :: 0 <= p < |offs| ==> offs[p] == Start(CutAt(flat, offs), p)
  {
    hide Flatten, Piece;
    var parts := CutAt(flat, offs);
    forall p | 0 <= p < |offs| ensures offs[p] == Start(parts, p) { CutFlatten(flat, offs, p); }
    CutFlatten(flat, offs, |parts|);
    assert parts[..|parts|] == parts;
  }

  /** What the full slice rewrites to: the same words with the reserved word cleared. */
  lemma RewrittenWords(bytes: seq<Byte>, w: seq<nat>, h: Header, offs: seq<nat>, flat: seq<nat>, pts: seq<RawPoint>)
    requires Laid(bytes, w, h, offs, flat, pts) && Monotone(offs) && offs[0] == 0 && offs[h.m] == h.totalK
    ensures Covers(offs, flat) && (h.hasCoords ==> Covers(offs, pts))
    ensures FileWords(CutAt(flat, offs), if h.hasCoords then Some(CutAt(pts, offs)) else None) == w[2 := 0]
  {
    hide Flatten, PointWords, CutAt, Holds;
    CutRoundTrip(flat, offs);
    var patches := CutAt(flat, offs);
    assert Offsets(patches) == offs;
    if h.hasCoords { CutRoundTrip(pts, offs); }
    RejoinWords(w, h, offs, flat, pts);
  }

  lemma SplitTwo<T>(s: seq<T>, i: nat, j: nat)
    requires i <= j <= |s|
    ensures s[i..] == s[i..j] + s[j..]
  {
  }

  lemma ClearThird(w: seq<nat>)
    requires |w| >= 3
    ensures w[2 := 0] == [w[0], w[1], 0] + w[3..]
  {
  }

  lemma AssociateFour<T>(a: seq<T>, b: seq<T>, c: seq<T>, d: seq<T>)
    ensures a + (b + (c + d)) == a + b + c + d
  {
    Associate(a, b, c + d);
    Associate(a + b, c, d);
  }

  lemma RejoinWords(w: seq<nat>, h: Header, offs: seq<nat>, flat: seq<nat>, pts: seq<RawPoint>)
    requires Sections(w, h, offs, flat, pts)
    ensures w[2 := 0] == [h.m, h.totalK, 0] + offs + flat + PointWords(pts)
  {
    hide PointWords;
    var i, j := 4 + h.m, 4 + h.m + h.totalK;
    ClearThird(w);
    SplitTwo(w, 3, i);
    SplitTwo(w, i, j);
    AssociateFour([h.m, h.totalK, 0], offs, flat, PointWords(pts));
  }

  lemma ClearedWord(magic: seq<Byte>, w: seq<nat>)
    requires |magic| == 8 && |w| >= 3
    ensures var bytes := magic + EncodeWords(w);
            magic + EncodeWords(w[2 := 0]) == bytes[..24] + EncodeLE(0, 8) + bytes[32..]
  {
    var x, z := w[..2], w[3..];
    assert w == x + [w[2]] + z && w[2 := 0] == x + [0] + z;
    EncodeThree(x, [w[2]], z);
    EncodeThree(x, [0], z);
    EncodeOne(0);
    hide EncodeWords, EncodeLE;
    Replaced(magic, EncodeWords(x), EncodeWords([w[2]]), EncodeWords([0]), EncodeWords(z));
  }

  lemma EncodeOne(v: nat)
    ensures EncodeWords([v]) == EncodeLE(v, 8)
  {
    assert [v][..0] == [];
  }

  lemma Replaced(magic: seq<Byte>, a: seq<Byte>, b: seq<Byte>, b': seq<Byte>, c: seq<Byte>)
    requires |magic| == 8 && |a| == 16 && |b| == 8
    ensures var bytes := magic + (a + b + c);
            magic + (a + b' + c) == bytes[..24] + b' + bytes[32..]
  {
    var bytes := magic + (a + b + c);
    assert bytes[..24] == magic + a && bytes[32..] == c;
  }

  /** Any accepted file whose patches all read back rewrites to the same bytes, except that
      the reserved word becomes 0. */
  lemma ReadThenWrite(bytes: seq<Byte>, h: Header, slice: PatchSlice<RawPoint>)
    requires |bytes| < TWO63 && OpenFile(bytes) == Ok(h) && ReadSlice(bytes, h, 0, h.m) == Ok(slice)
    ensures |bytes| >= 32
    ensures Serialise(slice.patches, if h.hasCoords then Some(slice.coords) else None)
            == bytes[..24] + EncodeLE(0, 8) + bytes[32..]
  {
    hide OpenFile, ReadSlice, EncodeWords, PointWords, SizeAccepted, SectionBytes, Sections, CutAt, FileWords, Monotone, Covers;
    var w := AcceptedWords(bytes, h);
    FullSliceHonest(bytes, h, w);
    var offs, flat, pts := LaysOut(bytes, h, w);
    FullSlice(bytes, w, h, offs, flat, pts, slice);
    RewrittenWords(bytes, w, h, offs, flat, pts);
    ClearedWord(MagicOf(h.hasCoords), w);
  }

  lemma FullSlice(bytes: seq<Byte>, w: seq<nat>, h: Header, offs: seq<nat>, flat: seq<nat>, pts: seq<RawPoint>, slice: PatchSlice<RawPoint>)
    requires Laid(bytes, w, h, offs, flat, pts) && ReadSlice(bytes, h, 0, h.m) == Ok(slice)
    requires w[3] == 0 && w[3 + h.m] == h.totalK
    ensures offs[0] == 0 && offs[h.m] == h.totalK && Monotone(offs) && Covers(offs, flat)
    ensures slice.patches == CutAt(flat, offs)
    ensures h.hasCoords ==> Covers(offs, pts) && slice.coords == CutAt(pts, offs)
  {
    hide ReadSlice, EncodeWords, PointWords, CutAt;
    ReadsSlice(bytes, w, h, offs, flat, pts, 0, h.m);
    assert offs[0..h.m + 1] == offs && flat[0..h.totalK] == flat;
    assert h.hasCoords ==> pts[0..h.totalK] == pts;
  }
}
