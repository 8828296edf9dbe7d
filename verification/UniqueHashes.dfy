/** The unique-hash file: a 16-byte header, then every rank's shard of the sorted hashes. */
module UniqueHashes {
  import opened Bytes
  import opened ParallelFile
  import opened PatchSet
  import opened Sequences
  import SampleSort

  const HEADER_BYTES: nat := 16
  const MAGIC: seq<Byte> := [83, 84, 80, 83, 85, 72, 83, 49]

  /** Each rank's shard as bytes. */
  function ShardBytes(shards: seq<seq<nat>>): (b: seq<seq<Byte>>)
    ensures |b| == |shards| && forall r :: 0 <= r < |b| ==> b[r] == EncodeWords(shards[r])
  {
    seq(|shards|, r requires 0 <= r < |shards| => EncodeWords(shards[r]))
  }

  lemma {:induction false} ShardBytesTile(shards: seq<seq<nat>>, r: nat)
    requires r <= |shards|
    ensures Flatten(ShardBytes(shards)[..r]) == EncodeWords(Flatten(shards[..r]))
    ensures Start(ShardBytes(shards), r) == 8 * Start(shards, r)
  {
    hide EncodeWords;
    if r == 0 {
      Empty();
      assert ShardBytes(shards)[..0] == [] && shards[..0] == [];
    } else {
      ShardBytesTile(shards, r - 1);
      FlattenPrefix(ShardBytes(shards), r - 1);
      FlattenPrefix(shards, r - 1);
      EncodeConcat(Flatten(shards[..r - 1]), shards[r - 1]);
    }
  }

  lemma Empty()
    ensures EncodeWords([]) == []
  {
  }

  /** The file the ranks write together: the number of hashes, then all hashes ascending. */
  ghost function HashFile(global: seq<nat>): seq<Byte> {
    MAGIC + EncodeWords([|global|]) + EncodeWords(global)
  }

  /** The file byte by byte: the eight letters, then the number of hashes and every hash, lowest
      byte first. */
  lemma HashFileBytes(global: seq<nat>)
    ensures |HashFile(global)| == 16 + 8 * |global|
    ensures HashFile(global)[..8] == [83, 84, 80, 83, 85, 72, 83, 49]
    ensures forall i :: 0 <= i < 8 ==> HashFile(global)[8 + i] == (|global| / Pow256(i)) % 256
    ensures forall j, i :: 0 <= j < |global| && 0 <= i < 8 ==> HashFile(global)[16 + 8 * j + i] == (global[j] / Pow256(i)) % 256
  {
    hide EncodeWords, Pow256;
    forall i | 0 <= i < 8 ensures HashFile(global)[8 + i] == (|global| / Pow256(i)) % 256 { WordByte([|global|], 0, i); }
    forall j, i | 0 <= j < |global| && 0 <= i < 8 ensures HashFile(global)[16 + 8 * j + i] == (global[j] / Pow256(i)) % 256 {
      WordByte(global, j, i);
    }
  }

  method WriteUniqueHashShards(file: SharedFile, outs: seq<IdMappedPatches>, ghost raw: seq<seq<seq<nat>>>) returns (outcomes: seq<Outcome>)
    requires |raw| > 0 && IsMapped(raw, outs)
    modifies file
    ensures |outcomes| == |raw| && (AllReturned(outcomes) || AllThrew(outcomes)) && old(file.calls) <= file.calls
    ensures AllReturned(outcomes) <==> forall c :: |old(file.calls)| <= c < |file.calls| ==> file.calls[c].ok
    ensures AllReturned(outcomes) ==> file.content == HashFile(GlobalHashes(Flatten(raw)))
  {
    hide EncodeWords, Flatten, GlobalHashes;
    ghost var global := GlobalHashes(Flatten(raw));
    var n, shards := outs[0].n, Shards(outs);
    var head, datas := MAGIC + EncodeWords([n]), ShardBytes(shards);
    var offsets: seq<nat> := seq(|outs|, r requires 0 <= r < |outs| => HEADER_BYTES + outs[r].shardStart * 8);
    forall r | 0 <= r < |outs| ensures offsets[r] == |head| + Start(datas, r) { ShardBytesTile(shards, r); }
    ShardBytesTile(shards, |shards|);
    assert datas[..|datas|] == datas && shards[..|shards|] == shards;
    ghost var errors;
    outcomes, errors := WriteSharedFile(file, head, datas, offsets, HEADER_BYTES + n * 8);
  }

  /** Map the hashes, then write the shards: for any number of ranks the same file. */
  method WriteUniqueHashesFile(file: SharedFile, raw: seq<seq<seq<nat>>>) returns (n: nat, outcomes: seq<Outcome>)
    requires |raw| > 0
    modifies file
    ensures n == |GlobalHashes(Flatten(raw))|
    ensures |outcomes| == |raw| && (AllReturned(outcomes) || AllThrew(outcomes)) && old(file.calls) <= file.calls
    ensures AllReturned(outcomes) <==> forall c :: |old(file.calls)| <= c < |file.calls| ==> file.calls[c].ok
    ensures AllReturned(outcomes) ==> file.content == HashFile(GlobalHashes(Flatten(raw)))
  {
    var outs := SampleSort.MapHashesToElementIds(raw);
    outcomes := WriteUniqueHashShards(file, outs, raw);
    n := outs[0].n;
  }

  /** The file says how many hashes it holds and reads back as the sorted distinct hashes. */
  lemma HashFileReadsBack(global: seq<nat>)
    requires Fit(global) && |global| < TWO64
    ensures |HashFile(global)| == HEADER_BYTES + 8 * |global|
    ensures HashFile(global)[..8] == MAGIC
    ensures DecodeWords(HashFile(global)[8..16]) == [|global|]
    ensures DecodeWords(HashFile(global)[16..]) == global
  {
    hide EncodeWords, DecodeWords;
    var count := [|global|];
    DecodeEncodeWords(count);
    DecodeEncodeWords(global);
    var f := HashFile(global);
    assert f[8..16] == EncodeWords(count) && f[16..] == EncodeWords(global);
  }
}
