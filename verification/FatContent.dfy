/** Files as flat byte sequences: what a read returns, what a write leaves, and how the directory entry
    records it. These are the specifications the FAT32 file operations are proved against. */
module FatContent {
  import opened Bytes
  import opened FatLayout
  import opened FatChains

  function Max(a: nat, b: nat): nat { if a < b then b else a }

  function Min(a: nat, b: nat): nat { if a < b then a else b }

  /** What reading `n` bytes at `offset` yields; short at the end of the file, empty behind it. */
  function ReadSpec(content: seq<byte>, offset: nat, n: nat): (r: seq<byte>)
  {
    if offset >= |content| then [] else content[offset..Min(offset + n, |content|)]
  }

  lemma ReadPrefix(bytes: seq<byte>, size: nat, offset: nat, n: nat)
    requires size <= |bytes|
    ensures ReadSpec(bytes[..size], offset, n) ==
            if offset >= size then []
            else if offset + n > size then bytes[offset..offset + (size - offset)] else bytes[offset..offset + n]
  {
  }

  /** The content zero-filled up to `offset` if it is shorter, then overwritten by `w`. */
  function WriteSpec(content: seq<byte>, offset: nat, w: seq<byte>): (r: seq<byte>)
    ensures |r| == Max(|content|, offset + |w|)
  {
    Overlay(content + Zeros(Max(|content|, offset + |w|) - |content|), offset, w)
  }

  /** The 32-bit size field after a write ending at `end`. */
  function SizeAfter(size: nat, end: nat): (r: nat)
    ensures r <= Max(size, end) && (size < TWO32 ==> r < TWO32)
  {
    if end > size then end % TWO32 else size
  }

  /** The chain bytes behind the end of the file are zero. */
  ghost predicate TailZero(bytes: seq<byte>, size: nat) {
    forall i | size <= i < |bytes| :: bytes[i] == 0
  }

  /** The chain bytes of a file after `k` zeroed clusters' worth of growth and a write of `w` at `offset`. */
  ghost function Written(bytes: seq<byte>, grown: nat, offset: nat, w: seq<byte>): (r: seq<byte>)
    requires |bytes| <= grown && offset + |w| <= grown
    ensures |r| == grown
  {
    Overlay(bytes + Zeros(grown - |bytes|), offset, w)
  }

  /** A chain-level write is the flat write, and keeps the tail zero, when the tail was zero. */
  lemma WriteRefines(bytes: seq<byte>, size: nat, grown: nat, offset: nat, w: seq<byte>)
    requires size <= |bytes| <= grown && offset + |w| <= grown
    requires TailZero(bytes, size)
    ensures var bytes' := Written(bytes, grown, offset, w);
            var size' := Max(size, offset + |w|);
            bytes'[..size'] == WriteSpec(bytes[..size], offset, w) && TailZero(bytes', size')
  {
  }

  /** Exactly the bytes between the old end and the write position decide: the write gives the flat result
      if and only if those that lay in the old chain were zero. */
  lemma WriteRefinesIff(bytes: seq<byte>, size: nat, grown: nat, offset: nat, w: seq<byte>)
    requires size <= |bytes| <= grown && offset + |w| <= grown
    ensures var bytes' := Written(bytes, grown, offset, w);
            var size' := Max(size, offset + |w|);
            bytes'[..size'] == WriteSpec(bytes[..size], offset, w)
            <==> forall i | size <= i < Min(offset, |bytes|) :: bytes[i] == 0
  {
    var bytes' := Written(bytes, grown, offset, w);
    var size' := Max(size, offset + |w|);
    var spec := WriteSpec(bytes[..size], offset, w);
    forall i | size <= i < Min(offset, |bytes|)
      ensures bytes'[..size'][i] == bytes[i] && spec[i] == 0
    {
    }
  }

  /** What a read returns and what a write leaves, byte by byte. */
  lemma ByteByByte(content: seq<byte>, offset: nat, n: nat, w: seq<byte>)
    ensures var r := ReadSpec(content, offset, n);
            && (forall i | 0 <= i < |r| :: offset + i < |content| && r[i] == content[offset + i])
            && |r| <= n && (|r| < n ==> offset + |r| >= |content|)
    ensures var c := WriteSpec(content, offset, w);
            && |c| == (if |content| < offset + |w| then offset + |w| else |content|)
            && forall i | 0 <= i < |c| ::
                 c[i] == if offset <= i < offset + |w| then w[i - offset] else if i < |content| then content[i] else 0
  {
  }

  /** Reading back what was just written returns it, and reading elsewhere returns the zero-filled old content. */
  lemma ReadAfterWrite(content: seq<byte>, offset: nat, w: seq<byte>, at: nat, n: nat)
    ensures ReadSpec(WriteSpec(content, offset, w), offset, |w|) == w
    ensures at + n <= offset ==>
              ReadSpec(WriteSpec(content, offset, w), at, n)
              == ReadSpec(content + Zeros(Max(|content|, offset) - |content|), at,
                  Min(n, |WriteSpec(content, offset, w)|))
    ensures offset + |w| <= at ==> ReadSpec(WriteSpec(content, offset, w), at, n) == ReadSpec(content, at, n)
  {
  }

  // ----- the 32-byte directory entry -----

  function Le16(v: nat): (r: seq<byte>)
    requires v < 65536
    ensures |r| == 2
  {
    [v % 256, v / 256]
  }

  function FromLe16(s: seq<byte>): nat
    requires |s| == 2
  {
    var b: seq<int> := s;
    b[0] + 256 * b[1]
  }

  /** The directory bytes with the entry at `off` patched: high cluster half at 20, low half at 26, size at 28. */
  function PutDirent(dir: seq<byte>, off: nat, start: nat, size: nat): (r: seq<byte>)
    requires off + 32 <= |dir| && start < TWO32 && size < TWO32
    ensures |r| == |dir|
  {
    Overlay(Overlay(Overlay(dir, off + 28, Le32(size)), off + 20, Le16(start / 65536)), off + 26, Le16(start % 65536))
  }

  function DirentCluster(dir: seq<byte>, off: nat): nat
    requires off + 32 <= |dir|
  {
    FromLe16(dir[off + 20..off + 22]) * 65536 + FromLe16(dir[off + 26..off + 28])
  }

  function DirentSize(dir: seq<byte>, off: nat): nat
    requires off + 32 <= |dir|
  {
    FromLe32(dir[off + 28..off + 32])
  }

  /** The patched entry reads back as what was stored; every other byte, so every other entry, is unchanged. */
  lemma DirentRoundTrip(dir: seq<byte>, off: nat, start: nat, size: nat)
    requires off + 32 <= |dir| && start < TWO32 && size < TWO32
    ensures var dir' := PutDirent(dir, off, start, size);
            && DirentCluster(dir', off) == start && DirentSize(dir', off) == size
            && dir'[off..off + 20] == dir[off..off + 20]
            && (forall i | 0 <= i < |dir| && !(off <= i < off + 32) :: dir'[i] == dir[i])
  {
    var dir' := PutDirent(dir, off, start, size);
    assert dir'[off + 28..off + 32] == Le32(size);
    assert dir'[off + 20..off + 22] == Le16(start / 65536);
    assert dir'[off + 26..off + 28] == Le16(start % 65536);
    Le32RoundTrip(size);
  }

  /** Where an entry keeps its first cluster and its size. */
  lemma DirentLayout(dir: seq<byte>, off: nat)
    requires off + 32 <= |dir|
    ensures DirentCluster(dir, off) == dir[off + 26] as int + 0x100 * dir[off + 27] as int
            + 0x1_0000 * dir[off + 20] as int + 0x100_0000 * dir[off + 21] as int
    ensures DirentSize(dir, off) == dir[off + 28] as int + 0x100 * dir[off + 29] as int
            + 0x1_0000 * dir[off + 30] as int + 0x100_0000 * dir[off + 31] as int
  {
    var lo, hi, s := dir[off + 26..off + 28], dir[off + 20..off + 22], dir[off + 28..off + 32];
    assert lo[0] == dir[off + 26] && lo[1] == dir[off + 27] && hi[0] == dir[off + 20] && hi[1] == dir[off + 21];
    assert s[0] == dir[off + 28] && s[1] == dir[off + 29] && s[2] == dir[off + 30] && s[3] == dir[off + 31];
  }

  /** Patching inside one cluster of the directory is patching the directory. */
  lemma PatchInCluster(dir: seq<byte>, at: nat, n: nat, off: nat, start: nat, size: nat)
    requires at + n <= |dir| && off + 32 <= n && start < TWO32 && size < TWO32
    ensures Overlay(dir, at, PutDirent(dir[at..at + n], off, start, size)) == PutDirent(dir, at + off, start, size)
  {
  }

  // ----- position arithmetic -----

  /** The position of an offset: which cluster of the chain, and where in it. */
  function ClusterIndex(offset: nat, n: nat): nat
    requires n > 0
  {
    offset / n
  }

  function InCluster(offset: nat, n: nat): (r: nat)
    requires n > 0
    ensures r < n && r <= offset
  {
    offset % n
  }

  /** An offset inside the flat bytes lies in the cluster that division finds. */
  lemma Locate(data: seq<seq<byte>>, ch: seq<nat>, n: nat, offset: nat)
    requires Sized(data, ch, n) && n > 0
    ensures offset < |Flat(data, ch)| <==> ClusterIndex(offset, n) < |ch|
    ensures Starts(offset - InCluster(offset, n), ClusterIndex(offset, n), n)
  {
    var q := offset / n;
    assert offset == q * n + offset % n;
    FlatLength(data, ch, n);
    if q < |ch| { NextCluster(q, |ch|, n); } else { MulMono(|ch|, q, n); }
  }

  /** How many clusters of `n` bytes hold `end` bytes. */
  function Needed(end: nat, n: nat): nat
    requires n > 0
  {
    (end + n - 1) / n
  }

  /** The clusters up to `end` can be counted in 32 bits. */
  predicate InReach(end: nat, n: nat) { end <= (TWO32 - 1) * n }

  lemma NeededIff(end: nat, n: nat, k: nat)
    requires n > 0
    ensures end <= k * n <==> Needed(end, n) <= k
  {
    var q := Needed(end, n);
    assert end + n - 1 == q * n + (end + n - 1) % n;
    if q <= k { MulMono(q, k, n); } else { NextCluster(k, q, n); }
  }

  /** The 32-bit count of clusters that a write compares is the right one exactly in reach; beyond it is too small. */
  lemma ReachIff(end: nat, n: nat)
    requires n > 0
    ensures Needed(end, n) % TWO32 == Needed(end, n) <==> InReach(end, n)
    ensures !InReach(end, n) ==> Needed(end, n) % TWO32 < Needed(end, n)
  {
    NeededIff(end, n, TWO32 - 1);
  }

  /** `base` is where cluster `j` of a chain of `n`-byte clusters starts in the flat bytes. */
  ghost predicate Starts(base: nat, j: nat, n: nat) {
    base == j * n
  }

  lemma StartsZero(n: nat)
    ensures Starts(0, 0, n)
  {
  }

  lemma StartsNext(base: nat, j: nat, n: nat)
    requires Starts(base, j, n)
    ensures Starts(base + n, j + 1, n)
  {
  }

  lemma StartsEnd(data: seq<seq<byte>>, ch: seq<nat>, n: nat, base: nat, j: nat)
    requires Sized(data, ch, n) && Starts(base, j, n) && n > 0
    ensures base == |Flat(data, ch)| <==> j == |ch|
    ensures base < |Flat(data, ch)| <==> j < |ch|
  {
    FlatLength(data, ch, n);
    if j < |ch| { NextCluster(j, |ch|, n); }
    if j > |ch| { NextCluster(|ch|, j, n); }
  }

  /** A piece of cluster `j` is a piece of the flat bytes. */
  lemma FlatPiece(data: seq<seq<byte>>, ch: seq<nat>, n: nat, base: nat, j: nat, off: nat, k: nat)
    requires Sized(data, ch, n) && j < |ch| && off + k <= n && Starts(base, j, n)
    ensures base + n <= |Flat(data, ch)|
    ensures Flat(data, ch)[base + off..base + off + k] == data[ch[j]][off..off + k]
  {
    FlatAt(data, ch, n, j);
    var f := Flat(data, ch);
    assert f[base..base + n][off..off + k] == f[base + off..base + off + k];
  }

  /** A piece written into cluster `j` is the same piece written into the flat bytes. */
  lemma FlatPutPiece(data: seq<seq<byte>>, ch: seq<nat>, n: nat, base: nat, j: nat, off: nat, w: seq<byte>)
    requires Sized(data, ch, n) && j < |ch| && off + |w| <= n && Starts(base, j, n)
    requires forall a, b | 0 <= a < b < |ch| :: ch[a] != ch[b]
    ensures base + n <= |Flat(data, ch)|
    ensures Flat(data[ch[j] := Overlay(data[ch[j]], off, w)], ch) == Overlay(Flat(data, ch), base + off, w)
  {
    FlatAt(data, ch, n, j);
    FlatPut(data, ch, n, j, Overlay(data[ch[j]], off, w));
    var f := Flat(data, ch);
    assert Overlay(f, base, Overlay(f[base..base + n], off, w)) == Overlay(f, base + off, w);
  }

  /** Patching an entry inside cluster `j` of a directory patches it in the directory's flat bytes. */
  lemma PatchCluster(data: seq<seq<byte>>, ch: seq<nat>, n: nat, base: nat, j: nat, off: nat, start: nat, size: nat)
    requires Sized(data, ch, n) && j < |ch| && off + 32 <= n && Starts(base, j, n)
    requires forall a, b | 0 <= a < b < |ch| :: ch[a] != ch[b]
    requires start < TWO32 && size < TWO32
    ensures base + n <= |Flat(data, ch)|
    ensures Flat(data[ch[j] := PutDirent(data[ch[j]], off, start, size)], ch)
            == PutDirent(Flat(data, ch), base + off, start, size)
  {
    FlatAt(data, ch, n, j);
    FlatPut(data, ch, n, j, PutDirent(data[ch[j]], off, start, size));
    PatchInCluster(Flat(data, ch), base, n, off, start, size);
  }

  /** Entry slots do not straddle clusters. */
  lemma SlotInCluster(offset: nat, n: nat)
    requires n > 0 && n % 32 == 0 && offset % 32 == 0
    ensures InCluster(offset, n) + 32 <= n
  {
    var k, m, q, r := n / 32, offset / 32, offset / n, InCluster(offset, n);
    assert offset == q * n + r;
    Times32(q, k);
    assert r == 32 * (m - q * k);
  }

  lemma Times32(q: nat, k: nat)
    ensures q * (32 * k) == 32 * (q * k)
  {
  }
}
