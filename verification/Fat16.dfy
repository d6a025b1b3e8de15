/** Reading a file of a FAT16 volume: walking its cluster chain, and reading bytes from
    any position of it. */
module Fat16 {
  import opened Bits
  import opened DiskStreams

  /** A lookup in the file allocation table: the 16-bit entry of a cluster. */
  type Entry16 = e: int | 0 <= e < 0x1_0000
  type Lookup = nat -> Entry16

  /** Cluster number and position in the cluster of a file offset. */
  function Quot(x: nat, size: nat): nat
    requires size > 0
  {
    x / size
  }

  function Rem(x: nat, size: nat): (r: nat)
    requires size > 0
    ensures r < size
  {
    x % size
  }

  /** Where the data region ends up on the disk, and the size of its clusters. */
  datatype Volume = Volume(endSector: nat, sectorsPerCluster: nat) {
    /** Clusters have a size, and even the reserved cluster numbers 0 and 1 lie on the disk. */
    predicate Valid() {
      0 < sectorsPerCluster <= 255 && 2 * sectorsPerCluster <= endSector
    }

    function ClusterSize(): nat {
      512 * sectorsPerCluster
    }

    /** Byte position of the first sector of a cluster. */
    function ClusterPos(cluster: nat): nat
      requires Valid()
    {
      512 * (endSector - 2 * sectorsPerCluster) + 512 * (sectorsPerCluster * cluster)
    }

    /** `fat16_cluster_to_start_sector`. */
    function StartSector(cluster: nat): int {
      endSector + (cluster - 2) * sectorsPerCluster
    }

    /** Clusters 2, 3, and so on tile the data region from its first sector on. */
    lemma ClustersTile(x: nat)
      requires Valid()
      ensures ClusterPos(2 + Quot(x, ClusterSize())) + Rem(x, ClusterSize()) == 512 * endSector + x
    {
      var s, q := sectorsPerCluster, x / ClusterSize();
      assert s * (2 + q) == 2 * s + s * q;
      assert 512 * (s * q) == ClusterSize() * q;
    }

    lemma StartSectorPos(cluster: nat)
      requires Valid()
      ensures 512 * StartSector(cluster) == ClusterPos(cluster)
    {
    }
  }

  /** Free, reserved, bad or end-of-chain. */
  predicate Ends(e: Entry16) {
    e == 0 || e >= 0xFFF0
  }

  /** Cluster number `k` of the chain from `c`: the k-fold lookup. */
  function Iterate(fat: Lookup, c: nat, k: nat): nat {
    if k == 0 then c else fat(Iterate(fat, c, k - 1))
  }

  /** None of the first `k` lookups ends the chain. */
  ghost predicate Reaches(fat: Lookup, c: nat, k: nat) {
    forall i: nat | i < k :: !Ends(fat(Iterate(fat, c, i)))
  }

  /** `cs` is stored as a chain: each cluster's entry is the number of the next, the last
      one's is none of the numbers 1 .. 0xFFEF that a next cluster can have. */
  ghost predicate StoredChain(fat: Lookup, cs: seq<nat>) {
    && cs != [] && !(1 <= fat(cs[|cs| - 1]) <= 0xFFEF)
    && forall i: nat | i + 1 < |cs| :: LinkStored(fat, cs, i)
  }

  predicate LinkStored(fat: Lookup, cs: seq<nat>, i: nat)
    requires i + 1 < |cs|
  {
    fat(cs[i]) == cs[i + 1] && 1 <= cs[i + 1] <= 0xFFEF
  }

  lemma {:induction false} ChainStep(fat: Lookup, cs: seq<nat>, k: nat)
    requires StoredChain(fat, cs) && k < |cs|
    ensures Reaches(fat, cs[0], k) && Iterate(fat, cs[0], k) == cs[k]
  {
    if k > 0 {
      ChainStep(fat, cs, k - 1);
      assert LinkStored(fat, cs, k - 1);
    }
  }

  /** The walk finds the clusters of a stored chain one by one, and nothing behind them. */
  lemma ChainWalked(fat: Lookup, cs: seq<nat>, k: nat)
    requires StoredChain(fat, cs)
    ensures Reaches(fat, cs[0], k) <==> k < |cs|
    ensures k < |cs| ==> Iterate(fat, cs[0], k) == cs[k]
  {
    hide Iterate;
    if k < |cs| {
      ChainStep(fat, cs, k);
    } else {
      ChainStep(fat, cs, |cs| - 1);
      assert Ends(fat(Iterate(fat, cs[0], |cs| - 1)));
    }
  }

  /** Byte `x` of the file: its clusters laid end to end. */
  function FileByte(vol: Volume, data: nat -> Byte, fat: Lookup, c: nat, x: nat): Byte
    requires vol.Valid()
  {
    data(vol.ClusterPos(Iterate(fat, c, Quot(x, vol.ClusterSize()))) + Rem(x, vol.ClusterSize()))
  }

  /** Bytes offset .. offset+n-1 of the file. */
  function FileSlice(vol: Volume, data: nat -> Byte, fat: Lookup, c: nat, offset: nat, n: nat): (s: seq<Byte>)
    requires vol.Valid()
    ensures |s| == n
    ensures forall i | 0 <= i < n :: s[i] == FileByte(vol, data, fat, c, offset + i)
  {
    Slice(Disk((x: nat) => FileByte(vol, data, fat, c, x), true), offset, n)
  }

  /** The disk position at which the read of file offset `offset` starts. */
  function ReadPos(vol: Volume, fat: Lookup, c: nat, offset: nat): nat
    requires vol.Valid()
  {
    vol.ClusterPos(Iterate(fat, c, Quot(offset, vol.ClusterSize()))) + Rem(offset, vol.ClusterSize())
  }

  datatype Option<T> = None | Some(value: T)

  /** What `fat16_read_internal` reads: one piece of at most a cluster, then the rest. */
  ghost function ReadResult(vol: Volume, data: nat -> Byte, fat: Lookup, c: nat, offset: nat, n: nat)
    : (r: Option<seq<Byte>>)
    requires vol.Valid()
    ensures r.Some? ==> |r.value| == n
    decreases n
  {
    var size := vol.ClusterSize();
    var k := if n > size then size else n;
    if !Reaches(fat, c, Quot(offset, size)) then None
    else
      var piece := Slice(Disk(data, true), ReadPos(vol, fat, c, offset), k);
      if n == k then Some(piece)
      else
        var rest := ReadResult(vol, data, fat, c, offset + k, n - k);
        if rest.None? then None else Some(piece + rest.value)
  }

  // ------------------------------------------------------------------
  // When the read is right.
  // ------------------------------------------------------------------

  /** The read starts at a cluster boundary, or stays inside one cluster. */
  predicate Supported(vol: Volume, offset: nat, n: nat)
    requires vol.Valid()
  {
    Rem(offset, vol.ClusterSize()) == 0 || Rem(offset, vol.ClusterSize()) + n <= vol.ClusterSize()
  }

  lemma SameCluster(offset: nat, size: nat, i: nat)
    requires size > 0 && Rem(offset, size) + i < size
    ensures Quot(offset + i, size) == Quot(offset, size) && Rem(offset + i, size) == Rem(offset, size) + i
  {
    DivModUnique(offset + i, size, offset / size, offset % size + i);
  }

  lemma NextCluster(offset: nat, size: nat)
    requires size > 0
    ensures Quot(offset + size, size) == Quot(offset, size) + 1 && Rem(offset + size, size) == Rem(offset, size)
  {
    DivModUnique(offset + size, size, offset / size + 1, offset % size);
  }

  /** A piece that stays inside its cluster is that part of the file. */
  lemma PieceIsSlice(vol: Volume, data: nat -> Byte, fat: Lookup, c: nat, offset: nat, k: nat)
    requires vol.Valid() && Rem(offset, vol.ClusterSize()) + k <= vol.ClusterSize()
    ensures Slice(Disk(data, true), ReadPos(vol, fat, c, offset), k) == FileSlice(vol, data, fat, c, offset, k)
  {
    hide Quot, Rem, Iterate, Slice, FileSlice;
    forall i | 0 <= i < k
      ensures Slice(Disk(data, true), ReadPos(vol, fat, c, offset), k)[i] == FileByte(vol, data, fat, c, offset + i)
    {
      SameCluster(offset, vol.ClusterSize(), i);
    }
  }

  lemma FileSlicesJoin(vol: Volume, data: nat -> Byte, fat: Lookup, c: nat, offset: nat, a: nat, b: nat)
    requires vol.Valid()
    ensures FileSlice(vol, data, fat, c, offset, a) + FileSlice(vol, data, fat, c, offset + a, b)
            == FileSlice(vol, data, fat, c, offset, a + b)
  {
    var l := FileSlice(vol, data, fat, c, offset, a) + FileSlice(vol, data, fat, c, offset + a, b);
    var r := FileSlice(vol, data, fat, c, offset, a + b);
    forall i | 0 <= i < a + b
      ensures l[i] == r[i]
    {
      if i >= a {
        assert offset + a + (i - a) == offset + i;
      }
    }
  }

  /** On supported reads, whatever is read successfully is the file. */
  lemma {:induction false} SupportedReadsFile(vol: Volume, data: nat -> Byte, fat: Lookup, c: nat, offset: nat, n: nat)
    requires vol.Valid() && Supported(vol, offset, n)
    ensures var r := ReadResult(vol, data, fat, c, offset, n);
            r.Some? ==> r.value == FileSlice(vol, data, fat, c, offset, n)
    decreases n
  {
    hide FileSlice, Slice, FileByte, Iterate, Reaches, Quot, Rem, ReadPos;
    var size := vol.ClusterSize();
    var k := if n > size then size else n;
    PieceIsSlice(vol, data, fat, c, offset, k);
    if n > k {
      NextCluster(offset, size);
      SupportedReadsFile(vol, data, fat, c, offset + k, n - k);
      FileSlicesJoin(vol, data, fat, c, offset, k, n - k);
    }
  }

  lemma ReachesFurther(fat: Lookup, c: nat, j: nat, k: nat)
    requires j <= k && Reaches(fat, c, k)
    ensures Reaches(fat, c, j)
  {
  }

  /** A read succeeds exactly when the chain reaches the cluster its last piece starts in,
      one further on for every whole cluster read before. */
  lemma {:induction false} SuccessExact(vol: Volume, data: nat -> Byte, fat: Lookup, c: nat, offset: nat, n: nat)
    requires vol.Valid() && n > 0
    ensures ReadResult(vol, data, fat, c, offset, n).Some? <==>
            Reaches(fat, c, Quot(offset, vol.ClusterSize()) + Quot(n - 1, vol.ClusterSize()))
    decreases n
  {
    hide Slice, Iterate, Reaches, Quot, Rem, ReadPos;
    var size := vol.ClusterSize();
    var last := Quot(offset, size) + Quot(n - 1, size);
    QuotZero(n - 1, size);
    if n > size {
      SuccessExact(vol, data, fat, c, offset + size, n - size);
      NextCluster(offset, size);
      NextCluster(n - size - 1, size);
      if Reaches(fat, c, last) {
        ReachesFurther(fat, c, Quot(offset, size), last);
      }
    }
  }

  /** On a supported range that is the cluster of the last byte. */
  lemma SupportedSucceeds(vol: Volume, data: nat -> Byte, fat: Lookup, c: nat, offset: nat, n: nat)
    requires vol.Valid() && Supported(vol, offset, n) && n > 0
    ensures ReadResult(vol, data, fat, c, offset, n).Some? <==> Reaches(fat, c, Quot(offset + n - 1, vol.ClusterSize()))
  {
    hide ReadResult, Reaches;
    var size := vol.ClusterSize();
    SuccessExact(vol, data, fat, c, offset, n);
    if Rem(offset, size) == 0 {
      DivModUnique(offset + n - 1, size, offset / size + (n - 1) / size, (n - 1) % size);
    } else {
      SameCluster(offset, size, n - 1);
      QuotZero(n - 1, size);
    }
  }

  // ------------------------------------------------------------------
  // When it is not.
  // ------------------------------------------------------------------

  /** Every successful read of the range, on every disk and table, is the file. */
  ghost predicate AlwaysReadsFile(vol: Volume, c: nat, offset: nat, n: nat)
    requires vol.Valid()
  {
    forall data: nat -> Byte, fat: Lookup ::
      ReadResult(vol, data, fat, c, offset, n).Some? ==>
      ReadResult(vol, data, fat, c, offset, n).value == FileSlice(vol, data, fat, c, offset, n)
  }

  /** A table whose every entry is `e`. */
  function Constant(e: Entry16): Lookup {
    (_: nat) => e
  }

  lemma {:induction false} ConstantReaches(e: Entry16, c: nat, k: nat)
    requires !Ends(e)
    ensures Reaches(Constant(e), c, k)
    ensures Iterate(Constant(e), c, k) == if k == 0 then c else e
  {
    if k > 0 {
      ConstantReaches(e, c, k - 1);
    }
  }

  lemma {:induction false} ConstantSucceeds(vol: Volume, data: nat -> Byte, e: Entry16, c: nat, offset: nat, n: nat)
    requires vol.Valid() && !Ends(e)
    ensures ReadResult(vol, data, Constant(e), c, offset, n).Some?
    decreases n
  {
    hide Slice, Iterate, Reaches, Quot, Rem, ReadPos, Constant;
    var size := vol.ClusterSize();
    var k := if n > size then size else n;
    ConstantReaches(e, c, Quot(offset, size));
    if n > k {
      ConstantSucceeds(vol, data, e, c, offset + k, n - k);
    }
  }

  /** One byte of the disk set, all others clear. */
  function OneByte(x: nat): nat -> Byte {
    (a: nat) => if a == x then 1 else 0
  }

  /** Byte `o` of the first piece comes from the disk position of its start plus `o`. */
  lemma PieceByte(vol: Volume, data: nat -> Byte, fat: Lookup, c: nat, offset: nat, n: nat, o: nat)
    requires vol.Valid() && o < n && o < vol.ClusterSize() && ReadResult(vol, data, fat, c, offset, n).Some?
    ensures ReadResult(vol, data, fat, c, offset, n).value[o] == data(ReadPos(vol, fat, c, offset) + o)
  {
    hide Iterate, Reaches, Quot, Rem, ReadPos, Slice;
  }

  lemma BoundaryByte(offset: nat, size: nat)
    requires size > 0
    ensures Quot(offset + (size - Rem(offset, size)), size) == Quot(offset, size) + 1
    ensures Rem(offset + (size - Rem(offset, size)), size) == 0
  {
    DivModUnique(offset + (size - offset % size), size, offset / size + 1, 0);
  }

  lemma ClustersApart(vol: Volume, a: nat, b: nat)
    requires vol.Valid() && a != b
    ensures vol.ClusterPos(a) != vol.ClusterPos(b)
  {
    var s := vol.sectorsPerCluster;
    if a < b { MulAtLeast(b - a, s); } else { MulAtLeast(a - b, s); }
    assert s * b - s * a == s * (b - a) && s * a - s * b == s * (a - b);
  }

  lemma ClusterBehind(vol: Volume, a: nat)
    requires vol.Valid()
    ensures vol.ClusterPos(a) + vol.ClusterSize() == vol.ClusterPos(a + 1)
  {
    assert vol.sectorsPerCluster * (a + 1) == vol.sectorsPerCluster * a + vol.sectorsPerCluster;
  }

  /** A read that starts inside a cluster and leaves it takes its bytes from the disk
      right behind the cluster, not from the next cluster of the chain. */
  lemma UnsupportedMisreads(vol: Volume, c: nat, offset: nat, n: nat)
    requires vol.Valid() && !Supported(vol, offset, n)
    ensures !AlwaysReadsFile(vol, c, offset, n)
  {
    hide Iterate, Reaches, Quot, Rem, FileSlice, ReadResult;
    var q := Quot(offset, vol.ClusterSize());
    var e: Entry16 := if c == 1 then 3 else 2;
    var fat := Constant(e);
    ConstantReaches(e, c, q);
    ConstantReaches(e, c, q + 1);
    ConstantSucceeds(vol, OneByte(vol.ClusterPos(Iterate(fat, c, q) + 1)), e, c, offset, n);
    GapByte(vol, fat, c, offset, n);
  }

  /** The read is right for every disk and table exactly on the supported ranges. */
  lemma ReadExact(vol: Volume, c: nat, offset: nat, n: nat)
    requires vol.Valid()
    ensures AlwaysReadsFile(vol, c, offset, n) <==> Supported(vol, offset, n)
  {
    hide ReadResult, FileSlice, Supported;
    if Supported(vol, offset, n) {
      forall data: nat -> Byte, fat: Lookup | ReadResult(vol, data, fat, c, offset, n).Some?
        ensures ReadResult(vol, data, fat, c, offset, n).value == FileSlice(vol, data, fat, c, offset, n)
      {
        SupportedReadsFile(vol, data, fat, c, offset, n);
      }
    } else {
      UnsupportedMisreads(vol, c, offset, n);
    }
  }

  // ------------------------------------------------------------------
  // One given table.
  // ------------------------------------------------------------------

  /** The next cluster of the chain is the next cluster of the disk. */
  predicate Adjacent(fat: Lookup, c: nat, j: nat) {
    Iterate(fat, c, j + 1) == Iterate(fat, c, j) + 1
  }

  ghost predicate Contiguous(fat: Lookup, c: nat, lo: nat, hi: nat) {
    forall j: nat | lo <= j < hi :: Adjacent(fat, c, j)
  }

  /** On every disk the read succeeds and is the file. */
  ghost predicate ReadsFile(vol: Volume, fat: Lookup, c: nat, offset: nat, n: nat)
    requires vol.Valid()
  {
    forall data: nat -> Byte ::
      ReadResult(vol, data, fat, c, offset, n) == Some(FileSlice(vol, data, fat, c, offset, n))
  }

  lemma LaterCluster(offset: nat, size: nat, i: nat)
    requires size > 0 && i < size <= Rem(offset, size) + i
    ensures Quot(offset + i, size) == Quot(offset, size) + 1 && Rem(offset + i, size) == Rem(offset, size) + i - size
  {
    DivModUnique(offset + i, size, offset / size + 1, offset % size + i - size);
  }

  lemma QuotMonotone(x: nat, y: nat, size: nat)
    requires size > 0 && x <= y
    ensures Quot(x, size) <= Quot(y, size)
  {
    var p, q := x / size, y / size;
    assert size * p == size * q + size * (p - q);
    if p > q {
      MulAtLeast(p - q, size);
      assert false;
    }
  }

  /** A piece that leaves its cluster is that part of the file if the next cluster of the
      chain lies right behind. */
  lemma AdjacentPiece(vol: Volume, data: nat -> Byte, fat: Lookup, c: nat, offset: nat, k: nat)
    requires vol.Valid() && 0 < k <= vol.ClusterSize()
    requires Contiguous(fat, c, Quot(offset, vol.ClusterSize()), Quot(offset + k - 1, vol.ClusterSize()))
    ensures Slice(Disk(data, true), ReadPos(vol, fat, c, offset), k) == FileSlice(vol, data, fat, c, offset, k)
  {
    hide Quot, Rem, Iterate, Slice, FileSlice;
    var size, q := vol.ClusterSize(), Quot(offset, vol.ClusterSize());
    ClusterBehind(vol, Iterate(fat, c, q));
    forall i | 0 <= i < k
      ensures Slice(Disk(data, true), ReadPos(vol, fat, c, offset), k)[i] == FileByte(vol, data, fat, c, offset + i)
    {
      if Rem(offset, size) + i < size {
        SameCluster(offset, size, i);
      } else {
        LaterCluster(offset, size, i);
        QuotMonotone(offset + i, offset + k - 1, size);
        assert Adjacent(fat, c, q);
      }
    }
  }

  lemma {:induction false} ContiguousReadsFile(vol: Volume, data: nat -> Byte, fat: Lookup, c: nat, offset: nat, n: nat)
    requires vol.Valid() && n > 0 && ReadResult(vol, data, fat, c, offset, n).Some?
    requires Contiguous(fat, c, Quot(offset, vol.ClusterSize()), Quot(offset + n - 1, vol.ClusterSize()))
    ensures ReadResult(vol, data, fat, c, offset, n).value == FileSlice(vol, data, fat, c, offset, n)
    decreases n
  {
    hide FileSlice, Slice, FileByte, Adjacent, Reaches, Quot, Rem, ReadPos;
    var size := vol.ClusterSize();
    var k := if n > size then size else n;
    QuotMonotone(offset + k - 1, offset + n - 1, size);
    AdjacentPiece(vol, data, fat, c, offset, k);
    if n > k {
      NextCluster(offset, size);
      ContiguousReadsFile(vol, data, fat, c, offset + k, n - k);
      FileSlicesJoin(vol, data, fat, c, offset, k, n - k);
    }
  }

  lemma LeavesCluster(offset: nat, size: nat, n: nat)
    requires size > 0 && n > 0
    ensures Quot(offset + n - 1, size) > Quot(offset, size) ==> size - Rem(offset, size) < n
    ensures Quot(offset + n - 1, size) > Quot(offset, size) + 1 ==> size < n
  {
    hide Quot, Rem;
    if Rem(offset, size) + (n - 1) < size {
      SameCluster(offset, size, n - 1);
    } else if n <= size {
      LaterCluster(offset, size, n - 1);
    }
  }

  /** Where the chain goes elsewhere, a disk with one byte set right behind the cluster that
      the range leaves shows the difference. */
  lemma {:induction false} GapMisreads(vol: Volume, fat: Lookup, c: nat, offset: nat, n: nat, j: nat)
    requires vol.Valid() && n > 0 && Rem(offset, vol.ClusterSize()) != 0 && !Adjacent(fat, c, j)
    requires Quot(offset, vol.ClusterSize()) <= j < Quot(offset + n - 1, vol.ClusterSize())
    ensures var data := OneByte(vol.ClusterPos(Iterate(fat, c, j) + 1));
            ReadResult(vol, data, fat, c, offset, n) != Some(FileSlice(vol, data, fat, c, offset, n))
    decreases n
  {
    hide FileSlice, Slice, Iterate, Reaches, Quot, Rem, FileByte, ReadPos;
    var size, q := vol.ClusterSize(), Quot(offset, vol.ClusterSize());
    var data := OneByte(vol.ClusterPos(Iterate(fat, c, j) + 1));
    LeavesCluster(offset, size, n);
    if ReadResult(vol, data, fat, c, offset, n).Some? {
      if j == q {
        GapByte(vol, fat, c, offset, n);
      } else {
        NextCluster(offset, size);
        GapMisreads(vol, fat, c, offset + size, n - size, j);
        FileSlicesJoin(vol, data, fat, c, offset, size, n - size);
        RestRead(vol, data, fat, c, offset, n);
      }
    }
  }

  lemma RestRead(vol: Volume, data: nat -> Byte, fat: Lookup, c: nat, offset: nat, n: nat)
    requires vol.Valid() && n > vol.ClusterSize() && ReadResult(vol, data, fat, c, offset, n).Some?
    ensures var rest := ReadResult(vol, data, fat, c, offset + vol.ClusterSize(), n - vol.ClusterSize());
            rest.Some? && ReadResult(vol, data, fat, c, offset, n).value[vol.ClusterSize()..] == rest.value
  {
    hide Slice, Iterate, Reaches, Quot, Rem, ReadPos;
  }

  lemma GapByte(vol: Volume, fat: Lookup, c: nat, offset: nat, n: nat)
    requires vol.Valid() && Rem(offset, vol.ClusterSize()) != 0
    requires vol.ClusterSize() - Rem(offset, vol.ClusterSize()) < n
    requires !Adjacent(fat, c, Quot(offset, vol.ClusterSize()))
    requires var data := OneByte(vol.ClusterPos(Iterate(fat, c, Quot(offset, vol.ClusterSize())) + 1));
             ReadResult(vol, data, fat, c, offset, n).Some?
    ensures var data := OneByte(vol.ClusterPos(Iterate(fat, c, Quot(offset, vol.ClusterSize())) + 1));
            ReadResult(vol, data, fat, c, offset, n).value != FileSlice(vol, data, fat, c, offset, n)
  {
    hide Iterate, Reaches, Quot, Rem, FileSlice, ReadResult, FileByte, ReadPos;
    var size, q := vol.ClusterSize(), Quot(offset, vol.ClusterSize());
    var cur, o := Iterate(fat, c, q), size - Rem(offset, size);
    var data := OneByte(vol.ClusterPos(cur + 1));
    ReadBehind(vol, fat, c, offset);
    BoundaryInFile(vol, data, fat, c, offset);
    ClustersApart(vol, cur + 1, Iterate(fat, c, q + 1));
    PieceByte(vol, data, fat, c, offset, n, o);
    assert FileSlice(vol, data, fat, c, offset, n)[o] == 0;
    assert ReadResult(vol, data, fat, c, offset, n).value[o] == 1;
  }

  lemma ReadBehind(vol: Volume, fat: Lookup, c: nat, offset: nat)
    requires vol.Valid()
    ensures var size := vol.ClusterSize();
            ReadPos(vol, fat, c, offset) + (size - Rem(offset, size)) ==
            vol.ClusterPos(Iterate(fat, c, Quot(offset, size)) + 1)
  {
    hide Iterate, Quot, Rem;
    ClusterBehind(vol, Iterate(fat, c, Quot(offset, vol.ClusterSize())));
  }

  lemma BoundaryInFile(vol: Volume, data: nat -> Byte, fat: Lookup, c: nat, offset: nat)
    requires vol.Valid()
    ensures var size := vol.ClusterSize();
            FileByte(vol, data, fat, c, offset + (size - Rem(offset, size))) ==
            data(vol.ClusterPos(Iterate(fat, c, Quot(offset, size) + 1)))
  {
    hide Iterate, Quot, Rem;
    BoundaryByte(offset, vol.ClusterSize());
  }

  /** For a given table, a range is read right on every disk exactly when the chain is long
      enough, and either the range starts at a cluster boundary or each cluster it leaves is
      followed in the chain by the next one on the disk. */
  lemma TableExact(vol: Volume, fat: Lookup, c: nat, offset: nat, n: nat)
    requires vol.Valid() && n > 0
    ensures var size := vol.ClusterSize();
            ReadsFile(vol, fat, c, offset, n) <==>
            && Reaches(fat, c, Quot(offset, size) + Quot(n - 1, size))
            && (Rem(offset, size) == 0 || Contiguous(fat, c, Quot(offset, size), Quot(offset + n - 1, size)))
  {
    hide ReadResult, FileSlice, Reaches, Quot, Rem, Adjacent, OneByte;
    var size := vol.ClusterSize();
    SuccessExact(vol, OneByte(0), fat, c, offset, n);
    if Reaches(fat, c, Quot(offset, size) + Quot(n - 1, size)) {
      if Rem(offset, size) == 0 || Contiguous(fat, c, Quot(offset, size), Quot(offset + n - 1, size)) {
        forall data: nat -> Byte
          ensures ReadResult(vol, data, fat, c, offset, n) == Some(FileSlice(vol, data, fat, c, offset, n))
        {
          SuccessExact(vol, data, fat, c, offset, n);
          if Rem(offset, size) == 0 {
            SupportedReadsFile(vol, data, fat, c, offset, n);
          } else {
            ContiguousReadsFile(vol, data, fat, c, offset, n);
          }
        }
      } else {
        var j: nat :| Quot(offset, size) <= j < Quot(offset + n - 1, size) && !Adjacent(fat, c, j);
        GapMisreads(vol, fat, c, offset, n, j);
      }
    }
  }

  // ------------------------------------------------------------------
  // The lookup as written.
  // ------------------------------------------------------------------

  /** The entry of cluster `c` as the FAT stores it: two little-endian bytes. */
  function StoredEntry(data: nat -> Byte, reservedSectors: nat, c: nat): Entry16 {
    data(512 * reservedSectors + 2 * c) + 0x100 * (data(512 * reservedSectors + 2 * c + 1) as int)
  }

  /** The lookup that the comment on `fat16_get_fat_entry` promises. */
  function StoredFat(data: nat -> Byte, reservedSectors: nat): Lookup {
    (c: nat) => StoredEntry(data, reservedSectors, c)
  }

  predicate WordStored(data: nat -> Byte, x: nat, e: Entry16) {
    data(x) == e % 0x100 && data(x + 1) == e / 0x100
  }

  /** It finds the entries of a table written out as 16-bit words behind the reserved sectors. */
  lemma TableStored(data: nat -> Byte, reservedSectors: nat, entries: seq<Entry16>, c: nat)
    requires forall i: nat | i < |entries| :: WordStored(data, 512 * reservedSectors + 2 * i, entries[i])
    requires c < |entries|
    ensures StoredFat(data, reservedSectors)(c) == entries[c]
  {
    assert WordStored(data, 512 * reservedSectors + 2 * c, entries[c]);
    DivModUnique(entries[c], 0x100, entries[c] / 0x100, entries[c] % 0x100);
  }

  /** `fat16_get_fat_entry` overwrites the entry it read with the status of the read,
      so every lookup yields 0 and every walk of one step or more fails.  Reads succeed
      exactly inside the first cluster; there a supported read is that of the file which
      the stored table describes. */
  lemma LookupAsWritten(vol: Volume, data: nat -> Byte, reservedSectors: nat, c: nat, offset: nat, n: nat)
    requires vol.Valid()
    ensures var r := ReadResult(vol, data, Constant(0), c, offset, n);
            && (r.Some? <==> offset < vol.ClusterSize() && n <= vol.ClusterSize())
            && (r.Some? && Supported(vol, offset, n) ==>
                  r.value == FileSlice(vol, data, StoredFat(data, reservedSectors), c, offset, n))
  {
    hide Slice, ReadPos, FileSlice, FileByte, Iterate, Quot, Rem, StoredFat, Supported;
    var size := vol.ClusterSize();
    ZeroReaches(c, Quot(offset, size));
    QuotZero(offset, size);
    if n > size {
      ZeroReaches(c, Quot(offset + size, size));
      NextCluster(offset, size);
    }
    if offset < size && n <= size && Supported(vol, offset, n) {
      SupportedReadsFile(vol, data, Constant(0), c, offset, n);
      SupportedFirst(vol, offset, n);
      FirstClusterFile(vol, data, Constant(0), StoredFat(data, reservedSectors), c, offset, n);
    }
  }

  /** So the first `n` bytes of the stored file are read exactly when they fit one cluster. */
  lemma StoredFileExact(vol: Volume, data: nat -> Byte, reservedSectors: nat, c: nat, n: nat)
    requires vol.Valid()
    ensures var fat := StoredFat(data, reservedSectors);
            ReadResult(vol, data, Constant(0), c, 0, n) == Some(FileSlice(vol, data, fat, c, 0, n)) <==>
            n <= vol.ClusterSize()
  {
    hide ReadResult, FileSlice, StoredFat;
    LookupAsWritten(vol, data, reservedSectors, c, 0, n);
    assert Supported(vol, 0, n);
  }

  lemma SupportedFirst(vol: Volume, offset: nat, n: nat)
    requires vol.Valid() && Supported(vol, offset, n) && offset < vol.ClusterSize() && n <= vol.ClusterSize()
    ensures offset + n <= vol.ClusterSize()
  {
    DivModUnique(offset, vol.ClusterSize(), 0, offset);
  }

  lemma FirstClusterByte(vol: Volume, data: nat -> Byte, fat: Lookup, c: nat, x: nat)
    requires vol.Valid() && x < vol.ClusterSize()
    ensures FileByte(vol, data, fat, c, x) == data(vol.ClusterPos(c) + x)
  {
    DivModUnique(x, vol.ClusterSize(), 0, x);
  }

  /** Inside the first cluster the file does not depend on the table. */
  lemma FirstClusterFile(vol: Volume, data: nat -> Byte, fat: Lookup, other: Lookup, c: nat, offset: nat, n: nat)
    requires vol.Valid() && offset + n <= vol.ClusterSize()
    ensures FileSlice(vol, data, fat, c, offset, n) == FileSlice(vol, data, other, c, offset, n)
  {
    hide FileSlice, FileByte;
    var l, r := FileSlice(vol, data, fat, c, offset, n), FileSlice(vol, data, other, c, offset, n);
    forall i | 0 <= i < n
      ensures l[i] == r[i]
    {
      FirstClusterByte(vol, data, fat, c, offset + i);
      FirstClusterByte(vol, data, other, c, offset + i);
    }
  }

  lemma ZeroReaches(c: nat, k: nat)
    ensures Reaches(Constant(0), c, k) <==> k == 0
  {
    if k > 0 {
      assert Ends(Constant(0)(Iterate(Constant(0), c, 0)));
    }
  }

  lemma QuotZero(x: nat, size: nat)
    requires size > 0
    ensures Quot(x, size) == 0 <==> x < size
  {
    if x < size { DivModUnique(x, size, 0, x); }
    if x / size == 0 { assert x == x % size; }
  }

  // ------------------------------------------------------------------
  // The operations themselves.
  // ------------------------------------------------------------------

  /** `fat16_get_fat_entry` as written: the stored entry is read and then lost. */
  method GetFatEntry(stream: DiskStream, reservedSectors: nat, cluster: nat) returns (entry: Entry16)
    modifies stream
    ensures entry == if stream.disk.attached then Constant(0)(cluster) else 0xFFFF
    ensures stream.disk.attached ==>
              (entry == StoredEntry(stream.disk.data, reservedSectors, cluster) <==>
               StoredEntry(stream.disk.data, reservedSectors, cluster) == 0)
  {
    stream.Seek(reservedSectors * SECTOR_SIZE + cluster * 2);
    var buf := new Byte[2](_ => 0);
    var rc := stream.Read(buf, 0, 2);
    entry := rc % 0x1_0000;
  }

  /** The cluster `offset` bytes into the chain, or -EIO when the chain ends before it. */
  method GetClusterInChain(vol: Volume, fat: Lookup, start: nat, offset: nat) returns (r: int)
    requires vol.Valid()
    ensures r == if Reaches(fat, start, Quot(offset, vol.ClusterSize()))
                 then Iterate(fat, start, Quot(offset, vol.ClusterSize())) else -1
  {
    var cluster: nat := start;
    var clustersAhead := Quot(offset, vol.ClusterSize());
    var i: nat := 0;
    while i < clustersAhead
      invariant i <= clustersAhead && cluster == Iterate(fat, start, i) && Reaches(fat, start, i)
    {
      var entry := fat(cluster);
      if 0xFFF8 <= entry <= 0xFFFF {
        return -EIO;
      }
      if entry == 0xFFF7 {
        return -EIO;
      }
      if 0xFFF0 <= entry <= 0xFFF6 {
        return -EIO;
      }
      if entry == 0 {
        return -EIO;
      }
      cluster := entry;
      i := i + 1;
    }
    r := cluster;
  }

  method ReadInternal(stream: DiskStream, vol: Volume, fat: Lookup, start: nat, offset: nat, n: nat,
                      out: array<Byte>, at: nat) returns (rc: int)
    requires vol.Valid() && at + n <= out.Length
    modifies stream, out
    ensures var r := ReadResult(vol, stream.disk.data, fat, start, offset, n);
            && rc == (if stream.disk.attached && r.Some? then 0 else -1)
            && (rc == 0 ==> out[..] == Overlay(old(out[..]), at, r.value))
    decreases n
  {
    hide Slice, Overlay, Quot, Rem, Iterate, Reaches;
    var size := vol.ClusterSize();
    var cluster := GetClusterInChain(vol, fat, start, offset);
    if cluster < 0 {
      return cluster;
    }
    vol.StartSectorPos(cluster);
    var startPos := vol.StartSector(cluster) * SECTOR_SIZE + Rem(offset, size);
    var bytesToRead := if n > size then size else n;
    stream.Seek(startPos);
    ghost var was := out[..];
    rc := stream.Read(out, at, bytesToRead);
    if rc < 0 {
      return;
    }
    ghost var piece := Slice(stream.disk, startPos, bytesToRead);
    assert stream.disk == Disk(stream.disk.data, true);
    if n > bytesToRead {
      rc := ReadInternal(stream, vol, fat, start, offset + bytesToRead, n - bytesToRead, out, at + bytesToRead);
      if rc < 0 {
        return;
      }
      OverlaysJoin(was, at, piece,
                   ReadResult(vol, stream.disk.data, fat, start, offset + bytesToRead, n - bytesToRead).value);
    }
  }
}
