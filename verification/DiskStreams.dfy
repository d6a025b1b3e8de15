/** Streaming bytes from a disk that is read one 512-byte sector at a time. */
module DiskStreams {
  import opened Bits

  const SECTOR_SIZE: int := 512
  const EIO: int := 1

  /** The bytes of the disk, and whether it is the disk the driver knows. */
  datatype Disk = Disk(data: nat -> Byte, attached: bool)

  /** Bytes pos .. pos+n-1 of the disk. */
  function Slice(disk: Disk, pos: nat, n: nat): (s: seq<Byte>)
    ensures |s| == n
    ensures forall i | 0 <= i < n :: s[i] == disk.data(pos + i)
  {
    if n == 0 then [] else Slice(disk, pos, n - 1) + [disk.data(pos + n - 1)]
  }

  /** Reading a then b bytes reads the same as a + b bytes. */
  lemma SlicesJoin(disk: Disk, pos: nat, a: nat, b: nat)
    ensures Slice(disk, pos, a) + Slice(disk, pos + a, b) == Slice(disk, pos, a + b)
  {
    var l, r := Slice(disk, pos, a) + Slice(disk, pos + a, b), Slice(disk, pos, a + b);
    forall i | 0 <= i < a + b
      ensures l[i] == r[i]
    {
      if i >= a {
        assert pos + a + (i - a) == pos + i;
      }
    }
  }

  /** The part of a sector from `pos` on is the disk from `pos` on. */
  lemma SectorPart(disk: Disk, pos: nat, n: nat)
    requires pos % 512 + n <= 512
    ensures Slice(disk, 512 * (pos / 512), 512)[pos % 512..pos % 512 + n] == Slice(disk, pos, n)
  {
    hide Slice;
    var base, o := 512 * (pos / 512), pos % 512;
    assert base + o == pos;
    SliceWithin(disk, base, 512, o, n);
  }

  lemma SliceWithin(disk: Disk, base: nat, len: nat, o: nat, n: nat)
    requires o + n <= len
    ensures Slice(disk, base, len)[o..o + n] == Slice(disk, base + o, n)
  {
    hide Slice;
    var part := Slice(disk, base, len)[o..o + n];
    forall i | 0 <= i < n
      ensures part[i] == Slice(disk, base + o, n)[i]
    {
      assert part[i] == Slice(disk, base, len)[o + i];
      assert base + (o + i) == base + o + i;
    }
  }

  /** A buffer with `s` stored at index `at`. */
  function Overlay(buf: seq<Byte>, at: nat, s: seq<Byte>): (r: seq<Byte>)
    requires at + |s| <= |buf|
    ensures |r| == |buf|
  {
    buf[..at] + s + buf[at + |s|..]
  }

  lemma OverlaysJoin(buf: seq<Byte>, at: nat, s: seq<Byte>, t: seq<Byte>)
    requires at + |s| + |t| <= |buf|
    ensures Overlay(Overlay(buf, at, s), at + |s|, t) == Overlay(buf, at, s + t)
  {
  }

  /** Return code, position and buffer after `disk_stream_read` of `total` bytes. */
  function AfterRead(disk: Disk, pos: nat, out: seq<Byte>, at: nat, total: int): (r: (int, int, seq<Byte>))
    requires total >= 0 ==> at + total <= |out|
  {
    if !disk.attached then (-EIO, pos, out)
    else (0, pos + total, if total >= 0 then Overlay(out, at, Slice(disk, pos, total)) else out)
  }

  /** Reading a and then b bytes leaves what reading a + b bytes leaves. */
  lemma ReadsJoin(disk: Disk, pos: nat, out: seq<Byte>, at: nat, a: nat, b: nat)
    requires at + a + b <= |out|
    ensures var (_, p, buf) := AfterRead(disk, pos, out, at, a);
            p >= 0 && |buf| == |out| && AfterRead(disk, p, buf, at + a, b) == AfterRead(disk, pos, out, at, a + b)
  {
    hide Slice, Overlay;
    SlicesJoin(disk, pos, a, b);
    OverlaysJoin(out, at, Slice(disk, pos, a), Slice(disk, pos + a, b));
  }

  class DiskStream {
    var pos: int
    const disk: Disk

    method Seek(p: int)
      modifies this
      ensures pos == p
    {
      pos := p;
    }

    /** `disk_read_block` of one sector. */
    method ReadBlock(sector: nat) returns (rc: int, buf: seq<Byte>)
      ensures rc == if disk.attached then 0 else -1
      ensures rc == 0 ==> buf == Slice(disk, SECTOR_SIZE * sector, SECTOR_SIZE)
    {
      if !disk.attached {
        return -EIO, [];
      }
      return 0, Slice(disk, SECTOR_SIZE * sector, SECTOR_SIZE);
    }

    /** Copies buf[from..to] into the output. */
    method CopyOut(out: array<Byte>, at: nat, buf: seq<Byte>, from: nat, to: nat)
      requires from <= to <= |buf| && at + (to - from) <= out.Length
      modifies out
      ensures out[..] == Overlay(old(out[..]), at, buf[from..to])
    {
      ghost var was := out[..];
      var i := from;
      while i < to
        invariant from <= i <= to
        invariant forall k | 0 <= k < out.Length ::
                    out[k] == if at <= k < at + (i - from) then buf[from + (k - at)] else was[k]
      {
        out[at + (i - from)] := buf[i];
        i := i + 1;
      }
    }

    /** The bytes at `pos` are stored at `out[at..]` and `pos` moves past them. */
    method Read(out: array<Byte>, at: nat, total: int) returns (rc: int)
      requires 0 <= pos && (total >= 0 ==> at + total <= out.Length)
      modifies this, out
      ensures (rc, pos, out[..]) == AfterRead(disk, old(pos), old(out[..]), at, total)
      ensures rc == (if disk.attached then 0 else -1) && pos == old(pos) + (if disk.attached then total else 0)
      decreases total
    {
      hide Overlay, Slice;
      var sector, offset := pos / SECTOR_SIZE, pos % SECTOR_SIZE;
      var code, buf := ReadBlock(sector);
      if code < 0 {
        return code;
      }
      ghost var p, was := pos, out[..];
      if offset + total > SECTOR_SIZE {
        var n := SECTOR_SIZE - offset;
        CopyOut(out, at, buf, offset, SECTOR_SIZE);
        SectorPart(disk, p, n);
        pos := pos + n;
        rc := Read(out, at + n, total - n);
        SlicesJoin(disk, p, n, total - n);
        OverlaysJoin(was, at, Slice(disk, p, n), Slice(disk, p + n, total - n));
        if rc < 0 {
          return;
        }
      } else {
        if total >= 0 {
          CopyOut(out, at, buf, offset, offset + total);
          SectorPart(disk, p, total);
        }
        pos := pos + total;
      }
      rc := 0;
    }
  }
}
