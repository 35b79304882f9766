// The disk streamer: a byte stream over a device that is only read in whole sectors.
module Disk {
  import opened Words

  const SECTOR_SIZE := 512

  // A device small enough for every byte position to fit in a signed 32-bit int.
  predicate IsDisk(disk: seq<Byte>) {
    |disk| % SECTOR_SIZE == 0 && |disk| < 0x8000_0000
  }

  class DiskStream {
    const disk: seq<Byte>
    var pos: int
    // How many sectors the device has been asked for.
    ghost var sectorsRead: nat

    constructor (disk: seq<Byte>)
      ensures this.disk == disk && pos == 0 && sectorsRead == 0
    {
      this.disk := disk;
      pos := 0;
      sectorsRead := 0;
    }

    method Seek(position: int) returns (res: int)
      modifies this`pos
      ensures pos == position && res == 0
    {
      pos := position;
      res := 0;
    }

    method ReadBlock(sector: nat, buf: array<Byte>)
      requires buf.Length == SECTOR_SIZE && (sector + 1) * SECTOR_SIZE <= |disk|
      modifies this`sectorsRead, buf
      ensures buf[..] == disk[sector * 512..(sector + 1) * 512]
      ensures sectorsRead == old(sectorsRead) + 1
    {
      for i := 0 to SECTOR_SIZE
        modifies buf
        invariant buf[..i] == disk[sector * SECTOR_SIZE..sector * SECTOR_SIZE + i]
      {
        buf[i] := disk[sector * SECTOR_SIZE + i];
      }
      assert buf[..] == buf[..SECTOR_SIZE];
      sectorsRead := sectorsRead + 1;
    }

    // Copies total bytes from the current position to out[at..]. The loop always
    // runs one more pass after one that reached the end of a sector, so a read that
    // ends exactly on a sector boundary also fetches the sector behind it: the byte
    // at pos + total has to exist on the device although it is not copied.
    method Read(out: array<Byte>, at: nat, total: nat) returns (res: int)
      requires IsDisk(disk)
      requires 0 <= pos && pos + total < |disk|
      requires at + total <= out.Length
      modifies this`pos, this`sectorsRead, out
      ensures res == 0
      ensures out[..] == Overwrite(old(out[..]), at, disk[old(pos)..old(pos) + total])
      ensures pos == old(pos) + total
      ensures sectorsRead == old(sectorsRead) + (old(pos) + total) / 512 - old(pos) / 512 + 1
    {
      var buf := new Byte[SECTOR_SIZE];
      var left := total;
      var to := at;
      var bufOverflow := true;
      while bufOverflow
        invariant fresh(buf) && buf.Length == SECTOR_SIZE
        invariant 0 <= left <= total && to == at + (total - left) && pos == old(pos) + (total - left)
        invariant !bufOverflow ==> left == 0
        invariant forall k :: 0 <= k < out.Length ==>
          out[k] == if at <= k < to then disk[old(pos) + (k - at)] else old(out[k])
        invariant sectorsRead == old(sectorsRead) + pos / SECTOR_SIZE - old(pos) / SECTOR_SIZE + (if bufOverflow then 0 else 1)
        decreases left, bufOverflow
      {
        var sector := pos / SECTOR_SIZE;
        var offset := pos % SECTOR_SIZE;
        var totalToRead := left;
        bufOverflow := offset + left >= SECTOR_SIZE;
        if bufOverflow {
          totalToRead := totalToRead - ((offset + totalToRead) - SECTOR_SIZE);
        }
        ReadBlock(sector, buf);
        assert forall k :: 0 <= k < SECTOR_SIZE ==> buf[k] == buf[..][k] == disk[sector * SECTOR_SIZE + k];
        for i := 0 to totalToRead
          modifies out
          invariant forall k :: 0 <= k < out.Length ==>
            out[k] == if at <= k < to + i then disk[old(pos) + (k - at)] else old(out[k])
        {
          out[to + i] := buf[offset + i];
        }
        pos := pos + totalToRead;
        left := left - totalToRead;
        to := to + totalToRead;
      }
      assert out[..] == Overwrite(old(out[..]), at, disk[old(pos)..old(pos) + total]);
      res := 0;
    }
  }
}
