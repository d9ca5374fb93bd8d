/** `do_rdwt` of kernel/fs.c on a regular file: sector by sector through a one-sector buffer. */
module OrangeFile {
  import opened FlatFile
  import opened Words

  const SECTOR: nat := 512

  type DataSector = s: seq<byte> | |s| == SECTOR witness seq(SECTOR, _ => 0)

  /** The disk as bytes. */
  function At(disk: seq<DataSector>, a: nat): byte
    requires a / SECTOR < |disk|
  {
    disk[a / SECTOR][a % SECTOR]
  }

  /** The two disks differ by the bytes put at [from, from + |buf|). */
  ghost predicate Wrote(d: seq<DataSector>, d': seq<DataSector>, from: nat, buf: seq<byte>) {
    && |d'| == |d|
    && forall a :: 0 <= a < SECTOR * |d| ==>
         At(d', a) == if from <= a < from + |buf| then buf[a - from] else At(d, a)
  }

  /** The bytes at [from, from + n). */
  function Bytes(d: seq<DataSector>, from: nat, n: nat): seq<byte>
    requires from + n <= SECTOR * |d|
  {
    seq<byte>(n, i requires 0 <= i < n => At(d, from + i))
  }

  /** How many bytes the sector loop moves: the request, cut off at the end of the sector
      that holds position `posEnd`. */
  function Moved(pos: nat, posEnd: nat, len: nat): (w: nat)
    requires pos <= posEnd
  {
    Min(len, (posEnd / SECTOR - pos / SECTOR + 1) * SECTOR - pos % SECTOR)
  }

  lemma PutSector(d: seq<DataSector>, i: nat, off: nat, piece: seq<byte>)
    requires i < |d| && off + |piece| <= SECTOR
    ensures var out: DataSector := d[i][..off] + piece + d[i][off + |piece|..];
            Wrote(d, d[i := out], SECTOR * i + off, piece)
  {
    var out: DataSector := d[i][..off] + piece + d[i][off + |piece|..];
    forall a | 0 <= a < SECTOR * |d|
      ensures At(d[i := out], a)
           == if SECTOR * i + off <= a < SECTOR * i + off + |piece| then piece[a - SECTOR * i - off] else At(d, a)
    {
      assert a / SECTOR == i ==> a % SECTOR == a - SECTOR * i;
    }
  }

  lemma WroteMore(d: seq<DataSector>, e: seq<DataSector>, f: seq<DataSector>, from: nat, a: seq<byte>, b: seq<byte>)
    requires Wrote(d, e, from, a) && Wrote(e, f, from + |a|, b)
    ensures Wrote(d, f, from, a + b)
  {
  }

  class OrangeFile {
    var disk: seq<DataSector>
    var fdPos: nat
    var iSize: nat
    const iStartSect: nat
    const iNrSects: nat

    /** The file's sectors and the one behind them are on the disk. */
    predicate Valid()
      reads this
    {
      iStartSect + iNrSects < |disk| && fdPos <= iSize <= iNrSects * SECTOR
    }

    function Content(): seq<byte>
      requires Valid()
      reads this
    {
      Bytes(disk, SECTOR * iStartSect, iSize)
    }

    /** One pass over the sectors, writing. */
    method DoWrite(buf: seq<byte>) returns (bytesRw: nat)
      requires Valid()
      modifies this
      ensures bytesRw == Moved(old(fdPos), Min(old(fdPos) + |buf|, iNrSects * SECTOR), |buf|)
      ensures Wrote(old(disk), disk, SECTOR * iStartSect + old(fdPos), buf[..bytesRw])
      ensures fdPos == old(fdPos) + bytesRw && iSize == Max(old(iSize), fdPos)
    {
      var posEnd: nat := Min(fdPos + |buf|, iNrSects * SECTOR);
      var off := fdPos % SECTOR;
      var first, last := iStartSect + fdPos / SECTOR, iStartSect + posEnd / SECTOR;
      ghost var from := SECTOR * iStartSect + fdPos;
      bytesRw := 0;
      hide Wrote;
      assert Wrote(disk, disk, from, []) by { WroteNone(disk, from); }
      var i := first;
      while i <= last
        invariant first <= i <= last + 1 && last < |disk| && 0 <= off < SECTOR
        invariant bytesRw == Min(|buf|, if i == first then 0 else SECTOR * i - from)
        invariant i == first ==> SECTOR * i + off == from
        invariant i > first ==> off == 0
        invariant fdPos == old(fdPos) + bytesRw && iSize == old(iSize)
        invariant Wrote(old(disk), disk, from, buf[..bytesRw])
      {
        var bytes: nat := Min(|buf| - bytesRw, SECTOR - off);
        var fsbuf := disk[i];
        WroteSector(old(disk), disk, from, buf, bytesRw, i, off, bytes);
        disk := disk[i := fsbuf[..off] + buf[bytesRw..bytesRw + bytes] + fsbuf[off + bytes..]];
        off := 0;
        bytesRw := bytesRw + bytes;
        fdPos := fdPos + bytes;
        i := i + 1;
      }
      if fdPos > iSize {
        iSize := fdPos;
      }
    }

    /** The same pass, reading. A read that runs past the end of the file moves the cursor
        past it too, and then the size follows the cursor. */
    method DoRead(len: nat) returns (bytesRw: nat, buf: seq<byte>)
      requires Valid()
      modifies this`fdPos, this`iSize
      ensures bytesRw == Moved(old(fdPos), Min(old(fdPos) + len, old(iSize)), len)
      ensures SECTOR * iStartSect + old(fdPos) + bytesRw <= SECTOR * |disk|
      ensures buf == Bytes(disk, SECTOR * iStartSect + old(fdPos), bytesRw)
      ensures fdPos == old(fdPos) + bytesRw && iSize == Max(old(iSize), fdPos)
    {
      var posEnd: nat := Min(fdPos + len, iSize);
      var off := fdPos % SECTOR;
      var first, last := iStartSect + fdPos / SECTOR, iStartSect + posEnd / SECTOR;
      ghost var from := SECTOR * iStartSect + fdPos;
      bytesRw, buf := 0, [];
      var i := first;
      while i <= last
        invariant first <= i <= last + 1 && last < |disk| && 0 <= off < SECTOR
        invariant bytesRw == Min(len, if i == first then 0 else SECTOR * i - from)
        invariant i == first ==> SECTOR * i + off == from
        invariant i > first ==> off == 0
        invariant fdPos == old(fdPos) + bytesRw && iSize == old(iSize)
        invariant from + bytesRw <= SECTOR * |disk| && buf == Bytes(disk, from, bytesRw)
      {
        var bytes: nat := Min(len - bytesRw, SECTOR - off);
        var fsbuf := disk[i];
        BytesSnoc(disk, from, bytesRw, i, off, bytes);
        buf := buf + fsbuf[off..off + bytes];
        off := 0;
        bytesRw := bytesRw + bytes;
        fdPos := fdPos + bytes;
        i := i + 1;
      }
      if fdPos > iSize {
        iSize := fdPos;
      }
    }
  }

  lemma WroteNone(d: seq<DataSector>, from: nat)
    ensures Wrote(d, d, from, [])
  {
  }

  /** One more sector's worth of the buffer. */
  lemma WroteSector(d: seq<DataSector>, e: seq<DataSector>, from: nat, buf: seq<byte>, n: nat,
                    i: nat, off: nat, m: nat)
    requires n + m <= |buf| && i < |e| && off + m <= SECTOR
    requires Wrote(d, e, from, buf[..n])
    requires m > 0 ==> from + n == SECTOR * i + off
    ensures var out: DataSector := e[i][..off] + buf[n..n + m] + e[i][off + m..];
            Wrote(d, e[i := out], from, buf[..n + m])
  {
    var piece := buf[n..n + m];
    PutSector(e, i, off, piece);
    assert buf[..n] + piece == buf[..n + m];
    if m > 0 {
      var out: DataSector := e[i][..off] + piece + e[i][off + m..];
      WroteMore(d, e, e[i := out], from, buf[..n], piece);
    } else {
      assert e[i][..off] + piece + e[i][off + m..] == e[i];
      assert e[i := e[i]] == e;
    }
  }

  lemma BytesSnoc(d: seq<DataSector>, from: nat, n: nat, i: nat, off: nat, m: nat)
    requires i < |d| && off + m <= SECTOR && from + n <= SECTOR * |d|
    requires m > 0 ==> from + n == SECTOR * i + off
    ensures from + n + m <= SECTOR * |d|
    ensures Bytes(d, from, n) + d[i][off..off + m] == Bytes(d, from, n + m)
  {
    var l, r := Bytes(d, from, n) + d[i][off..off + m], Bytes(d, from, n + m);
    forall k | 0 <= k < |l|
      ensures l[k] == r[k]
    {
      if k >= n {
        var a := from + k;
        assert a == SECTOR * i + (off + (k - n));
        assert a / SECTOR == i && a % SECTOR == off + (k - n);
        assert r[k] == At(d, a);
      }
    }
  }

  // ---------------------------------------------------------------- what it means for the file

  /** A write moves the whole buffer and stays inside the file's sectors exactly when it
      fits there; otherwise it goes on through the sector that follows. */
  lemma WriteFitsIff(pos: nat, cap: nat, len: nat)
    requires pos <= cap && cap % 512 == 0 && len > 0
    ensures var w := Moved(pos, Min(pos + len, cap), len);
            && (pos + len <= cap ==> w == len)
            && (pos + w <= cap <==> pos + len <= cap)
            && (pos + len > cap ==> w == Min(len, cap + 512 - pos))
  {
  }

  /** A read returns what is left of the file, and leaves the size alone, exactly when it
      does not ask for more than that. */
  lemma ReadExactIff(pos: nat, size: nat, len: nat)
    requires pos <= size && len > 0
    ensures var r := Moved(pos, Min(pos + len, size), len);
            && (r == Min(len, size - pos) <==> pos + len <= size)
            && (Max(size, pos + r) == size <==> pos + len <= size)
            && (pos + len > size ==> r == Min(len, (size / 512 + 1) * 512 - pos))
  {
  }

  /** Inside its sectors a write is a splice of the file's content; and the bytes of any
      other run of sectors, another file's above all, stay as they are. */
  lemma WriteSplices(d: seq<DataSector>, d': seq<DataSector>, start: nat, nr: nat, size: nat, pos: nat,
                     buf: seq<byte>, other: nat, n: nat)
    requires start + nr <= |d| && pos <= size <= nr * SECTOR && pos + |buf| <= nr * SECTOR
    requires Wrote(d, d', SECTOR * start + pos, buf)
    requires SECTOR * other + n <= SECTOR * |d|
    requires SECTOR * other + n <= SECTOR * start || start + nr <= other
    ensures Bytes(d', SECTOR * start, Max(size, pos + |buf|))
         == Splice(Bytes(d, SECTOR * start, size), pos, buf)
    ensures Bytes(d', SECTOR * other, n) == Bytes(d, SECTOR * other, n)
  {
    var f := Bytes(d, SECTOR * start, size);
    var l, r := Bytes(d', SECTOR * start, Max(size, pos + |buf|)), Splice(f, pos, buf);
    SpliceLength(f, pos, buf);
    forall i | 0 <= i < |l|
      ensures l[i] == r[i]
    {
      SpliceAt(f, pos, buf, i);
      assert l[i] == At(d', SECTOR * start + i);
    }
  }
}
