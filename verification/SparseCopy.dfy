/** The sparse file copier: a file is copied into a file system image without writing blocks of zeros. */
module SparseCopy {
  type Byte = x: int | 0 <= x < 256

  const BufLen: nat := 65536                // COPY_FILE_BUFLEN
  const OffsetWrap: nat := 0x1_0000_0000    // the alignment masks are 32 bits wide
  const MaxExtents: nat := 512
  const MaxOffset: nat := 0xffff_ffff_ffff_ffff

  datatype Status = Success | Unimplemented | Failed

  datatype Extent = Extent(logical: nat, length: nat, last: bool)

  datatype Block = Block(at: nat, len: nat)

  // ----- file contents -----

  // Files end in zeros.
  function SrcAt(s: seq<Byte>, p: nat): Byte {
    if p < |s| then s[p] else 0
  }

  // What has not been written is a hole and reads as zero.
  function At(d: map<nat, Byte>, p: nat): Byte {
    if p in d then d[p] else 0
  }

  predicate ZeroRange(s: seq<Byte>, lo: nat, hi: nat) {
    forall p :: lo <= p < hi ==> SrcAt(s, p) == 0
  }

  // `e` is `d` with `bytes` written at `at`.
  ghost predicate Stored(d: map<nat, Byte>, e: map<nat, Byte>, at: nat, bytes: seq<Byte>) {
    forall p: nat {:trigger At(e, p)} :: At(e, p) == if at <= p < at + |bytes| then bytes[p - at] else At(d, p)
  }

  /** The copy holds no wrong byte: each is the source's or still zero. */
  ghost predicate Within(d: map<nat, Byte>, s: seq<Byte>) {
    forall p: nat {:trigger At(d, p)} :: At(d, p) == 0 || At(d, p) == SrcAt(s, p)
  }

  ghost predicate Copied(d: map<nat, Byte>, s: seq<Byte>, lo: nat, hi: nat) {
    forall p: nat {:trigger At(d, p)} :: lo <= p < hi ==> At(d, p) == SrcAt(s, p)
  }

  /** The copy equals the source. */
  ghost predicate Faithful(d: map<nat, Byte>, s: seq<Byte>) {
    forall p: nat {:trigger At(d, p)} :: At(d, p) == SrcAt(s, p)
  }

  // Nothing right becomes wrong.
  ghost predicate Grows(d: map<nat, Byte>, e: map<nat, Byte>, s: seq<Byte>) {
    forall p: nat {:trigger At(e, p)} :: At(d, p) == SrcAt(s, p) ==> At(e, p) == SrcAt(s, p)
  }

  ghost predicate UntouchedOutside(d: map<nat, Byte>, e: map<nat, Byte>, lo: nat, hi: nat) {
    forall p: nat {:trigger At(e, p)} :: !(lo <= p < hi) ==> At(e, p) == At(d, p)
  }

  /** Of `d`, exactly the offsets in `got` have been brought up to date. */
  ghost predicate Exactly(d: map<nat, Byte>, e: map<nat, Byte>, s: seq<Byte>, got: set<nat>) {
    forall p: nat {:trigger At(e, p)} :: At(e, p) == if p in got then SrcAt(s, p) else At(d, p)
  }

  // The offsets from `lo` on.
  ghost function Span(lo: nat, n: nat): (ps: set<nat>)
    ensures forall p :: p in ps <==> lo <= p < lo + n
  {
    if n == 0 then {} else Span(lo, n - 1) + {lo + n - 1}
  }

  // Where the last buffer of a range ends.
  function BufEnd(start: nat, end: nat): (r: nat)
    ensures end <= r || end <= start
    ensures r <= start || r < end + BufLen
  {
    if end <= start then start else start + (end - start + BufLen - 1) / BufLen * BufLen
  }

  // Every block written holds something, and is no longer than a block.
  ghost predicate NoZeroBlocks(blocks: set<Block>, s: seq<Byte>, bs: nat) {
    forall b {:trigger b in blocks} :: b in blocks ==> 0 < b.len <= bs && !ZeroRange(s, b.at, b.at + b.len)
  }

  // ----- the system calls -----

  /** The source file. Every answer the system may give is possible; with `full`, reads stop at the end of the file
      only. */
  class Source {
    const data: seq<Byte>
    const full: bool

    constructor (data: seq<Byte>, full: bool)
      ensures this.data == data && this.full == full
    {
      this.data, this.full := data, full;
    }

    // pread of BufLen bytes; None is an error
    method Pread(off: nat) returns (ok: bool, buf: seq<Byte>)
      ensures ok ==> |buf| <= BufLen && |buf| <= (if off < |data| then |data| - off else 0)
      ensures ok ==> forall i :: 0 <= i < |buf| ==> buf[i] == SrcAt(data, off + i)
      ensures ok && full ==> |buf| == BufLen || off + |buf| >= |data|
    {
      ok := *;
      var left := if off < |data| then |data| - off else 0;
      var most := if left < BufLen then left else BufLen;
      var got: int := *;
      if full || !(0 <= got <= most) {
        got := most;
      }
      buf := if off < |data| then data[off..off + got] else [];
    }

    // lseek with SEEK_DATA
    method SeekData(from: nat) returns (r: Seek)
      ensures r.Found? ==> from <= r.pos < |data| && ZeroRange(data, from, r.pos)
      ensures r.NoMore? ==> ZeroRange(data, from, |data|)
    {
      var pos: int := *;
      if pos < 0 && ZeroRange(data, from, |data|) {
        return NoMore;
      }
      r := if from <= pos < |data| && ZeroRange(data, from, pos) then Found(pos) else SeekError;
    }

    // lseek with SEEK_HOLE, from inside data
    method SeekHole(from: nat) returns (r: Seek)
      ensures r.Found? ==> from < r.pos <= |data|
    {
      var pos: int := *;
      r := if from < pos <= |data| then Found(pos) else SeekError;
    }

    // FS_IOC_FIEMAP from `pos` on
    method Extents(pos: nat) returns (ok: Status, exts: seq<Extent>)
      ensures ok.Success? ==> Honest(data, pos, exts)
    {
      exts := *;
      ok := *;
      if ok.Success? && !Honest(data, pos, exts) {
        ok := Failed;
      }
    }
  }

  datatype Seek = Found(pos: nat) | NoMore | SeekError

  function ExtentEnd(e: Extent): nat {
    e.logical + e.length
  }

  predicate Covered(exts: seq<Extent>, p: nat) {
    exists i :: 0 <= i < |exts| && exts[i].logical <= p < ExtentEnd(exts[i])
  }

  // The reply lists everything from `pos` up to where the next request starts, and everything if there is no next one.
  predicate Honest(s: seq<Byte>, pos: nat, exts: seq<Extent>) {
    && |exts| <= MaxExtents
    && (exts != [] ==> pos < ExtentEnd(exts[|exts| - 1]) <= MaxOffset)
    && var more := |exts| == MaxExtents && !exts[|exts| - 1].last;
       forall p ::
           pos <= p < (if more then ExtentEnd(exts[|exts| - 1]) else |s|) && SrcAt(s, p) != 0 ==> Covered(exts, p)
  }

  /** The file in the image, through ext2fs_file_lseek and ext2fs_file_write. */
  class Target {
    var pos: nat
    var bytes: map<nat, Byte>
    ghost var blocks: set<Block>       // blocks that were started
    ghost var written: set<nat>        // offsets that were written

    constructor ()
      ensures bytes == map[] && blocks == {} && written == {}
    {
      pos, bytes, blocks, written := 0, map[], {}, {};
    }

    method Lseek(off: nat) returns (err: Status)
      modifies this`pos
      ensures err.Success? ==> pos == off
    {
      err := *;
      pos := off;
    }

    // A write may stop early, at a count of its own choosing, or fail anywhere.
    method Write(buf: seq<Byte>) returns (err: Status, n: nat)
      modifies this`pos, this`bytes, this`written
      ensures n <= |buf| && Stored(old(bytes), bytes, old(pos), buf[..n]) && pos == old(pos) + n
      ensures forall p :: p in written <==> p in old(written) || old(pos) <= p < old(pos) + n
    {
      err := *;
      var count: int := *;
      if !(0 <= count <= |buf|) {
        count := |buf|;
      }
      n := 0;
      while n < count
        invariant n <= count <= |buf| && pos == old(pos) + n && Stored(old(bytes), bytes, old(pos), buf[..n])
        invariant forall p :: p in written <==> p in old(written) || old(pos) <= p < old(pos) + n
      {
        ghost var before := bytes;
        bytes := bytes[pos := buf[n]];
        StoredMore(old(bytes), before, bytes, old(pos), buf, n, 1);
        written := written + {pos};
        n, pos := n + 1, pos + 1;
      }
    }
  }

  // ----- copy_file_range2 -----

  predicate ZeroBytes(s: seq<Byte>) {
    forall i :: 0 <= i < |s| ==> s[i] == 0
  }

  // Everything written lies in a block that was started.
  ghost predicate InBlocks(written: set<nat>, blocks: set<Block>) {
    forall p {:trigger p in written} ::
        p in written ==> exists b {:trigger b in blocks} :: b in blocks && b.at <= p < b.at + b.len
  }

  class Copier {
    const src: Source
    const dst: Target
    const bs: nat    // fs->blocksize

    constructor (src: Source, dst: Target, bs: nat)
      requires bs > 0
      ensures this.src == src && this.dst == dst && this.bs == bs && bs > 0
    {
      this.src, this.dst, this.bs := src, dst, bs;
    }

    ghost predicate Valid()
      reads dst
    {
      && bs > 0 && Within(dst.bytes, src.data)
      && NoZeroBlocks(dst.blocks, src.data, bs) && InBlocks(dst.written, dst.blocks)
    }

    // The loop of short writes.
    method WriteOut(at: nat, block: seq<Byte>) returns (err: Status)
      requires dst.pos == at
      modifies dst`pos, dst`bytes, dst`written
      ensures exists n :: 0 <= n <= |block| && Stored(old(dst.bytes), dst.bytes, at, block[..n])
      ensures err.Success? ==> Stored(old(dst.bytes), dst.bytes, at, block)
      ensures old(dst.written) <= dst.written && forall p ::
        p in dst.written && p !in old(dst.written) ==> at <= p < at + |block|
    {
      var ptr := 0;
      err := Success;
      while |block| - ptr > 0
        invariant 0 <= ptr <= |block| && dst.pos == at + ptr && Stored(old(dst.bytes), dst.bytes, at, block[..ptr])
          && err.Success?
        invariant old(dst.written) <= dst.written && forall p ::
          p in dst.written && p !in old(dst.written) ==> at <= p < at + |block|
        decreases |block| - ptr
      {
        ghost var before := dst.bytes;
        var e, n := dst.Write(block[ptr..]);
        StoredMore(old(dst.bytes), before, dst.bytes, at, block, ptr, n);
        err := e;
        if !err.Success? {
          return;
        }
        if n == 0 {
          return Failed;
        }
        ptr := ptr + n;
      }
      assert block[..ptr] == block;
    }

    // One block at `at`, read as `block`.
    method CopyBlock(at: nat, block: seq<Byte>) returns (err: Status)
      requires Valid() && 0 < |block| <= bs && forall i :: 0 <= i < |block| ==> block[i] == SrcAt(src.data, at + i)
      modifies dst
      ensures Valid() && Grows(old(dst.bytes), dst.bytes, src.data)
      ensures UntouchedOutside(old(dst.bytes), dst.bytes, at, at + |block|)
      ensures err.Success? ==> Copied(dst.bytes, src.data, at, at + |block|)
      ensures old(dst.blocks) <= dst.blocks && forall b :: b in dst.blocks && b !in old(dst.blocks) ==> b.at == at
    {
      ghost var d := dst.bytes;
      if ZeroBytes(block) {
        err := Success;
        SkippedBlock(d, src.data, at, block);
        return;
      }
      err := dst.Lseek(at);
      if !err.Success? {
        return;
      }
      ghost var written := dst.written;
      err := WriteOut(at, block);
      ghost var b := Block(at, |block|);
      NonzeroBlock(src.data, at, block);
      BlocksAdded(written, dst.written, dst.blocks, b);
      dst.blocks := dst.blocks + {b};
      ghost var n :| 0 <= n <= |block| && Stored(d, dst.bytes, at, block[..n]);
      StoredBlock(d, dst.bytes, src.data, at, block, n);
    }

    // What a copying step keeps, and where it writes.
    twostate predicate Step(lo: nat, hi: nat)
      reads dst
    {
      && Grows(old(dst.bytes), dst.bytes, src.data) && UntouchedOutside(old(dst.bytes), dst.bytes, lo, hi)
      && old(dst.blocks) <= dst.blocks
    }

    // Blocks started since then lie on block boundaries of the file.
    twostate predicate NewAligned()
      requires bs > 0
      reads dst
    {
      forall b :: b in dst.blocks && b !in old(dst.blocks) ==> b.at % bs == 0
    }

    // The blocks of one buffer.
    method CopyBuffer(off: nat, buf: seq<Byte>) returns (err: Status)
      requires Valid() && forall i :: 0 <= i < |buf| ==> buf[i] == SrcAt(src.data, off + i)
      modifies dst
      ensures Valid() && Step(off, off + |buf|) && (off % bs == 0 ==> NewAligned())
      ensures err.Success? ==> Copied(dst.bytes, src.data, off, off + |buf|)
    {
      var bpos, ptr := 0, 0;
      err := Success;
      while bpos < |buf|
        invariant 0 <= bpos && ptr == (if bpos < |buf| then bpos else |buf|) && err.Success?
        invariant Valid() && Step(off, off + |buf|) && Copied(dst.bytes, src.data, off, off + ptr)
        invariant bpos % bs == 0 && (off % bs == 0 ==> NewAligned())
        decreases |buf| - bpos
      {
        var blen := bs;
        if blen > |buf| - bpos {
          blen := |buf| - bpos;
        }
        ghost var d := dst.bytes;
        err := CopyBlock(off + bpos, buf[ptr..ptr + blen]);
        StepOn(old(dst.bytes), d, dst.bytes, src.data, off, off + |buf|, off + bpos, off + bpos + blen);
        GrowOn(old(dst.bytes), d, dst.bytes, src.data);
        NextBlock(off, bpos, bs);
        if !err.Success? {
          return;
        }
        ptr := ptr + blen;
        bpos := bpos + bs;
      }
    }

    /** copy_file_range2: on success exactly what was read has been copied, whatever the counts of the writes; with
        full reads that is the range up to the end of its last buffer. No block of zeros is started. */
    method CopyRange(start: nat, end: nat) returns (err: Status, ghost got: set<nat>)
      requires Valid()
      modifies dst
      ensures Valid() && Step(start, BufEnd(start, end)) && (start % bs == 0 && BufLen % bs == 0 ==> NewAligned())
      ensures err.Success? ==> Exactly(old(dst.bytes), dst.bytes, src.data, got)
      ensures forall p :: p in got ==> start <= p < BufEnd(start, end)
      ensures err.Success? && src.full ==> Copied(dst.bytes, src.data, start, BufEnd(start, end))
      ensures end <= start ==> err.Success? && dst.bytes == old(dst.bytes)
    {
      var off := start;
      ghost var j := 0;
      got := {};
      err := Success;
      while off < end
        invariant off == start + j * BufLen && Valid() && err.Success? && (off == start || off <= BufEnd(start, end))
        invariant Step(start, BufEnd(start, end)) && Exactly(old(dst.bytes), dst.bytes, src.data, got)
        invariant forall p :: p in got ==> start <= p < BufEnd(start, end)
        invariant src.full ==> Copied(dst.bytes, src.data, start, off)
        invariant start % bs == 0 && BufLen % bs == 0 ==> off % bs == 0 && NewAligned()
        invariant end <= start ==> dst.bytes == old(dst.bytes)
        invariant off < end || off == BufEnd(start, end)
        decreases end - off
      {
        LastBuffer(start, end, j);
        var ok, buf := src.Pread(off);
        if !ok {
          return Failed, got;
        }
        ghost var d := dst.bytes;
        err := CopyBuffer(off, buf);
        StepOn(old(dst.bytes), d, dst.bytes, src.data, start, BufEnd(start, end), off, off + |buf|);
        GrowOn(old(dst.bytes), d, dst.bytes, src.data);
        if !err.Success? {
          return;
        }
        ExactlyMore(old(dst.bytes), d, dst.bytes, src.data, got, off, |buf|);
        got := got + Span(off, |buf|);
        if src.full {
          PastEnd(dst.bytes, src.data, off, off + |buf|, off + BufLen);
        }
        NextBuffer(off, bs);
        off, j := off + BufLen, j + 1;
      }
    }

    // Both segment ends are rounded to blocks, with masks that drop everything above 32 bits.
    method CopySegment(seg: Segment) returns (err: Status, ghost got: set<nat>)
      requires Valid()
      modifies dst
      ensures Valid() && Step(SegStart(seg, bs), SegEnd(seg, bs)) && (BufLen % bs == 0 ==> NewAligned())
      ensures err.Success? ==> Exactly(old(dst.bytes), dst.bytes, src.data, got)
      ensures forall p :: p in got ==> Reaches(seg, bs, p)
      ensures err.Success? && src.full ==> Copied(dst.bytes, src.data, SegStart(seg, bs), SegEnd(seg, bs))
      ensures seg.hole <= OffsetWrap < seg.hole + bs && bs <= OffsetWrap ==> err.Success? && dst.bytes == old(dst.bytes)
    {
      Aligned(seg.data, bs);
      if seg.hole <= OffsetWrap < seg.hole + bs && bs <= OffsetWrap {
        LastBlockSkipped(seg.hole, bs);
      }
      err, got := CopyRange(AlignDown(seg.data, bs), AlignDown(seg.hole + bs - 1, bs));
    }

    /** try_lseek_copy: `segs` are the data segments the system reported. On success exactly what was read has been
        copied; with full reads that is everything the rounded segments reach, so the copy is faithful if and only if
        they reach every byte that differs (LseekExact), in particular if the file, rounded up to a block, ends below
        4 GiB. */
    method TryLseekCopy() returns (err: Status, ghost segs: seq<Segment>, ghost got: set<nat>)
      requires Valid() && OffsetWrap % bs == 0
      modifies dst
      ensures Valid() && Grows(old(dst.bytes), dst.bytes, src.data) && (BufLen % bs == 0 ==> NewAligned())
      ensures err.Success? ==> Exactly(old(dst.bytes), dst.bytes, src.data, got) && Reported(src.data, segs)
      ensures forall p :: p in got ==> Reached(segs, bs, p)
      ensures err.Success? && src.full ==> forall i :: 0 <= i < |segs| ==>
        Copied(dst.bytes, src.data, SegStart(segs[i], bs), SegEnd(segs[i], bs))
      ensures err.Success? && src.full && |src.data| + bs <= OffsetWrap ==> Faithful(dst.bytes, src.data)
    {
      err := *;   // not initialised
      segs, got := [], {};
      var data := 0;
      while data < |src.data|
        invariant data <= |src.data| && Valid() && Grows(old(dst.bytes), dst.bytes, src.data)
        invariant BufLen % bs == 0 ==> NewAligned()
        invariant ReportedTo(src.data, segs, data) && Exactly(old(dst.bytes), dst.bytes, src.data, got)
        invariant forall p :: p in got ==> Reached(segs, bs, p)
        invariant src.full ==> forall i :: 0 <= i < |segs| ==>
          Copied(dst.bytes, src.data, SegStart(segs[i], bs), SegEnd(segs[i], bs))
        decreases |src.data| - data
      {
        var r := src.SeekData(data);
        if r.NoMore? {
          ReportedZero(src.data, segs, data, |src.data|);
          data := |src.data|;
          break;
        }
        if r.SeekError? {
          return Unimplemented, segs, got;
        }
        ReportedZero(src.data, segs, data, r.pos);
        data := r.pos;
        r := src.SeekHole(data);
        if !r.Found? {
          return Unimplemented, segs, got;
        }
        ghost var d, more := dst.bytes, {};
        ghost var seg := Segment(data, r.pos);
        err, more := CopySegment(Segment(data, r.pos));
        GrowOn(old(dst.bytes), d, dst.bytes, src.data);
        ReachedMore(segs, seg, bs, got, more);
        if err.Success? {
          ExactlyOn(old(dst.bytes), d, dst.bytes, src.data, got, more);
        }
        got := got + more;
        ReportedSeg(src.data, segs, seg);
        segs := segs + [seg];
        if !err.Success? {
          return;
        }
        data := r.pos;
      }
      if src.full && |src.data| + bs <= OffsetWrap {
        SmallFaithful(dst.bytes, src.data, segs, bs);
      }
    }

    // The extents of one reply.
    method CopyExtents(exts: seq<Extent>) returns (err: Status)
      requires Valid()
      modifies dst
      ensures Valid() && Grows(old(dst.bytes), dst.bytes, src.data)
      ensures err.Success? && src.full ==> forall i ::
        0 <= i < |exts| ==> Copied(dst.bytes, src.data, exts[i].logical, ExtentEnd(exts[i]))
    {
      err := Success;
      var i := 0;
      while i < |exts|
        invariant i <= |exts| && Valid() && Grows(old(dst.bytes), dst.bytes, src.data)
        invariant src.full ==> forall j ::
          0 <= j < i ==> Copied(dst.bytes, src.data, exts[j].logical, ExtentEnd(exts[j]))
      {
        ghost var d := dst.bytes;
        ghost var got;
        err, got := CopyRange(exts[i].logical, ExtentEnd(exts[i]));
        GrowOn(old(dst.bytes), d, dst.bytes, src.data);
        if !err.Success? {
          return;
        }
        i := i + 1;
      }
    }

    /** try_fiemap_copy: on success the copy is faithful. */
    method TryFiemapCopy() returns (err: Status)
      requires Valid()
      modifies dst
      ensures Valid() && Grows(old(dst.bytes), dst.bytes, src.data)
      ensures err.Success? && src.full ==> Faithful(dst.bytes, src.data)
    {
      var pos: nat := 0;
      while true
        invariant pos <= MaxOffset && Valid() && Grows(old(dst.bytes), dst.bytes, src.data)
        invariant src.full ==> Copied(dst.bytes, src.data, 0, pos)
        decreases MaxOffset - pos
      {
        var st, exts := src.Extents(pos);
        if !st.Success? {
          return st;
        }
        if exts == [] {
          NothingLeft(dst.bytes, src.data, pos);
          err := *;   // whatever errno holds
          return;
        }
        ghost var d := dst.bytes;
        err := CopyExtents(exts);
        GrowOn(old(dst.bytes), d, dst.bytes, src.data);
        if !err.Success? {
          return;
        }
        var last := exts[|exts| - 1];
        if src.full {
          ReplyCopied(d, dst.bytes, src.data, pos, exts);
        }
        pos := ExtentEnd(last);
        if !(|exts| == MaxExtents && !last.last) {
          return;
        }
      }
    }

    /** copy_file: each method takes over where one that is not available stopped, and may find bytes copied already. */
    method CopyFile() returns (err: Status)
      requires Valid() && OffsetWrap % bs == 0
      modifies dst
      ensures Valid() && Grows(old(dst.bytes), dst.bytes, src.data)
      ensures err.Success? && src.full && |src.data| + bs <= OffsetWrap ==> Faithful(dst.bytes, src.data)
    {
      ghost var segs, got;
      err, segs, got := TryLseekCopy();
      if err.Unimplemented? {
        ghost var d := dst.bytes;
        err := TryFiemapCopy();
        GrowOn(old(dst.bytes), d, dst.bytes, src.data);
        if err.Unimplemented? {
          d := dst.bytes;
          err, got := CopyRange(0, |src.data|);
          GrowOn(old(dst.bytes), d, dst.bytes, src.data);
        }
      }
      var closeErr: Status := *;
      if err.Success? {
        err := closeErr;
      }
    }
  }

  // ----- rounded segments -----

  /** A run of data as SEEK_DATA and SEEK_HOLE report it. */
  datatype Segment = Segment(data: nat, hole: nat)

  // x & ~(bs - 1), where the mask is a 32-bit number
  function AlignDown(x: nat, bs: nat): nat
    requires bs > 0
  {
    x % OffsetWrap / bs * bs
  }

  lemma Aligned(x: nat, bs: nat)
    requires bs > 0
    ensures AlignDown(x, bs) % bs == 0 && AlignDown(x, bs) < OffsetWrap
    ensures x < OffsetWrap ==> AlignDown(x, bs) <= x < AlignDown(x, bs) + bs
  {
    var y := x % OffsetWrap;
    ModOf(y / bs * bs, bs, y / bs);
  }

  function SegStart(seg: Segment, bs: nat): nat
    requires bs > 0
  {
    AlignDown(seg.data, bs)
  }

  function SegEnd(seg: Segment, bs: nat): nat
    requires bs > 0
  {
    BufEnd(AlignDown(seg.data, bs), AlignDown(seg.hole + bs - 1, bs))
  }

  predicate Reaches(seg: Segment, bs: nat, p: nat)
    requires bs > 0
  {
    SegStart(seg, bs) <= p < SegEnd(seg, bs)
  }

  predicate Reached(segs: seq<Segment>, bs: nat, p: nat)
    requires bs > 0
  {
    exists i :: 0 <= i < |segs| && Reaches(segs[i], bs, p)
  }

  // The segments hold everything that is not zero, up to `to`.
  ghost predicate ReportedTo(s: seq<Byte>, segs: seq<Segment>, to: nat) {
    && (forall i :: 0 <= i < |segs| ==> segs[i].data < segs[i].hole <= |s|)
    && (forall p: nat {:trigger SrcAt(s, p)} :: p < to && SrcAt(s, p) != 0 ==>
         exists i :: 0 <= i < |segs| && segs[i].data <= p < segs[i].hole)
  }

  ghost predicate Reported(s: seq<Byte>, segs: seq<Segment>) {
    ReportedTo(s, segs, |s|)
  }

  lemma ReportedZero(s: seq<Byte>, segs: seq<Segment>, from: nat, to: nat)
    requires ReportedTo(s, segs, from) && ZeroRange(s, from, to)
    ensures ReportedTo(s, segs, to)
  {
  }

  lemma ReportedSeg(s: seq<Byte>, segs: seq<Segment>, seg: Segment)
    requires ReportedTo(s, segs, seg.data) && seg.data < seg.hole <= |s|
    ensures ReportedTo(s, segs + [seg], seg.hole)
  {
    forall p: nat | p < seg.hole && SrcAt(s, p) != 0
      ensures exists i :: 0 <= i < |segs + [seg]| && (segs + [seg])[i].data <= p < (segs + [seg])[i].hole
    {
      if p < seg.data {
        var i :| 0 <= i < |segs| && segs[i].data <= p < segs[i].hole;
        assert (segs + [seg])[i] == segs[i];
      } else {
        assert (segs + [seg])[|segs|] == seg;
      }
    }
  }

  lemma ReachedMore(segs: seq<Segment>, seg: Segment, bs: nat, got: set<nat>, more: set<nat>)
    requires bs > 0 && (forall p :: p in got ==> Reached(segs, bs, p))
      && (forall p :: p in more ==> Reaches(seg, bs, p))
    ensures forall p :: p in got + more ==> Reached(segs + [seg], bs, p)
  {
    forall p | p in got + more ensures Reached(segs + [seg], bs, p) {
      if p in got {
        var i :| 0 <= i < |segs| && Reaches(segs[i], bs, p);
        assert (segs + [seg])[i] == segs[i];
      } else {
        assert (segs + [seg])[|segs|] == seg;
      }
    }
  }

  // Below 4 GiB rounding only widens a segment.
  lemma SmallSegment(seg: Segment, bs: nat, p: nat)
    requires bs > 0 && seg.data <= p < seg.hole && seg.hole + bs <= OffsetWrap
    ensures Reaches(seg, bs, p)
  {
    Aligned(seg.data, bs);
    Aligned(seg.hole + bs - 1, bs);
  }

  lemma SmallFaithful(e: map<nat, Byte>, s: seq<Byte>, segs: seq<Segment>, bs: nat)
    requires bs > 0 && |s| + bs <= OffsetWrap && Reported(s, segs) && Within(e, s)
    requires forall i :: 0 <= i < |segs| ==> Copied(e, s, SegStart(segs[i], bs), SegEnd(segs[i], bs))
    ensures Faithful(e, s)
  {
    forall p: nat ensures At(e, p) == SrcAt(s, p) {
      if SrcAt(s, p) != 0 {
        var i :| 0 <= i < |segs| && segs[i].data <= p < segs[i].hole;
        SmallSegment(segs[i], bs, p);
      }
    }
  }

  /** Exactly when try_lseek_copy works, given full reads: the rounded segments reach every byte that was wrong. */
  lemma LseekExact(
    d: map<nat, Byte>, e: map<nat, Byte>, s: seq<Byte>, segs: seq<Segment>, bs: nat, got: set<nat>)
    requires bs > 0 && Exactly(d, e, s, got) && forall p :: p in got ==> Reached(segs, bs, p)
    requires forall i :: 0 <= i < |segs| ==> Copied(e, s, SegStart(segs[i], bs), SegEnd(segs[i], bs))
    ensures Faithful(e, s)
      <==> forall p: nat {:trigger At(d, p)} :: At(d, p) != SrcAt(s, p) ==> Reached(segs, bs, p)
  {
    ExactFaithful(d, e, s, got);
    if forall p: nat {:trigger At(d, p)} :: At(d, p) != SrcAt(s, p) ==> Reached(segs, bs, p) {
      forall p: nat ensures At(e, p) == SrcAt(s, p) {
        if At(d, p) != SrcAt(s, p) {
          var i :| 0 <= i < |segs| && Reaches(segs[i], bs, p);
          assert Copied(e, s, SegStart(segs[i], bs), SegEnd(segs[i], bs));
        }
      }
    }
  }

  /** For a file without holes the condition can be read off the file: beyond what its one rounded segment reaches
      there are zeros only. Up to a block below 4 GiB nothing is beyond. */
  lemma DenseFile(d: map<nat, Byte>, e: map<nat, Byte>, s: seq<Byte>, bs: nat, got: set<nat>)
    requires bs > 0 && s != [] && forall p: nat :: At(d, p) == 0
    requires var seg := Segment(0, |s|);
      && Exactly(d, e, s, got) && (forall p :: p in got ==> Reached([seg], bs, p))
      && Copied(e, s, SegStart(seg, bs), SegEnd(seg, bs))
    ensures Faithful(e, s) <==> ZeroRange(s, SegEnd(Segment(0, |s|), bs), |s|)
    ensures |s| + bs <= OffsetWrap ==> SegEnd(Segment(0, |s|), bs) >= |s|
  {
    var seg := Segment(0, |s|);
    LseekExact(d, e, s, [seg], bs, got);
    assert SegStart(seg, bs) == 0;
    assert forall p: nat :: Reached([seg], bs, p) <==> Reaches([seg][0], bs, p);
    Aligned(|s| + bs - 1, bs);
    if Faithful(e, s) {
      forall p: nat | SegEnd(seg, bs) <= p < |s| ensures SrcAt(s, p) == 0 {
        assert At(d, p) == 0;
      }
    }
  }

  lemma LastBlockSkipped(hole: nat, bs: nat)
    requires 0 < bs && OffsetWrap < hole + bs && hole <= OffsetWrap && bs <= OffsetWrap
    ensures AlignDown(hole + bs - 1, bs) == 0
  {
    var y := hole + bs - 1 - OffsetWrap;
    assert (hole + bs - 1) % OffsetWrap == y && y < bs;
    assert y / bs == 0;
  }

  /** A file reported as one segment that ends in the last block below 4 GiB, or just there: a successful run has
      copied nothing of it. */
  lemma LastBlockLost(
    d: map<nat, Byte>, e: map<nat, Byte>, s: seq<Byte>, seg: Segment, bs: nat, got: set<nat>, p: nat)
    requires 0 < bs <= OffsetWrap && seg.hole <= OffsetWrap < seg.hole + bs
    requires Exactly(d, e, s, got) && forall q :: q in got ==> Reached([seg], bs, q)
    requires At(d, p) != SrcAt(s, p)
    ensures got == {} && !Faithful(e, s)
  {
    LastBlockSkipped(seg.hole, bs);
    assert forall q: nat :: !Reached([seg], bs, q);
    assert At(e, p) == At(d, p);
  }

  /** One that ends beyond 4 GiB: nothing from the wrapped end on, but for the rest of a buffer, has been copied. */
  lemma HighDataLost(
    d: map<nat, Byte>, e: map<nat, Byte>, s: seq<Byte>, seg: Segment, bs: nat, got: set<nat>, p: nat)
    requires bs > 0 && OffsetWrap < seg.hole && Exactly(d, e, s, got) && forall q :: q in got ==> Reached([seg], bs, q)
    requires AlignDown(seg.hole + bs - 1, bs) + BufLen <= p && At(d, p) != SrcAt(s, p)
    ensures !Faithful(e, s)
  {
    assert !Reached([seg], bs, p);
    assert At(e, p) == At(d, p);
  }

  lemma GrowOn(d: map<nat, Byte>, e: map<nat, Byte>, f: map<nat, Byte>, s: seq<Byte>)
    requires Grows(d, e, s) && Grows(e, f, s)
    ensures Grows(d, f, s)
    ensures forall lo: nat, hi: nat {:trigger Copied(f, s, lo, hi)} :: Copied(e, s, lo, hi) ==> Copied(f, s, lo, hi)
  {
    forall p: nat
      ensures (At(d, p) == SrcAt(s, p) ==> At(f, p) == SrcAt(s, p))
        && (At(e, p) == SrcAt(s, p) ==> At(f, p) == SrcAt(s, p)) {
      assert At(e, p) == At(e, p);
    }
    forall lo: nat, hi: nat | Copied(e, s, lo, hi) ensures Copied(f, s, lo, hi) {
      forall p: nat | lo <= p < hi ensures At(f, p) == SrcAt(s, p) {
        assert At(e, p) == SrcAt(s, p);
      }
    }
  }

  lemma NothingLeft(d: map<nat, Byte>, s: seq<Byte>, pos: nat)
    requires Within(d, s) && Honest(s, pos, [])
    ensures Copied(d, s, 0, pos) ==> Faithful(d, s)
  {
    if Copied(d, s, 0, pos) {
      forall p: nat ensures At(d, p) == SrcAt(s, p) {
        assert !Covered([], p);
      }
    }
  }

  // After the extents of a reply everything up to the next request is copied, or everything.
  lemma ReplyCopied(d: map<nat, Byte>, e: map<nat, Byte>, s: seq<Byte>, pos: nat, exts: seq<Extent>)
    requires Copied(d, s, 0, pos) && Grows(d, e, s) && Within(e, s) && exts != [] && Honest(s, pos, exts)
    requires forall i :: 0 <= i < |exts| ==> Copied(e, s, exts[i].logical, ExtentEnd(exts[i]))
    ensures if |exts| == MaxExtents && !exts[|exts| - 1].last then Copied(e, s, 0, ExtentEnd(exts[|exts| - 1]))
      else Faithful(e, s)
  {
    var more := |exts| == MaxExtents && !exts[|exts| - 1].last;
    forall p: nat | p < (if more then ExtentEnd(exts[|exts| - 1]) else |s|) ensures At(e, p) == SrcAt(s, p) {
      if p < pos {
        assert At(d, p) == SrcAt(s, p);
      } else if SrcAt(s, p) != 0 {
        assert Covered(exts, p);
        var i :| 0 <= i < |exts| && exts[i].logical <= p < ExtentEnd(exts[i]);
        assert Copied(e, s, exts[i].logical, ExtentEnd(exts[i]));
      }
    }
  }

  // Two steps in a row; the second wrote within the bounds of the first.
  lemma StepOn(
    d: map<nat, Byte>, e: map<nat, Byte>, f: map<nat, Byte>, s: seq<Byte>, lo: nat, hi: nat, lo': nat, hi': nat)
    requires UntouchedOutside(d, e, lo, hi) && UntouchedOutside(e, f, lo', hi') && lo <= lo'
      && (hi' <= hi || hi' <= lo')
    ensures UntouchedOutside(d, f, lo, hi)
  {
    forall p: nat | !(lo <= p < hi) ensures At(f, p) == At(d, p) {
      assert At(e, p) == At(d, p);
    }
  }

  lemma ExactlyOn(
    d: map<nat, Byte>, e: map<nat, Byte>, f: map<nat, Byte>, s: seq<Byte>, got: set<nat>, more: set<nat>)
    requires Exactly(d, e, s, got) && Exactly(e, f, s, more)
    ensures Exactly(d, f, s, got + more)
  {
    forall p: nat ensures At(f, p) == if p in got + more then SrcAt(s, p) else At(d, p) {
      assert At(e, p) == if p in got then SrcAt(s, p) else At(d, p);
    }
  }

  lemma ExactlyMore(
    d: map<nat, Byte>, e: map<nat, Byte>, f: map<nat, Byte>, s: seq<Byte>, got: set<nat>, at: nat, n: nat)
    requires Exactly(d, e, s, got) && UntouchedOutside(e, f, at, at + n) && Copied(f, s, at, at + n)
    ensures Exactly(d, f, s, got + Span(at, n))
  {
    ExactlyOn(d, e, f, s, got, Span(at, n));
  }

  lemma LastBuffer(start: nat, end: nat, j: nat)
    requires start + j * BufLen < end
    ensures start + j * BufLen + BufLen <= BufEnd(start, end)
    ensures start + j * BufLen + BufLen >= end ==> start + j * BufLen + BufLen == BufEnd(start, end)
  {
  }

  /** What the copy is worth: it is faithful if and only if every offset that was wrong before has been read. */
  lemma ExactFaithful(d: map<nat, Byte>, e: map<nat, Byte>, s: seq<Byte>, got: set<nat>)
    requires Exactly(d, e, s, got)
    ensures Faithful(e, s) <==> forall p: nat {:trigger At(d, p)} :: At(d, p) != SrcAt(s, p) ==> p in got
  {
    if Faithful(e, s) {
      forall p: nat | At(d, p) != SrcAt(s, p) ensures p in got {
        assert At(e, p) == SrcAt(s, p);
      }
    }
  }

  // Beyond the end of the source nothing needs copying.
  lemma PastEnd(d: map<nat, Byte>, s: seq<Byte>, lo: nat, hi: nat, more: nat)
    requires Within(d, s) && Copied(d, s, lo, hi) && (hi == more || hi >= |s|)
    ensures Copied(d, s, lo, more)
  {
  }

  lemma NextBlock(off: nat, bpos: nat, bs: nat)
    requires bs > 0 && bpos % bs == 0
    ensures (bpos + bs) % bs == 0 && (off % bs == 0 ==> (off + bpos) % bs == 0)
  {
    ModAdd(bpos, bs, bs);
    if off % bs == 0 {
      ModAdd(off, bpos, bs);
    }
  }

  lemma NextBuffer(off: nat, bs: nat)
    requires bs > 0
    ensures off % bs == 0 && BufLen % bs == 0 ==> (off + BufLen) % bs == 0
  {
    if off % bs == 0 && BufLen % bs == 0 {
      ModAdd(off, BufLen, bs);
    }
  }

  lemma ModAdd(a: nat, b: nat, m: nat)
    requires m > 0 && a % m == 0 && b % m == 0
    ensures (a + b) % m == 0
  {
    var q, r := a / m, b / m;
    assert a == m * q && b == m * r;
    assert a + b == m * (q + r);
    ModOf(a + b, m, q + r);
  }

  lemma ModOf(x: nat, m: nat, q: nat)
    requires m > 0 && x == m * q
    ensures x % m == 0
  {
    var k, r := x / m, x % m;
    assert x == m * k + r;
    assert r == m * (q - k);
    MulSign(m, q - k);
  }

  lemma MulSign(m: nat, t: int)
    ensures t >= 1 ==> m * t >= m
    ensures t <= -1 ==> m * t <= -1 * m
  {
  }

  lemma SkippedBlock(d: map<nat, Byte>, s: seq<Byte>, at: nat, block: seq<Byte>)
    requires Within(d, s) && ZeroBytes(block) && forall i :: 0 <= i < |block| ==> block[i] == SrcAt(s, at + i)
    ensures Copied(d, s, at, at + |block|)
  {
    forall p: nat | at <= p < at + |block| ensures At(d, p) == SrcAt(s, p) {
      assert block[p - at] == SrcAt(s, at + (p - at));
    }
  }

  lemma NonzeroBlock(s: seq<Byte>, at: nat, block: seq<Byte>)
    requires !ZeroBytes(block) && forall i :: 0 <= i < |block| ==> block[i] == SrcAt(s, at + i)
    ensures !ZeroRange(s, at, at + |block|)
  {
    var i :| 0 <= i < |block| && block[i] != 0;
    assert SrcAt(s, at + i) != 0;
  }

  lemma BlocksAdded(written: set<nat>, written': set<nat>, blocks: set<Block>, b: Block)
    requires InBlocks(written, blocks) && forall p :: p in written' && p !in written ==> b.at <= p < b.at + b.len
    ensures InBlocks(written', blocks + {b})
  {
    forall p | p in written'
      ensures exists c {:trigger c in blocks + {b}} :: c in blocks + {b} && c.at <= p < c.at + c.len {
      if p in written {
        var c :| c in blocks && c.at <= p < c.at + c.len;
        assert c in blocks + {b};
      } else {
        assert b in blocks + {b};
      }
    }
  }

  lemma StoredBlock(d: map<nat, Byte>, e: map<nat, Byte>, s: seq<Byte>, at: nat, block: seq<Byte>, n: nat)
    requires Within(d, s) && forall i :: 0 <= i < |block| ==> block[i] == SrcAt(s, at + i)
    requires n <= |block| && Stored(d, e, at, block[..n])
    ensures Within(e, s) && Grows(d, e, s) && UntouchedOutside(d, e, at, at + |block|) && Copied(e, s, at, at + n)
  {
    forall p: nat ensures if at <= p < at + n then At(e, p) == SrcAt(s, p) else At(e, p) == At(d, p) {
      if at <= p < at + n {
        assert block[p - at] == SrcAt(s, at + (p - at));
      }
    }
  }

  lemma StoredMore(d: map<nat, Byte>, e: map<nat, Byte>, f: map<nat, Byte>, at: nat, block: seq<Byte>, ptr: nat, n: nat)
    requires ptr + n <= |block| && Stored(d, e, at, block[..ptr]) && Stored(e, f, at + ptr, block[ptr..][..n])
    ensures Stored(d, f, at, block[..ptr + n])
  {
    assert block[ptr..][..n] == block[ptr..ptr + n];
  }
}
