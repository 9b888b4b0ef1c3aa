/** mkpimage: the SoCFPGA boot image with its header checksum and trailing CRC. */
module Pimage {
  import opened Bytes
  import opened Crc

  const MaxImageSize := 60 * 1024 - 4
  const HeaderSize := 12

  // ----- bytes and words -----

  // A 32-bit word as a little-endian host stores it.
  function WordBytes(w: bv32): seq<bv8> {
    [(w & 0xff) as bv8, ((w >> 8) & 0xff) as bv8, ((w >> 16) & 0xff) as bv8, ((w >> 24) & 0xff) as bv8]
  }

  function WordOf(s: seq<bv8>): bv32
    requires |s| == 4
  {
    Join(s[0], s[1], s[2], s[3])
  }

  function Join(a: bv8, b: bv8, c: bv8, d: bv8): bv32 {
    (a as bv32) | ((b as bv32) << 8) | ((c as bv32) << 16) | ((d as bv32) << 24)
  }

  lemma JoinParts(a: bv8, b: bv8, c: bv8, d: bv8)
    ensures WordBytes(Join(a, b, c, d)) == [a, b, c, d]
  {
  }

  lemma WordRoundTrip(w: bv32)
    ensures |WordBytes(w)| == 4 && WordOf(WordBytes(w)) == w
  {
  }

  function Sum(s: seq<bv8>): nat {
    if s == [] then 0 else Sum(s[..|s| - 1]) + Value(s[|s| - 1])
  }

  lemma {:induction false} SumBound(s: seq<bv8>)
    ensures Sum(s) <= 255 * |s|
  {
    if s != [] {
      SumBound(s[..|s| - 1]);
      ByteBound(s[|s| - 1]);
    }
  }

  // ----- what a loader checks -----

  function Half(s: seq<bv8>, at: nat): nat
    requires at + 2 <= |s|
  {
    Value(s[at]) + 256 * Value(s[at + 1])
  }

  function ImageCrc(s: seq<bv8>): bv32 {
    FeedBits(0xffff_ffff, Bits(s)) ^ 0xffff_ffff
  }

  ghost predicate HasHeader(img: seq<bv8>)
    requires |img| >= 0x50
  {
    && img[0x40..0x46] == [0x41, 0x53, 0x30, 0x31, 0, 0] && img[0x48..0x4a] == [0, 0]
    && 4 * Half(img, 0x46) == |img|
    && Half(img, 0x4a) == Sum(img[0x40..0x4a])
  }

  /** The image states its own length, and its header checksum and trailing CRC are right. */
  ghost predicate Bootable(img: seq<bv8>) {
    |img| >= 0x50 && HasHeader(img) && WordOf(img[|img| - 4..]) == ImageCrc(img[..|img| - 4])
  }

  // The image outside the header and the CRC.
  ghost predicate SamePayload(img: seq<bv8>, was: seq<bv8>)
    requires |img| == |was| >= 0x50
  {
    img[..0x40] == was[..0x40] && img[0x4c..|img| - 4] == was[0x4c..|img| - 4]
  }

  // ----- add_socfpga_header -----

  // `s` with `bytes` written at `at`.
  function Written(s: seq<bv8>, at: nat, bytes: seq<bv8>): (r: seq<bv8>)
    requires at + |bytes| <= |s|
    ensures |r| == |s| && r[..at] == s[..at] && r[at..at + |bytes|] == bytes && r[at + |bytes|..] == s[at + |bytes|..]
  {
    s[..at] + bytes + s[at + |bytes|..]
  }

  method WriteFirst(buf: array<bv8>)
    requires buf.Length >= 0x50
    modifies buf
    ensures buf[..] == Written(old(buf[..]), 0x40, [0x41, 0x53, 0x30, 0x31, 0, 0])
  {
    buf[0x40], buf[0x41], buf[0x42], buf[0x43] := 0x41, 0x53, 0x30, 0x31;
    buf[0x44] := 0;
    buf[0x45] := 0;
  }

  method WriteLength(buf: array<bv8>, length: nat)
    requires buf.Length >= 0x50
    modifies buf
    ensures buf[..] == Written(old(buf[..]), 0x46, [ByteOf(length % 256), ByteOf(length / 256 % 256), 0, 0])
  {
    hide ByteOf;
    buf[0x46] := ByteOf(length % 256);
    buf[0x47] := ByteOf(length / 256 % 256);
    buf[0x48] := 0;
    buf[0x49] := 0;
  }

  method WriteChecksum(buf: array<bv8>)
    requires buf.Length >= 0x50
    modifies buf
    ensures var sum := Sum(old(buf[0x40..0x4a]));
      buf[..] == Written(old(buf[..]), 0x4a, [ByteOf(sum % 256), ByteOf(sum / 256 % 256)])
  {
    hide ByteOf;
    var checksum := 0;
    var i := 0;
    while i < HeaderSize - 2
      invariant i <= HeaderSize - 2 && checksum == Sum(buf[0x40..0x40 + i])
    {
      assert buf[0x40..0x40 + i + 1][..i] == buf[0x40..0x40 + i];
      checksum := checksum + Value(buf[0x40 + i]);
      i := i + 1;
    }
    assert buf[0x40..0x40 + i] == buf[0x40..0x4a];
    ghost var was := buf[..];
    buf[0x4a] := ByteOf(checksum % 256);
    buf[0x4b] := ByteOf(checksum / 256 % 256);
    assert buf[..] == was[..0x4a] + [ByteOf(checksum % 256), ByteOf(checksum / 256 % 256)] + was[0x4c..];
  }

  method StoreWord(buf: array<bv8>, at: nat, w: bv32)
    requires at + 4 <= buf.Length && |WordBytes(w)| == 4
    modifies buf
    ensures buf[..] == Written(old(buf[..]), at, WordBytes(w))
  {
    hide WordBytes;
    var bytes := WordBytes(w);
    ghost var was := buf[..];
    buf[at] := bytes[0];
    buf[at + 1] := bytes[1];
    buf[at + 2] := bytes[2];
    buf[at + 3] := bytes[3];
    assert buf[..] == was[..at] + bytes + was[at + 4..];
  }

  method WriteCrc(buf: array<bv8>, size: nat)
    requires size == buf.Length >= 0x50
    modifies buf
    ensures |WordBytes(ImageCrc(old(buf[..size - 4])))| == 4
    ensures buf[..] == Written(old(buf[..]), size - 4, WordBytes(ImageCrc(old(buf[..size - 4]))))
  {
    var crc := FinalCrc(buf, size);
    hide ImageCrc, WordBytes, Written;
    WordRoundTrip(crc);
    StoreWord(buf, size - 4, crc);
  }

  method FinalCrc(buf: array<bv8>, size: nat) returns (crc: bv32)
    requires 4 <= size <= buf.Length
    ensures crc == ImageCrc(buf[..size - 4])
  {
    hide FeedBits, Bits;
    crc := Crc32(0xffff_ffff, buf, size - 4);
    crc := crc ^ 0xffff_ffff;
  }

  // The header once its bytes are in place.
  lemma HeaderRight(s0: seq<bv8>, s1: seq<bv8>, s2: seq<bv8>, s3: seq<bv8>, length: nat)
    requires |s0| >= 0x50 && s1 == Written(s0, 0x40, [0x41, 0x53, 0x30, 0x31, 0, 0])
    requires s2 == Written(s1, 0x46, [ByteOf(length % 256), ByteOf(length / 256 % 256), 0, 0])
    requires var sum := Sum(s2[0x40..0x4a]); s3 == Written(s2, 0x4a, [ByteOf(sum % 256), ByteOf(sum / 256 % 256)])
    ensures s3[0x40..0x46] == [0x41, 0x53, 0x30, 0x31, 0, 0] && s3[0x48..0x4a] == [0, 0]
    ensures Half(s3, 0x46) == length % 0x1_0000 && Half(s3, 0x4a) == Sum(s3[0x40..0x4a])
    ensures |s3| == |s0| && s3[..0x40] == s0[..0x40] && s3[0x4c..] == s0[0x4c..]
  {
    hide ByteOf, Sum, Value, Written;
    SameSlice(s3, s2, 0x4a, 0x40, 0x4a);
    SameSlice(s3, s2, 0x4a, 0x40, 0x46);
    SameSlice(s3, s2, 0x4a, 0x46, 0x4a);
    SameSlice(s2, s1, 0x46, 0x40, 0x46);
    FourBytes(s3, 0x46);
    HeaderSums(s3, s2, length);
    HeaderOutside(s0, s1, s2, s3);
  }

  lemma FourBytes(s: seq<bv8>, at: nat)
    requires at + 4 <= |s|
    ensures s[at] == s[at..at + 4][0] && s[at + 1] == s[at..at + 4][1] && s[at + 2..at + 4] == s[at..at + 4][2..]
  {
  }

  // The two 16-bit fields of the header.
  lemma HeaderSums(s3: seq<bv8>, s2: seq<bv8>, length: nat)
    requires |s3| == |s2| >= 0x50 && s3[0x40..0x4a] == s2[0x40..0x4a]
    requires s3[0x46..0x4a] == [ByteOf(length % 256), ByteOf(length / 256 % 256), 0, 0]
    requires var sum := Sum(s2[0x40..0x4a]); s3[0x4a..0x4c] == [ByteOf(sum % 256), ByteOf(sum / 256 % 256)]
    ensures Half(s3, 0x46) == length % 0x1_0000 && Half(s3, 0x4a) == Sum(s3[0x40..0x4a])
  {
    hide ByteOf, Sum, Value, Half;
    var field, check := s3[0x46..0x4a], s3[0x4a..0x4c];
    assert s3[0x46] == field[0] && s3[0x47] == field[1];
    HalfField(s3, 0x46, length);
    assert s3[0x4a] == check[0] && s3[0x4b] == check[1];
    HalfField(s3, 0x4a, Sum(s2[0x40..0x4a]));
    SumBound(s2[0x40..0x4a]);
  }

  lemma HalfField(s: seq<bv8>, at: nat, n: nat)
    requires at + 2 <= |s| && s[at] == ByteOf(n % 256) && s[at + 1] == ByteOf(n / 256 % 256)
    ensures Half(s, at) == n % 0x1_0000
  {
    hide ByteOf, Value;
    HalfOf(n);
  }

  // The three writes leave the rest alone.
  lemma HeaderOutside(s0: seq<bv8>, s1: seq<bv8>, s2: seq<bv8>, s3: seq<bv8>)
    requires |s0| == |s1| == |s2| == |s3| >= 0x50
    requires s1[..0x40] == s0[..0x40] && s1[0x46..] == s0[0x46..]
    requires s2[..0x46] == s1[..0x46] && s2[0x4a..] == s1[0x4a..]
    requires s3[..0x4a] == s2[..0x4a] && s3[0x4c..] == s2[0x4c..]
    ensures s3[..0x40] == s0[..0x40] && s3[0x4c..] == s0[0x4c..]
  {
    SamePrefix(s3, s2, 0x4a, 0x40);
    SamePrefix(s2, s1, 0x46, 0x40);
    SameSuffix(s2, s1, 0x4a, 0x4c);
    SameSuffix(s1, s0, 0x46, 0x4c);
  }

  lemma SamePrefix(s: seq<bv8>, t: seq<bv8>, n: nat, i: nat)
    requires i <= n <= |s| && n <= |t| && s[..n] == t[..n]
    ensures s[..i] == t[..i]
  {
    assert s[..i] == s[..n][..i] && t[..i] == t[..n][..i];
  }

  lemma SameSuffix(s: seq<bv8>, t: seq<bv8>, n: nat, i: nat)
    requires n <= i <= |s| == |t| && s[n..] == t[n..]
    ensures s[i..] == t[i..]
  {
    assert s[i..] == s[n..][i - n..] && t[i..] == t[n..][i - n..];
  }

  lemma HalfOf(n: nat)
    ensures Value(ByteOf(n % 256)) + 256 * Value(ByteOf(n / 256 % 256)) == n % 0x1_0000
  {
    hide ByteOf, Value;
    ByteValue(n % 256);
    ByteValue(n / 256 % 256);
    TwoDigits(n);
  }

  lemma TwoDigits(n: nat)
    ensures n % 256 + 256 * (n / 256 % 256) == n % 0x1_0000
  {
    var q := n / 256 / 256;
    assert n / 256 == 256 * q + n / 256 % 256;
    assert n == 0x1_0000 * q + (256 * (n / 256 % 256) + n % 256);
  }

  lemma CrcRight(s3: seq<bv8>, s4: seq<bv8>)
    requires |s3| >= 0x50 && s4 == Written(s3, |s3| - 4, WordBytes(ImageCrc(s3[..|s3| - 4])))
    ensures |s4| == |s3| && s4[..|s4| - 4] == s3[..|s3| - 4] && WordOf(s4[|s4| - 4..]) == ImageCrc(s4[..|s4| - 4])
  {
    hide ImageCrc, WordBytes, WordOf;
    var crc := ImageCrc(s3[..|s3| - 4]);
    assert |WordBytes(crc)| == 4 by {
      WordRoundTrip(crc);
    }
    WordRoundTrip(crc);
    assert s4[|s4| - 4..] == s4[|s4| - 4..|s4| - 4 + 4];
  }

  /** add_socfpga_header: a size that is no multiple of 4 is refused; otherwise the result is a bootable image
      exactly when the size in words fits the 16-bit length field. */
  method AddHeader(buf: array<bv8>, size: nat) returns (ok: bool)
    requires size == buf.Length >= 0x50
    modifies buf
    ensures ok <==> size % 4 == 0
    ensures !ok ==> buf[..] == old(buf[..])
    ensures ok ==> SamePayload(buf[..], old(buf[..])) && (Bootable(buf[..]) <==> size / 4 < 0x1_0000)
  {
    hide ImageCrc, WordBytes, WordOf, ByteOf, Sum, Value, Written;
    var length := size / 4;
    if size % 4 != 0 {
      return false;
    }
    ghost var s0 := buf[..];
    WriteFirst(buf);
    ghost var s1 := buf[..];
    WriteLength(buf, length);
    ghost var s2 := buf[..];
    assert buf[0x40..0x4a] == s2[0x40..0x4a];
    WriteChecksum(buf);
    ghost var s3 := buf[..];
    assert buf[..size - 4] == s3[..size - 4];
    WriteCrc(buf, size);
    HeaderRight(s0, s1, s2, s3, length);
    CrcRight(s3, buf[..]);
    HeaderKept(s0, s3, buf[..], length);
    return true;
  }

  lemma HeaderKept(s0: seq<bv8>, s3: seq<bv8>, s4: seq<bv8>, length: nat)
    requires |s0| == |s3| == |s4| == 4 * length >= 0x50 && s4[..|s4| - 4] == s3[..|s3| - 4]
    requires s3[0x40..0x46] == [0x41, 0x53, 0x30, 0x31, 0, 0] && s3[0x48..0x4a] == [0, 0]
    requires Half(s3, 0x46) == length % 0x1_0000 && Half(s3, 0x4a) == Sum(s3[0x40..0x4a])
    requires s3[..0x40] == s0[..0x40] && s3[0x4c..] == s0[0x4c..]
    ensures HasHeader(s4) <==> length < 0x1_0000
    ensures SamePayload(s4, s0)
  {
    hide Sum, Value;
    var n := |s4| - 4;
    SameSlice(s4, s3, n, 0x40, 0x46);
    SameSlice(s4, s3, n, 0x48, 0x4a);
    SameSlice(s4, s3, n, 0x40, 0x4a);
    SameSlice(s4, s3, n, 0x4c, n);
    SameByte(s4, s3, n, 0x46);
    SameByte(s4, s3, n, 0x47);
    SameByte(s4, s3, n, 0x4a);
    SameByte(s4, s3, n, 0x4b);
    SamePrefix(s4, s3, n, 0x40);
    assert s3[0x4c..][..n - 0x4c] == s3[0x4c..n] && s0[0x4c..][..n - 0x4c] == s0[0x4c..n];
  }

  lemma SameSlice(s: seq<bv8>, t: seq<bv8>, n: nat, i: nat, j: nat)
    requires n <= |s| && n <= |t| && s[..n] == t[..n] && i <= j <= n
    ensures s[i..j] == t[i..j]
  {
    assert s[i..j] == s[..n][i..j] && t[i..j] == t[..n][i..j];
  }

  lemma SameByte(s: seq<bv8>, t: seq<bv8>, n: nat, i: nat)
    requires n <= |s| && n <= |t| && s[..n] == t[..n] && i < n
    ensures s[i] == t[i]
  {
    assert s[i] == s[..n][i] && t[i] == t[..n][i];
  }

  // ----- the program -----

  function Words(ws: seq<bv32>): (s: seq<bv8>)
    ensures |s| == 4 * |ws|
  {
    seq(4 * |ws|, i requires 0 <= i < 4 * |ws| => WordBytes(ws[i / 4])[i % 4])
  }

  // The barebox header: branches over itself, its name and room for the boot header.
  const BareboxHeader: seq<bv32> := [
    0xea00_007e, 0xeaff_fffe, 0xeaff_fffe, 0xeaff_fffe, 0xeaff_fffe, 0xeaff_fffe, 0xeaff_fffe, 0xeaff_fffe,
    0x6572_6162, 0x0078_6f62, 0, 0, 0, 0, 0, 0, 0, 0, 0, 0xea00_006b]

  function Zeroes(n: nat): (s: seq<bv8>)
    ensures |s| == n && forall i :: 0 <= i < n ==> s[i] == 0
  {
    seq(n, _ => 0)
  }

  function Prefix(barebox: bool): seq<bv8> {
    if barebox then Words(BareboxHeader) + Zeroes(512 - 80) else []
  }

  function Padding(size: nat): (pad: nat)
    ensures pad < 4 && (size + pad) % 4 == 0
  {
    if size % 4 == 0 then 0 else 4 - size % 4
  }

  // The image before the boot header and the CRC are put in: a short read leaves zeros.
  function Raw(size: nat, data: seq<bv8>, barebox: bool): seq<bv8>
    requires |data| <= size
  {
    Prefix(barebox) + data + Zeroes(size - |data| + 4 + Padding(size))
  }

  datatype BuildResult = Image(buf: array<bv8>) | TooSmall | TooBig

  method Fill(buf: array<bv8>, at: nat, data: seq<bv8>)
    requires at + |data| <= buf.Length
    modifies buf
    ensures buf[..] == Written(old(buf[..]), at, data)
  {
    ghost var was := buf[..];
    var i := 0;
    while i < |data|
      invariant i <= |data|
      invariant forall j :: 0 <= j < buf.Length ==> buf[j] == if at <= j < at + i then data[j - at] else was[j]
    {
      buf[at + i] := data[i];
      i := i + 1;
    }
    assert buf[..] == was[..at] + data + was[at + |data|..];
  }

  method MakeRaw(size: nat, data: seq<bv8>, barebox: bool) returns (buf: array<bv8>)
    requires |data| <= size
    ensures fresh(buf) && buf[..] == Raw(size, data, barebox)
  {
    var add, pad := if barebox then 512 else 0, Padding(size);
    var total := size + 4 + add + pad;
    buf := new bv8[total](_ => 0);
    assert buf[..] == Zeroes(total);
    Fill(buf, add, data);
    ghost var s1 := buf[..];
    if barebox {
      var header := Words(BareboxHeader);
      Fill(buf, 0, header);
    }
    RawParts(buf[..], s1, size, data, barebox);
  }

  lemma RawParts(s2: seq<bv8>, s1: seq<bv8>, size: nat, data: seq<bv8>, barebox: bool)
    requires |data| <= size
    requires var add := if barebox then 512 else 0; s1 == Written(Zeroes(size + 4 + add + Padding(size)), add, data)
    requires s2 == if barebox then Written(s1, 0, Words(BareboxHeader)) else s1
    ensures s2 == Raw(size, data, barebox)
  {
    hide WordBytes, Words, Padding;
    var add := if barebox then 512 else 0;
    assert s1 == Zeroes(add) + data + Zeroes(size - |data| + 4 + Padding(size));
  }

  /** The image builder: it refuses files outside the size limits, and otherwise yields a bootable image of at most
      60 KiB that contains the file. */
  method BuildImage(size: nat, data: seq<bv8>, barebox: bool) returns (r: BuildResult)
    requires |data| <= size
    ensures r.TooSmall? <==> !barebox && size < 80
    ensures r.TooBig? <==> size > (if barebox then MaxImageSize - 512 else MaxImageSize)
    ensures r.Image? ==> var img := r.buf[..];
      && Bootable(img) && |img| % 4 == 0 && |img| <= 60 * 1024
      && |img| == |Raw(size, data, barebox)| && SamePayload(img, Raw(size, data, barebox))
  {
    hide Raw, Bootable, SamePayload;
    if size < (if barebox then 0 else 80) {
      return TooSmall;
    }
    if size > (if barebox then MaxImageSize - 512 else MaxImageSize) {
      return TooBig;
    }
    var buf := MakeRaw(size, data, barebox);
    RawLength(size, data, barebox);
    var ok := AddHeader(buf, buf.Length);
    return Image(buf);
  }

  lemma RawLength(size: nat, data: seq<bv8>, barebox: bool)
    requires |data| <= size
    ensures |Raw(size, data, barebox)| == size + 4 + (if barebox then 512 else 0) + Padding(size)
  {
    hide WordBytes, Words;
  }

  lemma FinalXor(a: bv32, b: bv32)
    requires a ^ 0xffff_ffff == b ^ 0xffff_ffff
    ensures a == b
  {
  }

  lemma WordInjective(s: seq<bv8>, t: seq<bv8>)
    requires |s| == |t| == 4 && WordOf(s) == WordOf(t)
    ensures s == t
  {
    hide WordBytes, Join;
    JoinParts(s[0], s[1], s[2], s[3]);
    JoinParts(t[0], t[1], t[2], t[3]);
    assert s == [s[0], s[1], s[2], s[3]] && t == [t[0], t[1], t[2], t[3]];
  }

  /** No image with one byte changed, wherever it is, passes as bootable. */
  lemma DamageCaught(img: seq<bv8>, i: nat, b: bv8)
    requires Bootable(img) && i < |img| && b != img[i]
    ensures !Bootable(img[i := b])
  {
    hide FeedBits, Bits, HasHeader, WordOf;
    var bad, n := img[i := b], |img| - 4;
    if Bootable(bad) {
      if i < n {
        assert bad[..n] == img[..n][i := b] && bad[n..] == img[n..];
        OneByteCaught(0xffff_ffff, img[..n], i, b);
        FinalXor(FeedBits(0xffff_ffff, Bits(img[..n])), FeedBits(0xffff_ffff, Bits(bad[..n])));
      } else {
        assert bad[..n] == img[..n] && img[n..][i - n] == img[i] && bad[n..][i - n] == b;
        WordInjective(img[n..], bad[n..]);
      }
    }
  }
}
