/**
 The initial ram disk: the image tools/initrd.py writes, and fs/initrd.c with
 `generic_file_seek_size` (fs/file.c) and `vfs_setpos` (fs/vfs.c), which read it.
 */
module Initrd {
  import opened Words
  import opened Common

  const PATH_LENGTH := 60
  const PREFIX := 7
  const SLASH: byte := 47

  type bytes = seq<byte>

  datatype File = File(path: bytes, contents: bytes)

  // ----- The writer -----

  /** Paths the tool does not skip. */
  predicate Accepted(f: File) {
    |f.path| <= PATH_LENGTH
  }

  /** The name in the image: the part of the path behind `initrd/`, behind a slash. */
  function NameOf(f: File): bytes {
    [SLASH] + if |f.path| <= PREFIX then [] else f.path[PREFIX..]
  }

  function Zeros(n: nat): bytes {
    seq(n, _ => 0)
  }

  /** `struct.pack` of a string into `n` bytes. */
  function Padded(s: bytes, n: nat): (r: bytes)
    ensures |r| == n
  {
    if |s| <= n then s + Zeros(n - |s|) else s[..n]
  }

  function Pack16(n: nat): (r: bytes)
    requires n < 0x1_0000
    ensures |r| == 2
  {
    [n % 0x100, n / 0x100]
  }

  function Pack32(v: u32): (r: bytes)
    ensures |r| == 4
  {
    [v % 0x100, v / 0x100 % 0x100, v / 0x1_0000 % 0x100, v / 0x100_0000]
  }

  /** `Header.pack` */
  function PackHeader(name: bytes, length: u32, offset: u32): (r: bytes)
    ensures |r| == 68
  {
    Padded(if |name| <= PATH_LENGTH - 1 then name else name[..PATH_LENGTH - 1],
         PATH_LENGTH) + Pack32(length) + Pack32(offset)
  }

  function Kept(files: seq<File>): (r: seq<File>)
    ensures forall i :: 0 <= i < |r| ==> Accepted(r[i])
  {
    if files == [] then []
    else
      var n := |files| - 1;
      Kept(files[..n]) + if Accepted(files[n]) then [files[n]] else []
  }

  function Data(files: seq<File>): bytes {
    if files == [] then [] else Data(files[..|files| - 1]) + files[|files| - 1].contents
  }

  /** What fits the fields of the format; the tool fails on anything else. */
  ghost predicate Packable(files: seq<File>) {
    |files| < 0x1_0000 && |Data(files)| < 0x8000_0000
  }

  lemma {:induction false} DataPrefix(files: seq<File>, j: nat)
    requires j < |files|
    ensures var at := |Data(files[..j])|;
            at + |files[j].contents| <= |Data(files)| && Data(files)[at..at + |files[j].contents|] == files[j].contents
    decreases |files|
  {
    var n := |files| - 1;
    if j < n {
      DataPrefix(files[..n], j);
      assert files[..n][..j] == files[..j];
    } else {
      assert files[..j] == files[..n];
    }
  }

  function Headers(files: seq<File>): (r: bytes)
    requires |Data(files)| < 0x8000_0000
    ensures |r| == 68 * |files|
  {
    if files == [] then []
    else
      var n := |files| - 1;
      Headers(files[..n]) + PackHeader(NameOf(files[n]), |files[n].contents|, |Data(files[..n])|)
  }

  function Image(files: seq<File>): bytes
    requires Packable(files)
  {
    Pack16(|files|) + Headers(files) + Data(files)
  }

  /** The tool's loop. */
  method WriteImage(files: seq<File>) returns (image: bytes)
    requires Packable(Kept(files))
    ensures image == Image(Kept(files))
  {
    var headers: bytes, count: nat, offset: nat, data: bytes := [], 0, 0, [];
    for i := 0 to |files|
      invariant Packed(Kept(files[..i]), headers, count, offset, data)
    {
      WriteStep(files, i, headers, count, offset, data);
      if |files[i].path| > PATH_LENGTH {
        continue;
      }
      headers := headers + PackHeader(NameOf(files[i]), |files[i].contents|, offset);
      data := data + files[i].contents;
      count, offset := count + 1, offset + |files[i].contents|;
    }
    assert files[..|files|] == files;
    image := Pack16(count) + headers + data;
  }

  lemma WriteStep(files: seq<File>, i: nat, headers: bytes, count: nat, offset: nat, data: bytes)
    requires i < |files| && Packable(Kept(files)) && Packed(Kept(files[..i]), headers, count, offset, data)
    ensures !Accepted(files[i]) ==> Packed(Kept(files[..i + 1]), headers, count, offset, data)
    ensures |files[i].contents| < 0x8000_0000 || !Accepted(files[i])
    ensures Accepted(files[i]) ==>
              Packed(Kept(files[..i + 1]), headers + PackHeader(NameOf(files[i]), |files[i].contents|, offset),
                   count + 1, offset + |files[i].contents|, data + files[i].contents)
  {
    KeptStep(files, i);
    KeptPrefix(files, i + 1);
    if Accepted(files[i]) {
      PackedStep(Kept(files[..i]), files[i]);
    }
  }

  ghost predicate Packed(files: seq<File>, headers: bytes, count: nat, offset: nat, data: bytes) {
    |Data(files)| < 0x8000_0000 && headers == Headers(files) && count == |files| && offset == |Data(files)|
         && data == Data(files)
  }

  lemma PackedStep(files: seq<File>, f: File)
    requires |Data(files + [f])| < 0x8000_0000
    ensures |Data(files + [f])| == |Data(files)| + |f.contents|
    ensures Data(files + [f]) == Data(files) + f.contents
    ensures Headers(files + [f]) == Headers(files) + PackHeader(NameOf(f), |f.contents|, |Data(files)|)
  {
    assert (files + [f])[..|files|] == files;
  }

  lemma KeptStep(files: seq<File>, i: nat)
    requires i < |files|
    ensures Kept(files[..i + 1]) == if Accepted(files[i]) then Kept(files[..i]) + [files[i]] else Kept(files[..i])
  {
    assert files[..i + 1][..i] == files[..i];
  }

  lemma {:induction false} KeptPrefix(files: seq<File>, i: nat)
    requires i <= |files|
    ensures |Data(Kept(files[..i]))| <= |Data(Kept(files))|
    decreases |files|
  {
    if i < |files| {
      var n := |files| - 1;
      KeptPrefix(files[..n], i);
      assert files[..n][..i] == files[..i];
      var kept := Kept(files[..n]);
      if Accepted(files[n]) {
        assert (kept + [files[n]])[..|kept|] == kept;
      } else {
        assert kept + [] == kept;
      }
    } else {
      assert files[..i] == files;
    }
  }

  // ----- The reader -----

  /** The string a C program sees: the bytes before the first zero. */
  function CString(s: bytes): bytes {
    if s == [] || s[0] == 0 then [] else [s[0]] + CString(s[1..])
  }

  function Count(image: bytes): nat
    requires |image| >= 2
  {
    image[0] as int + 0x100 * image[1] as int
  }

  /** The image holds as many headers as it says, and each header's bytes. */
  ghost predicate Readable(image: bytes) {
    && |image| >= 2 && 2 + 68 * Count(image) <= |image|
    && forall i: nat :: i < Count(image) ==>
         2 + 68 * Count(image) + OffsetOf(image, i) + LengthOf(image, i) <= |image| && LengthOf(image, i) < 0x8000_0000
  }

  function HeaderAt(image: bytes, i: nat): (h: bytes)
    requires 2 + 68 * i + 68 <= |image|
    ensures |h| == 68
  {
    image[2 + 68 * i..2 + 68 * i + 68]
  }

  function LengthOf(image: bytes, i: nat): u32
    requires 2 + 68 * i + 68 <= |image|
  {
    Load32(HeaderAt(image, i), 60)
  }

  function OffsetOf(image: bytes, i: nat): u32
    requires 2 + 68 * i + 68 <= |image|
  {
    Load32(HeaderAt(image, i), 64)
  }

  function NameAt(image: bytes, i: nat): bytes
    requires 2 + 68 * i + 68 <= |image|
  {
    CString(HeaderAt(image, i)[..60])
  }

  /** The bytes of file `i`. */
  ghost function ContentsAt(image: bytes, i: nat): bytes
    requires Readable(image) && i < Count(image)
  {
    image[2 + 68 * Count(image)..][OffsetOf(image, i)..OffsetOf(image, i) + LengthOf(image, i)]
  }

  /** `initrdfs_open` */
  method Open(image: bytes, path: bytes) returns (r: Option<nat>)
    requires Readable(image)
    ensures r.Some? ==> r.value < Count(image) && NameAt(image, r.value) == path
    ensures r.Some? ==> forall i: nat :: i < r.value ==> NameAt(image, i) != path
    ensures r.None? ==> forall i: nat :: i < Count(image) ==> NameAt(image, i) != path
  {
    for i := 0 to Count(image)
      invariant forall j: nat :: j < i ==> NameAt(image, j) != path
    {
      if NameAt(image, i) == path {
        return Some(i);
      }
    }
    return None;
  }

  // ----- The image read back -----

  predicate NoZero(s: bytes) {
    forall i :: 0 <= i < |s| ==> s[i] != 0
  }

  lemma {:induction false} CStringPadded(s: bytes, k: nat)
    requires NoZero(s) && 0 < k
    ensures CString(s + Zeros(k)) == s
  {
    var t := s + Zeros(k);
    if s != [] {
      assert t[1..] == s[1..] + Zeros(k);
      CStringPadded(s[1..], k);
    } else {
      assert t[0] == 0;
    }
  }

  lemma LoadPacked(v: u32)
    ensures Load32(Pack32(v), 0) == v
  {
    Digits(v);
  }

  /** A header read back: the fields, and the name in full. */
  lemma HeaderRoundTrip(f: File, length: u32, offset: u32)
    requires Accepted(f) && NoZero(f.path)
    ensures var h := PackHeader(NameOf(f), length, offset);
            CString(h[..60]) == NameOf(f) && Load32(h, 60) == length && Load32(h, 64) == offset
  {
    var h, name := PackHeader(NameOf(f), length, offset), NameOf(f);
    assert |name| <= 54 && NoZero(name);
    assert h[..60] == name + Zeros(60 - |name|);
    CStringPadded(name, 60 - |name|);
    LoadPacked(length);
    LoadPacked(offset);
    assert h[60] == Pack32(length)[0] && h[61] == Pack32(length)[1] && h[62] == Pack32(length)[2]
         && h[63] == Pack32(length)[3];
    assert h[64] == Pack32(offset)[0] && h[65] == Pack32(offset)[1] && h[66] == Pack32(offset)[2]
         && h[67] == Pack32(offset)[3];
  }

  lemma {:induction false} HeadersAt(files: seq<File>, j: nat)
    requires |Data(files)| < 0x8000_0000 && j < |files|
    ensures |Data(files[..j])| < 0x8000_0000 && |files[j].contents| < 0x8000_0000
    ensures Headers(files)[68 * j..68 * j + 68] == PackHeader(NameOf(files[j]), |files[j].contents|, |Data(files[..j])|)
    decreases |files|
  {
    var n := |files| - 1;
    var last := PackHeader(NameOf(files[n]), |files[n].contents|, |Data(files[..n])|);
    if j < n {
      HeadersAt(files[..n], j);
      assert files[..n][..j] == files[..j];
      SliceOfFirst(Headers(files[..n]), last, 68 * j, 68 * j + 68);
    } else {
      SliceIsSecond(Headers(files[..n]), last, 68 * j, 68 * j + 68);
    }
  }

  lemma SliceOfFirst(a: bytes, b: bytes, i: nat, k: nat)
    requires i <= k <= |a|
    ensures (a + b)[i..k] == a[i..k]
  {
  }

  lemma SliceIsSecond(a: bytes, b: bytes, i: nat, k: nat)
    requires i == |a| && k == i + |b|
    ensures (a + b)[i..k] == b
  {
  }

  ghost predicate Clean(files: seq<File>) {
    forall i :: 0 <= i < |files| ==> Accepted(files[i]) && NoZero(files[i].path)
  }

  lemma ImageHeader(files: seq<File>, j: nat)
    requires Packable(files) && j < |files|
    ensures |Data(files[..j])| < 0x8000_0000 && |files[j].contents| < 0x8000_0000
    ensures |Image(files)| == 2 + 68 * |files| + |Data(files)|
    ensures HeaderAt(Image(files), j) == PackHeader(NameOf(files[j]), |files[j].contents|, |Data(files[..j])|)
  {
    HeadersAt(files, j);
    HeaderSlice(Pack16(|files|), Headers(files), Data(files), j);
  }

  lemma HeaderSlice(a: bytes, b: bytes, c: bytes, j: nat)
    requires |a| == 2 && 68 * j + 68 <= |b|
    ensures HeaderAt(a + b + c, j) == b[68 * j..68 * j + 68]
  {
  }

  /** Entry `j` of the image is file `j`: name, length and place. */
  lemma ImageEntry(files: seq<File>, j: nat)
    requires Packable(files) && Clean(files) && j < |files|
    ensures var image := Image(files);
            && |image| == 2 + 68 * |files| + |Data(files)|
            && NameAt(image, j) == NameOf(files[j]) && LengthOf(image, j) == |files[j].contents|
                 && OffsetOf(image, j) == |Data(files[..j])|
  {
    ImageHeader(files, j);
    HeaderRoundTrip(files[j], |files[j].contents|, |Data(files[..j])|);
  }

  // ----- The format byte by byte -----

  /** A little-endian word. */
  predicate WordIs(image: bytes, at: nat, v: nat) {
    && at + 4 <= |image|
    && v == image[at] as int + 256 * image[at + 1] as int + 65536 * image[at + 2] as int
            + 16777216 * image[at + 3] as int
  }

  /** A slash, the path without its first seven bytes, then zeros. */
  function NameByte(path: bytes, k: nat): byte {
    if k == 0 then 47 else if k + 6 < |path| then path[k + 6] else 0
  }

  /** Header `j`: 60 bytes of name, then the length and the offset as words. */
  lemma HeaderBytes(files: seq<File>, j: nat, at: nat)
    requires Packable(files) && j < |files| && Accepted(files[j]) && at == 2 + 68 * j
    ensures var image, path := Image(files), files[j].path;
            && at + 68 <= |image| && (forall k: nat :: k < 60 ==> image[at + k] == NameByte(path, k))
            && WordIs(image, at + 60, |files[j].contents|) && WordIs(image, at + 64, |Data(files[..j])|)
  {
    ImageHeader(files, j);
    var h, image, length, offset := HeaderAt(Image(files), j), Image(files), |files[j].contents|, |Data(files[..j])|;
    PackedWords(files[j], length, offset);
    forall k: nat | k < 68
      ensures image[at + k] == h[k]
    {
    }
    forall k: nat | k < 60
      ensures image[at + k] == NameByte(files[j].path, k)
    {
      PackedName(files[j], length, offset, k);
    }
    WordMoves(image, h, at, 60, length);
    WordMoves(image, h, at, 64, offset);
  }

  lemma WordMoves(image: bytes, h: bytes, at: nat, i: nat, v: nat)
    requires at + |h| <= |image| && h == image[at..at + |h|] && WordIs(h, i, v)
    ensures WordIs(image, at + i, v)
  {
  }

  lemma PackedName(f: File, length: u32, offset: u32, k: nat)
    requires Accepted(f) && k < 60
    ensures PackHeader(NameOf(f), length, offset)[k] == NameByte(f.path, k)
  {
  }

  lemma PackedWords(f: File, length: u32, offset: u32)
    ensures var h := PackHeader(NameOf(f), length, offset); WordIs(h, 60, length) && WordIs(h, 64, offset)
  {
    Digits(length);
    Digits(offset);
  }

  /** The count comes first, and the contents come behind the headers, one after the other. */
  lemma DataBytes(files: seq<File>, j: nat, i: nat)
    requires Packable(files) && j < |files| && i < |files[j].contents|
    ensures var image, at := Image(files), 2 + 68 * |files| + |Data(files[..j])| + i;
            at < |image| && image[at] == files[j].contents[i]
            && |files| == image[0] as int + 256 * image[1] as int
  {
    DataPrefix(files, j);
    assert Image(files)[2 + 68 * |files|..] == Data(files);
  }

  /** Where a file's data starts: behind that of the file before it. */
  lemma DataStarts(files: seq<File>, j: nat)
    requires j < |files|
    ensures Data(files[..0]) == [] && |Data(files[..j + 1])| == |Data(files[..j])| + |files[j].contents|
  {
    assert files[..j + 1][..j] == files[..j];
  }

  /** Exactly the files whose paths have at most 60 bytes are packed, in their order. */
  lemma {:induction false} KeptIs(files: seq<File>, more: seq<File>, f: File)
    ensures f in Kept(files) <==> f in files && |f.path| <= 60
    ensures Kept(files + more) == Kept(files) + Kept(more)
    decreases |files| + |more|
  {
    if more != [] {
      var n := |more| - 1;
      assert (files + more)[..|files| + n] == files + more[..n];
      KeptIs(files, more[..n], f);
    } else if files != [] {
      var n := |files| - 1;
      assert files == files[..n] + [files[n]] && files + more == files;
      KeptIs(files[..n], [], f);
    }
  }

  lemma ImageReadable(files: seq<File>)
    requires Packable(files) && Clean(files)
    ensures Readable(Image(files)) && Count(Image(files)) == |files|
  {
    var image := Image(files);
    forall i: nat | i < |files|
      ensures 2 + 68 * |files| + OffsetOf(image, i) + LengthOf(image, i) <= |image| && LengthOf(image, i) < 0x8000_0000
    {
      ImageEntry(files, i);
      DataPrefix(files, i);
    }
  }

  /** Each file's bytes come back unchanged. */
  lemma ContentsRoundTrip(files: seq<File>, j: nat)
    requires Packable(files) && Clean(files) && j < |files|
    ensures Readable(Image(files)) && Count(Image(files)) == |files| && ContentsAt(Image(files), j) == files[j].contents
  {
    ImageReadable(files);
    ImageEntry(files, j);
    DataPrefix(files, j);
    assert Image(files)[2 + 68 * |files|..] == Data(files);
  }

  ghost predicate DistinctNames(files: seq<File>) {
    forall i, j :: 0 <= i < j < |files| ==> NameOf(files[i]) != NameOf(files[j])
  }

  /** Distinct paths in the `initrd/` directory have distinct names. */
  lemma PathsToNames(files: seq<File>, dir: bytes)
    requires |dir| == PREFIX
    requires forall i :: 0 <= i < |files| ==>
            |files[i].path| >= PREFIX && files[i].path[..PREFIX] == dir
    requires forall i, j :: 0 <= i < j < |files| ==> files[i].path != files[j].path
    ensures DistinctNames(files)
  {
    forall i, j | 0 <= i < j < |files|
      ensures NameOf(files[i]) != NameOf(files[j])
    {
      var p, q := files[i].path, files[j].path;
      assert p == p[..PREFIX] + p[PREFIX..] && q == q[..PREFIX] + q[PREFIX..];
      assert NameOf(files[i])[1..] == p[PREFIX..] && NameOf(files[j])[1..] == q[PREFIX..];
    }
  }

  /** Opening a name finds its file exactly, and nothing else is found. */
  method OpenFinds(files: seq<File>, path: bytes) returns (r: Option<nat>)
    requires Packable(files) && Clean(files) && DistinctNames(files)
    ensures forall j: nat :: j < |files| ==> (r == Some(j) <==> NameOf(files[j]) == path)
    ensures r.None? <==> forall j: nat :: j < |files| ==> NameOf(files[j]) != path
    ensures r.Some? ==> Readable(Image(files)) && r.value < Count(Image(files)) == |files|
    ensures r.Some? ==> ContentsAt(Image(files), r.value) == files[r.value].contents
  {
    ImageReadable(files);
    forall j: nat | j < |files|
      ensures NameAt(Image(files), j) == NameOf(files[j])
    {
      ImageEntry(files, j);
    }
    r := Open(Image(files), path);
    if r.Some? {
      ContentsRoundTrip(files, r.value);
    }
  }

  // ----- Reading and seeking -----

  datatype Whence = SeekSet | SeekCur | SeekEnd

  /** A 32-bit value taken as signed. */
  function Signed(x: int): int {
    if Wrap(x) < 0x8000_0000 then Wrap(x) else Wrap(x) - 0x1_0000_0000
  }

  /** The answer of a seek and the position afterwards; the largest position is the last byte's. */
  function Seeked(length: u32, at: u32, pos: int, whence: Whence): (r: (int, u32)) {
    var size := Wrap(length - 1);
    if whence.SeekCur? && pos == 0 then (Signed(at), at)
    else
      var p := if whence.SeekEnd? then Signed(pos + size) else if whence.SeekCur? then Signed(pos + at) else pos;
      if p < 0 || p > Signed(size) then (-1, at) else (p, p)
  }

  /** Seeks never leave the file, and an absolute one succeeds exactly for positions of bytes of it. */
  lemma SeekStays(length: u32, at: u32, pos: int, whence: Whence)
    requires length < 0x8000_0000 && at <= length
    ensures Seeked(length, at, pos, whence).1 <= length
    ensures whence.SeekSet? ==> (Seeked(length, at, pos, whence) == (pos, pos) <==> 0 <= pos < length)
    ensures whence.SeekEnd? && -0x8000_0000 <= pos <= 0 ==>
            (Seeked(length, at, pos, whence) == (length - 1 + pos, length - 1 + pos) <==> 0 <= length - 1 + pos)
  {
  }

  /** Where a seek is to go: the end counts from the last byte. */
  function Target(length: u32, at: u32, pos: int, whence: Whence): int {
    match whence
    case SeekSet => pos
    case SeekCur => at + pos
    case SeekEnd => length - 1 + pos
  }

  /** Every seek by a 32-bit distance: to its target exactly if that is a byte of the file; going nowhere from the
      current position always succeeds. */
  lemma SeekIs(length: u32, at: u32, pos: int, whence: Whence)
    requires length < 0x8000_0000 && at <= length && -0x8000_0000 <= pos < 0x8000_0000
    ensures var to := Target(length, at, pos, whence);
            Seeked(length, at, pos, whence)
            == if whence.SeekCur? && pos == 0 then (at, at) else if 0 <= to < length then (to, to) else (-1, at)
  {
    var size := Wrap(length - 1);
    assert Signed(size) == length - 1;
    if whence.SeekEnd? {
      assert length > 0 ==> size == length - 1;
      SignedIs(pos + size, Target(length, at, pos, whence));
    } else if whence.SeekCur? {
      SignedIs(pos + at, at + pos);
    }
  }

  /** A sum of two signed words, in 32 bits. */
  lemma SignedIs(x: int, to: int)
    requires (x == to || x == to + TWO32) && -0x8000_0001 <= to < TWO32
    ensures -0x8000_0000 <= to < 0x8000_0000 ==> Signed(x) == to
    ensures to >= 0x8000_0000 ==> Signed(x) < 0
    ensures to < -0x8000_0000 ==> Signed(x) == 0x7FFF_FFFF
  {
  }

  /** The copying loop of `initrdfs_read`, for a file of `length` bytes from `start` on. */
  method CopyOut(image: bytes, start: nat, length: u32, pos: u32, buffer: array<byte>, nbytes: u32) returns (i: nat)
    requires start + length <= |image| && pos <= length && nbytes <= buffer.Length
    modifies buffer
    ensures i == Min(nbytes, length - pos)
    ensures buffer[..i] == image[start + pos..start + pos + i] && buffer[i..] == old(buffer[..])[i..]
  {
    i := 0;
    while i < Wrap(length - pos) && i < nbytes
      invariant i <= nbytes && i <= length - pos
      invariant forall k :: 0 <= k < i ==> buffer[k] == image[start + k + pos]
      invariant forall k :: i <= k < buffer.Length ==> buffer[k] == old(buffer[k])
    {
      buffer[i] := image[start + i + pos];
      i := i + 1;
    }
  }

  lemma PieceOf(image: bytes, base: nat, from: nat, to: nat, p: nat, q: nat)
    requires base + to <= |image| && from <= to && p <= q <= to - from
    ensures image[base..][from..to][p..q] == image[base + from + p..base + from + q]
  {
    var piece := image[base..][from..to][p..q];
    var same := image[base + from + p..base + from + q];
    forall k | 0 <= k < |piece|
      ensures piece[k] == same[k]
    {
      assert same[k] == image[base + (from + (p + k))];
    }
    assert piece == same;
  }

  class OpenFile {
    const image: bytes
    const inode: nat
    var pos: u32
    var eof: bool

    ghost predicate Valid()
      reads this
    {
      Readable(image) && inode < Count(image) && pos <= LengthOf(image, inode)
    }

    constructor (image: bytes, inode: nat)
      requires Readable(image) && inode < Count(image)
      ensures Valid() && this.image == image && this.inode == inode && pos == 0
    {
      this.image, this.inode, pos, eof := image, inode, 0, false;
    }

    /** `initrdfs_read` */
    method Read(buffer: array<byte>, nbytes: u32) returns (i: nat)
      requires Valid() && nbytes <= buffer.Length
      modifies this, buffer
      ensures Valid() && i == Min(nbytes, |ContentsAt(image, inode)| - old(pos)) && pos == old(pos) + i
      ensures buffer[..i] == ContentsAt(image, inode)[old(pos)..pos] && buffer[i..] == old(buffer[..])[i..]
      ensures eof == (old(eof) || i == 0)
    {
      var base := 2 + 68 * Count(image);
      var length, offset := LengthOf(image, inode), OffsetOf(image, inode);
      i := CopyOut(image, base + offset, length, pos, buffer, nbytes);
      PieceOf(image, base, offset, offset + length, pos, pos + i);
      pos := pos + i;
      if i == 0 {
        eof := true;
      }
    }

    /** `initrdfs_seek` through `generic_file_seek_size` and `vfs_setpos` */
    method Seek(to: int, whence: Whence) returns (r: int)
      requires Valid()
      modifies this`pos
      ensures Valid() && (r, pos) == Seeked(LengthOf(image, inode), old(pos), to, whence)
    {
      var size := Wrap(LengthOf(image, inode) - 1);
      SeekStays(LengthOf(image, inode), pos, to, whence);
      var p := to;
      match whence {
        case SeekEnd => p := Signed(p + size);
        case SeekCur =>
          if p == 0 {
            return Signed(pos);
          }
          p := Signed(p + pos);
        case SeekSet =>
      }
      if p < 0 || p > Signed(size) {
        return -1;
      }
      pos := p;
      r := p;
    }
  }

  datatype Op = Read(n: u32) | Seek(to: int, whence: Whence)

  /** The position after one call on a file with contents `c`, and the bytes the call returned. */
  function Step(c: bytes, at: u32, op: Op): (u32, bytes)
    requires at <= |c| < 0x8000_0000
  {
    match op
    case Read(n) => var k := Min(n, |c| - at); (at + k, c[at..at + k])
    case Seek(to, whence) => (Seeked(|c|, at, to, whence).1, [])
  }

  /** All that a run of calls returns, chunk by chunk, and where it leaves the position. */
  ghost function Run(c: bytes, at: u32, ops: seq<Op>): (r: (u32, seq<bytes>))
    requires at <= |c| < 0x8000_0000
    ensures r.0 <= |c| && |r.1| == |ops|
    decreases |ops|
  {
    if ops == [] then (at, [])
    else
      SeekStays(|c|, at, if ops[0].Seek? then ops[0].to else 0, if ops[0].Seek? then ops[0].whence else SeekSet);
      var (at', out) := Step(c, at, ops[0]);
      var (end, rest) := Run(c, at', ops[1..]);
      (end, [out] + rest)
  }

  /** Chunk `out` is the file's own bytes from `p` on. */
  predicate Piece(c: bytes, p: nat, out: bytes) {
    p + |out| <= |c| && out == c[p..p + |out|]
  }

  /** Whatever is read and sought, every chunk is a piece of this file. */
  lemma {:induction false} OwnBytesOnly(c: bytes, at: u32, ops: seq<Op>, i: nat)
    requires at <= |c| < 0x8000_0000 && i < |ops|
    ensures exists p: nat :: Piece(c, p, Run(c, at, ops).1[i])
    decreases |ops|
  {
    SeekStays(|c|, at, if ops[0].Seek? then ops[0].to else 0, if ops[0].Seek? then ops[0].whence else SeekSet);
    var (at', out) := Step(c, at, ops[0]);
    var rest := Run(c, at', ops[1..]).1;
    assert Run(c, at, ops).1 == [out] + rest;
    if i == 0 {
      assert Piece(c, at, Run(c, at, ops).1[i]);
    } else {
      OwnBytesOnly(c, at', ops[1..], i - 1);
      assert Run(c, at, ops).1[i] == rest[i - 1];
      var p: nat :| Piece(c, p, rest[i - 1]);
      assert Piece(c, p, Run(c, at, ops).1[i]);
    }
  }

  function Joined(chunks: seq<bytes>): bytes {
    if chunks == [] then [] else chunks[0] + Joined(chunks[1..])
  }

  function Asked(ops: seq<Op>): nat {
    if ops == [] then 0 else (if ops[0].Read? then ops[0].n else 0) + Asked(ops[1..])
  }

  /** Reads in chunks of any sizes return the file in order, all that was asked for up to its end. */
  lemma {:induction false} ChunksJoin(c: bytes, at: u32, ops: seq<Op>)
    requires at <= |c| < 0x8000_0000 && forall i :: 0 <= i < |ops| ==> ops[i].Read?
    ensures var (end, chunks) := Run(c, at, ops);
            end == at + Min(Asked(ops), |c| - at) && Joined(chunks) == c[at..end]
    decreases |ops|
  {
    if ops != [] {
      var (at', out) := Step(c, at, ops[0]);
      var rest := ops[1..];
      assert forall i :: 0 <= i < |rest| ==> rest[i] == ops[i + 1];
      ChunksJoin(c, at', rest);
      var (end, chunks) := Run(c, at', rest);
      assert ([out] + chunks)[1..] == chunks;
      assert c[at..end] == c[at..at'] + c[at'..end];
    }
  }
}
