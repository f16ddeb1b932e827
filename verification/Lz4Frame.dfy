/** LZ4 frames: the store-mode writer, and a reader after the LZ4 Frame Format Description. */
module Lz4Frame {
  import opened Basics
  import opened Bytes

  const MAX_BLOCK: nat := 4194304
  const STORED_BIT: nat := 0x8000_0000
  const MAGIC: Word := 0x184D_2204
  const FLG: Byte := 0x64
  const BD: Byte := 0x70

  type Word = w: nat | w < 0x1_0000_0000

  /** xxHash32 with seed 0, of which nothing is assumed. */
  type Hash = seq<Byte> -> Word

  /** Unpacks a compressed block, given the output so far. */
  type Unpack = (seq<Byte>, seq<Byte>) -> Option<seq<Byte>>

  // ---- Little-endian words ----

  function ToLe(w: Word): (s: seq<Byte>)
    ensures |s| == 4 && FromLe(s) == w
  {
    var q := w / 256;
    var r := q / 256;
    [w % 256, q % 256, r % 256, r / 256]
  }

  function FromLe(s: seq<Byte>): (w: Word)
    requires |s| == 4
  {
    var a: int, b: int, c: int, d: int := s[0], s[1], s[2], s[3];
    a + 256 * (b + 256 * (c + 256 * d))
  }

  function HeaderCheck(hash: Hash, descriptor: seq<Byte>): Byte { hash(descriptor) / 256 % 256 }

  // ---- Writing ----

  function Blocks(data: seq<Byte>): seq<Byte> {
    if data == [] then []
    else
      var k := Min(|data|, MAX_BLOCK);
      ToLe(k + STORED_BIT) + data[..k] + Blocks(data[k..])
  }

  function FrameHeader(hash: Hash): seq<Byte> { ToLe(MAGIC) + [FLG, BD, HeaderCheck(hash, [FLG, BD])] }

  function FrameOf(hash: Hash, data: seq<Byte>): seq<Byte> {
    FrameHeader(hash) + (Blocks(data) + (ToLe(0) + ToLe(hash(data))))
  }

  /** The header checksum is the second byte of the hash. */
  lemma HeaderCheckIsSecondByte(hash: Hash, descriptor: seq<Byte>)
    ensures HeaderCheck(hash, descriptor) == ToLe(hash(descriptor))[1]
  {
  }

  /** The bytes of a frame without content, as the LZ4 Frame Format Description lays them out:
      magic number, descriptor, header checksum, end mark and content checksum. */
  lemma EmptyFrameBytes(hash: Hash)
    ensures FrameOf(hash, []) ==
      [0x04, 0x22, 0x4D, 0x18, 0x64, 0x70, ToLe(hash([0x64, 0x70]))[1], 0, 0, 0, 0] + ToLe(hash([]))
  {
    assert ToLe(MAGIC) == [0x04, 0x22, 0x4D, 0x18] && ToLe(0) == [0, 0, 0, 0];
    NoBlocks();
  }

  lemma NoBlocks()
    ensures Blocks([]) == []
  {
  }

  lemma BlocksAt(done: seq<Byte>, data: seq<Byte>, offset: nat)
    requires offset < |data|
    ensures var k := Min(|data| - offset, MAX_BLOCK);
      done + Blocks(data[offset..]) ==
        (done + (ToLe(k + STORED_BIT) + data[offset..offset + k])) + Blocks(data[offset + k..])
  {
    hide ToLe;
    var k := Min(|data| - offset, MAX_BLOCK);
    assert data[offset..][..k] == data[offset..offset + k] && data[offset..][k..] == data[offset + k..];
  }

  /** `encode_store_mode_frame`. */
  method EncodeStoreModeFrame(hash: Hash, data: seq<Byte>) returns (output: seq<Byte>)
    ensures output == FrameOf(hash, data)
  {
    hide ToLe, Blocks;
    output := FrameHeader(hash);
    var blocks: seq<Byte> := [];
    var offset: nat := 0;
    assert data[0..] == data && [] + Blocks(data) == Blocks(data);
    while offset < |data|
      invariant offset <= |data|
      invariant Blocks(data) == blocks + Blocks(data[offset..])
    {
      var k := Min(|data| - offset, MAX_BLOCK);
      BlocksAt(blocks, data, offset);
      blocks := blocks + (ToLe(k + STORED_BIT) + data[offset..offset + k]);
      offset := offset + k;
    }
    NoBlocks();
    assert data[offset..] == [] && blocks + [] == blocks;
    output := output + (blocks + (ToLe(0) + ToLe(hash(data))));
  }

  // ---- Reading ----

  datatype Descriptor = Descriptor(
    blockMax: nat, linked: bool, blockChecksum: bool, contentSize: bool, contentChecksum: bool, dictionary: bool)

  /** The flags and the block size code; `None` for a version or a reserved bit that is not supported. */
  function ReadFlags(flg: Byte, bd: Byte): Option<Descriptor> {
    var code := bd / 16;
    if flg / 64 != 1 || flg / 2 % 2 != 0 || bd % 16 != 0 || !(4 <= code <= 7) then None
    else
      var blockMax := if code == 4 then 65536 else if code == 5 then 262144 else if code == 6 then 1048576 else 4194304;
      Some(Descriptor(blockMax, flg / 32 % 2 == 0, flg / 16 % 2 == 1, flg / 8 % 2 == 1, flg / 4 % 2 == 1, flg % 2 == 1))
  }

  datatype Header = Header(descriptor: Descriptor, size: Option<nat>, rest: seq<Byte>)

  function ReadHeader(hash: Hash, s: seq<Byte>): (r: Option<Header>)
    ensures r.Some? ==> |r.value.rest| < |s|
  {
    if |s| < 7 || FromLe(s[..4]) != MAGIC then None
    else
      var d := ReadFlags(s[4], s[5]);
      if d.None? then None
      else
        var sizeEnd := if d.value.contentSize then 14 else 6;
        var end := if d.value.dictionary then sizeEnd + 4 else sizeEnd;
        if |s| <= end || s[end] != HeaderCheck(hash, s[4..end]) then None
        else
          var size := if d.value.contentSize then Some(FromLe(s[6..10]) + 0x1_0000_0000 * FromLe(s[10..14])) else None;
          Some(Header(d.value, size, s[end + 1..]))
  }

  datatype Content = Content(data: seq<Byte>, rest: seq<Byte>)

  /** The data blocks up to the end mark, with `out` decoded already. */
  function ReadBlocks(hash: Hash, unpack: Unpack, d: Descriptor, s: seq<Byte>, out: seq<Byte>): (r: Option<Content>)
    ensures r.Some? ==> |r.value.rest| <= |s|
    decreases |s|
  {
    if |s| < 4 then None
    else
      var word, tail := FromLe(s[..4]), s[4..];
      if word == 0 then Some(Content(out, tail))
      else
        var size := word % STORED_BIT;
        var end := if d.blockChecksum then size + 4 else size;
        if size > d.blockMax || end > |tail| then None
        else if d.blockChecksum && FromLe(tail[size..end]) != hash(tail[..size]) then None
        else
          var block := if word >= STORED_BIT then Some(tail[..size]) else unpack(out, tail[..size]);
          if block.None? then None
          else ReadBlocks(hash, unpack, d, tail[end..], out + block.value)
  }

  /** One frame: its payload, and what follows it. */
  function ReadFrame(hash: Hash, unpack: Unpack, s: seq<Byte>): (r: Option<Content>)
    ensures r.Some? ==> |r.value.rest| < |s|
  {
    match ReadHeader(hash, s)
    case None => None
    case Some(h) =>
      match ReadBlocks(hash, unpack, h.descriptor, h.rest, [])
      case None => None
      case Some(c) =>
        if h.size.Some? && h.size.value != |c.data| then None
        else if !h.descriptor.contentChecksum then Some(c)
        else if |c.rest| < 4 || FromLe(c.rest[..4]) != hash(c.data) then None
        else Some(c.(rest := c.rest[4..]))
  }

  // ---- One frame round-trips ----

  const STORE_MODE: Descriptor := Descriptor(MAX_BLOCK, false, false, false, true, false)

  lemma HeaderReadsBack(hash: Hash, rest: seq<Byte>)
    ensures ReadHeader(hash, FrameHeader(hash) + rest) == Some(Header(STORE_MODE, None, rest))
  {
    var s := FrameHeader(hash) + rest;
    assert s[..4] == ToLe(MAGIC);
    assert s[4] == FLG && s[5] == BD && s[6] == HeaderCheck(hash, [FLG, BD]);
    assert s[4..6] == [FLG, BD] && s[7..] == rest;
    FlagsReadBack();
  }

  lemma FlagsReadBack()
    ensures ReadFlags(FLG, BD) == Some(STORE_MODE)
  {
  }

  /** The stored bit and the length share a word; the word is never the end mark. */
  lemma StoredSize(k: nat)
    requires 0 < k <= MAX_BLOCK
    ensures (k + STORED_BIT) % STORED_BIT == k && k + STORED_BIT != 0
  {
  }

  lemma StoredBlock(hash: Hash, unpack: Unpack, block: seq<Byte>, rest: seq<Byte>, out: seq<Byte>)
    requires 0 < |block| <= MAX_BLOCK
    ensures ReadBlocks(hash, unpack, STORE_MODE, ToLe(|block| + STORED_BIT) + (block + rest), out) ==
      ReadBlocks(hash, unpack, STORE_MODE, rest, out + block)
  {
    hide ToLe, FromLe;
    var word, tail := ToLe(|block| + STORED_BIT), block + rest;
    var s := word + tail;
    assert s[..4] == word && s[4..] == tail;
    StoredSize(|block|);
    assert tail[..|block|] == block && tail[|block|..] == rest;
  }

  lemma EndMark(hash: Hash, unpack: Unpack, rest: seq<Byte>, out: seq<Byte>)
    ensures ReadBlocks(hash, unpack, STORE_MODE, ToLe(0) + rest, out) == Some(Content(out, rest))
  {
    hide ToLe, FromLe;
    var s := ToLe(0) + rest;
    assert s[..4] == ToLe(0) && s[4..] == rest;
  }

  lemma {:induction false} BlocksReadBack(hash: Hash, unpack: Unpack, data: seq<Byte>, rest: seq<Byte>, out: seq<Byte>)
    ensures ReadBlocks(hash, unpack, STORE_MODE, Blocks(data) + (ToLe(0) + rest), out) ==
      Some(Content(out + data, rest))
    decreases |data|
  {
    hide ToLe, FromLe, ReadBlocks;
    var end := ToLe(0) + rest;
    if data == [] {
      assert Blocks(data) + end == end && out + data == out;
      EndMark(hash, unpack, rest, out);
    } else {
      var k := Min(|data|, MAX_BLOCK);
      var block, more := data[..k], Blocks(data[k..]) + end;
      assert Blocks(data) + end == ToLe(k + STORED_BIT) + (block + more);
      StoredBlock(hash, unpack, block, more, out);
      BlocksReadBack(hash, unpack, data[k..], rest, out + block);
      assert out + block + data[k..] == out + data;
    }
  }

  /** Reading undoes writing, for every payload and whatever follows the frame. */
  lemma FrameRoundTrip(hash: Hash, unpack: Unpack, data: seq<Byte>, rest: seq<Byte>)
    ensures ReadFrame(hash, unpack, FrameOf(hash, data) + rest) == Some(Content(data, rest))
  {
    hide ToLe, FromLe, ReadHeader, ReadBlocks, Blocks, FrameHeader;
    var check := ToLe(hash(data));
    var body := Blocks(data) + (ToLe(0) + (check + rest));
    assert FrameOf(hash, data) + rest == FrameHeader(hash) + body;
    HeaderReadsBack(hash, body);
    BlocksReadBack(hash, unpack, data, check + rest, []);
    assert [] + data == data;
    assert (check + rest)[..4] == check && (check + rest)[4..] == rest;
  }

  /** One block per 4 MiB or part of it. */
  function BlockCount(n: nat): nat { (n + MAX_BLOCK - 1) / MAX_BLOCK }

  lemma {:induction false} BlocksLength(data: seq<Byte>)
    ensures |Blocks(data)| == |data| + 4 * BlockCount(|data|)
    decreases |data|
  {
    hide ToLe;
    if data != [] {
      var k := Min(|data|, MAX_BLOCK);
      BlocksLength(data[k..]);
      CountStep(|data|);
    }
  }

  lemma CountStep(n: nat)
    requires n > 0
    ensures BlockCount(n) == 1 + BlockCount(if n < MAX_BLOCK then 0 else n - MAX_BLOCK)
  {
  }

  lemma FrameLength(hash: Hash, data: seq<Byte>)
    ensures |FrameOf(hash, data)| == |data| + 4 * BlockCount(|data|) + 15
  {
    BlocksLength(data);
  }

  // ---- Concatenated frames ----

  /** The frame loop of `decompress_data`: it stops at the first frame that yields nothing. */
  function Decompress(hash: Hash, unpack: Unpack, s: seq<Byte>): Option<seq<Byte>>
    decreases |s|
  {
    if s == [] then Some([])
    else
      match ReadFrame(hash, unpack, s)
      case None => None
      case Some(c) => if c.data == [] then Some([]) else Prepend(c.data, Decompress(hash, unpack, c.rest))
  }

  /** `decompress_data`. */
  method DecompressData(hash: Hash, unpack: Unpack, compressed: seq<Byte>) returns (r: Option<seq<Byte>>)
    ensures r == Decompress(hash, unpack, compressed)
  {
    hide ReadFrame;
    var decompressed: seq<Byte> := [];
    var s := compressed;
    ghost var goal := Decompress(hash, unpack, compressed);
    assert goal.Some? ==> [] + goal.value == goal.value;
    while s != []
      invariant goal == Prepend(decompressed, Decompress(hash, unpack, s))
      decreases |s|
    {
      var frame := ReadFrame(hash, unpack, s);
      if frame.None? {
        return None;
      }
      if frame.value.data == [] {
        assert decompressed + [] == decompressed;
        return Some(decompressed);
      }
      PrependTwice(decompressed, frame.value.data, Decompress(hash, unpack, frame.value.rest));
      decompressed := decompressed + frame.value.data;
      s := frame.value.rest;
    }
    assert decompressed + [] == decompressed;
    return Some(decompressed);
  }

  function Frames(hash: Hash, payloads: seq<seq<Byte>>): seq<Byte> {
    if payloads == [] then [] else FrameOf(hash, payloads[0]) + Frames(hash, payloads[1..])
  }

  /** The payloads before the first empty one. */
  function UntilEmpty(payloads: seq<seq<Byte>>): seq<seq<Byte>> {
    if payloads == [] || payloads[0] == [] then [] else [payloads[0]] + UntilEmpty(payloads[1..])
  }

  /** No payload that holds anything comes after an empty one. */
  ghost predicate NoGap(payloads: seq<seq<Byte>>) {
    forall i, j :: 0 <= i < j < |payloads| && payloads[i] == [] ==> payloads[j] == []
  }

  /** Concatenated frames decode to the payloads before the first empty one. */
  lemma {:induction false} FramesDecode(hash: Hash, unpack: Unpack, payloads: seq<seq<Byte>>)
    ensures Decompress(hash, unpack, Frames(hash, payloads)) == Some(Flatten(UntilEmpty(payloads)))
    decreases |payloads|
  {
    hide ReadFrame, FrameOf;
    if payloads != [] {
      var rest := Frames(hash, payloads[1..]);
      FrameRoundTrip(hash, unpack, payloads[0], rest);
      FrameLength(hash, payloads[0]);
      FramesDecode(hash, unpack, payloads[1..]);
      assert payloads[0] != [] ==> UntilEmpty(payloads)[1..] == UntilEmpty(payloads[1..]);
    }
  }

  lemma {:induction false} AllEmpty(payloads: seq<seq<Byte>>)
    ensures Flatten(payloads) == [] <==> forall i :: 0 <= i < |payloads| ==> payloads[i] == []
    decreases |payloads|
  {
    if payloads != [] {
      AllEmpty(payloads[1..]);
      assert forall i :: 0 < i < |payloads| ==> payloads[i] == payloads[1..][i - 1];
    }
  }

  lemma {:induction false} GapIsLost(payloads: seq<seq<Byte>>)
    ensures Flatten(UntilEmpty(payloads)) == Flatten(payloads) <==> NoGap(payloads)
    decreases |payloads|
  {
    if payloads != [] {
      var first, rest := payloads[0], payloads[1..];
      assert forall i :: 0 < i < |payloads| ==> payloads[i] == rest[i - 1];
      if first == [] {
        AllEmpty(rest);
        assert [] + Flatten(rest) == Flatten(rest);
        NoGapEmptyFirst(payloads);
      } else {
        GapIsLost(rest);
        assert UntilEmpty(payloads)[1..] == UntilEmpty(rest);
        SamePrefix(first, Flatten(UntilEmpty(rest)), Flatten(rest));
        NoGapTail(payloads);
      }
    }
  }

  lemma NoGapEmptyFirst(payloads: seq<seq<Byte>>)
    requires payloads != [] && payloads[0] == []
    ensures NoGap(payloads) <==> forall i :: 0 <= i < |payloads[1..]| ==> payloads[1..][i] == []
  {
    assert forall i :: 0 < i < |payloads| ==> payloads[i] == payloads[1..][i - 1];
    if NoGap(payloads) {
      forall i | 0 <= i < |payloads[1..]| ensures payloads[1..][i] == [] {
        assert payloads[0] == [] && payloads[i + 1] == [];
      }
    }
  }

  lemma NoGapTail(payloads: seq<seq<Byte>>)
    requires payloads != [] && payloads[0] != []
    ensures NoGap(payloads) <==> NoGap(payloads[1..])
  {
    var rest := payloads[1..];
    assert forall i :: 0 < i < |payloads| ==> payloads[i] == rest[i - 1];
    assert forall i :: 0 <= i < |rest| ==> rest[i] == payloads[i + 1];
  }

  lemma SamePrefix(a: seq<Byte>, b: seq<Byte>, c: seq<Byte>)
    ensures a + b == a + c <==> b == c
  {
    assert (a + b)[|a|..] == b && (a + c)[|a|..] == c;
  }

  /** A concatenation of frames decodes to the concatenated payloads exactly when no payload that
      holds anything follows an empty one. */
  lemma ConcatenationRoundTripIff(hash: Hash, unpack: Unpack, payloads: seq<seq<Byte>>)
    ensures Decompress(hash, unpack, Frames(hash, payloads)) == Some(Flatten(payloads)) <==> NoGap(payloads)
  {
    FramesDecode(hash, unpack, payloads);
    GapIsLost(payloads);
  }

  /** An empty frame hides the one byte after it. */
  lemma EmptyFrameHidesNext(hash: Hash, unpack: Unpack)
    ensures Decompress(hash, unpack, FrameOf(hash, []) + FrameOf(hash, [1])) == Some([])
  {
    hide Decompress, FrameOf;
    var payloads: seq<seq<Byte>> := [[], [1]];
    FramesDecode(hash, unpack, payloads);
    assert payloads[1..] == [[1]] && payloads[1..][1..] == [];
    assert Frames(hash, payloads[1..]) == FrameOf(hash, [1]) + [];
    assert Frames(hash, payloads) == FrameOf(hash, []) + FrameOf(hash, [1]);
  }
}
