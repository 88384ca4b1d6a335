/** FLV files: the tag writer, the tag reader and the fast scan for the sequence headers. */
module Flv {
  import opened Bytes
  import opened Pieces
  import opened Stream

  const TAG_HEADER_SIZE := 11
  const PREVIOUS_TAG_SIZE := 4
  const AUDIO := 8
  const VIDEO := 9
  const SCRIPT := 18

  // ---------------------------------------------------------------- the file format

  /** A tag as a writer is given it and a reader sees it. */
  datatype Tag = Tag(kind: byte, time: int, data: seq<byte>)
  {
    predicate IsAv() {
      kind == AUDIO || kind == VIDEO
    }
  }

  function TagHeader(kind: byte, size: int, time: int): seq<byte> {
    [kind] + BE24(size) + BE24(time) + [Low8(time / 0x1000000)] + [0, 0, 0]
  }

  /** The bytes of a tag: the sign bit of the time is cleared, script data has time 0. */
  function TagBytes(t: Tag): seq<byte> {
    TagHeader(t.kind, |t.data|, t.time % 0x80000000) + t.data + BE32(|t.data| + TAG_HEADER_SIZE)
  }

  function FileBytes(ts: seq<Tag>): seq<byte> {
    if ts == [] then [] else TagBytes(ts[0]) + FileBytes(ts[1..])
  }

  function SizeTag(dataSize: int): int {
    TAG_HEADER_SIZE + dataSize + PREVIOUS_TAG_SIZE
  }

  // ---------------------------------------------------------------- files

  datatype Code = Success | Eof | IoError

  /** A file with its read or write position. */
  class FileStream {
    var content: seq<byte>
    var pos: nat

    constructor (data: seq<byte>)
      ensures content == data && pos == 0
    {
      content, pos := data, 0;
    }

    /** Writes at the end of the file, or fails. */
    method Write(data: seq<byte>) returns (ok: bool)
      requires pos == |content|
      modifies this
      ensures pos == |content|
      ensures content == old(content) + if ok then data else []
    {
      if * {
        return false;
      }
      content := content + data;
      pos := |content|;
      ok := true;
    }

    /** Reads at most n bytes. Reading nothing counts as the end of the file. */
    method Read(n: nat) returns (ret: Code, data: seq<byte>)
      modifies this`pos
      ensures ret != IoError ==> (ret == Eof <==> n == 0 || old(pos) >= |content|)
      ensures ret == Success ==>
        && data == content[old(pos)..if old(pos) + n <= |content| then old(pos) + n else |content|]
        && pos == old(pos) + |data|
      ensures ret != Success ==> pos == old(pos) && data == []
    {
      if * {
        return IoError, [];
      }
      var end := if pos + n <= |content| then pos + n else |content|;
      if end <= pos {
        return Eof, [];
      }
      data := content[pos..end];
      pos := end;
      ret := Success;
    }

    function Tellg(): nat
      reads this
    {
      pos
    }

    method Lseek(offset: nat)
      modifies this`pos
      ensures pos == offset
    {
      pos := offset;
    }

    method Skip(n: nat)
      modifies this`pos
      ensures pos == old(pos) + n
    {
      pos := pos + n;
    }
  }

  // ---------------------------------------------------------------- the writer

  class FlvEncoder {
    const fs: FileStream
    const tagStream: ByteStream
    const metaHeader: array<byte>
    const audioHeader: array<byte>
    const videoHeader: array<byte>
    const preSize: array<byte>

    /** The headers that calls patch in place keep their type and their zero bytes. */
    ghost predicate Valid()
      reads this, fs, metaHeader, audioHeader, videoHeader
    {
      && metaHeader.Length == audioHeader.Length == videoHeader.Length == TAG_HEADER_SIZE
      && preSize.Length == PREVIOUS_TAG_SIZE
      && metaHeader != audioHeader && metaHeader != videoHeader && audioHeader != videoHeader
      && preSize != metaHeader && preSize != audioHeader && preSize != videoHeader
      && metaHeader[0] == SCRIPT && audioHeader[0] == AUDIO && videoHeader[0] == VIDEO
      && (forall i :: 4 <= i < TAG_HEADER_SIZE ==> metaHeader[i] == 0)
      && (forall i :: 8 <= i < TAG_HEADER_SIZE ==> audioHeader[i] == 0 && videoHeader[i] == 0)
      && fs.pos == |fs.content|
    }

    constructor (f: FileStream)
      requires f.pos == |f.content|
      ensures Valid() && fs == f
      ensures fresh(tagStream) && fresh(metaHeader) && fresh(audioHeader) && fresh(videoHeader) && fresh(preSize)
    {
      fs := f;
      tagStream := new ByteStream();
      metaHeader := new byte[] [SCRIPT, 0, 0, 0, 0, 0, 0, 0, 0, 0, 0];
      audioHeader := new byte[] [AUDIO, 0, 0, 0, 0, 0, 0, 0, 0, 0, 0];
      videoHeader := new byte[] [VIDEO, 0, 0, 0, 0, 0, 0, 0, 0, 0, 0];
      preSize := new byte[4](i => 0);
    }

    /** Writes header, data and the size of both, stopping at the first failure. */
    method WriteTag(header: array<byte>, data: seq<byte>) returns (ok: bool)
      requires Valid() && header in {metaHeader, audioHeader, videoHeader}
      modifies fs, tagStream, preSize
      ensures Valid()
      ensures var all := header[..] + data + BE32(|data| + header.Length);
              && (ok ==> fs.content == old(fs.content) + all)
              && old(fs.content) <= fs.content <= old(fs.content) + all
    {
      ghost var was, head, size := fs.content, header[..], BE32(|data| + header.Length);
      assert was + head + data + size == was + (head + data + size);
      assert was + head + data <= was + (head + data + size);
      assert was + head <= was + (head + data + size);
      ok := fs.Write(header[..]);
      if !ok {
        return;
      }
      ok := fs.Write(data);
      if !ok {
        return;
      }
      ok := tagStream.Initialize(preSize, 0, PREVIOUS_TAG_SIZE);
      tagStream.Write4(|data| + header.Length);
      assert preSize[..] == size;
      ok := fs.Write(preSize[..]);
    }

    /** Patches size and time into an audio or video header. */
    method PatchHeader(header: array<byte>, size: nat, timestamp: int)
      requires Valid() && header in {audioHeader, videoHeader} && 0 <= timestamp < 0x80000000
      modifies tagStream, header
      ensures Valid() && header[..] == TagHeader(header[0], size, timestamp)
    {
      var _ := tagStream.Initialize(header, 1, 7);
      tagStream.Write3(size);
      tagStream.Write3(timestamp);
      tagStream.Write1(timestamp / 0x1000000 % 0x100);
      assert Low8(timestamp / 0x1000000 % 0x100) == Low8(timestamp / 0x1000000);
      hide Low8;
    }

    method PatchMetadata(size: nat)
      requires Valid()
      modifies tagStream, metaHeader
      ensures Valid() && metaHeader[..] == TagHeader(SCRIPT, size, 0)
    {
      var _ := tagStream.Initialize(metaHeader, 1, 3);
      tagStream.Write3(size);
    }

    method WriteAudio(timestamp: int, data: seq<byte>) returns (ok: bool)
      requires Valid()
      modifies fs, tagStream, preSize, audioHeader
      ensures Valid()
      ensures ok ==> fs.content == old(fs.content) + TagBytes(Tag(AUDIO, timestamp, data))
      ensures old(fs.content) <= fs.content <= old(fs.content) + TagBytes(Tag(AUDIO, timestamp, data))
    {
      PatchHeader(audioHeader, |data|, timestamp % 0x80000000);
      ok := WriteTag(audioHeader, data);
    }

    method WriteVideo(timestamp: int, data: seq<byte>) returns (ok: bool)
      requires Valid()
      modifies fs, tagStream, preSize, videoHeader
      ensures Valid()
      ensures ok ==> fs.content == old(fs.content) + TagBytes(Tag(VIDEO, timestamp, data))
      ensures old(fs.content) <= fs.content <= old(fs.content) + TagBytes(Tag(VIDEO, timestamp, data))
    {
      PatchHeader(videoHeader, |data|, timestamp % 0x80000000);
      ok := WriteTag(videoHeader, data);
    }

    method WriteMetadata(data: seq<byte>) returns (ok: bool)
      requires Valid()
      modifies fs, tagStream, preSize, metaHeader
      ensures Valid()
      ensures ok ==> fs.content == old(fs.content) + TagBytes(Tag(SCRIPT, 0, data))
      ensures old(fs.content) <= fs.content <= old(fs.content) + TagBytes(Tag(SCRIPT, 0, data))
    {
      PatchMetadata(|data|);
      ok := WriteTag(metaHeader, data);
    }
  }

  // ---------------------------------------------------------------- the reader

  /** The header fields at a position, as the tag reader decodes them. */
  function KindAt(content: seq<byte>, pos: nat): byte
    requires pos + TAG_HEADER_SIZE <= |content|
  {
    content[pos] % 32
  }

  function SizeAt(content: seq<byte>, pos: nat): nat
    requires pos + TAG_HEADER_SIZE <= |content|
  {
    U24(content[pos + 1..pos + 4])
  }

  function TimeAt(content: seq<byte>, pos: nat): nat
    requires pos + TAG_HEADER_SIZE <= |content|
  {
    content[pos + 7] as int * 0x1000000 + U24(content[pos + 4..pos + 7])
  }

  class FlvDecoder {
    const fs: FileStream

    constructor (f: FileStream)
      ensures fs == f
    {
      fs := f;
    }

    /** Decodes a tag header. Only the low three bytes of the caller's size word are set. A header
        cut off by the end of the file is not noticed; what its missing bytes are is not known. */
    method ReadTagHeader(sizeWord: nat) returns (ret: Code, kind: byte, dataSize: nat, time: nat)
      modifies fs`pos
      ensures ret != IoError ==> (ret == Eof <==> old(fs.pos) >= |fs.content|)
      ensures ret == Success && old(fs.pos) + TAG_HEADER_SIZE <= |fs.content| ==>
        && kind == KindAt(fs.content, old(fs.pos))
        && dataSize == sizeWord / 0x1000000 * 0x1000000 + SizeAt(fs.content, old(fs.pos))
        && time == TimeAt(fs.content, old(fs.pos))
        && fs.pos == old(fs.pos) + TAG_HEADER_SIZE
      ensures if ret == Success then old(fs.pos) < fs.pos <= |fs.content| else fs.pos == old(fs.pos)
    {
      var th := new byte[TAG_HEADER_SIZE];
      kind, dataSize, time := 0, sizeWord, 0;
      var data;
      ret, data := fs.Read(TAG_HEADER_SIZE);
      if ret != Success {
        return;
      }
      forall i | 0 <= i < |data| {
        th[i] := data[i];
      }
      kind := th[0] % 32;
      dataSize := sizeWord / 0x1000000 * 0x1000000 + U24([th[1], th[2], th[3]]);
      time := th[7] as int * 0x1000000 + U24([th[4], th[5], th[6]]);
      if old(fs.pos) + TAG_HEADER_SIZE <= |fs.content| {
        Slice3(fs.content, old(fs.pos) + 1);
        Slice3(fs.content, old(fs.pos) + 4);
      }
    }

    method ReadTagData(size: nat) returns (ret: Code, data: seq<byte>)
      modifies fs`pos
      ensures fs.pos >= old(fs.pos)
      ensures ret != IoError ==> (ret == Eof <==> size == 0 || old(fs.pos) >= |fs.content|)
      ensures ret == Success && old(fs.pos) + size <= |fs.content| ==>
        data == fs.content[old(fs.pos)..old(fs.pos) + size] && fs.pos == old(fs.pos) + size
    {
      ret, data := fs.Read(size);
    }

    method ReadPreviousTagSize() returns (ret: Code, ts: seq<byte>)
      modifies fs`pos
      ensures fs.pos >= old(fs.pos)
      ensures ret != IoError ==> (ret == Eof <==> old(fs.pos) >= |fs.content|)
      ensures ret == Success && old(fs.pos) + PREVIOUS_TAG_SIZE <= |fs.content| ==>
        ts == fs.content[old(fs.pos)..old(fs.pos) + PREVIOUS_TAG_SIZE] && fs.pos == old(fs.pos) + PREVIOUS_TAG_SIZE
    {
      ret, ts := fs.Read(PREVIOUS_TAG_SIZE);
    }
  }

  /** The tags read from a position on up to the first failure, behind those read before; None
      when the last one is torn. */
  function ReadTags(content: seq<byte>, pos: nat, before: seq<Tag>): Option<seq<Tag>>
    decreases |content| - pos
  {
    if pos >= |content| then Some(before)
    else if pos + TAG_HEADER_SIZE > |content| then None
    else
      var size := SizeAt(content, pos);
      if size == 0 then Some(before)
      else if pos + SizeTag(size) > |content| then None
      else
        var tag := Tag(KindAt(content, pos), TimeAt(content, pos),
            content[pos + TAG_HEADER_SIZE..pos + TAG_HEADER_SIZE + size]);
        ReadTags(content, pos + SizeTag(size), before + [tag])
  }

  /** The whole tags from a position on, up to the first that is torn. */
  function WholeTags(content: seq<byte>, pos: nat, before: seq<Tag>): (r: seq<Tag>)
    ensures before <= r && (ReadTags(content, pos, before).Some? ==> r == ReadTags(content, pos, before).value)
    decreases |content| - pos
  {
    if pos + TAG_HEADER_SIZE > |content| then before
    else
      var size := SizeAt(content, pos);
      if size == 0 || pos + SizeTag(size) > |content| then before
      else
        var tag := Tag(KindAt(content, pos), TimeAt(content, pos),
            content[pos + TAG_HEADER_SIZE..pos + TAG_HEADER_SIZE + size]);
        WholeTags(content, pos + SizeTag(size), before + [tag])
  }

  /** A caller that reads tags one after the other until a read fails. */
  method ReadAll(dec: FlvDecoder) returns (ret: Code, tags: seq<Tag>)
    modifies dec.fs`pos
    ensures ret != IoError ==> WholeTags(dec.fs.content, old(dec.fs.pos), []) <= tags
    ensures var all := ReadTags(dec.fs.content, old(dec.fs.pos), []);
            ret != IoError && all.Some? ==> ret == Eof && tags == all.value
  {
    hide ReadTags, WholeTags;
    tags := [];
    var fs := dec.fs;
    ghost var target, whole := ReadTags(fs.content, fs.pos, []), WholeTags(fs.content, fs.pos, []);
    while true
      invariant target.Some? ==> target == ReadTags(fs.content, fs.pos, tags)
      invariant whole == WholeTags(fs.content, fs.pos, tags) || whole <= tags
      decreases |fs.content| - fs.pos
    {
      ghost var pos := fs.pos;
      var tag;
      ret, tag := ReadTag(dec);
      TagStep(fs.content, pos, tags);
      if ret != Success {
        return;
      }
      tags := tags + [tag];
    }
  }

  /** A tag is at the position, or the file ends there or within it. */
  predicate HoldsTag(content: seq<byte>, pos: nat) {
    pos + TAG_HEADER_SIZE <= |content| && SizeAt(content, pos) > 0 && pos + SizeTag(SizeAt(content, pos)) <= |content|
  }

  predicate Ends(content: seq<byte>, pos: nat) {
    pos >= |content| || (pos + TAG_HEADER_SIZE <= |content| && SizeAt(content, pos) == 0)
  }

  function TagAt(content: seq<byte>, pos: nat): Tag
    requires HoldsTag(content, pos)
  {
    Tag(KindAt(content, pos), TimeAt(content, pos),
        content[pos + TAG_HEADER_SIZE..pos + TAG_HEADER_SIZE + SizeAt(content, pos)])
  }

  lemma TagStep(content: seq<byte>, pos: nat, before: seq<Tag>)
    ensures Ends(content, pos) ==> ReadTags(content, pos, before) == Some(before)
    ensures !Ends(content, pos) && !HoldsTag(content, pos) ==> ReadTags(content, pos, before) == None
    ensures !HoldsTag(content, pos) ==> WholeTags(content, pos, before) == before
    ensures HoldsTag(content, pos) ==>
              var next, more := pos + SizeTag(SizeAt(content, pos)), before + [TagAt(content, pos)];
              && ReadTags(content, pos, before) == ReadTags(content, next, more)
              && WholeTags(content, pos, before) == WholeTags(content, next, more)
  {
    hide KindAt, SizeAt, TimeAt;
  }

  /** Reads one tag and its size. */
  method ReadTag(dec: FlvDecoder) returns (ret: Code, tag: Tag)
    modifies dec.fs`pos
    ensures ret == Success ==> old(dec.fs.pos) < dec.fs.pos && old(dec.fs.pos) < |dec.fs.content|
    ensures var content, pos := dec.fs.content, old(dec.fs.pos);
            && (ret != IoError && Ends(content, pos) ==> ret == Eof)
            && (ret != IoError && HoldsTag(content, pos) ==>
                  ret == Success && tag == TagAt(content, pos) && dec.fs.pos == pos + SizeTag(SizeAt(content, pos)))
  {
    hide KindAt, SizeAt, TimeAt;
    tag := Tag(0, 0, []);
    var kind, size, time, data, ts;
    ret, kind, size, time := dec.ReadTagHeader(0);
    if ret != Success {
      return;
    }
    ret, data := dec.ReadTagData(size);
    if ret != Success {
      return;
    }
    ret, ts := dec.ReadPreviousTagSize();
    tag := Tag(kind, time, data);
  }

  // ---------------------------------------------------------------- the fast scan

  /** What the scan for sequence headers reports; the range is [start, end). */
  datatype Scan = Scan(code: Code, start: int, end: int)

  /** The scan from a position on, with what was seen so far; None when a header is torn. */
  function ScanFrom(content: seq<byte>, pos: nat, gotVideo: bool, gotAudio: bool, start: int, end: int): Option<Scan>
    decreases |content| - pos
  {
    if pos >= |content| then Some(Scan(Eof, 0, 0))
    else if pos + TAG_HEADER_SIZE > |content| then None
    else
      var kind, next := content[pos], pos + SizeTag(SizeAt(content, pos));
      if kind != VIDEO && kind != AUDIO then ScanFrom(content, next, gotVideo, gotAudio, start, end)
      else if (kind == VIDEO && gotVideo) || (kind == AUDIO && gotAudio) then Some(Scan(Success, start, end))
      else
        ScanFrom(content, next, gotVideo || kind == VIDEO, gotAudio || kind == AUDIO,
                 if start < 0 then pos else start, next)
  }

  class FlvFastDecoder {
    const fs: FileStream
    const tagStream: ByteStream
    const tagHeader: array<byte>

    constructor (f: FileStream)
      ensures fs == f && fresh(tagStream) && fresh(tagHeader) && tagHeader.Length == TAG_HEADER_SIZE
    {
      fs := f;
      tagStream := new ByteStream();
      tagHeader := new byte[TAG_HEADER_SIZE](i => 0);
    }

    /** Reads type and size of the next tag; a header cut off by the end of the file keeps bytes of
        the one before. */
    method ReadTag() returns (ret: Code, tagType: int, dataSize: nat)
      requires tagHeader.Length == TAG_HEADER_SIZE
      modifies fs`pos, tagStream, tagHeader
      ensures ret != IoError ==> (ret == Eof <==> old(fs.pos) >= |fs.content|)
      ensures if ret == Success then old(fs.pos) < fs.pos <= |fs.content| else fs.pos == old(fs.pos)
      ensures ret == Success && old(fs.pos) + TAG_HEADER_SIZE <= |fs.content| ==>
        && tagType == Signed8(fs.content[old(fs.pos)])
        && dataSize == SizeAt(fs.content, old(fs.pos))
        && fs.pos == old(fs.pos) + TAG_HEADER_SIZE
    {
      tagType, dataSize := 0, 0;
      var data;
      ret, data := fs.Read(TAG_HEADER_SIZE);
      if ret != Success {
        return;
      }
      forall i | 0 <= i < |data| {
        tagHeader[i] := data[i];
      }
      var _ := tagStream.Initialize(tagHeader, 0, TAG_HEADER_SIZE);
      tagType := tagStream.Read1();
      dataSize := tagStream.Read3();
      if old(fs.pos) + TAG_HEADER_SIZE <= |fs.content| {
        Slice3(tagStream.Data(), 1);
        Slice3(fs.content, old(fs.pos) + 1);
        assert forall i :: 0 <= i < TAG_HEADER_SIZE ==> tagHeader[i] == fs.content[old(fs.pos) + i];
      }
    }

    /** Finds the range that holds the first audio and the first video tag. */
    method ReadSequenceHeader() returns (ret: Code, pstart: int, psize: int)
      requires tagHeader.Length == TAG_HEADER_SIZE
      modifies fs`pos, tagStream, tagHeader
      ensures var scan := ScanFrom(fs.content, old(fs.pos), false, false, -1, -1);
        ret != IoError && scan.Some? ==>
          && ret == scan.value.code
          && var found := ret == Success && scan.value.start > 0;
             pstart == (if found then scan.value.start else 0)
             && psize == (if found then scan.value.end - scan.value.start else 0)
             && (found ==> fs.pos == pstart)
    {
      pstart, psize := 0, 0;
      var gotVideo, gotAudio, start, end := false, false, -1, -1;
      ghost var target := ScanFrom(fs.content, fs.pos, false, false, -1, -1);
      while true
        invariant target.Some? ==> target == ScanFrom(fs.content, fs.pos, gotVideo, gotAudio, start, end)
        decreases |fs.content| - fs.pos
      {
        var tagType, dataSize;
        ret, tagType, dataSize := ReadTag();
        if ret != Success {
          return;
        }
        var isVideo, isAudio := tagType == VIDEO, tagType == AUDIO;
        if !isVideo && !isAudio {
          fs.Skip(dataSize + PREVIOUS_TAG_SIZE);
          continue;
        }
        if isVideo && gotVideo {
          break;
        }
        if isAudio && gotAudio {
          break;
        }
        gotVideo, gotAudio := gotVideo || isVideo, gotAudio || isAudio;
        if start < 0 {
          start := fs.Tellg() - TAG_HEADER_SIZE;
        }
        end := fs.Tellg() + dataSize + PREVIOUS_TAG_SIZE;
        fs.Skip(dataSize + PREVIOUS_TAG_SIZE);
      }
      if start > 0 {
        fs.Lseek(start);
        pstart, psize := start, end - start;
      }
    }
  }
}
