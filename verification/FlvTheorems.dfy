/** What the FLV writer and the readers promise each other. */
module FlvTheorems {
  import opened Bytes
  import opened Pieces
  import opened Flv

  /** What the format can hold: a tag's size has 24 bits, and a reader takes no data for the end of
      the file. */
  predicate Storable(t: Tag) {
    0 < |t.data| < 0x1000000
  }

  /** A tag as it comes back: the type has 5 bits, the time 31. */
  function Stored(t: Tag): Tag {
    Tag(t.kind % 32, t.time % 0x80000000, t.data)
  }

  function StoredAll(ts: seq<Tag>): (r: seq<Tag>)
    ensures |r| == |ts|
    ensures forall i :: 0 <= i < |ts| ==> r[i] == Stored(ts[i])
  {
    if ts == [] then [] else [Stored(ts[0])] + StoredAll(ts[1..])
  }

  lemma SizeOfTag(t: Tag)
    ensures |TagBytes(t)| == SizeTag(|t.data|)
  {}

  /** Where the parts of a tag are. */
  lemma TagLayout(content: seq<byte>, pos: nat, t: Tag)
    requires At(content, pos, TagBytes(t))
    ensures var time := t.time % 0x80000000;
            && pos + SizeTag(|t.data|) <= |content|
            && At(content, pos, [t.kind]) && At(content, pos + 1, BE24(|t.data|)) && At(content, pos + 4, BE24(time))
            && At(content, pos + 7, [Low8(time / 0x1000000)] + [0, 0, 0]) && At(content, pos + 11, t.data)
  {
    hide At, BE24, BE32, Low8;
    var time := t.time % 0x80000000;
    var a, b, c := [t.kind], BE24(|t.data|), BE24(time);
    var d, tail := [Low8(time / 0x1000000)] + [0, 0, 0], t.data + BE32(|t.data| + TAG_HEADER_SIZE);
    Sizes(|t.data|, time);
    assert TagBytes(t) == a + (b + (c + (d + tail)));
    AtConcat(content, pos, a, b + (c + (d + tail)));
    AtConcat(content, pos + 1, b, c + (d + tail));
    AtConcat(content, pos + 4, c, d + tail);
    AtConcat(content, pos + 7, d, tail);
    AtConcat(content, pos + 11, t.data, BE32(|t.data| + TAG_HEADER_SIZE));
    AtFits(content, pos + 11 + |t.data|, BE32(|t.data| + TAG_HEADER_SIZE));
  }

  lemma Sizes(size: int, time: int)
    ensures |BE24(size)| == |BE24(time)| == 3 && |BE32(size + TAG_HEADER_SIZE)| == 4
  {}

  /** The fields of a tag that stands in a file. */
  lemma TagFields(content: seq<byte>, pos: nat, t: Tag)
    requires At(content, pos, TagBytes(t))
    ensures pos + SizeTag(|t.data|) <= |content|
    ensures content[pos] == t.kind && KindAt(content, pos) == t.kind % 32
    ensures SizeAt(content, pos) == |t.data| % 0x1000000
    ensures TimeAt(content, pos) == t.time % 0x80000000
    ensures content[pos + TAG_HEADER_SIZE..pos + TAG_HEADER_SIZE + |t.data|] == t.data
  {
    hide At, BE24, TagBytes, U24;
    var time := t.time % 0x80000000;
    TagLayout(content, pos, t);
    Sizes(|t.data|, time);
    AtIndex(content, pos, [t.kind], 0);
    AtIndex(content, pos + 7, [Low8(time / 0x1000000)] + [0, 0, 0], 0);
    AtSlice(content, pos + 1, BE24(|t.data|));
    AtSlice(content, pos + 4, BE24(time));
    AtSlice(content, pos + 11, t.data);
    BigEndian24(|t.data|);
    BigEndian24(time);
  }

  lemma AtSlice<T>(s: seq<T>, pos: nat, piece: seq<T>)
    requires At(s, pos, piece)
    ensures pos + |piece| <= |s| && s[pos..pos + |piece|] == piece
  {}

  lemma FirstTag(content: seq<byte>, pos: nat, ts: seq<Tag>)
    requires ts != [] && At(content, pos, FileBytes(ts))
    ensures At(content, pos, TagBytes(ts[0])) && At(content, pos + SizeTag(|ts[0].data|), FileBytes(ts[1..]))
    ensures pos + SizeTag(|ts[0].data|) <= |content|
  {
    hide At;
    SizeOfTag(ts[0]);
    AtConcat(content, pos, TagBytes(ts[0]), FileBytes(ts[1..]));
    AtFits(content, pos, TagBytes(ts[0]));
  }

  // ---------------------------------------------------------------- reading what was written

  /** A tag that fits is read as stored. */
  lemma ReadGood(content: seq<byte>, pos: nat, ts: seq<Tag>, before: seq<Tag>)
    requires ts != [] && At(content, pos, FileBytes(ts)) && Storable(ts[0])
    ensures ReadTags(content, pos, before) == ReadTags(content, pos + SizeTag(|ts[0].data|), before + [Stored(ts[0])])
    ensures At(content, pos + SizeTag(|ts[0].data|), FileBytes(ts[1..]))
  {
    hide At, TagBytes, SizeAt, TimeAt, KindAt, FileBytes;
    FirstTag(content, pos, ts);
    TagFields(content, pos, ts[0]);
  }

  lemma FileBytesSize(ts: seq<Tag>)
    requires ts != []
    ensures |FileBytes(ts)| == SizeTag(|ts[0].data|) + |FileBytes(ts[1..])|
  {
    hide TagBytes;
    SizeOfTag(ts[0]);
  }

  lemma {:induction false} ReadBack(content: seq<byte>, pos: nat, ts: seq<Tag>, before: seq<Tag>)
    requires At(content, pos, FileBytes(ts)) && pos + |FileBytes(ts)| == |content|
    requires forall i :: 0 <= i < |ts| ==> Storable(ts[i])
    ensures ReadTags(content, pos, before) == Some(before + StoredAll(ts))
    decreases |ts|
  {
    hide At, FileBytes, ReadTags, Stored;
    if ts == [] {
      ReadEnd(content, pos, before);
      assert before + StoredAll(ts) == before;
    } else {
      assert Storable(ts[0]);
      ReadGood(content, pos, ts, before);
      FileBytesSize(ts);
      ReadBack(content, pos + SizeTag(|ts[0].data|), ts[1..], before + [Stored(ts[0])]);
      Assoc(before, [Stored(ts[0])], StoredAll(ts[1..]));
    }
  }

  lemma ReadEnd(content: seq<byte>, pos: nat, before: seq<Tag>)
    requires pos + |FileBytes([])| == |content|
    ensures ReadTags(content, pos, before) == Some(before)
  {}

  /** Tags only ever get added behind those already read. */
  lemma {:induction false} ReadTagsExtends(content: seq<byte>, pos: nat, before: seq<Tag>)
    ensures var r := ReadTags(content, pos, before); r.Some? ==> before <= r.value
    decreases |content| - pos
  {
    hide SizeAt, TimeAt, KindAt;
    if pos + TAG_HEADER_SIZE <= |content| {
      var size := SizeAt(content, pos);
      if 0 < size && pos + SizeTag(size) <= |content| {
        var tag := Tag(KindAt(content, pos), TimeAt(content, pos),
            content[pos + TAG_HEADER_SIZE..pos + TAG_HEADER_SIZE + size]);
        ReadTagsExtends(content, pos + SizeTag(size), before + [tag]);
      }
    }
  }

  /** A tag that does not fit is lost: reading stops in front of it or gives other data. */
  lemma ReadBad(content: seq<byte>, pos: nat, ts: seq<Tag>, before: seq<Tag>)
    requires ts != [] && At(content, pos, FileBytes(ts)) && !Storable(ts[0])
    ensures ReadTags(content, pos, before) != Some(before + StoredAll(ts))
  {
    hide At, TagBytes, TimeAt, KindAt, FileBytes, SizeAt;
    var t, size := ts[0], |ts[0].data| % 0x1000000;
    FirstTag(content, pos, ts);
    TagFields(content, pos, t);
    if size == 0 {
      assert |before| < |before + StoredAll(ts)|;
    } else {
      var data := content[pos + TAG_HEADER_SIZE..pos + TAG_HEADER_SIZE + size];
      var read := Tag(KindAt(content, pos), TimeAt(content, pos), data);
      assert |data| < |t.data|;
      ReadTagsExtends(content, pos + SizeTag(size), before + [read]);
      var all := before + StoredAll(ts);
      assert all[|before|] == Stored(t) && (before + [read])[|before|] == read;
    }
  }

  lemma {:induction false} ReadBackFails(content: seq<byte>, pos: nat, ts: seq<Tag>, before: seq<Tag>, bad: nat)
    requires At(content, pos, FileBytes(ts)) && bad < |ts| && !Storable(ts[bad])
    ensures ReadTags(content, pos, before) != Some(before + StoredAll(ts))
    decreases |ts|
  {
    hide At, FileBytes, ReadTags;
    if Storable(ts[0]) {
      ReadGood(content, pos, ts, before);
      ReadBackFails(content, pos + SizeTag(|ts[0].data|), ts[1..], before + [Stored(ts[0])], bad - 1);
      assert before + [Stored(ts[0])] + StoredAll(ts[1..]) == before + StoredAll(ts);
    } else {
      ReadBad(content, pos, ts, before);
    }
  }

  /** A file of tags, behind any header, reads back as written, with 31-bit times, exactly when
      every tag has between 1 and 2^24 - 1 bytes of data. */
  lemma TagsRoundTrip(header: seq<byte>, ts: seq<Tag>)
    ensures ReadTags(header + FileBytes(ts), |header|, []) == Some(StoredAll(ts))
            <==> forall i :: 0 <= i < |ts| ==> Storable(ts[i])
  {
    hide At, FileBytes, ReadTags, Storable, StoredAll;
    var content := header + FileBytes(ts);
    AtMiddle(header, FileBytes(ts), []);
    assert header + FileBytes(ts) + [] == content;
    assert [] + StoredAll(ts) == StoredAll(ts);
    if forall i :: 0 <= i < |ts| ==> Storable(ts[i]) {
      ReadBack(content, |header|, ts, []);
    } else {
      var bad :| 0 <= bad < |ts| && !Storable(ts[bad]);
      ReadBackFails(content, |header|, ts, [], bad);
    }
  }

  // ---------------------------------------------------------------- the fast scan

  function Offset(ts: seq<Tag>, k: nat): nat
    requires k <= |ts|
  {
    if k == 0 then 0 else Offset(ts, k - 1) + SizeTag(|ts[k - 1].data|)
  }

  /** Audio or video tag r repeats the kind of an earlier one. */
  ghost predicate Repeats(ts: seq<Tag>, r: nat) {
    r < |ts| && ts[r].IsAv() && exists j :: 0 <= j < r && ts[j].kind == ts[r].kind
  }

  ghost predicate FirstRepeat(ts: seq<Tag>, r: nat) {
    r < |ts| && Repeats(ts, r) && forall k :: 0 <= k < r ==> !Repeats(ts, k)
  }

  ghost predicate Seen(ts: seq<Tag>, k: nat, kind: byte)
    requires k <= |ts|
  {
    exists j :: 0 <= j < k && ts[j].kind == kind
  }

  /** The place of the first audio or video tag in front of k, or k. */
  function FirstAv(ts: seq<Tag>, k: nat): (f: nat)
    requires k <= |ts|
    ensures f <= k
    ensures forall j :: 0 <= j < f ==> !ts[j].IsAv()
    ensures f < k ==> ts[f].IsAv()
  {
    if k == 0 then 0
    else
      var f := FirstAv(ts, k - 1);
      if f < k - 1 || ts[k - 1].IsAv() then f else k
  }

  /** The place behind the last audio or video tag in front of k, or 0. */
  function BehindLastAv(ts: seq<Tag>, k: nat): (e: nat)
    requires k <= |ts|
    ensures e <= k
    ensures forall j :: e <= j < k ==> !ts[j].IsAv()
    ensures e > 0 ==> ts[e - 1].IsAv()
  {
    if k == 0 then 0 else if ts[k - 1].IsAv() then k else BehindLastAv(ts, k - 1)
  }

  lemma {:induction false} TagAt(content: seq<byte>, pos: nat, ts: seq<Tag>, k: nat)
    requires At(content, pos, FileBytes(ts)) && k < |ts|
    ensures At(content, pos + Offset(ts, k), TagBytes(ts[k]))
    decreases k
  {
    hide At, TagBytes;
    FirstTag(content, pos, ts);
    if k > 0 {
      TagAt(content, pos + SizeTag(|ts[0].data|), ts[1..], k - 1);
      OffsetShift(ts, k);
      assert ts[1..][k - 1] == ts[k];
    }
  }

  lemma {:induction false} OffsetShift(ts: seq<Tag>, k: nat)
    requires 0 < k <= |ts|
    ensures Offset(ts, k) == SizeTag(|ts[0].data|) + Offset(ts[1..], k - 1)
    decreases k
  {
    if k > 1 {
      OffsetShift(ts, k - 1);
      assert ts[1..][k - 2] == ts[k - 1];
    } else {
      assert Offset(ts, 1) == Offset(ts, 0) + SizeTag(|ts[0].data|);
    }
  }

  lemma {:induction false} FileSize(ts: seq<Tag>)
    ensures |FileBytes(ts)| == Offset(ts, |ts|)
  {
    hide TagBytes;
    if ts != [] {
      SizeOfTag(ts[0]);
      FileSize(ts[1..]);
      OffsetShift(ts, |ts|);
    }
  }

  /** The state of the scan in front of tag k. */
  ghost function ScanAt(content: seq<byte>, pos: nat, ts: seq<Tag>, k: nat): Option<Scan>
    requires k <= |ts|
  {
    ScanFrom(content, pos + Offset(ts, k), Seen(ts, k, VIDEO), Seen(ts, k, AUDIO),
             if FirstAv(ts, k) < k then pos + Offset(ts, FirstAv(ts, k)) else -1,
             if FirstAv(ts, k) < k then pos + Offset(ts, BehindLastAv(ts, k)) else -1)
  }

  lemma SeenNext(ts: seq<Tag>, k: nat, kind: byte)
    requires k < |ts|
    ensures Seen(ts, k + 1, kind) <==> Seen(ts, k, kind) || ts[k].kind == kind
  {
    if Seen(ts, k + 1, kind) && ts[k].kind != kind {
      var j :| 0 <= j < k + 1 && ts[j].kind == kind;
      assert j < k;
    }
  }

  lemma AvMarks(ts: seq<Tag>, k: nat)
    requires k <= |ts|
    ensures FirstAv(ts, k) < k ==> BehindLastAv(ts, k) > 0
  {}

  lemma ScanTag(content: seq<byte>, pos: nat, ts: seq<Tag>, k: nat)
    requires At(content, pos, FileBytes(ts)) && k < |ts| && |ts[k].data| < 0x1000000 && !Repeats(ts, k)
    ensures ScanAt(content, pos, ts, k) == ScanAt(content, pos, ts, k + 1)
  {
    hide At, TagBytes, SizeAt, FileBytes;
    TagAt(content, pos, ts, k);
    TagFields(content, pos + Offset(ts, k), ts[k]);
    SeenNext(ts, k, VIDEO);
    SeenNext(ts, k, AUDIO);
    AvMarks(ts, k);
  }

  lemma {:induction false} ScanReaches(content: seq<byte>, pos: nat, ts: seq<Tag>, k: nat)
    requires At(content, pos, FileBytes(ts)) && k <= |ts|
    requires forall j :: 0 <= j < k ==> |ts[j].data| < 0x1000000 && !Repeats(ts, j)
    ensures ScanFrom(content, pos, false, false, -1, -1) == ScanAt(content, pos, ts, k)
    decreases k
  {
    hide At, FileBytes, ScanFrom, Repeats;
    if k > 0 {
      ScanReaches(content, pos, ts, k - 1);
      ScanTag(content, pos, ts, k - 1);
    }
  }

  /** On any list of tags whose sizes fit: the scan succeeds exactly when some audio or video tag
      repeats; the range it gives then starts at the first audio or video tag and ends behind the
      last one in front of the first repeat. */
  lemma FastScanIsRight(header: seq<byte>, ts: seq<Tag>)
    requires forall j :: 0 <= j < |ts| ==> |ts[j].data| < 0x1000000
    ensures var scan := ScanFrom(header + FileBytes(ts), |header|, false, false, -1, -1);
            && (forall r :: FirstRepeat(ts, r) ==>
                  scan == Some(Scan(Success, |header| + Offset(ts, FirstAv(ts, r)),
                      |header| + Offset(ts, BehindLastAv(ts, r)))))
            && ((forall r :: !Repeats(ts, r)) ==> scan == Some(Scan(Eof, 0, 0)))
  {
    hide At, FileBytes, Repeats, SizeAt, TagBytes;
    var content, pos := header + FileBytes(ts), |header|;
    AtMiddle(header, FileBytes(ts), []);
    assert header + FileBytes(ts) + [] == content;
    forall r | FirstRepeat(ts, r)
      ensures ScanFrom(content, pos, false, false, -1, -1)
           == Some(Scan(Success, pos + Offset(ts, FirstAv(ts, r)), pos + Offset(ts, BehindLastAv(ts, r))))
    {
      ScanReaches(content, pos, ts, r);
      ScanStops(content, pos, ts, r);
    }
    if forall r :: !Repeats(ts, r) {
      ScanReaches(content, pos, ts, |ts|);
      FileSize(ts);
    }
  }

  lemma ScanStops(content: seq<byte>, pos: nat, ts: seq<Tag>, r: nat)
    requires At(content, pos, FileBytes(ts)) && Repeats(ts, r)
    ensures ScanAt(content, pos, ts, r)
         == Some(Scan(Success, pos + Offset(ts, FirstAv(ts, r)), pos + Offset(ts, BehindLastAv(ts, r))))
  {
    hide At, TagBytes, SizeAt, FileBytes;
    TagAt(content, pos, ts, r);
    TagFields(content, pos + Offset(ts, r), ts[r]);
    var j :| 0 <= j < r && ts[j].kind == ts[r].kind;
    assert ts[j].IsAv() && FirstAv(ts, r) < r;
  }

  /** The range found holds at most one tag of each kind: no audio or video tag in front of the
      first repeat has the kind of another. */
  lemma RangeHoldsOneOfEach(ts: seq<Tag>, r: nat, i: nat, j: nat)
    requires FirstRepeat(ts, r) && FirstAv(ts, r) <= i < j < BehindLastAv(ts, r) && ts[i].IsAv() && ts[j].IsAv()
    ensures ts[i].kind != ts[j].kind
  {
    assert !Repeats(ts, j);
  }
}
