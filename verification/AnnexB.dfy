/**
 The byte stream format of H.264 Annex B: how a picture is laid out for the transport stream, and a
 reader that finds the NAL units in any byte stream.
 */
module AnnexB {
  import opened Bytes
  import opened Pieces
  import opened AvcAac
  import opened Avcc

  // ---------------------------------------------------------------- the reader

  /** The next start code 00 00 01 from p on. */
  function NextCode(d: seq<byte>, p: nat): (r: nat)
    requires p <= |d|
    ensures p <= r <= |d| && (r < |d| ==> r + 3 <= |d|)
    decreases |d| - p
  {
    if p + 3 > |d| then |d| else if d[p] == 0 && d[p + 1] == 0 && d[p + 2] == 1 then p else NextCode(d, p + 1)
  }

  /** A NAL unit ends in front of 00 00 00 or 00 00 01. */
  predicate EndsAt(d: seq<byte>, p: nat) {
    p + 3 <= |d| && d[p] == 0 && d[p + 1] == 0 && d[p + 2] <= 1
  }

  function NextEnd(d: seq<byte>, p: nat): (r: nat)
    requires p <= |d|
    ensures p <= r <= |d|
    decreases |d| - p
  {
    if p + 3 > |d| then |d| else if EndsAt(d, p) then p else NextEnd(d, p + 1)
  }

  /** The NAL units of a byte stream from p on. */
  function Split(d: seq<byte>, p: nat): seq<seq<byte>>
    requires p <= |d|
    decreases |d| - p
  {
    var k := NextCode(d, p);
    if k == |d| then []
    else
      var e := NextEnd(d, k + 3);
      [d[k + 3..e]] + Split(d, e)
  }

  // ---------------------------------------------------------------- the writer

  /** A NAL unit with a start code of four or of three bytes. */
  datatype Unit = Unit(long: bool, nal: seq<byte>)

  const AUD: seq<byte> := [9, 0xf0]

  function StartCode(long: bool): seq<byte> {
    if long then [0, 0, 0, 1] else [0, 0, 1]
  }

  function UnitBytes(u: Unit): seq<byte> {
    StartCode(u.long) + u.nal
  }

  function StreamOf(us: seq<Unit>): seq<byte> {
    if us == [] then [] else UnitBytes(us[0]) + StreamOf(us[1..])
  }

  function NalType(nal: seq<byte>): nat {
    if nal == [] then 0 else nal[0] as int % 32
  }

  const SLICE := 1
  const IDR := 5

  /** Whether the parameter sets have been put in since the last slice that is not of an IDR picture. */
  predicate SetsSent(nals: seq<seq<byte>>) {
    nals != [] && var t := NalType(nals[|nals| - 1]); t != SLICE && (t == IDR || SetsSent(nals[..|nals| - 1]))
  }

  function SetUnits(sps: seq<byte>, pps: seq<byte>): seq<Unit> {
    (if sps == [] then [] else [Unit(true, sps)]) + if pps == [] then [] else [Unit(true, pps)]
  }

  /** What is written for the NAL units of a picture. */
  function PictureUnits(nals: seq<seq<byte>>, sps: seq<byte>, pps: seq<byte>): seq<Unit> {
    if nals == [] then [Unit(true, AUD)]
    else
      var front, nal := nals[..|nals| - 1], nals[|nals| - 1];
      PictureUnits(front, sps, pps)
      + (if NalType(nal) == IDR && !SetsSent(front) then SetUnits(sps, pps) else [])
      + [Unit(front == [], nal)]
  }

  lemma StreamOfConcat(a: seq<Unit>, b: seq<Unit>)
    ensures StreamOf(a + b) == StreamOf(a) + StreamOf(b)
    decreases |a|
  {
    hide UnitBytes;
    if a == [] {
      assert a + b == b;
    } else {
      assert (a + b)[1..] == a[1..] + b;
      StreamOfConcat(a[1..], b);
    }
  }

  lemma StreamOfOne(u: Unit)
    ensures StreamOf([u]) == UnitBytes(u)
  {
    hide UnitBytes;
    assert StreamOf([u]) == UnitBytes(u) + [];
  }

  // ---------------------------------------------------------------- reading what was written

  /** A NAL unit that contains nothing like a start code and does not end in a zero. */
  ghost predicate Clean(nal: seq<byte>) {
    nal != [] && nal[|nal| - 1] != 0 && forall i :: 0 <= i < |nal| ==> !EndsAt(nal, i)
  }

  ghost predicate AllClean(us: seq<Unit>) {
    us == [] || (Clean(us[0].nal) && AllClean(us[1..]))
  }

  function Nals(us: seq<Unit>): seq<seq<byte>> {
    if us == [] then [] else [us[0].nal] + Nals(us[1..])
  }

  lemma CleanInStream(d: seq<byte>, p: nat, nal: seq<byte>, i: nat)
    requires Clean(nal) && At(d, p, nal) && i < |nal|
    ensures !EndsAt(d, p + i)
  {
    AtIndex(d, p, nal, i);
    AtIndex(d, p, nal, |nal| - 1);
    if i + 2 < |nal| {
      AtIndex(d, p, nal, i + 1);
      AtIndex(d, p, nal, i + 2);
      assert !EndsAt(nal, i);
    } else if i + 1 < |nal| {
      AtIndex(d, p, nal, i + 1);
    }
  }

  lemma {:induction false} EndIsFound(d: seq<byte>, p: nat, nal: seq<byte>, i: nat)
    requires Clean(nal) && At(d, p, nal) && i <= |nal|
    requires p + |nal| == |d| || EndsAt(d, p + |nal|)
    ensures NextEnd(d, p + i) == p + |nal|
    decreases |nal| - i
  {
    hide Clean, EndsAt;
    if i < |nal| {
      CleanInStream(d, p, nal, i);
      EndIsFound(d, p, nal, i + 1);
    }
    EndHasRoom(d, p + |nal|);
  }

  lemma EndHasRoom(d: seq<byte>, p: nat)
    ensures EndsAt(d, p) ==> p + 3 <= |d|
  {}

  lemma CodeIsFound(d: seq<byte>, p: nat, long: bool)
    requires At(d, p, StartCode(long))
    ensures NextCode(d, p) == p + |StartCode(long)| - 3 && EndsAt(d, p)
  {
    AtIndex(d, p, StartCode(long), 0);
    AtIndex(d, p, StartCode(long), 1);
    AtIndex(d, p, StartCode(long), 2);
    if long {
      AtIndex(d, p, StartCode(long), 3);
    }
  }

  /** A reader finds exactly the NAL units that were written. */
  lemma {:induction false} SplitFinds(us: seq<Unit>, d: seq<byte>, p: nat)
    requires AllClean(us) && At(d, p, StreamOf(us)) && p + |StreamOf(us)| == |d|
    ensures Split(d, p) == Nals(us)
    decreases |us|
  {
    hide Clean, EndsAt, NextEnd, NextCode, StartCode;
    if us == [] {
      assert NextCode(d, p) == |d| by { NothingLeft(d); }
    } else {
      var code, nal, rest := StartCode(us[0].long), us[0].nal, us[1..];
      AtConcat(d, p, code + nal, StreamOf(rest));
      AtConcat(d, p, code, nal);
      CodeIsFound(d, p, us[0].long);
      var q := p + |code| + |nal|;
      RestStarts(rest, d, q);
      EndIsFound(d, p + |code|, nal, 0);
      assert d[p + |code|..q] == nal;
      SplitFinds(rest, d, q);
    }
  }

  lemma NothingLeft(d: seq<byte>)
    ensures NextCode(d, |d|) == |d|
  {}

  lemma RestStarts(us: seq<Unit>, d: seq<byte>, p: nat)
    requires At(d, p, StreamOf(us)) && p + |StreamOf(us)| == |d|
    ensures p == |d| || EndsAt(d, p)
    ensures us == [] ==> p == |d|
  {
    hide StartCode, EndsAt;
    if us != [] {
      AtConcat(d, p, UnitBytes(us[0]), StreamOf(us[1..]));
      AtConcat(d, p, StartCode(us[0].long), us[0].nal);
      CodeIsFound(d, p, us[0].long);
    }
  }

  // ---------------------------------------------------------------- where the parameter sets go

  /** An IDR slice is there, and no slice of another kind since. */
  ghost predicate InIdr(nals: seq<seq<byte>>) {
    exists j :: 0 <= j < |nals| && NalType(nals[j]) == IDR && forall k :: j < k < |nals| ==> NalType(nals[k]) != SLICE
  }

  /** The NAL units a reader should find: the picture's own, with the parameter sets right in front of
      each IDR slice that is the first one since the start or since the last slice of another kind. */
  ghost function Expected(nals: seq<seq<byte>>, sps: seq<byte>, pps: seq<byte>): seq<seq<byte>> {
    if nals == [] then [AUD]
    else
      var front, nal := nals[..|nals| - 1], nals[|nals| - 1];
      Expected(front, sps, pps)
      + (if NalType(nal) == IDR && !InIdr(front)
         then (if sps == [] then [] else [sps]) + (if pps == [] then [] else [pps])
         else [])
      + [nal]
  }

  lemma {:induction false} SetsSentIff(nals: seq<seq<byte>>)
    ensures SetsSent(nals) <==> InIdr(nals)
    decreases |nals|
  {
    hide NalType;
    if nals != [] {
      var front, t := nals[..|nals| - 1], NalType(nals[|nals| - 1]);
      SetsSentIff(front);
      assert forall k :: 0 <= k < |front| ==> front[k] == nals[k];
      if SetsSent(nals) {
        if t == IDR {
          assert NalType(nals[|nals| - 1]) == IDR;
        } else {
          var j :| 0 <= j < |front| && NalType(front[j]) == IDR && forall k :: j < k < |front| ==>
              NalType(front[k]) != SLICE;
          assert NalType(nals[j]) == IDR;
        }
      }
      if InIdr(nals) {
        var j :| 0 <= j < |nals| && NalType(nals[j]) == IDR && forall k :: j < k < |nals| ==> NalType(nals[k]) != SLICE;
        if j < |front| {
          assert NalType(front[j]) == IDR;
        }
      }
    }
  }

  lemma NalsConcat(a: seq<Unit>, b: seq<Unit>)
    ensures Nals(a + b) == Nals(a) + Nals(b)
    decreases |a|
  {
    if a == [] {
      assert a + b == b;
    } else {
      assert (a + b)[1..] == a[1..] + b;
      NalsConcat(a[1..], b);
    }
  }

  lemma CleanConcat(a: seq<Unit>, b: seq<Unit>)
    requires AllClean(a) && AllClean(b)
    ensures AllClean(a + b)
    decreases |a|
  {
    hide Clean;
    if a == [] {
      assert a + b == b;
    } else {
      assert (a + b)[1..] == a[1..] + b;
      CleanConcat(a[1..], b);
    }
  }

  lemma OneUnit(long: bool, nal: seq<byte>)
    requires Clean(nal)
    ensures AllClean([Unit(long, nal)]) && Nals([Unit(long, nal)]) == [nal]
  {
    hide Clean;
  }

  lemma SetUnitsAre(sps: seq<byte>, pps: seq<byte>)
    requires (sps == [] || Clean(sps)) && (pps == [] || Clean(pps))
    ensures AllClean(SetUnits(sps, pps))
    ensures Nals(SetUnits(sps, pps)) == (if sps == [] then [] else [sps]) + if pps == [] then [] else [pps]
  {
    hide Clean, Nals, AllClean;
    var a := if sps == [] then [] else [Unit(true, sps)];
    var b := if pps == [] then [] else [Unit(true, pps)];
    NoUnits();
    if sps != [] {
      OneUnit(true, sps);
    }
    if pps != [] {
      OneUnit(true, pps);
    }
    NalsConcat(a, b);
    CleanConcat(a, b);
  }

  lemma NoUnits()
    ensures AllClean([]) && Nals([]) == []
  {}

  lemma {:induction false} UnitsAreExpected(nals: seq<seq<byte>>, sps: seq<byte>, pps: seq<byte>)
    requires (sps == [] || Clean(sps)) && (pps == [] || Clean(pps)) && forall i :: 0 <= i < |nals| ==> Clean(nals[i])
    ensures Nals(PictureUnits(nals, sps, pps)) == Expected(nals, sps, pps)
    ensures AllClean(PictureUnits(nals, sps, pps))
    decreases |nals|
  {
    hide Clean, SetUnits, InIdr, SetsSent, NalType, AllClean, Nals;
    if nals == [] {
      AudIsClean();
      OneUnit(true, AUD);
    } else {
      var front, nal := nals[..|nals| - 1], nals[|nals| - 1];
      assert forall k :: 0 <= k < |front| ==> front[k] == nals[k];
      UnitsAreExpected(front, sps, pps);
      SetsSentIff(front);
      SetUnitsAre(sps, pps);
      OneUnit(front == [], nal);
      var before, sets := PictureUnits(front, sps, pps), SetUnits(sps, pps);
      if NalType(nal) == IDR && !SetsSent(front) {
        NalsConcat(before, sets);
        CleanConcat(before, sets);
        NalsConcat(before + sets, [Unit(front == [], nal)]);
        CleanConcat(before + sets, [Unit(front == [], nal)]);
      } else {
        assert before + [] == before;
        NalsConcat(before, [Unit(front == [], nal)]);
        CleanConcat(before, [Unit(front == [], nal)]);
      }
    }
  }

  lemma AudIsClean()
    ensures Clean(AUD)
  {}

  /** Reading what is written for a picture gives an access unit delimiter and the picture, with the
      parameter sets in front of each IDR picture. */
  lemma PictureIsPreserved(nals: seq<seq<byte>>, sps: seq<byte>, pps: seq<byte>)
    requires (sps == [] || Clean(sps)) && (pps == [] || Clean(pps)) && forall i :: 0 <= i < |nals| ==> Clean(nals[i])
    ensures Split(StreamOf(PictureUnits(nals, sps, pps)), 0) == Expected(nals, sps, pps)
  {
    hide Clean, Split, StreamOf, PictureUnits, Expected;
    UnitsAreExpected(nals, sps, pps);
    var us := PictureUnits(nals, sps, pps);
    AtWhole(StreamOf(us));
    SplitFinds(us, StreamOf(us), 0);
  }

  // ---------------------------------------------------------------- from the payload to the byte stream

  /** The NAL units that the slices of a payload hold. */
  function Contents(samples: seq<Slice>, d: seq<byte>): seq<seq<byte>>
    requires AllPositive(samples) && InPayload(samples, d)
  {
    if samples == [] then []
    else
      var s := samples[|samples| - 1];
      Contents(samples[..|samples| - 1], d) + [d[s.pos..s.pos + s.size]]
  }

  lemma {:induction false} ContentsOf(samples: seq<Slice>, nals: seq<seq<byte>>, d: seq<byte>)
    requires Hold(samples, nals, d) && forall k :: 0 <= k < |nals| ==> nals[k] != []
    ensures AllPositive(samples) && InPayload(samples, d) && Contents(samples, d) == nals
    decreases |samples|
  {
    if samples != [] {
      var k := |samples| - 1;
      assert SliceIs(samples[k], nals[k], d);
      assert Hold(samples[..k], nals[..k], d) by {
        forall j | 0 <= j < k ensures SliceIs(samples[..k][j], nals[..k][j], d) {
          assert SliceIs(samples[j], nals[j], d);
        }
      }
      ContentsOf(samples[..k], nals[..k], d);
    }
  }

  lemma ProperIsNotEmpty(n: nat, nals: seq<seq<byte>>)
    requires Proper(n, nals)
    ensures forall k :: 0 <= k < |nals| ==> nals[k] != []
  {
    if nals != [] {
      ProperIsNotEmpty(n, nals[1..]);
      assert forall k :: 1 <= k < |nals| ==> nals[k] == nals[1..][k - 1];
    }
  }

  /** An FLV picture of up to 128 NAL units, with lengths of four bytes, or of one byte below 128, comes
      out of the byte stream as it went in. */
  lemma AccessUnitSurvives(n: nat, header: seq<byte>, nals: seq<seq<byte>>, sps: seq<byte>, pps: seq<byte>)
    requires n <= 3 && |header| == 5 && Proper(n, nals) && |header + Picture(n, nals)| < 0x80000000
    requires (sps == [] || Clean(sps)) && (pps == [] || Clean(pps)) && forall i :: 0 <= i < |nals| ==> Clean(nals[i])
    requires |nals| <= MAX_CODEC_SAMPLE && (n == 3 || (n == 0 && forall k :: 0 <= k < |nals| ==> |nals[k]| < 0x80))
    ensures var d := header + Picture(n, nals);
            var o := Nalus(n, d, 5, 0, |d| - 5, []);
            && o.Cut? && AllPositive(o.samples) && InPayload(o.samples, d)
            && Split(StreamOf(PictureUnits(Contents(o.samples, d), sps, pps)), 0) == Expected(nals, sps, pps)
  {
    hide Clean, Split, StreamOf, PictureUnits, Expected, Nalus, Hold, Picture, Contents, AllPositive, InPayload, Proper;
    var d := header + Picture(n, nals);
    PictureRecoveredIff(n, header, nals);
    ProperIsNotEmpty(n, nals);
    ContentsOf(Nalus(n, d, 5, 0, |d| - 5, []).samples, nals, d);
    PictureIsPreserved(nals, sps, pps);
  }
}
