/** What the demuxer makes of well-formed payloads, ISO/IEC 14496-15 sections 5.2.4.1.1 and 5.3.4.2.1. */
module Avcc {
  import opened Bytes
  import opened Pieces
  import opened AvcAac

  // ---------------------------------------------------------------- the NAL units of a picture

  /** A length in n + 1 bytes. */
  function LengthBytes(n: nat, size: nat): seq<byte>
    requires n <= 3
  {
    if n == 0 then [Low8(size)] else if n == 1 then BE16(size) else if n == 2 then BE24(size) else BE32(size)
  }

  predicate Fits(n: nat, size: nat) {
    size < if n == 0 then 0x100 else if n == 1 then 0x10000 else if n == 2 then 0x1000000 else 0x100000000
  }

  /** NAL units with their lengths in front. */
  function Picture(n: nat, nals: seq<seq<byte>>): seq<byte>
    requires n <= 3
  {
    if nals == [] then [] else LengthBytes(n, |nals[0]|) + nals[0] + Picture(n, nals[1..])
  }

  predicate Proper(n: nat, nals: seq<seq<byte>>) {
    nals == [] || (nals[0] != [] && Fits(n, |nals[0]|) && Proper(n, nals[1..]))
  }

  ghost predicate SliceIs(s: Slice, nal: seq<byte>, d: seq<byte>) {
    s.pos >= 0 && s.size == |nal| && At(d, s.pos, nal)
  }

  ghost predicate Hold(samples: seq<Slice>, nals: seq<seq<byte>>, d: seq<byte>) {
    |samples| == |nals| && forall k :: 0 <= k < |nals| ==> SliceIs(samples[k], nals[k], d)
  }

  /** The picture was cut into exactly these NAL units. */
  ghost predicate Recovered(o: Outcome, nals: seq<seq<byte>>, d: seq<byte>) {
    o.Cut? && Hold(o.samples, nals, d)
  }

  /** The sizes whose lengths are read as they were written. */
  predicate ReadRight(n: nat, size: nat) {
    n == 3 || (n == 0 && size < 0x80)
  }

  predicate AllReadRight(n: nat, nals: seq<seq<byte>>) {
    nals == [] || (ReadRight(n, |nals[0]|) && AllReadRight(n, nals[1..]))
  }

  lemma LengthIsRead(n: nat, size: nat, d: seq<byte>, p: nat)
    requires n <= 3 && size > 0 && Fits(n, size) && size < 0x80000000 && At(d, p, LengthBytes(n, size))
    ensures p + n + 1 <= |d|
    ensures LengthRead(n, d, p) == size <==> ReadRight(n, size)
    ensures ReadRight(n, size) ==> SizeRead(n) == n + 1
  {
    AtIndex(d, p, LengthBytes(n, size), 0);
    if n == 3 {
      WholeLengthIsRead(size, d, p);
    } else if n > 0 {
      FirstOfLength(n, size);
    }
  }

  lemma WholeLengthIsRead(size: nat, d: seq<byte>, p: nat)
    requires size < 0x80000000 && At(d, p, LengthBytes(3, size))
    ensures p + 4 <= |d| && LengthRead(3, d, p) == size
  {
    BigEndian32(size);
    assert d[p..p + 4] == LengthBytes(3, size);
  }

  /** The first of several bytes is not the length. */
  lemma FirstOfLength(n: nat, size: nat)
    requires 0 < n < 3 && size > 0 && Fits(n, size)
    ensures LengthBytes(n, size) != [] && Signed8(LengthBytes(n, size)[0]) != size
  {}

  lemma {:induction false} NalusExtends(n: nat, d: seq<byte>, p: int, i: int, length: nat, samples: seq<Slice>)
    requires n <= 3
    ensures samples <= Nalus(n, d, p, i, length, samples).samples
    decreases MAX_CODEC_SAMPLE - |samples|
  {
    hide LengthRead, SizeRead;
    if i < length && 0 <= p && p + n + 1 <= |d| {
      var size, q := LengthRead(n, d, p), p + SizeRead(n);
      if q < |d| && size <= |d| - q && |samples| < MAX_CODEC_SAMPLE {
        NalusExtends(n, d, q + size, i + n + 1 + size, length, samples + [Slice(q, size)]);
      }
    }
  }

  lemma WrongSizeIsFatal(o: Outcome, samples: seq<Slice>, nals: seq<seq<byte>>, d: seq<byte>)
    requires samples <= o.samples && 0 < |samples| <= |nals| && samples[|samples| - 1].size != |nals[|samples| - 1]|
    ensures !Recovered(o, nals, d)
  {
    var k := |samples| - 1;
    assert o.samples[k] == samples[k];
    assert Recovered(o, nals, d) ==> SliceIs(o.samples[k], nals[k], d);
  }

  lemma {:induction false} RestRecoveredIff(n: nat, d: seq<byte>, p: nat, length: nat, samples: seq<Slice>,
                                            done: seq<seq<byte>>, nals: seq<seq<byte>>)
    requires n <= 3 && Proper(n, nals) && |d| < 0x80000000
    requires At(d, p, Picture(n, nals)) && p + |Picture(n, nals)| == |d| && p <= |d| <= p + length
    requires Hold(samples, done, d) && |samples| <= MAX_CODEC_SAMPLE
    ensures Recovered(Nalus(n, d, p, length - (|d| - p), length, samples), done + nals, d)
            <==> |samples| + |nals| <= MAX_CODEC_SAMPLE && AllReadRight(n, nals)
    decreases |nals|
  {
    hide Nalus, LengthRead, SizeRead, ReadRight, Fits, LengthBytes, Hold, SliceIs;
    var i := length - (|d| - p);
    Step(n, d, p, i, length, samples);
    if nals == [] {
      assert done + nals == done;
    } else {
      var nal, rest := nals[0], nals[1..];
      var o := Nalus(n, d, p, i, length, samples);
      assert (done + nals)[|samples|] == nal by { HoldSize(samples, done, d); }
      AtConcat(d, p, LengthBytes(n, |nal|) + nal, Picture(n, rest));
      AtConcat(d, p, LengthBytes(n, |nal|), nal);
      LengthIsRead(n, |nal|, d, p);
      LengthSize(n, |nal|);
      var size, q := LengthRead(n, d, p), p + SizeRead(n);
      var taken := samples + [Slice(q, size)];
      if size != |nal| {
        if o != Bad(samples) {
          NalusExtends(n, d, q + size, i + n + 1 + size, length, taken);
          HoldSize(samples, done, d);
          WrongSizeIsFatal(o, taken, done + nals, d);
        }
      } else if |samples| < MAX_CODEC_SAMPLE {
        HoldSnoc(samples, done, d, q, nal);
        assert done + [nal] + rest == done + nals;
        RestRecoveredIff(n, d, q + size, length, taken, done + [nal], rest);
      }
    }
  }

  lemma HoldSize(samples: seq<Slice>, done: seq<seq<byte>>, d: seq<byte>)
    requires Hold(samples, done, d)
    ensures |samples| == |done|
  {}

  lemma HoldSnoc(samples: seq<Slice>, done: seq<seq<byte>>, d: seq<byte>, q: nat, nal: seq<byte>)
    requires Hold(samples, done, d) && At(d, q, nal)
    ensures Hold(samples + [Slice(q, |nal|)], done + [nal], d)
  {}

  lemma LengthSize(n: nat, size: nat)
    requires n <= 3
    ensures |LengthBytes(n, size)| == n + 1
  {}

  /** A picture is cut into its NAL units exactly when there are at most 128 of them and each length is
      read as it was written: lengths of four bytes always are, of one byte only below 128, and those
      of two and three bytes never. */
  lemma PictureRecoveredIff(n: nat, header: seq<byte>, nals: seq<seq<byte>>)
    requires n <= 3 && |header| == 5 && Proper(n, nals) && |header + Picture(n, nals)| < 0x80000000
    ensures var d := header + Picture(n, nals);
            Recovered(Nalus(n, d, 5, 0, |d| - 5, []), nals, d)
            <==> |nals| <= MAX_CODEC_SAMPLE
                 && (nals == [] || n == 3 || (n == 0 && forall k :: 0 <= k < |nals| ==> |nals[k]| < 0x80))
  {
    hide Nalus, Recovered, AllReadRight, Picture, Proper;
    var d := header + Picture(n, nals);
    assert At(d, 5, Picture(n, nals));
    RestRecoveredIff(n, d, 5, |d| - 5, [], [], nals);
    assert [] + nals == nals;
    AllReadRightIff(n, nals);
  }

  lemma {:induction false} AllReadRightIff(n: nat, nals: seq<seq<byte>>)
    ensures AllReadRight(n, nals) <==> (nals == [] || n == 3
            || (n == 0 && forall k :: 0 <= k < |nals| ==> |nals[k]| < 0x80))
    decreases |nals|
  {
    if nals != [] {
      AllReadRightIff(n, nals[1..]);
      assert forall k :: 1 <= k < |nals| ==> nals[k] == nals[1..][k - 1];
      assert forall k :: 0 <= k < |nals[1..]| ==> nals[1..][k] == nals[k + 1];
    }
  }

  // ---------------------------------------------------------------- slices stay in the payload

  predicate AllPositive(samples: seq<Slice>) {
    samples == [] || (AllPositive(samples[..|samples| - 1]) && samples[|samples| - 1].size > 0)
  }

  /** Up to the first length that is not positive, the slices lie in the payload. */
  predicate InPayload(samples: seq<Slice>, d: seq<byte>) {
    samples == [] || (var s := samples[|samples| - 1];
                      InPayload(samples[..|samples| - 1], d)
                          && (AllPositive(samples) ==> 0 <= s.pos && s.pos + s.size <= |d|))
  }

  lemma PositiveSnoc(samples: seq<Slice>, s: Slice)
    ensures AllPositive(samples + [s]) <==> AllPositive(samples) && s.size > 0
  {
    assert (samples + [s])[..|samples|] == samples;
  }

  lemma InPayloadSnoc(samples: seq<Slice>, s: Slice, d: seq<byte>)
    requires InPayload(samples, d) && (AllPositive(samples + [s]) ==> 0 <= s.pos && s.pos + s.size <= |d|)
    ensures InPayload(samples + [s], d)
  {
    assert (samples + [s])[..|samples|] == samples;
  }

  lemma {:induction false} CutsStay(n: nat, d: seq<byte>, p: int, i: int, length: nat, samples: seq<Slice>)
    requires n <= 3 && InPayload(samples, d) && (AllPositive(samples) ==> p >= 0)
    ensures var o := Nalus(n, d, p, i, length, samples);
            InPayload(o.samples, d) && (o.Lost? ==> !AllPositive(o.samples))
    decreases MAX_CODEC_SAMPLE - |samples|
  {
    hide Nalus, LengthRead, AllPositive, InPayload;
    Step(n, d, p, i, length, samples);
    if i < length && 0 <= p && p + n + 1 <= |d| {
      var size, q := LengthRead(n, d, p), p + SizeRead(n);
      if q < |d| && size <= |d| - q && |samples| < MAX_CODEC_SAMPLE {
        PositiveSnoc(samples, Slice(q, size));
        InPayloadSnoc(samples, Slice(q, size), d);
        CutsStay(n, d, q + size, i + n + 1 + size, length, samples + [Slice(q, size)]);
      }
    }
  }

  lemma {:induction false} StaysAfterNonPositive(some: seq<Slice>, all: seq<Slice>, d: seq<byte>)
    requires some <= all && InPayload(some, d) && !AllPositive(some)
    ensures InPayload(all, d) && !AllPositive(all)
    decreases |all|
  {
    if some == all {
      assert all == some;
    } else {
      assert some <= all[..|all| - 1];
      StaysAfterNonPositive(some, all[..|all| - 1], d);
    }
  }

  /** Whatever the payload and the configuration are: no slice that is taken before the first one that
      is not positive, where writing a picture stops, leaves the payload. */
  lemma CutsStayInPayload(n: nat, d: seq<byte>, buffers: seq<Slice>)
    requires n <= 3 && |d| >= 5
    requires var o := Nalus(n, d, 5, 0, |d| - 5, []); if o.Lost? then o.samples <= buffers else buffers == o.samples
    ensures InPayload(buffers, d)
  {
    CutsStay(n, d, 5, 0, |d| - 5, []);
    var o := Nalus(n, d, 5, 0, |d| - 5, []);
    if o.Lost? {
      StaysAfterNonPositive(o.samples, buffers, d);
    }
  }

  // ---------------------------------------------------------------- the decoder configuration record

  /** A record with one parameter set of each kind. */
  function Record(fixed: seq<byte>, n: nat, sps: seq<byte>, pps: seq<byte>): seq<byte>
    requires |fixed| == 4 && n <= 3
  {
    fixed + [0xfc + n, 0xe1] + BE16(|sps|) + sps + [1] + BE16(|pps|) + pps
  }

  lemma SetIsRead(s: ParameterSet, d: seq<byte>, p: nat, unit: seq<byte>)
    requires 0 < |unit| < 0x10000 && p < |d| && d[p] % 32 == 1 && At(d, p + 1, BE16(|unit|) + unit)
    ensures SetAt(s, d, p) == SetResult(true, ParameterSet(|unit|, unit), p + 3 + |unit|)
  {
    AtConcat(d, p + 1, BE16(|unit|), unit);
    BigEndian16(|unit|);
    assert d[p + 1..p + 3] == BE16(|unit|);
  }

  /** Reading a record that was written gives what is in it, whatever was known before. */
  lemma RecordRoundTrip(v: VideoConfig, header: seq<byte>, fixed: seq<byte>, n: nat, sps: seq<byte>, pps: seq<byte>)
    requires |header| == 5 && |fixed| == 4 && n <= 3 && 0 < |sps| < 0x10000 && 0 < |pps| < 0x10000
    ensures var r := Record(fixed, n, sps, pps);
            RecordAt(v, header + r, 5)
            == RecordResult(true, VideoConfig(v.codecId, n, ParameterSet(|sps|, sps), ParameterSet(|pps|, pps), |r|, r))
  {
    hide SetAt, BE16, Record, At;
    var d := header + Record(fixed, n, sps, pps);
    RecordLayout(header, fixed, n, sps, pps);
    SetIsRead(v.sps, d, 10, sps);
    SetIsRead(v.pps, d, 13 + |sps|, pps);
  }

  /** Where the parts of a record are, behind the header of the tag. */
  lemma RecordLayout(header: seq<byte>, fixed: seq<byte>, n: nat, sps: seq<byte>, pps: seq<byte>)
    requires |header| == 5 && |fixed| == 4 && n <= 3
    ensures var r := Record(fixed, n, sps, pps);
            var d := header + r;
            && d[5..] == r && |d| == 16 + |sps| + |pps| && d[9] == 0xfc + n && d[10] == 0xe1 && d[13 + |sps|] == 1
            && At(d, 11, BE16(|sps|) + sps) && At(d, 14 + |sps|, BE16(|pps|) + pps)
  {
    hide BE16;
    var r := Record(fixed, n, sps, pps);
    var d := header + r;
    var start := header + fixed + [0xfc + n];
    assert |BE16(|sps|)| == |BE16(|pps|)| == 2 by { TwoBytes(|sps|); TwoBytes(|pps|); }
    assert d[5..] == r;
    var tail := [1] + BE16(|pps|) + pps;
    assert d == start + [0xe1] + (BE16(|sps|) + sps) + tail;
    AtMiddle(start + [0xe1], BE16(|sps|) + sps, tail);
    var first := start + [0xe1] + (BE16(|sps|) + sps);
    assert d == first + [1] + (BE16(|pps|) + pps) + [];
    AtMiddle(first + [1], BE16(|pps|) + pps, []);
    assert d[|first|] == 1;
  }

  lemma TwoBytes(v: int)
    ensures |BE16(v)| == 2
  {}
}
