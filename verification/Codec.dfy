/** The classification of audio and video payloads by their first bytes. */
module Codec {
  import opened Bytes

  const KEYFRAME := 1
  const SEQUENCE_HEADER := 0
  const AVC := 7
  const AAC := 10

  predicate VideoIsKeyframe(data: seq<byte>) {
    |data| >= 1 && data[0] / 16 % 16 == KEYFRAME
  }

  predicate VideoIsH264(data: seq<byte>) {
    |data| >= 1 && data[0] % 16 == AVC
  }

  predicate AudioIsAac(data: seq<byte>) {
    |data| >= 1 && data[0] / 16 % 16 == AAC
  }

  predicate VideoIsSequenceHeader(data: seq<byte>) {
    VideoIsH264(data) && |data| >= 2 && data[0] / 16 % 16 == KEYFRAME && data[1] == SEQUENCE_HEADER
  }

  predicate AudioIsSequenceHeader(data: seq<byte>) {
    AudioIsAac(data) && |data| >= 2 && data[1] == SEQUENCE_HEADER
  }
}
