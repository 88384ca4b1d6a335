/** The cursor over a shared byte buffer that every codec reads and writes through. */
module Stream {
  import opened Bytes
  import opened Pieces

  lemma Slice2(s: seq<byte>, i: nat)
    requires i + 2 <= |s|
    ensures s[i..i + 2] == [s[i], s[i + 1]]
  {}

  lemma Slice3(s: seq<byte>, i: nat)
    requires i + 3 <= |s|
    ensures s[i..i + 3] == [s[i], s[i + 1], s[i + 2]]
  {}

  lemma Slice4(s: seq<byte>, i: nat)
    requires i + 4 <= |s|
    ensures s[i..i + 4] == [s[i], s[i + 1], s[i + 2], s[i + 3]]
  {}

  class ByteStream {
    var bytes: array<byte>
    var from: nat
    var size: nat
    var p: int

    ghost predicate Valid()
      reads this
    {
      from + size <= bytes.Length
    }

    /** The part of the buffer that the stream covers. */
    ghost function Data(): seq<byte>
      reads this, bytes
      requires Valid()
    {
      bytes[from..from + size]
    }

    constructor ()
      ensures Valid() && size == 0 && p == 0 && fresh(bytes)
    {
      bytes, from, size, p := new byte[0], 0, 0, 0;
    }

    /** Covers n bytes of a buffer; an empty range is an error that changes nothing. */
    method Initialize(b: array<byte>, start: nat, n: nat) returns (ok: bool)
      requires start + n <= b.Length
      modifies this
      ensures ok <==> n > 0
      ensures ok ==> Valid() && bytes == b && from == start && size == n && p == 0
      ensures !ok ==> unchanged(this)
    {
      if n <= 0 {
        return false;
      }
      bytes, from, size, p := b, start, n, 0;
      return true;
    }

    predicate Empty()
      reads this
    {
      p >= size
    }

    predicate Require(n: int)
      reads this
    {
      !Empty() && n <= size - p
    }

    function Left(): int
      reads this
    {
      size - p
    }

    /** Moves the cursor, forwards or backwards. */
    method Skip(n: int)
      modifies this`p
      ensures p == old(p) + n
    {
      p := p + n;
    }

    /** The byte k places behind the cursor. In front of the buffer nothing is known of it. */
    method At(k: nat) returns (b: byte)
      requires Valid() && p + k < size
      ensures p + k >= 0 ==> b == Data()[p + k]
    {
      if p + k >= 0 {
        b := bytes[from + (p + k)];
      } else {
        b := *;
      }
    }

    method Read1() returns (v: int)
      requires Valid() && Require(1)
      modifies this`p
      ensures p == old(p) + 1 && -128 <= v < 128
      ensures old(p) >= 0 ==> v == Signed8(Data()[old(p)])
    {
      var b := At(0);
      p := p + 1;
      v := Signed8(b);
    }

    method Read2() returns (v: nat)
      requires Valid() && Require(2)
      modifies this`p
      ensures p == old(p) + 2
      ensures old(p) >= 0 ==> v == U16(Data()[old(p)..old(p) + 2])
    {
      var b0 := At(0);
      var b1 := At(1);
      p := p + 2;
      v := U16([b0, b1]);
      if old(p) >= 0 {
        Slice2(Data(), old(p));
      }
    }

    method Read3() returns (v: nat)
      requires Valid() && Require(3)
      modifies this`p
      ensures p == old(p) + 3 && v < 0x1000000
      ensures old(p) >= 0 ==> v == U24(Data()[old(p)..old(p) + 3])
    {
      var b0 := At(0);
      var b1 := At(1);
      var b2 := At(2);
      p := p + 3;
      v := U24([b0, b1, b2]);
      if old(p) >= 0 {
        Slice3(Data(), old(p));
      }
    }

    method Read4() returns (v: int)
      requires Valid() && Require(4)
      modifies this`p
      ensures p == old(p) + 4 && -0x80000000 <= v < 0x80000000
      ensures old(p) >= 0 ==> v == Signed32(U32(Data()[old(p)..old(p) + 4]))
    {
      var b0 := At(0);
      var b1 := At(1);
      var b2 := At(2);
      var b3 := At(3);
      p := p + 4;
      v := Signed32(U32([b0, b1, b2, b3]));
      if old(p) >= 0 {
        Slice4(Data(), old(p));
      }
    }

    method ReadBytes(n: nat) returns (data: seq<byte>)
      requires Valid() && p >= 0 && Require(n)
      modifies this`p
      ensures p == old(p) + n && data == Data()[old(p)..old(p) + n]
    {
      data := bytes[from + p..from + p + n];
      p := p + n;
      assert data == Data()[old(p)..old(p) + n];
    }

    method Write1(v: int)
      requires Valid() && p >= 0 && Require(1)
      modifies this`p, bytes
      ensures p == old(p) + 1
      ensures bytes[from + old(p)] == Low8(v)
      ensures forall i :: 0 <= i < from + old(p) || from + p <= i < bytes.Length ==> bytes[i] == old(bytes[i])
    {
      bytes[from + p] := Low8(v);
      p := p + 1;
    }

    method Write3(v: int)
      requires Valid() && p >= 0 && Require(3)
      modifies this`p, bytes
      ensures p == old(p) + 3
      ensures bytes[from + old(p)] == Low8(v / 0x10000) && bytes[from + old(p) + 1] == Low8(v / 0x100)
           && bytes[from + old(p) + 2] == Low8(v)
      ensures forall i :: 0 <= i < from + old(p) || from + p <= i < bytes.Length ==> bytes[i] == old(bytes[i])
    {
      var i := from + p;
      bytes[i], bytes[i + 1], bytes[i + 2] := Low8(v / 0x10000), Low8(v / 0x100), Low8(v);
      p := p + 3;
    }

    method Write4(v: int)
      requires Valid() && p >= 0 && Require(4)
      modifies this`p, bytes
      ensures p == old(p) + 4
      ensures bytes[from + old(p)] == Low8(v / 0x1000000) && bytes[from + old(p) + 1] == Low8(v / 0x10000)
           && bytes[from + old(p) + 2] == Low8(v / 0x100) && bytes[from + old(p) + 3] == Low8(v)
      ensures forall i :: 0 <= i < from + old(p) || from + p <= i < bytes.Length ==> bytes[i] == old(bytes[i])
    {
      var i := from + p;
      bytes[i], bytes[i + 1] := Low8(v / 0x1000000), Low8(v / 0x10000);
      bytes[i + 2], bytes[i + 3] := Low8(v / 0x100), Low8(v);
      p := p + 4;
    }
  }
}
