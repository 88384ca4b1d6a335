/** Pieces of sequences: what stands where in a text or in a buffer. */
module Pieces {

  datatype Option<+T> = None | Some(value: T)

  /** `piece` stands in `s` at `pos`. */
  ghost predicate At<T>(s: seq<T>, pos: nat, piece: seq<T>) {
    pos + |piece| <= |s| && s[pos..pos + |piece|] == piece
  }

  lemma AtConcat<T>(s: seq<T>, pos: nat, a: seq<T>, b: seq<T>)
    ensures At(s, pos, a + b) <==> At(s, pos, a) && At(s, pos + |a|, b)
  {
    if At(s, pos, a + b) {
      assert s[pos..pos + |a|] == s[pos..pos + |a + b|][..|a|];
      assert s[pos + |a|..pos + |a| + |b|] == s[pos..pos + |a + b|][|a|..];
    }
    if At(s, pos, a) && At(s, pos + |a|, b) {
      assert s[pos..pos + |a + b|] == s[pos..pos + |a|] + s[pos + |a|..pos + |a| + |b|];
    }
  }

  lemma AtIndex<T>(s: seq<T>, pos: nat, piece: seq<T>, k: nat)
    requires At(s, pos, piece) && k < |piece|
    ensures pos + k < |s| && s[pos + k] == piece[k]
  {
    assert s[pos..pos + |piece|][k] == s[pos + k];
  }

  lemma AtFits<T>(s: seq<T>, pos: nat, piece: seq<T>)
    requires At(s, pos, piece)
    ensures pos + |piece| <= |s|
  {}

  lemma AtFirst<T>(s: seq<T>, pos: nat, piece: seq<T>)
    requires At(s, pos, piece) && piece != []
    ensures pos < |s| && s[pos] == piece[0] && At(s, pos + 1, piece[1..])
  {
    assert piece == [piece[0]] + piece[1..];
    AtConcat(s, pos, [piece[0]], piece[1..]);
    assert s[pos..pos + 1][0] == piece[0];
  }

  lemma AtMiddle<T>(a: seq<T>, b: seq<T>, c: seq<T>)
    ensures At(a + b + c, |a|, b)
  {}

  lemma AtWhole<T>(s: seq<T>)
    ensures At(s, 0, s)
  {}

  lemma Assoc<T>(a: seq<T>, b: seq<T>, c: seq<T>)
    ensures a + (b + c) == a + b + c
  {}
}
