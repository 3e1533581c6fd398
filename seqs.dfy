/** Concatenation of a sequence of sequences, and the facts about it that the
    chunker and the index writer rely on. */
module Seqs {

  /** The concatenation, in order, of all elements of `ss`. */
  function Flatten<T>(ss: seq<seq<T>>): seq<T>
  {
    if ss == [] then [] else Flatten(ss[..|ss| - 1]) + ss[|ss| - 1]
  }

  lemma FlattenSnoc<T>(ss: seq<seq<T>>, x: seq<T>)
    ensures Flatten(ss + [x]) == Flatten(ss) + x
  {
    assert (ss + [x])[..|ss|] == ss;
  }

  lemma {:induction false} FlattenAppend<T>(a: seq<seq<T>>, b: seq<seq<T>>)
    ensures Flatten(a + b) == Flatten(a) + Flatten(b)
    decreases |b|
  {
    if b == [] {
      assert a + b == a;
    } else {
      var b' := b[..|b| - 1];
      assert a + b == (a + b') + [b[|b| - 1]];
      FlattenSnoc(a + b', b[|b| - 1]);
      FlattenAppend(a, b');
      FlattenSnoc(b', b[|b| - 1]);
      assert b' + [b[|b| - 1]] == b;
    }
  }

  lemma FlattenCons<T>(x: seq<T>, ss: seq<seq<T>>)
    ensures Flatten([x] + ss) == x + Flatten(ss)
  {
    FlattenAppend([x], ss);
    FlattenSnoc([], x);
  }

  /** Each element of `gs` concatenated on its own. */
  function Joined<T>(gs: seq<seq<seq<T>>>): (r: seq<seq<T>>)
    ensures |r| == |gs|
    ensures forall k :: 0 <= k < |gs| ==> r[k] == Flatten(gs[k])
  {
    seq(|gs|, k requires 0 <= k < |gs| => Flatten(gs[k]))
  }

  /** Concatenating the concatenations of the groups is concatenating the groups
      and then their elements. */
  lemma {:induction false} FlattenJoined<T>(gs: seq<seq<seq<T>>>)
    ensures Flatten(Joined(gs)) == Flatten(Flatten(gs))
    decreases |gs|
  {
    if gs != [] {
      var gs' := gs[..|gs| - 1];
      var last := gs[|gs| - 1];
      assert Joined(gs) == Joined(gs') + [Flatten(last)];
      FlattenSnoc(Joined(gs'), Flatten(last));
      FlattenJoined(gs');
      FlattenAppend(Flatten(gs'), last);
    }
  }

  /** The first and last elements of a concatenation whose first and last parts
      are non-empty. */
  lemma FlattenEnds<T>(ss: seq<seq<T>>)
    requires ss != [] && ss[0] != [] && ss[|ss| - 1] != []
    ensures Flatten(ss) != []
    ensures Flatten(ss)[0] == ss[0][0]
    ensures Flatten(ss)[|Flatten(ss)| - 1] == ss[|ss| - 1][|ss[|ss| - 1]| - 1]
  {
    FlattenCons(ss[0], ss[1..]);
    assert [ss[0]] + ss[1..] == ss;
  }

  /** Every element of every part is an element of the concatenation. */
  lemma {:induction false} FlattenContains<T>(ss: seq<seq<T>>, k: nat, j: nat)
    requires k < |ss| && j < |ss[k]|
    ensures ss[k][j] in Flatten(ss)
    decreases |ss|
  {
    var ss' := ss[..|ss| - 1];
    if k < |ss| - 1 {
      FlattenContains(ss', k, j);
    } else {
      assert Flatten(ss)[|Flatten(ss')| + j] == ss[k][j];
    }
  }

  /** Appending to the last part appends to the concatenation. */
  lemma FlattenExtendLast<T>(init: seq<seq<T>>, last: seq<T>, x: seq<T>)
    ensures Flatten(init + [last + x]) == Flatten(init + [last]) + x
  {
    FlattenSnoc(init, last + x);
    FlattenSnoc(init, last);
  }

  /** A concatenation with a non-empty part is non-empty. */
  lemma {:induction false} FlattenNonEmpty<T>(ss: seq<seq<T>>, k: nat)
    requires k < |ss| && ss[k] != []
    ensures Flatten(ss) != []
    decreases |ss|
  {
    if k < |ss| - 1 {
      FlattenNonEmpty(ss[..|ss| - 1], k);
    }
  }

  lemma FlattenSingle<T>(x: seq<T>)
    ensures Flatten([x]) == x
  {
    FlattenSnoc([], x);
    assert [] + [x] == [x];
  }

  lemma JoinedSnoc<T>(gs: seq<seq<seq<T>>>, y: seq<seq<T>>)
    ensures Joined(gs + [y]) == Joined(gs) + [Flatten(y)]
  {
  }
}
