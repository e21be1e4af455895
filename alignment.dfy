/** The alignment of the current word against a candidate, as a list of opcodes, and the
    classifier that decides from those opcodes whether the candidate is a single edit.

    The opcodes are computed by a sequence matcher outside this model; this module fixes only
    what every such alignment looks like (WellFormed) and what the game does with it (Classify). */
module Alignment {
  import opened Words

  datatype Tag = Equal | Replace | Delete | Insert

  /** One opcode: a[i1..i2] of the old word stands against b[j1..j2] of the new one. */
  datatype Opcode = Opcode(tag: Tag, i1: int, i2: int, j1: int, j2: int)

  /** ops tiles a[i..] and b[j..] from left to right without gaps: each opcode starts where the
      previous one ended, an Equal opcode covers identical slices, and any other opcode covers
      at least one character on one of the two sides. */
  predicate TilesFrom(ops: seq<Opcode>, a: Word, b: Word, i: int, j: int)
    decreases |ops|
  {
    if ops == [] then i == |a| && j == |b|
    else
      var op := ops[0];
      && op.i1 == i && op.j1 == j
      && 0 <= i <= op.i2 <= |a| && 0 <= j <= op.j2 <= |b|
      && (if op.tag == Equal then a[i..op.i2] == b[j..op.j2] else i < op.i2 || j < op.j2)
      && TilesFrom(ops[1..], a, b, op.i2, op.j2)
  }

  /** What a sequence matcher's opcode list for (a, b) always satisfies. */
  predicate WellFormed(ops: seq<Opcode>, a: Word, b: Word)
  {
    TilesFrom(ops, a, b, 0, 0)
  }

  predicate Changed(op: Opcode)
  {
    op.tag != Equal
  }

  /** A changed opcode that removes or adds more than one character. */
  predicate Wide(op: Opcode)
  {
    Changed(op) && (op.j2 - op.j1 > 1 || op.i2 - op.i1 > 1)
  }

  /** The number of opcodes whose tag is not Equal. */
  function ChangedCount(ops: seq<Opcode>): nat
  {
    if ops == [] then 0 else (if Changed(ops[0]) then 1 else 0) + ChangedCount(ops[1..])
  }

  /** Whether some opcode is wide. */
  function AnyWide(ops: seq<Opcode>): bool
  {
    ops != [] && (Wide(ops[0]) || AnyWide(ops[1..]))
  }

  /** The game's verdict on an alignment: at most one changed group, and no changed group
      longer than one character on either side. */
  function Classify(ops: seq<Opcode>): (r: bool)
    ensures r <==> && (forall k, l :: 0 <= k < l < |ops| ==> !Changed(ops[k]) || !Changed(ops[l]))
                   && (forall k :: 0 <= k < |ops| ==> !Wide(ops[k]))
  {
    CountAtMostOne(ops);
    NoneWide(ops);
    !(ChangedCount(ops) > 1) && !AnyWide(ops)
  }

  lemma {:induction false} CountZero(ops: seq<Opcode>)
    ensures ChangedCount(ops) == 0 <==> forall k :: 0 <= k < |ops| ==> !Changed(ops[k])
  {
    if ops != [] {
      CountZero(ops[1..]);
      assert forall k :: 1 <= k < |ops| ==> ops[k] == ops[1..][k - 1];
    }
  }

  lemma {:induction false} CountAtMostOne(ops: seq<Opcode>)
    ensures ChangedCount(ops) <= 1 <==>
            forall k, l :: 0 <= k < l < |ops| ==> !Changed(ops[k]) || !Changed(ops[l])
  {
    if ops != [] {
      CountAtMostOne(ops[1..]);
      CountZero(ops[1..]);
      assert forall k :: 1 <= k < |ops| ==> ops[k] == ops[1..][k - 1];
    }
  }

  lemma {:induction false} NoneWide(ops: seq<Opcode>)
    ensures !AnyWide(ops) <==> forall k :: 0 <= k < |ops| ==> !Wide(ops[k])
  {
    if ops != [] {
      NoneWide(ops[1..]);
      assert forall k :: 1 <= k < |ops| ==> ops[k] == ops[1..][k - 1];
    }
  }

  /** The induction behind soundness, for the tails a[i..] and b[j..]. */
  lemma {:induction false} TilesFromSound(ops: seq<Opcode>, a: Word, b: Word, i: int, j: int)
    requires TilesFrom(ops, a, b, i, j)
    requires ChangedCount(ops) <= 1 && !AnyWide(ops)
    ensures 0 <= i <= |a| && 0 <= j <= |b|
    ensures ChangedCount(ops) == 0 ==> a[i..] == b[j..]
    ensures AtMostOneEdit(a[i..], b[j..])
  {
    if ops == [] {
      EditsAreSingle(a[i..], 0, 'a');
    } else {
      var op := ops[0];
      TilesFromSound(ops[1..], a, b, op.i2, op.j2);
      SoundHead(a, b, i, j, op.i2, op.j2, op.tag == Equal, ChangedCount(ops[1..]) == 0);
    }
  }

  /** One step of the soundness induction: an Equal head, or a head of at most one character on
      each side followed by identical tails. */
  lemma SoundHead(a: Word, b: Word, i: int, j: int, k: int, l: int, equal: bool, restEqual: bool)
    requires 0 <= i <= k <= |a| && 0 <= j <= l <= |b|
    requires equal ==> a[i..k] == b[j..l]
    requires !equal ==> k - i <= 1 && l - j <= 1 && restEqual
    requires restEqual ==> a[k..] == b[l..]
    requires AtMostOneEdit(a[k..], b[l..])
    ensures equal && restEqual ==> a[i..] == b[j..]
    ensures AtMostOneEdit(a[i..], b[j..])
  {
    assert a[i..] == a[i..k] + a[k..];
    assert b[j..] == b[j..l] + b[l..];
    if equal {
      PrependCommon(a[i..k], a[k..], b[l..]);
    } else {
      ShortHeads(a[i..k], b[j..l], a[k..]);
    }
  }

  /** Soundness of the classifier: an alignment it accepts shows the two words at most one edit apart. */
  lemma ClassifySound(ops: seq<Opcode>, a: Word, b: Word)
    requires WellFormed(ops, a, b) && Classify(ops)
    ensures AtMostOneEdit(a, b)
    ensures ChangedCount(ops) == 0 ==> a == b
  {
    TilesFromSound(ops, a, b, 0, 0);
    assert a[0..] == a && b[0..] == b;
  }

  /** The tag a changed opcode of the given side lengths would carry. */
  function ChangeTag(dropLen: nat, addLen: nat): Tag
  {
    if dropLen == 0 then Insert else if addLen == 0 then Delete else Replace
  }

  /** Putting one opcode in front of a tiling. */
  lemma TilesCons(op: Opcode, rest: seq<Opcode>, a: Word, b: Word, i: int, j: int)
    requires op.i1 == i && op.j1 == j && 0 <= i <= op.i2 <= |a| && 0 <= j <= op.j2 <= |b|
    requires if op.tag == Equal then a[i..op.i2] == b[j..op.j2] else i < op.i2 || j < op.j2
    requires TilesFrom(rest, a, b, op.i2, op.j2)
    ensures TilesFrom([op] + rest, a, b, i, j)
    ensures ChangedCount([op] + rest) == (if Changed(op) then 1 else 0) + ChangedCount(rest)
    ensures AnyWide([op] + rest) == (Wide(op) || AnyWide(rest))
  {
    assert ([op] + rest)[1..] == rest;
  }

  /** The common suffix of length s as at most one Equal opcode. */
  lemma SuffixAlignment(a: Word, b: Word, s: nat) returns (ops: seq<Opcode>)
    requires s <= |a| && s <= |b| && a[|a| - s..] == b[|b| - s..]
    ensures TilesFrom(ops, a, b, |a| - s, |b| - s)
    ensures ChangedCount(ops) == 0 && !AnyWide(ops)
  {
    if s > 0 {
      var op := Opcode(Equal, |a| - s, |a|, |b| - s, |b|);
      assert a[|a| - s..|a|] == a[|a| - s..] && b[|b| - s..|b|] == b[|b| - s..];
      TilesCons(op, [], a, b, |a| - s, |b| - s);
      ops := [op] + [];
    } else {
      ops := [];
    }
  }

  /** The changed group between the common prefix of length p and the common suffix of length s,
      in front of an alignment of the suffix. */
  lemma MiddleAlignment(a: Word, b: Word, p: nat, s: nat, post: seq<Opcode>) returns (ops: seq<Opcode>)
    requires SplitAt(a, b, p, s)
    requires TilesFrom(post, a, b, |a| - s, |b| - s) && ChangedCount(post) == 0 && !AnyWide(post)
    ensures TilesFrom(ops, a, b, p, p)
    ensures ChangedCount(ops) <= 1 && !AnyWide(ops)
  {
    var ma, mb := |a| - p - s, |b| - p - s;
    if ma == 0 && mb == 0 {
      ops := post;
    } else {
      var op := Opcode(ChangeTag(ma, mb), p, p + ma, p, p + mb);
      TilesCons(op, post, a, b, p, p);
      ops := [op] + post;
    }
  }

  /** The common prefix of length p as at most one Equal opcode, in front of the rest. */
  lemma PrefixAlignment(a: Word, b: Word, p: nat, rest: seq<Opcode>) returns (ops: seq<Opcode>)
    requires p <= |a| && p <= |b| && a[..p] == b[..p]
    requires TilesFrom(rest, a, b, p, p)
    ensures TilesFrom(ops, a, b, 0, 0)
    ensures ChangedCount(ops) == ChangedCount(rest) && AnyWide(ops) == AnyWide(rest)
  {
    if p > 0 {
      var op := Opcode(Equal, 0, p, 0, p);
      assert a[0..p] == a[..p] && b[0..p] == b[..p];
      TilesCons(op, rest, a, b, 0, 0);
      ops := [op] + rest;
    } else {
      ops := rest;
    }
  }

  /** Completeness of the classifier: for words at most one edit apart some well-formed alignment
      is accepted, namely the common prefix, the changed group and the common suffix. */
  lemma ClassifyComplete(a: Word, b: Word)
    requires AtMostOneEdit(a, b)
    ensures exists ops :: WellFormed(ops, a, b) && Classify(ops)
  {
    var p: nat, s: nat :| SplitAt(a, b, p, s);
    var post := SuffixAlignment(a, b, s);
    var rest := MiddleAlignment(a, b, p, s, post);
    var ops := PrefixAlignment(a, b, p, rest);
    assert WellFormed(ops, a, b) && Classify(ops);
  }

  /** The alignment that takes "eel" to "ell" by deleting the first "e", keeping "el" and
      inserting "l". */
  const EelToEll: seq<Opcode> := [Opcode(Delete, 0, 1, 0, 0), Opcode(Equal, 1, 3, 0, 2), Opcode(Insert, 3, 3, 2, 3)]

  /** The verdict depends on the alignment, not only on the two words: "eel" becomes "ell" by one
      substitution, yet the well-formed alignment EelToEll is rejected. */
  lemma VerdictDependsOnAlignment()
    ensures AtMostOneEdit("eel", "ell")
    ensures WellFormed(EelToEll, "eel", "ell")
    ensures !Classify(EelToEll)
  {
    var a, b := "eel", "ell";
    assert a[..1] == b[..1];
    assert a[|a| - 1..] == b[|b| - 1..];
    assert SplitAt(a, b, 1, 1);
    var ops := EelToEll;
    assert TilesFrom([], a, b, 3, 3);
    assert ops[2..] == [ops[2]] + [];
    TilesCons(ops[2], [], a, b, 3, 2);
    assert a[1..3] == b[0..2];
    TilesCons(ops[1], ops[2..], a, b, 1, 0);
    assert ops[1..] == [ops[1]] + ops[2..];
    TilesCons(ops[0], ops[1..], a, b, 0, 0);
    assert ops == [ops[0]] + ops[1..];
    assert Changed(ops[0]) && Changed(ops[2]);
  }
}
