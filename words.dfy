/** Words of the one-letter game and the three single-character edits between them. */
module Words {

  /** A word is compared by value; the game stores words in sets. */
  type Word = string

  /** The letters the move generator tries, in the order it tries them. */
  const Lowercase: string := "abcdefghijklmnopqrstuvwxyz"

  /** w with the character at index i removed. */
  function Removed(w: Word, i: nat): (r: Word)
    requires i < |w|
    ensures |r| == |w| - 1
    ensures forall k :: 0 <= k < i ==> r[k] == w[k]
    ensures forall k :: i <= k < |r| ==> r[k] == w[k + 1]
  {
    w[..i] + w[i + 1..]
  }

  /** w with the character at index i replaced by c. */
  function Replaced(w: Word, i: nat, c: char): (r: Word)
    requires i < |w|
    ensures |r| == |w| && r[i] == c
    ensures forall k :: 0 <= k < |w| && k != i ==> r[k] == w[k]
  {
    w[..i] + [c] + w[i + 1..]
  }

  /** w with c inserted before index i (at the end when i == |w|). */
  function InsertedBefore(w: Word, i: nat, c: char): (r: Word)
    requires i <= |w|
    ensures |r| == |w| + 1 && r[i] == c
    ensures forall k :: 0 <= k < i ==> r[k] == w[k]
    ensures forall k :: i < k < |r| ==> r[k] == w[k - 1]
  {
    w[..i] + [c] + w[i..]
  }

  /** a and b share a prefix of length p and a suffix of length s, and what lies
      between them is at most one character in a and at most one in b. */
  ghost predicate SplitAt(a: Word, b: Word, p: nat, s: nat)
  {
    && p + s <= |a| && p + s <= |b|
    && |a| <= p + s + 1 && |b| <= p + s + 1
    && a[..p] == b[..p]
    && a[|a| - s..] == b[|b| - s..]
  }

  /** The reference meaning of "b is a legal successor shape of a": equal, or one
      character inserted, deleted or substituted at a single place. */
  ghost predicate AtMostOneEdit(a: Word, b: Word)
  {
    exists p: nat, s: nat :: SplitAt(a, b, p, s)
  }

  /** Each of the three edits, and no edit at all, is at most one edit. */
  lemma EditsAreSingle(w: Word, i: nat, c: char)
    ensures AtMostOneEdit(w, w)
    ensures i < |w| ==> AtMostOneEdit(w, Removed(w, i)) && AtMostOneEdit(w, Replaced(w, i, c))
    ensures i <= |w| ==> AtMostOneEdit(w, InsertedBefore(w, i, c))
  {
    assert SplitAt(w, w, |w|, 0);
    if i < |w| {
      var d, r := Removed(w, i), Replaced(w, i, c);
      assert d[..i] == w[..i] && d[|d| - (|w| - i - 1)..] == w[i + 1..];
      assert SplitAt(w, d, i, |w| - i - 1);
      assert r[..i] == w[..i] && r[|r| - (|w| - i - 1)..] == w[i + 1..];
      assert SplitAt(w, r, i, |w| - i - 1);
    }
    if i <= |w| {
      var n := InsertedBefore(w, i, c);
      assert n[..i] == w[..i] && n[|n| - (|w| - i)..] == w[i..];
      assert SplitAt(w, n, i, |w| - i);
    }
  }

  /** Conversely, at most one edit is no edit, a deletion, a substitution or an insertion. */
  lemma {:induction false} SingleEditForms(a: Word, b: Word)
    requires AtMostOneEdit(a, b)
    ensures || b == a
            || (exists i: nat :: i < |a| && b == Removed(a, i))
            || (exists i: nat, c: char :: i < |a| && b == Replaced(a, i, c))
            || (exists i: nat, c: char :: i <= |a| && b == InsertedBefore(a, i, c))
  {
    var p: nat, s: nat :| SplitAt(a, b, p, s);
    ThreeParts(a, p, s);
    ThreeParts(b, p, s);
    if |a| == p + s && |b| == p + s {
      assert b == a;
    } else if |a| == p + s + 1 && |b| == p + s {
      assert b == Removed(a, p);
    } else if |a| == p + s + 1 && |b| == p + s + 1 {
      assert b == Replaced(a, p, b[p]);
    } else {
      assert b == InsertedBefore(a, p, b[p]);
    }
  }

  /** A word is its prefix of length p, its middle and its suffix of length s. */
  lemma ThreeParts(w: Word, p: nat, s: nat)
    requires p + s <= |w|
    ensures w == w[..p] + w[p..|w| - s] + w[|w| - s..]
  {
  }

  /** Being at most one edit apart is symmetric: a deletion read backwards is an insertion. */
  lemma AtMostOneEditSymmetric(a: Word, b: Word)
    requires AtMostOneEdit(a, b)
    ensures AtMostOneEdit(b, a)
  {
    var p: nat, s: nat :| SplitAt(a, b, p, s);
    assert SplitAt(b, a, p, s);
  }

  /** Words at most one edit apart differ in length by at most one. */
  lemma AtMostOneEditLengths(a: Word, b: Word)
    requires AtMostOneEdit(a, b)
    ensures |a| - 1 <= |b| <= |a| + 1
  {
    var p: nat, s: nat :| SplitAt(a, b, p, s);
  }

  /** A common prefix does not change the number of edits. */
  lemma PrependCommon(u: Word, x: Word, y: Word)
    requires AtMostOneEdit(x, y)
    ensures AtMostOneEdit(u + x, u + y)
  {
    var p: nat, s: nat :| SplitAt(x, y, p, s);
    var ux, uy := u + x, u + y;
    assert ux[..|u| + p] == u + x[..p];
    assert uy[..|u| + p] == u + y[..p];
    assert ux[|ux| - s..] == x[|x| - s..];
    assert uy[|uy| - s..] == y[|y| - s..];
    assert SplitAt(ux, uy, |u| + p, s);
  }

  /** Two words made of at most one character each in front of a common tail are at most one edit apart. */
  lemma ShortHeads(x: Word, y: Word, t: Word)
    requires |x| <= 1 && |y| <= 1
    ensures AtMostOneEdit(x + t, y + t)
  {
    var xt, yt := x + t, y + t;
    assert xt[|xt| - |t|..] == t;
    assert yt[|yt| - |t|..] == t;
    assert SplitAt(xt, yt, 0, |t|);
  }
}
