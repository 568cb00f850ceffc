/**
 Checklist markers in a task document, stated position by position.

 A checkbox token is the three characters `[ ]` (open) or `[x]` (ticked). A
 token at position `p` belongs to a list item when the characters right before
 it are one or more whitespace characters that follow a bullet `-` or `*`.
 `Tick` is the declarative statement of the checklist update: every open token
 of a list item gets an `x`, and nothing else changes.
 */
module Markers {

  /** Python's `\s` on str patterns: exactly the characters for which `str.isspace()` holds. */
  predicate IsSpace(c: char) {
    var n := c as int;
    (0x09 <= n <= 0x0D) || (0x1C <= n <= 0x20) || n == 0x85 || n == 0xA0 || n == 0x1680
    || (0x2000 <= n <= 0x200A) || n == 0x2028 || n == 0x2029 || n == 0x202F
    || n == 0x205F || n == 0x3000
  }

  /** The list bullets of the character class `[-*]`. */
  predicate IsBullet(c: char) {
    c == '-' || c == '*'
  }

  /** `s[i..j]` consists of whitespace only. */
  predicate SpaceRun(s: string, i: int, j: int) {
    0 <= i <= j <= |s| && forall m :: i <= m < j ==> IsSpace(s[m])
  }

  /** An open checkbox token `[ ]` starts at `p`. */
  predicate OpenAt(s: string, p: int) {
    0 <= p && p + 3 <= |s| && s[p] == '[' && s[p + 1] == ' ' && s[p + 2] == ']'
  }

  /** A ticked checkbox token `[x]` starts at `p`. */
  predicate TickedAt(s: string, p: int) {
    0 <= p && p + 3 <= |s| && s[p] == '[' && s[p + 1] == 'x' && s[p + 2] == ']'
  }

  /** `s[b]` is a bullet and `s[b+1..p]` is a non-empty run of whitespace. */
  predicate BulletGap(s: string, b: int, p: int) {
    0 <= b && b + 1 < p <= |s| && IsBullet(s[b]) && SpaceRun(s, b + 1, p)
  }

  /** The text right before `p` is one or more whitespace characters preceded by a bullet. */
  predicate BulletBefore(s: string, p: int) {
    exists b | 0 <= b < p :: BulletGap(s, b, p)
  }

  /** An unchecked list item: `- [ ]`, `*\t[ ]`, `-\n[ ]`, ... with the token at `p`. */
  predicate OpenItem(s: string, p: int) {
    OpenAt(s, p) && BulletBefore(s, p)
  }

  /** A checked list item with the token at `p`. */
  predicate TickedItem(s: string, p: int) {
    TickedAt(s, p) && BulletBefore(s, p)
  }

  /** The update as a local rule: the space inside each open list-item token becomes `x`. */
  function Tick(s: string): string {
    seq(|s|, i requires 0 <= i < |s| => if OpenItem(s, i - 1) then 'x' else s[i])
  }

  /** The kinds of position that are counted. */
  datatype Kind = Box | Unchecked | Checked

  predicate Holds(k: Kind, s: string, p: int) {
    match k
    case Box => OpenAt(s, p)
    case Unchecked => OpenItem(s, p)
    case Checked => TickedItem(s, p)
  }

  /** The number of positions `p` in `lo..|s|` where `k` holds. */
  function Count(k: Kind, s: string, lo: nat): nat
    decreases |s| - lo
  {
    if lo >= |s| then 0
    else (if Holds(k, s, lo) then 1 else 0) + Count(k, s, lo + 1)
  }

  /** Counting a disjoint union of two kinds of position adds their counts. */
  lemma {:induction false} CountSum(k1: Kind, s1: string, k2: Kind, s2: string,
                                    k3: Kind, s3: string, lo: nat)
    requires |s1| == |s2| == |s3|
    requires forall p :: lo <= p < |s1| ==> (Holds(k1, s1, p) <==> Holds(k2, s2, p) || Holds(k3, s3, p))
    requires forall p :: lo <= p < |s1| ==> !(Holds(k2, s2, p) && Holds(k3, s3, p))
    ensures Count(k1, s1, lo) == Count(k2, s2, lo) + Count(k3, s3, lo)
    decreases |s1| - lo
  {
    if lo < |s1| {
      CountSum(k1, s1, k2, s2, k3, s3, lo + 1);
    }
  }

  /** A count is zero exactly when no position in range has the kind. */
  lemma {:induction false} CountZero(k: Kind, s: string, lo: nat)
    ensures Count(k, s, lo) == 0 <==> forall p :: lo <= p < |s| ==> !Holds(k, s, p)
    decreases |s| - lo
  {
    if lo < |s| {
      CountZero(k, s, lo + 1);
    }
  }

  /** `Tick` changes a character only into `x`, and only where it was the space of an open item. */
  lemma TickChanges(s: string, i: int)
    requires 0 <= i < |s|
    ensures |Tick(s)| == |s|
    ensures Tick(s)[i] != s[i] <==> OpenItem(s, i - 1)
    ensures Tick(s)[i] != s[i] ==> Tick(s)[i] == 'x' && s[i] == ' '
  {
  }

  /** A bullet gap is read the same in `s` and in `Tick(s)`: ticking never touches a bullet or a gap. */
  lemma TickKeepsGap(s: string, b: int, p: int)
    ensures BulletGap(s, b, p) <==> BulletGap(Tick(s), b, p)
  {
    var t := Tick(s);
    if BulletGap(s, b, p) {
      forall i | b <= i < p
        ensures t[i] == s[i]
      {
        TickChanges(s, i);
      }
    }
    if BulletGap(t, b, p) {
      forall i | b <= i < p
        ensures t[i] == s[i]
      {
        TickChanges(s, i);
      }
    }
  }

  lemma TickKeepsBulletBefore(s: string, p: int)
    ensures BulletBefore(s, p) <==> BulletBefore(Tick(s), p)
  {
    if BulletBefore(s, p) {
      var b :| 0 <= b < p && BulletGap(s, b, p);
      TickKeepsGap(s, b, p);
    }
    if BulletBefore(Tick(s), p) {
      var b :| 0 <= b < p && BulletGap(Tick(s), b, p);
      TickKeepsGap(s, b, p);
    }
  }

  /**
   How each token of the ticked text relates to the original: open tokens are
   the open ones that were not list items, ticked tokens are the ticked ones
   plus the open list items, and no open list item is left.
   */
  lemma {:induction false} TickTokens(s: string, p: int)
    ensures OpenAt(Tick(s), p) <==> OpenAt(s, p) && !OpenItem(s, p)
    ensures TickedAt(Tick(s), p) <==> TickedAt(s, p) || OpenItem(s, p)
    ensures TickedItem(Tick(s), p) <==> TickedItem(s, p) || OpenItem(s, p)
    ensures !OpenItem(Tick(s), p)
  {
    var t := Tick(s);
    TickKeepsBulletBefore(s, p);
    if 0 <= p && p + 3 <= |s| {
      TickChanges(s, p);
      TickChanges(s, p + 1);
      TickChanges(s, p + 2);
    }
  }

  // ---------------------------------------------------------------------------
  // Locality: the update of a text cut where no token and no bullet gap
  // crosses is the update of the two pieces.

  /** No checkbox token and no bullet gap crosses the boundary between `a` and `b`. */
  predicate CleanCut(a: string, b: string) {
    0 < |a| && a[|a| - 1] != '[' &&
    (0 < |b| ==> b[0] != '[' && b[0] != ']' && !IsSpace(b[0]))
  }

  /** Every kind of position left of the cut reads the same in `a + b` as in `a`. */
  lemma CutLeft(a: string, b: string, k: Kind, p: int)
    requires CleanCut(a, b) && 0 <= p < |a|
    ensures Holds(k, a + b, p) <==> Holds(k, a, p)
  {
    var s := a + b;
    if p + 3 <= |a| {
      assert s[p] == a[p] && s[p + 1] == a[p + 1] && s[p + 2] == a[p + 2];
      forall b0 | 0 <= b0 < p
        ensures BulletGap(s, b0, p) <==> BulletGap(a, b0, p)
      {
        assert forall m :: b0 <= m < p ==> s[m] == a[m];
      }
    } else {
      assert !OpenAt(s, p) && !TickedAt(s, p) by {
        if p + 1 == |a| { assert s[p] == a[|a| - 1]; }
        else if p + 3 <= |s| { assert s[p + 2] == b[0]; }
      }
    }
  }

  /** Every kind of position right of the cut reads the same in `a + b` as in `b`. */
  lemma CutRight(a: string, b: string, k: Kind, j: int)
    requires CleanCut(a, b) && 0 <= j < |b|
    ensures Holds(k, a + b, |a| + j) <==> Holds(k, b, j)
  {
    var s := a + b;
    var q := |a| + j;
    assert forall m :: 0 <= m < |b| ==> s[|a| + m] == b[m];
    assert OpenAt(s, q) <==> OpenAt(b, j);
    assert TickedAt(s, q) <==> TickedAt(b, j);
    if OpenAt(b, j) || TickedAt(b, j) {
      assert 1 <= j;
      if BulletBefore(s, q) {
        var b0 :| 0 <= b0 < q && BulletGap(s, b0, q);
        assert |a| <= b0 by { assert !IsSpace(s[|a|]); }
        assert BulletGap(b, b0 - |a|, j);
      }
      if BulletBefore(b, j) {
        var b0 :| 0 <= b0 < j && BulletGap(b, b0, j);
        assert BulletGap(s, |a| + b0, q);
      }
    }
  }

  /** Ticking works piecewise across a clean cut. */
  lemma TickCut(a: string, b: string)
    requires CleanCut(a, b)
    ensures Tick(a + b) == Tick(a) + Tick(b)
  {
    var s := a + b;
    forall i | 0 <= i < |s|
      ensures Tick(s)[i] == (Tick(a) + Tick(b))[i]
    {
      if i < |a| {
        if 1 <= i { CutLeft(a, b, Unchecked, i - 1); }
      } else if i == |a| {
        CutLeft(a, b, Unchecked, i - 1);
      } else {
        CutRight(a, b, Unchecked, i - 1 - |a|);
      }
    }
  }

  lemma {:induction false} CountRight(k: Kind, a: string, b: string, j: nat)
    requires CleanCut(a, b) && j <= |b|
    ensures Count(k, a + b, |a| + j) == Count(k, b, j)
    decreases |b| - j
  {
    if j < |b| {
      CutRight(a, b, k, j);
      CountRight(k, a, b, j + 1);
    }
  }

  lemma {:induction false} CountLeft(k: Kind, a: string, b: string, lo: nat)
    requires CleanCut(a, b) && lo <= |a|
    ensures Count(k, a + b, lo) == Count(k, a, lo) + Count(k, a + b, |a|)
    decreases |a| - lo
  {
    if lo < |a| {
      CutLeft(a, b, k, lo);
      CountLeft(k, a, b, lo + 1);
    }
  }

  /** Counting works piecewise across a clean cut. */
  lemma CountCut(k: Kind, a: string, b: string)
    requires CleanCut(a, b)
    ensures Count(k, a + b, 0) == Count(k, a, 0) + Count(k, b, 0)
  {
    CountLeft(k, a, b, 0);
    CountRight(k, a, b, 0);
  }
}
