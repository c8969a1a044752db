/** `rotate(l, n)` (display-controller.py:332-333) and its use by the setup
    wizard, which rotates the display list by one after every rejected order
    (display-controller.py:363). */
module Rotation {

  /** Python's normalisation of a slice bound `k` for a list of length `len`:
      a negative bound counts from the end, and the result is clamped. */
  function SliceBound(k: int, len: nat): (r: nat)
    ensures r <= len
    ensures -(len as int) <= k < 0 ==> r == len + k
    ensures 0 <= k <= len ==> r == k
    ensures k < -(len as int) ==> r == 0
    ensures k > len ==> r == len
  {
    if k < 0 then (if k + len < 0 then 0 else k + len)
    else if k > len then len
    else k
  }

  /** `l[-n:] + l[:-n]`: for `0 <= n <= len(l)` the last `n` elements move to
      the front; for `-len(l) <= n <= 0` the first `-n` move to the back; a
      shift by the whole length or more in either direction changes nothing. */
  function Rotate<T>(l: seq<T>, n: int): (r: seq<T>)
    ensures |r| == |l|
    ensures 0 <= n <= |l| ==> r == l[|l| - n..] + l[..|l| - n]
    ensures -(|l| as int) <= n <= 0 ==> r == l[-n..] + l[..-n]
    ensures n >= |l| || n <= -(|l| as int) ==> r == l
  {
    var k := SliceBound(-n, |l|);
    l[k..] + l[..k]
  }

  /** For every `n`, `rotate(l, n)` is a permutation of `l`: no display is
      lost, duplicated or invented. */
  lemma RotatePermutes<T>(l: seq<T>, n: int)
    ensures multiset(Rotate(l, n)) == multiset(l)
  {
    var k := SliceBound(-n, |l|);
    assert l == l[..k] + l[k..];
  }

  /** Rotating by one moves the last element to the front; the empty list stays empty. */
  lemma RotateOne<T>(l: seq<T>)
    ensures |l| == 0 ==> Rotate(l, 1) == []
    ensures |l| > 0 ==> Rotate(l, 1) == [l[|l| - 1]] + l[..|l| - 1]
  {
    if |l| > 0 {
      assert l[|l| - 1..] == [l[|l| - 1]];
    }
  }

  /** For `0 <= n <= |l|`, `rotate(l, n)` starts with the last `n` elements of
      `l` and continues with the others, each in its original order. */
  lemma RotateIndex<T>(l: seq<T>, n: int, i: int)
    requires 0 <= n <= |l| && 0 <= i < |l|
    ensures i < n ==> Rotate(l, n)[i] == l[|l| - n + i]
    ensures i >= n ==> Rotate(l, n)[i] == l[i - n]
  {
    if n == 0 {
      assert Rotate(l, n) == l[|l|..] + l[..|l|];
    } else {
      assert Rotate(l, n) == l[|l| - n..] + l[..|l| - n];
    }
  }

  /** The setup wizard's list after `k` rejected orders. */
  function Rotations<T>(l: seq<T>, k: nat): (r: seq<T>)
    ensures |r| == |l|
  {
    if k == 0 then l else Rotate(Rotations(l, k - 1), 1)
  }

  /** However often the user rejects, the wizard proposes the same displays. */
  lemma {:induction false} RotationsPermute<T>(l: seq<T>, k: nat)
    ensures multiset(Rotations(l, k)) == multiset(l)
  {
    if k > 0 {
      RotationsPermute(l, k - 1);
      RotationsStepPermutes(l, k);
    }
  }

  lemma RotationsStepPermutes<T>(l: seq<T>, k: nat)
    requires k > 0
    ensures multiset(Rotations(l, k)) == multiset(Rotations(l, k - 1))
  {
    RotatePermutes(Rotations(l, k - 1), 1);
  }

  lemma RotateStep<T>(l: seq<T>, k: nat)
    requires k < |l|
    ensures Rotate(Rotate(l, k), 1) == Rotate(l, k + 1)
  {
    var m := |l| - k;
    var r := Rotate(l, k);
    assert r == l[m..] + l[..m];
    RotateOne(r);
    assert r[|r| - 1] == l[m - 1];
    assert r[..|r| - 1] == l[m..] + l[..m - 1];
    assert l[m - 1..] == [l[m - 1]] + l[m..];
  }

  /** `k` successive rotations by one are one rotation by `k`, for `k <= |l|`. */
  lemma {:induction false} RotationsAreRotate<T>(l: seq<T>, k: nat)
    requires k <= |l|
    ensures Rotations(l, k) == Rotate(l, k)
  {
    if k == 0 {
      assert l[|l|..] + l[..|l|] == l;
    } else {
      RotationsAreRotate(l, k - 1);
      RotateStep(l, k - 1);
      assert Rotations(l, k) == Rotate(Rotations(l, k - 1), 1);
    }
  }

  /** After as many rejections as there are displays the wizard is back at the
      order it started from. */
  lemma RotationsCycle<T>(l: seq<T>)
    ensures Rotations(l, |l|) == l
  {
    RotationsAreRotate(l, |l|);
    assert l[0..] + l[..0] == l;
  }

  lemma {:induction false} RotationsAdd<T>(l: seq<T>, a: nat, b: nat)
    ensures Rotations(l, a + b) == Rotations(Rotations(l, a), b)
  {
    if b > 0 {
      RotationsAdd(l, a, b - 1);
      var m := Rotations(l, a);
      var x := Rotations(m, b - 1);
      assert Rotations(m, b) == Rotate(x, 1);
      assert Rotations(l, a + b) == Rotate(Rotations(l, a + b - 1), 1);
    }
  }

  /** The wizard's proposals repeat with period `|l|`. */
  lemma RotationsPeriodic<T>(l: seq<T>, k: nat)
    ensures Rotations(l, k + |l|) == Rotations(l, k)
  {
    RotationsAdd(l, |l|, k);
    RotationsCycle(l);
    assert k + |l| == |l| + k;
  }

  /** Within `|l|` rejections every display has been proposed as the first
      (primary) one: after `|l| - j` rejections it is display `j`. */
  lemma EveryDisplayProposedFirst<T>(l: seq<T>, j: nat)
    requires j < |l|
    ensures Rotations(l, |l| - j)[0] == l[j]
  {
    RotationsAreRotate(l, |l| - j);
    RotateIndex(l, |l| - j, 0);
  }

  /** With distinct displays the first `|l|` proposals are pairwise different:
      the wizard goes through every rotation exactly once before repeating. */
  lemma RotationsDistinct<T>(l: seq<T>, a: nat, b: nat)
    requires forall i, j :: 0 <= i < j < |l| ==> l[i] != l[j]
    requires a < b < |l|
    ensures Rotations(l, a) != Rotations(l, b)
  {
    RotationsAreRotate(l, a);
    RotationsAreRotate(l, b);
    RotateIndex(l, a, 0);
    RotateIndex(l, b, 0);
    if a == 0 {
      assert Rotations(l, a)[0] == l[0];
    } else {
      assert Rotations(l, a)[0] == l[|l| - a];
    }
    assert Rotations(l, b)[0] == l[|l| - b];
    assert Rotations(l, a)[0] != Rotations(l, b)[0];
  }
}
