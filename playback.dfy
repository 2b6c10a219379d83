/** Cyclic playback order: what `Animation::next_frame` returns over repeated
    calls. The cursor moves to `(cursor + 1) % len`, with the length read at
    every call, so `len` consecutive calls visit every frame once. */
module Playback {

  /** The cursor after one `next_frame` on a store of `n` frames. */
  function Advance(c: nat, n: nat): (r: nat)
    requires c < n
    ensures r < n
    ensures r == c + 1 || (r == 0 && c == n - 1)
  {
    (c + 1) % n
  }

  /** The cursor after `k` consecutive `next_frame` calls. */
  function CursorAfter(c: nat, n: nat, k: nat): nat
    requires c < n
    decreases k
  {
    if k == 0 then c else CursorAfter(Advance(c, n), n, k - 1)
  }

  /** The frames returned by `k` consecutive `next_frame` calls that start
      with the cursor at `c`, in the order they are returned. */
  function Played<T>(frames: seq<T>, c: nat, k: nat): seq<T>
    requires c < |frames|
    decreases k
  {
    if k == 0 then [] else [frames[c]] + Played(frames, Advance(c, |frames|), k - 1)
  }

  /** After `k` calls the cursor is `(c + k) % n`. */
  lemma {:induction false} CursorAfterSteps(c: nat, n: nat, k: nat)
    requires c < n
    ensures CursorAfter(c, n, k) == (c + k) % n
    decreases k
  {
    if k > 0 {
      CursorAfterSteps(Advance(c, n), n, k - 1);
      ModShift(c + 1, n, k - 1);
    } else {
      assert c % n == c;
    }
  }

  /** Quotient and remainder are unique: Euclidean `%` agrees with any
      decomposition `x == q * n + r` with `0 <= r < n`. */
  lemma ModOfDecomposition(x: int, n: int, q: int, r: int)
    requires n > 0 && 0 <= r < n && x == q * n + r
    ensures x % n == r
  {
    var q0, r0 := x / n, x % n;
    assert (q - q0) * n == r0 - r;
    if q > q0 {
      ProductAtLeastFactor(q - q0, n);
    } else if q < q0 {
      ProductAtLeastFactor(q0 - q, n);
    }
  }

  /** A positive multiple of `n` is at least `n`. */
  lemma ProductAtLeastFactor(d: int, n: int)
    requires d >= 1 && n > 0
    ensures d * n >= n
  {
  }

  /** Adding the modulus does not change the remainder. */
  lemma ModAddModulus(x: nat, n: nat)
    requires n > 0
    ensures (x + n) % n == x % n
  {
    ModOfDecomposition(x + n, n, x / n + 1, x % n);
  }

  /** Taking the remainder before adding one gives the same remainder. */
  lemma {:induction false} ModSucc(x: nat, n: nat)
    requires n > 0
    ensures (x % n + 1) % n == (x + 1) % n
    decreases x
  {
    if x >= n {
      ModAddModulus(x - n, n);
      ModAddModulus(x - n + 1, n);
      ModSucc(x - n, n);
    } else {
      assert x % n == x;
    }
  }

  /** Taking the remainder before adding `b` gives the same remainder. */
  lemma {:induction false} ModShift(a: nat, n: nat, b: nat)
    requires n > 0
    ensures (a % n + b) % n == (a + b) % n
    decreases b
  {
    if b == 0 {
      assert (a % n) % n == a % n;
    } else {
      ModShift(a, n, b - 1);
      ModSucc(a % n + (b - 1), n);
      ModSucc(a + (b - 1), n);
    }
  }

  /** The `j`-th frame returned, counting from zero, is the one at
      `(c + j) % |frames|`. */
  lemma {:induction false} PlayedAt<T>(frames: seq<T>, c: nat, k: nat, j: nat)
    requires c < |frames| && j < k
    ensures |Played(frames, c, k)| == k
    ensures Played(frames, c, k)[j] == frames[(c + j) % |frames|]
    decreases k
  {
    var n := |frames|;
    PlayedLength(frames, c, k);
    var c' := Advance(c, n);
    var rest := Played(frames, c', k - 1);
    assert Played(frames, c, k) == [frames[c]] + rest;
    if j > 0 {
      PlayedAt(frames, c', k - 1, j - 1);
      assert rest[j - 1] == frames[(c' + (j - 1)) % n];
      ModShift(c + 1, n, j - 1);
      assert (c' + (j - 1)) % n == (c + j) % n;
    } else {
      ModOfDecomposition(c, n, 0, c);
    }
  }

  lemma {:induction false} PlayedLength<T>(frames: seq<T>, c: nat, k: nat)
    requires c < |frames|
    ensures |Played(frames, c, k)| == k
    decreases k
  {
    if k > 0 {
      PlayedLength(frames, Advance(c, |frames|), k - 1);
    }
  }

  /** A full round of `|frames|` calls returns the frames in their stored
      order rotated to start at the cursor, so each frame exactly once, and
      leaves the cursor where it started. */
  lemma FullRound<T>(frames: seq<T>, c: nat)
    requires c < |frames|
    ensures Played(frames, c, |frames|) == frames[c..] + frames[..c]
    ensures multiset(Played(frames, c, |frames|)) == multiset(frames)
    ensures CursorAfter(c, |frames|, |frames|) == c
  {
    var n := |frames|;
    var p := Played(frames, c, n);
    var rot := frames[c..] + frames[..c];
    PlayedLength(frames, c, n);
    forall j | 0 <= j < n
      ensures p[j] == rot[j]
    {
      PlayedAt(frames, c, n, j);
      if c + j < n {
        ModOfDecomposition(c + j, n, 0, c + j);
        assert rot[j] == frames[c..][j];
      } else {
        ModOfDecomposition(c + j, n, 1, c + j - n);
        assert rot[j] == frames[..c][j - (n - c)];
      }
    }
    assert p == rot;
    assert frames == frames[..c] + frames[c..];
    CursorAfterSteps(c, n, n);
    ModOfDecomposition(c + n, n, 1, c);
  }
}
