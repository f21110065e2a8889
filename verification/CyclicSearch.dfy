/** Nearest marked position in a row of marks, forwards and backwards, going round at the ends. */
module CyclicSearch {

  /** The least mark from s on, or -1. */
  function FirstFrom(h: seq<bool>, s: int): (f: int)
    requires 0 <= s
    ensures f == -1 || (s <= f < |h| && h[f])
    decreases |h| - s
  {
    if s >= |h| then -1 else if h[s] then s else FirstFrom(h, s + 1)
  }

  /** The greatest mark up to s, or -1. */
  function LastUpTo(h: seq<bool>, s: int): (f: int)
    requires s < |h|
    ensures f == -1 || (0 <= f <= s && h[f])
    decreases s
  {
    if s < 0 then -1 else if h[s] then s else LastUpTo(h, s - 1)
  }

  lemma {:induction false} FirstFromIsLeast(h: seq<bool>, s: int)
    requires 0 <= s
    ensures forall i :: s <= i < |h| && h[i] ==> 0 <= FirstFrom(h, s) <= i
    decreases |h| - s
  {
    if s < |h| && !h[s] {
      FirstFromIsLeast(h, s + 1);
    }
  }

  lemma {:induction false} LastUpToIsGreatest(h: seq<bool>, s: int)
    requires s < |h|
    ensures forall i :: 0 <= i <= s && h[i] ==> i <= LastUpTo(h, s)
    decreases s
  {
    if s >= 0 && !h[s] {
      LastUpToIsGreatest(h, s - 1);
    }
  }

  /** Search on from a position, else around from the other end. */
  function Next(h: seq<bool>, cur: int): (n: int)
    requires 0 <= cur < |h|
    ensures n == -1 || (0 <= n < |h| && h[n])
  {
    var f := FirstFrom(h, cur + 1);
    if f >= 0 then f else FirstFrom(h, 0)
  }

  function Previous(h: seq<bool>, cur: int): (n: int)
    requires 0 <= cur < |h|
    ensures n == -1 || (0 <= n < |h| && h[n])
  {
    var f := LastUpTo(h, cur - 1);
    if f >= 0 then f else LastUpTo(h, |h| - 1)
  }

  // ----- all marks, in order

  function MarksFrom(h: seq<bool>, s: int): (ms: seq<int>)
    requires 0 <= s
    ensures forall k :: 0 <= k < |ms| ==> s <= ms[k] < |h| && h[ms[k]]
    decreases |h| - s
  {
    if s >= |h| then []
    else if h[s] then [s] + MarksFrom(h, s + 1)
    else MarksFrom(h, s + 1)
  }

  function Marks(h: seq<bool>): (ms: seq<int>)
    ensures forall k :: 0 <= k < |ms| ==> 0 <= ms[k] < |h| && h[ms[k]]
  {
    MarksFrom(h, 0)
  }

  ghost predicate Increasing(ms: seq<int>) { forall a, b :: 0 <= a < b < |ms| ==> ms[a] < ms[b] }

  /** The list holds every mark once, in increasing order. */
  lemma {:induction false} MarksFromIsAll(h: seq<bool>, s: int)
    requires 0 <= s
    ensures Increasing(MarksFrom(h, s))
    ensures forall i :: s <= i < |h| && h[i] ==> i in MarksFrom(h, s)
    decreases |h| - s
  {
    if s < |h| {
      MarksFromIsAll(h, s + 1);
    }
  }

  lemma Ends(ms: seq<int>)
    requires Increasing(ms) && ms != []
    ensures forall x :: x in ms ==> ms[0] <= x <= ms[|ms| - 1]
  {
  }

  /** Nothing lies strictly between neighbours. */
  lemma Neighbours(ms: seq<int>, k: int, x: int)
    requires Increasing(ms) && 0 <= k && k + 1 < |ms| && x in ms
    ensures x <= ms[k] || ms[k + 1] <= x
  {
  }

  lemma {:induction false} OuterMarks(h: seq<bool>)
    requires Marks(h) != []
    ensures var ms := Marks(h);
            FirstFrom(h, 0) == ms[0] && LastUpTo(h, |h| - 1) == ms[|ms| - 1]
  {
    var ms := Marks(h);
    MarksFromIsAll(h, 0);
    FirstFromIsLeast(h, 0);
    LastUpToIsGreatest(h, |h| - 1);
    Ends(ms);
    assert h[ms[0]] && h[ms[|ms| - 1]];
    assert FirstFrom(h, 0) in ms;
    assert LastUpTo(h, |h| - 1) in ms;
  }

  lemma {:induction false} MarkAfter(h: seq<bool>, k: int)
    requires 0 <= k < |Marks(h)|
    ensures var ms := Marks(h);
            FirstFrom(h, ms[k] + 1) == if k + 1 < |ms| then ms[k + 1] else -1
  {
    var ms := Marks(h);
    var f := FirstFrom(h, ms[k] + 1);
    MarksFromIsAll(h, 0);
    FirstFromIsLeast(h, ms[k] + 1);
    Ends(ms);
    assert f >= 0 ==> f in ms;
    if k + 1 < |ms| {
      assert h[ms[k + 1]] && f in ms;
      Neighbours(ms, k, f);
    }
  }

  lemma {:induction false} MarkBefore(h: seq<bool>, k: int)
    requires 0 <= k < |Marks(h)|
    ensures var ms := Marks(h);
            LastUpTo(h, ms[k] - 1) == if k > 0 then ms[k - 1] else -1
  {
    var ms := Marks(h);
    var f := LastUpTo(h, ms[k] - 1);
    MarksFromIsAll(h, 0);
    LastUpToIsGreatest(h, ms[k] - 1);
    Ends(ms);
    assert f >= 0 ==> f in ms;
    if k > 0 {
      assert h[ms[k - 1]] && f in ms;
      Neighbours(ms, k - 1, f);
    }
  }

  /** Next goes to the next mark in order, from the last one to the first. */
  lemma {:induction false} NextIsSuccessor(h: seq<bool>, k: int)
    requires 0 <= k < |Marks(h)|
    ensures var ms := Marks(h);
            Next(h, ms[k]) == ms[if k + 1 < |ms| then k + 1 else 0]
  {
    MarkAfter(h, k);
    OuterMarks(h);
  }

  lemma {:induction false} PreviousIsPredecessor(h: seq<bool>, k: int)
    requires 0 <= k < |Marks(h)|
    ensures var ms := Marks(h);
            Previous(h, ms[k]) == ms[if k > 0 then k - 1 else |ms| - 1]
  {
    MarkBefore(h, k);
    OuterMarks(h);
  }

  /** On the marked positions Next and Previous undo each other. */
  lemma {:induction false} NextPreviousInverse(h: seq<bool>, i: int)
    requires 0 <= i < |h| && h[i]
    ensures Next(h, i) >= 0 && Previous(h, i) >= 0
    ensures Previous(h, Next(h, i)) == i
    ensures Next(h, Previous(h, i)) == i
  {
    var ms := Marks(h);
    MarksFromIsAll(h, 0);
    assert i in ms;
    var k :| 0 <= k < |ms| && ms[k] == i;
    var n := if k + 1 < |ms| then k + 1 else 0;
    var p := if k > 0 then k - 1 else |ms| - 1;
    NextIsSuccessor(h, k);
    PreviousIsPredecessor(h, n);
    PreviousIsPredecessor(h, k);
    NextIsSuccessor(h, p);
  }

  /** The position m steps of Next lead to; without a mark it stays. */
  function NextTimes(h: seq<bool>, i: int, m: nat): int
    requires 0 <= i < |h|
    decreases m
  {
    if m == 0 || Next(h, i) < 0 then i else NextTimes(h, Next(h, i), m - 1)
  }

  function Succ(k: int, n: int): int { if k + 1 < n then k + 1 else 0 }

  /** The index m steps round a cycle of n. */
  function Around(k: int, m: nat, n: int): (r: int)
    requires 0 <= k < n
    ensures 0 <= r < n
    decreases m
  {
    if m == 0 then k else Around(Succ(k, n), m - 1, n)
  }

  lemma {:induction false} AroundIsModulo(k: int, m: nat, n: int)
    requires 0 <= k < n
    ensures Around(k, m, n) == (k + m) % n
    decreases m
  {
    if m == 0 {
      Quotient(k, n, 0, k);
    } else {
      AroundIsModulo(Succ(k, n), m - 1, n);
      Cyclic(k, m, n);
    }
  }

  lemma {:induction false} NextGoesAround(h: seq<bool>, k: int, m: nat)
    requires 0 <= k < |Marks(h)|
    ensures NextTimes(h, Marks(h)[k], m) == Marks(h)[Around(k, m, |Marks(h)|)]
    decreases m
  {
    if m > 0 {
      NextIsSuccessor(h, k);
      NextGoesAround(h, Succ(k, |Marks(h)|), m - 1);
    }
  }

  /** Repeated Next walks through all marks in order, cyclically: the m-th step is mark (k + m) mod n. */
  lemma {:induction false} NextVisitsAll(h: seq<bool>, k: int, m: nat)
    requires 0 <= k < |Marks(h)|
    ensures var ms := Marks(h);
            NextTimes(h, ms[k], m) == ms[(k + m) % |ms|]
  {
    NextGoesAround(h, k, m);
    AroundIsModulo(k, m, |Marks(h)|);
  }

  lemma Cyclic(k: int, m: int, n: int)
    requires 0 <= k < n && m >= 1
    ensures (Succ(k, n) + (m - 1)) % n == (k + m) % n
  {
    if k + 1 == n {
      Distribute((m - 1) / n, n);
      Quotient(k + m, n, (m - 1) / n + 1, (m - 1) % n);
    }
  }

  lemma Distribute(a: int, n: int)
    ensures (a + 1) * n == a * n + n
  {
  }

  lemma AtLeastOnce(a: int, n: int)
    requires 1 <= a && 0 < n
    ensures a * n >= n
  {
  }

  lemma Quotient(x: int, n: int, q: int, r: int)
    requires 0 < n && x == q * n + r && 0 <= r < n
    ensures x % n == r
  {
    var p := x / n;
    assert (q - p) * n == x % n - r;
    if q > p {
      AtLeastOnce(q - p, n);
    } else if q < p {
      AtLeastOnce(p - q, n);
    }
  }

  lemma TwoLaps(x: int, n: int)
    requires 0 <= x < 2 * n
    ensures x % n == if x < n then x else x - n
  {
    if x < n { Quotient(x, n, 0, x); } else { Quotient(x, n, 1, x - n); }
  }

  /** From any mark, Next reaches every mark after exactly one number of steps below their count. */
  lemma {:induction false} NextReachesEachMarkOnce(h: seq<bool>, i: int, j: int) returns (m: nat)
    requires 0 <= i < |h| && 0 <= j < |h| && h[i] && h[j]
    ensures m < |Marks(h)| && NextTimes(h, i, m) == j
    ensures forall l: nat :: l < |Marks(h)| && NextTimes(h, i, l) == j ==> l == m
  {
    var ms := Marks(h);
    MarksFromIsAll(h, 0);
    assert i in ms && j in ms;
    var a :| 0 <= a < |ms| && ms[a] == i;
    var b :| 0 <= b < |ms| && ms[b] == j;
    m := if a <= b then b - a else b - a + |ms|;
    StepsToMark(h, a, b, m);
    forall l: nat | l < |ms| && NextTimes(h, i, l) == j
      ensures l == m
    {
      StepsToMark(h, a, b, l);
    }
  }

  lemma {:induction false} StepsToMark(h: seq<bool>, a: int, b: int, l: nat)
    requires 0 <= a < |Marks(h)| && 0 <= b < |Marks(h)| && l < |Marks(h)|
    ensures NextTimes(h, Marks(h)[a], l) == Marks(h)[b] <==> l == b - a || l == b - a + |Marks(h)|
  {
    NextVisitsAll(h, a, l);
    TwoLaps(a + l, |Marks(h)|);
    MarksFromIsAll(h, 0);
  }

  // ----- skipping unmarked stretches

  lemma {:induction false} SkipForward(h: seq<bool>, a: int, b: int)
    requires 0 <= a <= b <= |h| && forall i :: a <= i < b ==> !h[i]
    ensures FirstFrom(h, a) == FirstFrom(h, b)
    decreases b - a
  {
    if a < b {
      SkipForward(h, a + 1, b);
    }
  }

  lemma {:induction false} SkipBackward(h: seq<bool>, a: int, b: int)
    requires -1 <= a <= b < |h| && forall i :: a < i <= b ==> !h[i]
    ensures LastUpTo(h, b) == LastUpTo(h, a)
    decreases b - a
  {
    if a < b {
      SkipBackward(h, a, b - 1);
    }
  }
}
