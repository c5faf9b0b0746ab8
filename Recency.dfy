/**
 * Access order, the specification of a least-recently-used cache.
 *
 * The cache keeps its keys in a sequence from least to most recently used.
 * Independently of that sequence, `history` records every key a `get` hit
 * or a `put` touched, in order. `RecencyOrdered(order, history)` says that
 * the sequence is exactly the resident keys sorted by the time they were
 * last touched, so its head is the least recently used key.
 */
module Recency {

  /** No key occurs twice. */
  ghost predicate Distinct(s: seq<int>)
  {
    forall i, j :: 0 <= i < j < |s| ==> s[i] != s[j]
  }

  /** `s` with `k` taken out, everything else in its old order (an unlinked entry). */
  function Without(s: seq<int>, k: int): (r: seq<int>)
    ensures forall x :: x in r <==> x in s && x != k
    ensures k !in s ==> r == s
    ensures Distinct(s) ==> Distinct(r)
    ensures Distinct(s) && k in s ==> |r| == |s| - 1
  {
    if s == [] then []
    else if s[0] == k then Without(s[1..], k)
    else
      var rest := Without(s[1..], k);
      assert Distinct(s) ==> Distinct([s[0]] + rest) by {
        if Distinct(s) {
          assert Distinct(s[1..]) by {
            forall i, j | 0 <= i < j < |s| - 1 ensures s[1..][i] != s[1..][j] {
              assert s[1..][i] == s[i + 1] && s[1..][j] == s[j + 1];
            }
          }
          assert s[0] !in s[1..];
          forall i, j | 0 <= i < j < |rest| + 1 ensures ([s[0]] + rest)[i] != ([s[0]] + rest)[j] {
            if i > 0 {
              assert ([s[0]] + rest)[i] == rest[i - 1];
            }
            assert ([s[0]] + rest)[j] == rest[j - 1];
          }
        }
      }
      [s[0]] + rest
  }

  /** `s` after an access to `k` under access ordering: `k` moves to (or joins at) the end. */
  function Touch(s: seq<int>, k: int): (r: seq<int>)
    ensures |r| > 0 && r[|r| - 1] == k
    ensures forall x :: x in r <==> x in s || x == k
    ensures k !in s ==> r == s + [k]
    ensures Distinct(s) ==> Distinct(r)
    ensures Distinct(s) ==> |r| == if k in s then |s| else |s| + 1
  {
    Without(s, k) + [k]
  }

  /** The position of the last touch of `k`. */
  function LastIndex(h: seq<int>, k: int): (i: nat)
    requires k in h
    ensures i < |h| && h[i] == k
    ensures forall j :: i < j < |h| ==> h[j] != k
  {
    if h[|h| - 1] == k then |h| - 1 else LastIndex(h[..|h| - 1], k)
  }

  /** The keys at positions `i` and `j` of `order` were touched, the first one's last touch earlier. */
  ghost predicate Before(order: seq<int>, history: seq<int>, i: int, j: int)
  {
    && 0 <= i < |order| && 0 <= j < |order|
    && order[i] in history && order[j] in history
    && LastIndex(history, order[i]) < LastIndex(history, order[j])
  }

  /** Every key in `order` was touched, and earlier keys were last touched earlier. */
  ghost predicate RecencyOrdered(order: seq<int>, history: seq<int>)
  {
    && (forall x :: x in order ==> x in history)
    && (forall i, j {:trigger Before(order, history, i, j)} ::
          0 <= i < j < |order| ==> Before(order, history, i, j))
  }

  /** The set of keys of `s`. */
  ghost function Elements(s: seq<int>): set<int>
  {
    set x | x in s
  }

  /** Keys sorted by last touch are pairwise different. */
  lemma RecencyOrderedIsDistinct(order: seq<int>, history: seq<int>)
    requires RecencyOrdered(order, history)
    ensures Distinct(order)
  {
    forall i, j | 0 <= i < j < |order| ensures order[i] != order[j] {
      assert Before(order, history, i, j);
    }
  }

  /** A sequence of distinct keys has as many keys as positions. */
  lemma {:induction false} DistinctCount(s: seq<int>)
    requires Distinct(s)
    ensures |Elements(s)| == |s|
  {
    if s != [] {
      assert Distinct(s[1..]);
      DistinctCount(s[1..]);
      assert Elements(s) == {s[0]} + Elements(s[1..]);
      assert s[0] !in Elements(s[1..]);
    }
  }

  /** Appending a touch of `k` moves only k's last touch, to the very end. */
  lemma LastIndexAfterTouch(h: seq<int>, k: int, x: int)
    requires x in h + [k]
    ensures LastIndex(h + [k], x) == if x == k then |h| else LastIndex(h, x)
  {
  }

  /** Unlinking a key keeps the others sorted by last touch. */
  lemma {:induction false} WithoutKeepsRecency(order: seq<int>, history: seq<int>, k: int)
    requires RecencyOrdered(order, history)
    ensures RecencyOrdered(Without(order, k), history)
  {
    if order != [] {
      var tail := order[1..];
      assert RecencyOrdered(tail, history) by {
        forall i, j | 0 <= i < j < |tail| ensures Before(tail, history, i, j) {
          assert Before(order, history, i + 1, j + 1);
          assert tail[i] == order[i + 1] && tail[j] == order[j + 1];
        }
      }
      WithoutKeepsRecency(tail, history, k);
      if order[0] != k {
        var r := Without(tail, k);
        var s := [order[0]] + r;
        assert Without(order, k) == s;
        forall i, j | 0 <= i < j < |s| ensures Before(s, history, i, j) {
          if i == 0 {
            assert s[j] in tail;
            var m :| 0 <= m < |tail| && tail[m] == s[j];
            assert order[m + 1] == s[j];
            assert Before(order, history, 0, m + 1);
          } else {
            assert s[i] == r[i - 1] && s[j] == r[j - 1];
            assert Before(r, history, i - 1, j - 1);
          }
        }
      }
    }
  }

  /**
   * A `get` hit or a `put` of `k` keeps the order true: touching `k` in the
   * key sequence while recording the touch in the history.
   */
  lemma TouchKeepsRecency(order: seq<int>, history: seq<int>, k: int)
    requires RecencyOrdered(order, history)
    ensures RecencyOrdered(Touch(order, k), history + [k])
  {
    var w := Without(order, k);
    WithoutKeepsRecency(order, history, k);
    var t := Touch(order, k);
    var h := history + [k];
    assert t == w + [k];
    forall x | x in t
      ensures x in h
    {
    }
    RecencyOrderedIsDistinct(w, history);
    forall i, j | 0 <= i < j < |t| ensures Before(t, h, i, j) {
      assert t[i] == w[i] && w[i] in w;
      assert t[i] != k;
      LastIndexAfterTouch(history, k, t[i]);
      LastIndexAfterTouch(history, k, t[j]);
      if j < |w| {
        assert t[j] == w[j];
        assert Before(w, history, i, j);
      }
    }
  }

  /** Removing the head of the order, as an eviction does, keeps the rest sorted. */
  lemma DropEldestKeepsRecency(order: seq<int>, history: seq<int>)
    requires RecencyOrdered(order, history) && |order| > 0
    ensures RecencyOrdered(order[1..], history)
  {
    forall i, j | 0 <= i < j < |order| - 1 ensures Before(order[1..], history, i, j) {
      assert order[1..][i] == order[i + 1] && order[1..][j] == order[j + 1];
      assert Before(order, history, i + 1, j + 1);
    }
  }

  /** The head of the order is the key whose last touch is older than every other key's. */
  lemma EldestIsLeastRecent(order: seq<int>, history: seq<int>)
    requires RecencyOrdered(order, history) && |order| > 0
    ensures forall x :: x in order && x != order[0] ==>
              LastIndex(history, order[0]) < LastIndex(history, x)
  {
    forall x | x in order && x != order[0]
      ensures LastIndex(history, order[0]) < LastIndex(history, x)
    {
      var j :| 0 <= j < |order| && order[j] == x;
      assert Before(order, history, 0, j);
    }
  }
}
