/**
 The inbound-message update of the chat panel: a message delivered by the chat
 SDK is inserted into the list already shown, without duplicates and in order.

 `Message` is left abstract (the type parameter `M`). The SDK's comparison
 methods are uninterpreted parameters, always applied with the existing list
 element as receiver and the incoming message as argument:
   sameAs(existing, incoming)  models  existing.isSameAs(incoming)
   after(existing, incoming)   models  existing.after(incoming)
 Lemmas that need algebraic facts about them say so in their `requires`.
 */
module MessageList {
  import opened ArraySearch

  // ---------------------------------------------------------------------------
  // Facts about the SDK's comparisons that individual lemmas assume

  /** Every message is the same as itself. */
  ghost predicate EachSameAsItself<M(!new)>(sameAs: (M, M) -> bool) {
    forall m :: sameAs(m, m)
  }

  /** `a.isSameAs(b)` and `b.isSameAs(a)` agree. */
  ghost predicate SameAsSymmetric<M(!new)>(sameAs: (M, M) -> bool) {
    forall m, n :: sameAs(m, n) ==> sameAs(n, m)
  }

  /** No message is after itself. */
  ghost predicate NeverAfterItself<M(!new)>(after: (M, M) -> bool) {
    forall m :: !after(m, m)
  }

  /** A message after one that is after a third is after the third. */
  ghost predicate AfterChains<M(!new)>(after: (M, M) -> bool) {
    forall a, b, c :: after(a, b) && after(b, c) ==> after(a, c)
  }

  /** Of two different messages, one is after the other. */
  ghost predicate AfterComparesAll<M(!new)>(after: (M, M) -> bool) {
    forall m, n :: m != n ==> after(m, n) || after(n, m)
  }

  /** `after` places all messages on a single time line (a strict total order). */
  ghost predicate Chronological<M(!new)>(after: (M, M) -> bool) {
    NeverAfterItself(after) && AfterChains(after) && AfterComparesAll(after)
  }

  // ---------------------------------------------------------------------------
  // Invariants of the displayed list

  /** No element is `after` an element that follows it in the list. */
  ghost predicate Sorted<M>(s: seq<M>, after: (M, M) -> bool) {
    forall i, j :: 0 <= i < j < |s| ==> !after(s[i], s[j])
  }

  /** No two different positions hold messages that are the same as each other. */
  ghost predicate NoDuplicates<M>(s: seq<M>, sameAs: (M, M) -> bool) {
    forall i, j :: 0 <= i < |s| && 0 <= j < |s| && i != j ==> !sameAs(s[i], s[j])
  }

  // ---------------------------------------------------------------------------
  // The update

  /** Some message already in the list is the same as `m`. */
  ghost predicate Known<M>(prev: seq<M>, m: M, sameAs: (M, M) -> bool) {
    exists i :: 0 <= i < |prev| && sameAs(prev[i], m)
  }

  /**
   `k` is where `m` belongs in `prev`: no element before `k` is after `m`, and
   the element at `k`, if there is one, is after `m`.
   */
  ghost predicate IsInsertionPoint<M>(prev: seq<M>, m: M, after: (M, M) -> bool, k: int) {
    && 0 <= k <= |prev|
    && (forall j :: 0 <= j < k ==> !after(prev[j], m))
    && (k < |prev| ==> after(prev[k], m))
  }

  /**
   `r` is `prev` with `m` spliced in at position `k`: the elements before `k`
   are unchanged, `m` sits at `k`, and the rest move up by one.
   */
  ghost predicate SplicedAt<M>(prev: seq<M>, m: M, k: int, r: seq<M>) {
    && 0 <= k <= |prev|
    && |r| == |prev| + 1
    && r[k] == m
    && (forall i :: 0 <= i < k ==> r[i] == prev[i])
    && (forall i :: k < i < |r| ==> r[i] == prev[i - 1])
  }

  /** `splice(k, 0, m)` on a copy of `prev` gives `prev[..k] + [m] + prev[k..]`. */
  lemma SpliceSplices<M>(prev: seq<M>, m: M, k: int)
    requires 0 <= k <= |prev|
    ensures SplicedAt(prev, m, k, prev[..k] + [m] + prev[k..])
  {
  }

  /** `push(m)` on a copy of `prev` splices `m` in at the end. */
  lemma PushSplices<M>(prev: seq<M>, m: M)
    ensures SplicedAt(prev, m, |prev|, prev + [m])
  {
  }

  /** Taking the spliced-in message out again gives back the original list. */
  lemma UnspliceSpliced<M>(prev: seq<M>, m: M, k: int, r: seq<M>)
    requires SplicedAt(prev, m, k, r)
    ensures r[..k] + r[k + 1..] == prev
  {
    var rest := r[..k] + r[k + 1..];
    assert |rest| == |prev|;
    forall i | 0 <= i < |prev|
      ensures rest[i] == prev[i]
    {
      if i < k {
        assert rest[i] == r[i];
      } else {
        assert rest[i] == r[i + 1];
      }
    }
  }

  /**
   The listener's state update: an already known message leaves the list as it
   is; otherwise the message goes in front of the first existing message that is
   after it, or at the end when there is none.
   */
  function Receive<M>(prev: seq<M>, m: M, sameAs: (M, M) -> bool, after: (M, M) -> bool): (r: seq<M>)
    ensures Known(prev, m, sameAs) ==> r == prev
    ensures !Known(prev, m, sameAs) ==>
              exists k :: IsInsertionPoint(prev, m, after, k) && SplicedAt(prev, m, k, r)
    ensures !Known(prev, m, sameAs) ==> |r| == |prev| + 1 && m in r
  {
    if AnyMatch(prev, e => sameAs(e, m)) then prev
    else
      var index := FindIndex(prev, e => after(e, m));
      if index == -1 then
        assert IsInsertionPoint(prev, m, after, |prev|);
        PushSplices(prev, m);
        prev + [m]
      else
        assert IsInsertionPoint(prev, m, after, index);
        SpliceSplices(prev, m, index);
        prev[..index] + [m] + prev[index..]
  }

  // ---------------------------------------------------------------------------
  // Properties of one update

  /** There is only one place a message can belong. */
  lemma InsertionPointUnique<M>(prev: seq<M>, m: M, after: (M, M) -> bool, k1: int, k2: int)
    requires IsInsertionPoint(prev, m, after, k1)
    requires IsInsertionPoint(prev, m, after, k2)
    ensures k1 == k2
  {
  }

  /**
   A new message lands exactly at its insertion point, and taking it out again
   gives back the previous list: every other message is kept, in its order.
   */
  lemma ReceiveRemoveInserted<M>(prev: seq<M>, m: M, sameAs: (M, M) -> bool, after: (M, M) -> bool, k: int)
    requires !Known(prev, m, sameAs)
    requires IsInsertionPoint(prev, m, after, k)
    ensures k < |Receive(prev, m, sameAs, after)|
    ensures Receive(prev, m, sameAs, after)[k] == m
    ensures Receive(prev, m, sameAs, after)[..k] + Receive(prev, m, sameAs, after)[k + 1..] == prev
  {
    var r := Receive(prev, m, sameAs, after);
    var k' :| IsInsertionPoint(prev, m, after, k') && SplicedAt(prev, m, k', r);
    InsertionPointUnique(prev, m, after, k, k');
    UnspliceSpliced(prev, m, k, r);
  }

  /** The messages shown after an update are the previous ones plus `m` when it was new. */
  lemma ReceiveMembers<M>(prev: seq<M>, m: M, sameAs: (M, M) -> bool, after: (M, M) -> bool)
    ensures forall x :: x in Receive(prev, m, sameAs, after) <==>
                          x in prev || (x == m && !Known(prev, m, sameAs))
  {
    var r := Receive(prev, m, sameAs, after);
    if !Known(prev, m, sameAs) {
      var k :| IsInsertionPoint(prev, m, after, k) && SplicedAt(prev, m, k, r);
      forall x
        ensures x in r <==> x in prev || x == m
      {
        if x in r {
          var i :| 0 <= i < |r| && r[i] == x;
          if i < k {
            assert prev[i] == x;
          } else if k < i {
            assert prev[i - 1] == x;
          }
        }
        if x in prev {
          var p :| 0 <= p < |prev| && prev[p] == x;
          if p < k {
            assert r[p] == x;
          } else {
            assert r[p + 1] == x;
          }
        }
      }
    }
  }

  /** Delivering the same message twice shows it once: the second delivery changes nothing. */
  lemma ReceiveIdempotent<M>(prev: seq<M>, m: M, sameAs: (M, M) -> bool, after: (M, M) -> bool)
    requires sameAs(m, m)
    ensures Receive(Receive(prev, m, sameAs, after), m, sameAs, after) == Receive(prev, m, sameAs, after)
  {
    var r := Receive(prev, m, sameAs, after);
    if !Known(prev, m, sameAs) {
      var k :| IsInsertionPoint(prev, m, after, k) && SplicedAt(prev, m, k, r);
      assert sameAs(r[k], m);
    }
  }

  /**
   A message inserted at its insertion point is not after any message from there
   on, provided `after` is a strict order and the list is sorted: the message at
   the insertion point is after it, so any later message it were after would
   break sortedness or irreflexivity.
   */
  lemma InsertedNotAfterLater<M(!new)>(prev: seq<M>, m: M, after: (M, M) -> bool, k: int, j: int)
    requires NeverAfterItself(after) && AfterChains(after)
    requires Sorted(prev, after)
    requires IsInsertionPoint(prev, m, after, k)
    requires k <= j < |prev|
    ensures !after(m, prev[j])
  {
    assert after(prev[k], m);
    if k < j {
      assert !after(prev[k], prev[j]);
    } else {
      assert !after(prev[k], prev[k]);
    }
  }

  /** An update keeps a sorted list sorted, provided `after` is a strict order. */
  lemma ReceivePreservesSorted<M(!new)>(prev: seq<M>, m: M, sameAs: (M, M) -> bool, after: (M, M) -> bool)
    requires NeverAfterItself(after) && AfterChains(after)
    requires Sorted(prev, after)
    ensures Sorted(Receive(prev, m, sameAs, after), after)
  {
    var r := Receive(prev, m, sameAs, after);
    if !Known(prev, m, sameAs) {
      var k :| IsInsertionPoint(prev, m, after, k) && SplicedAt(prev, m, k, r);
      forall i, j | 0 <= i < j < |r|
        ensures !after(r[i], r[j])
      {
        if j < k {
          assert r[i] == prev[i] && r[j] == prev[j];
        } else if j == k {
          assert r[i] == prev[i];
        } else if i < k {
          assert r[i] == prev[i] && r[j] == prev[j - 1];
        } else if i == k {
          assert r[j] == prev[j - 1];
          InsertedNotAfterLater(prev, m, after, k, j - 1);
        } else {
          assert r[i] == prev[i - 1] && r[j] == prev[j - 1];
        }
      }
    }
  }

  /** An update never introduces a duplicate, provided `isSameAs` is symmetric. */
  lemma ReceivePreservesNoDuplicates<M(!new)>(prev: seq<M>, m: M, sameAs: (M, M) -> bool, after: (M, M) -> bool)
    requires SameAsSymmetric(sameAs)
    requires NoDuplicates(prev, sameAs)
    ensures NoDuplicates(Receive(prev, m, sameAs, after), sameAs)
  {
    var r := Receive(prev, m, sameAs, after);
    if !Known(prev, m, sameAs) {
      var k :| IsInsertionPoint(prev, m, after, k) && SplicedAt(prev, m, k, r);
      forall i, j | 0 <= i < |r| && 0 <= j < |r| && i != j
        ensures !sameAs(r[i], r[j])
      {
        var pi := if i < k then i else i - 1;
        var pj := if j < k then j else j - 1;
        if i == k {
          assert r[j] == prev[pj];
          assert !sameAs(prev[pj], m);
        } else if j == k {
          assert r[i] == prev[pi];
          assert !sameAs(prev[pi], m);
        } else {
          assert r[i] == prev[pi] && r[j] == prev[pj];
        }
      }
    }
  }
}
