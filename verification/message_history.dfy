/**
 The message list over a whole sequence of deliveries: the listener applied to
 every inbound message in arrival order, starting from the list shown so far
 (empty when the panel mounts). The SDK gives no delivery-order or at-most-once
 guarantee, so these lemmas hold for any arrival sequence.
 */
module MessageHistory {
  import opened MessageList

  /** `isSameAs` identifies exactly the equal messages. */
  ghost predicate SameAsIsIdentity<M(!new)>(sameAs: (M, M) -> bool) {
    forall m, n :: sameAs(m, n) <==> m == n
  }

  /** No message occurs twice: free of duplicates under identity. */
  ghost predicate Distinct<M>(s: seq<M>) {
    NoDuplicates(s, (x: M, y: M) => x == y)
  }

  /** The list after the listener has handled each of `msgs` in turn, starting from `prev`. */
  function DeliverAll<M>(prev: seq<M>, msgs: seq<M>, sameAs: (M, M) -> bool, after: (M, M) -> bool): (r: seq<M>)
    ensures |prev| <= |r| <= |prev| + |msgs|
    decreases |msgs|
  {
    if |msgs| == 0 then prev
    else DeliverAll(Receive(prev, msgs[0], sameAs, after), msgs[1..], sameAs, after)
  }

  /** However messages arrive, a sorted list stays sorted. */
  lemma {:induction false} DeliverAllSorted<M(!new)>(prev: seq<M>, msgs: seq<M>, sameAs: (M, M) -> bool, after: (M, M) -> bool)
    requires NeverAfterItself(after) && AfterChains(after)
    requires Sorted(prev, after)
    ensures Sorted(DeliverAll(prev, msgs, sameAs, after), after)
    decreases |msgs|
  {
    if |msgs| > 0 {
      ReceivePreservesSorted(prev, msgs[0], sameAs, after);
      DeliverAllSorted(Receive(prev, msgs[0], sameAs, after), msgs[1..], sameAs, after);
    }
  }

  /** However often a message is redelivered, the list holds no duplicates. */
  lemma {:induction false} DeliverAllNoDuplicates<M(!new)>(prev: seq<M>, msgs: seq<M>, sameAs: (M, M) -> bool, after: (M, M) -> bool)
    requires SameAsSymmetric(sameAs)
    requires NoDuplicates(prev, sameAs)
    ensures NoDuplicates(DeliverAll(prev, msgs, sameAs, after), sameAs)
    decreases |msgs|
  {
    if |msgs| > 0 {
      ReceivePreservesNoDuplicates(prev, msgs[0], sameAs, after);
      DeliverAllNoDuplicates(Receive(prev, msgs[0], sameAs, after), msgs[1..], sameAs, after);
    }
  }

  /**
   Every message shown was shown before or was delivered, every message shown
   before is still shown, and every delivered message is represented by a
   message that is the same as it.
   */
  lemma {:induction false} DeliverAllCovers<M(!new)>(prev: seq<M>, msgs: seq<M>, sameAs: (M, M) -> bool, after: (M, M) -> bool)
    requires EachSameAsItself(sameAs)
    ensures forall x :: x in DeliverAll(prev, msgs, sameAs, after) ==> x in prev || x in msgs
    ensures forall x :: x in prev ==> x in DeliverAll(prev, msgs, sameAs, after)
    ensures forall i :: 0 <= i < |msgs| ==> Known(DeliverAll(prev, msgs, sameAs, after), msgs[i], sameAs)
    decreases |msgs|
  {
    if |msgs| > 0 {
      var m := msgs[0];
      var rest := msgs[1..];
      var r1 := Receive(prev, m, sameAs, after);
      var r := DeliverAll(prev, msgs, sameAs, after);
      assert r == DeliverAll(r1, rest, sameAs, after);
      ReceiveMembers(prev, m, sameAs, after);
      DeliverAllCovers(r1, rest, sameAs, after);
      forall x | x in r
        ensures x in prev || x in msgs
      {
        if x in rest {
          var i :| 0 <= i < |rest| && rest[i] == x;
          assert msgs[i + 1] == x;
        }
      }
      // m is known in r1: either it already was, or it was inserted.
      assert Known(r1, m, sameAs) by {
        if !Known(prev, m, sameAs) {
          assert m in r1;
          var j :| 0 <= j < |r1| && r1[j] == m;
          assert sameAs(r1[j], m);
        }
      }
      // whatever r1 knows, r still knows, since r keeps every element of r1.
      forall i | 0 <= i < |msgs|
        ensures Known(r, msgs[i], sameAs)
      {
        if i == 0 {
          var j :| 0 <= j < |r1| && sameAs(r1[j], m);
          assert r1[j] in r;
          var j' :| 0 <= j' < |r| && r[j'] == r1[j];
          assert sameAs(r[j'], msgs[i]);
        } else {
          assert msgs[i] == rest[i - 1];
        }
      }
    }
  }

  /** With identity as `isSameAs`, the list shows exactly the old and the delivered messages. */
  lemma {:induction false} DeliverAllContents<M(!new)>(prev: seq<M>, msgs: seq<M>, sameAs: (M, M) -> bool, after: (M, M) -> bool)
    requires SameAsIsIdentity(sameAs)
    ensures forall x :: x in DeliverAll(prev, msgs, sameAs, after) <==> x in prev || x in msgs
    decreases |msgs|
  {
    if |msgs| > 0 {
      var m := msgs[0];
      var rest := msgs[1..];
      var r1 := Receive(prev, m, sameAs, after);
      assert DeliverAll(prev, msgs, sameAs, after) == DeliverAll(r1, rest, sameAs, after);
      ReceiveMembers(prev, m, sameAs, after);
      assert Known(prev, m, sameAs) <==> m in prev by {
        if m in prev {
          var i :| 0 <= i < |prev| && prev[i] == m;
          assert sameAs(prev[i], m);
        }
      }
      DeliverAllContents(r1, rest, sameAs, after);
      forall x
        ensures x in msgs <==> x == m || x in rest
      {
        if x in msgs {
          var i :| 0 <= i < |msgs| && msgs[i] == x;
          if i > 0 {
            assert rest[i - 1] == x;
          }
        }
        if x in rest {
          var i :| 0 <= i < |rest| && rest[i] == x;
          assert msgs[i + 1] == x;
        }
      }
    }
  }

  /**
   Two lists that are sorted by a connected relation, hold no repeated message
   and show the same messages are the same list.
   */
  lemma {:induction false} SortedUnique<M(!new)>(a: seq<M>, b: seq<M>, after: (M, M) -> bool)
    requires AfterComparesAll(after)
    requires Sorted(a, after) && Sorted(b, after)
    requires Distinct(a) && Distinct(b)
    requires forall x :: x in a <==> x in b
    ensures a == b
    decreases |a|
  {
    assert |a| == 0 ==> |b| == 0 by {
      if |b| > 0 {
        assert b[0] in a;
      }
    }
    if |a| > 0 {
      assert a[0] in b;
      assert |b| > 0;
      assert a[0] == b[0] by {
        var j :| 0 <= j < |b| && b[j] == a[0];
        assert b[0] in a;
        var i :| 0 <= i < |a| && a[i] == b[0];
      }
      forall x
        ensures x in a[1..] <==> x in b[1..]
      {
        assert x in a[1..] <==> x in a && x != a[0];
        assert x in b[1..] <==> x in b && x != b[0];
      }
      SortedUnique(a[1..], b[1..], after);
      assert a == [a[0]] + a[1..];
      assert b == [b[0]] + b[1..];
    }
  }

  /**
   The order shown does not depend on the order of arrival: starting from the
   empty list, any two arrival sequences of the same messages end in the same
   list, provided `isSameAs` is identity and `after` a strict total order.
   */
  lemma DeliveryOrderIrrelevant<M(!new)>(xs: seq<M>, ys: seq<M>, sameAs: (M, M) -> bool, after: (M, M) -> bool)
    requires SameAsIsIdentity(sameAs)
    requires Chronological(after)
    requires forall x :: x in xs <==> x in ys
    ensures DeliverAll([], xs, sameAs, after) == DeliverAll([], ys, sameAs, after)
  {
    var a := DeliverAll([], xs, sameAs, after);
    var b := DeliverAll([], ys, sameAs, after);
    DeliverAllSorted([], xs, sameAs, after);
    DeliverAllSorted([], ys, sameAs, after);
    DeliverAllNoDuplicates([], xs, sameAs, after);
    DeliverAllNoDuplicates([], ys, sameAs, after);
    DeliverAllContents([], xs, sameAs, after);
    DeliverAllContents([], ys, sameAs, after);
    SortedUnique(a, b, after);
  }

  /** Messages identified by their serials: the same message has the same serial. */
  predicate SameSerial(x: int, y: int) {
    x == y
  }

  /** A message is after another when its serial is larger. */
  predicate LaterSerial(x: int, y: int) {
    x > y
  }

  /** Serials compared this way meet every hypothesis of the ordering lemmas. */
  lemma SerialsAreChronological()
    ensures SameAsIsIdentity(SameSerial)
    ensures NeverAfterItself(LaterSerial) && AfterChains(LaterSerial) && AfterComparesAll(LaterSerial)
  {
  }

  /** Serials 1, 2, 3 are in order and pairwise different. */
  lemma SerialsInOrder()
    ensures Sorted([1, 2, 3], LaterSerial) && Distinct([1, 2, 3])
  {
  }

  /**
   Messages with serials 1, 3 and 2, where a message is after another when its
   serial is larger, arrive as 1, 3, 2 and are shown as 1, 2, 3.
   */
  lemma ArrivalScenario()
    ensures DeliverAll([], [1, 3, 2], SameSerial, LaterSerial) == [1, 2, 3]
  {
    var shown := DeliverAll([], [1, 3, 2], SameSerial, LaterSerial);
    SerialsAreChronological();
    SerialsInOrder();
    DeliverAllSorted([], [1, 3, 2], SameSerial, LaterSerial);
    DeliverAllNoDuplicates([], [1, 3, 2], SameSerial, LaterSerial);
    DeliverAllContents([], [1, 3, 2], SameSerial, LaterSerial);
    SortedUnique(shown, [1, 2, 3], LaterSerial);
  }
}
