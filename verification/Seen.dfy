/** The bounded set of content fingerprints: internal/turn/seen.go. */
module Seen {
  import opened Recency
  import opened Wrappers

  /** A 64-bit fingerprint of some content. */
  type Fingerprint = nat

  class SeenSet {
    const max: nat
    /** Front first. */
    var order: seq<Element<Fingerprint>>
    var index: map<Fingerprint, Element<Fingerprint>>
    /** Every fingerprint ever added. */
    ghost var history: seq<Fingerprint>

    ghost predicate Agree()
      reads this
    {
      && (forall i | 0 <= i < |order| :: order[i].key in index && index[order[i].key] == order[i])
      && (forall k | k in index :: index[k] in order && index[k].key == k)
    }

    ghost predicate Valid()
      reads this
    {
      max >= 1 && Agree() && Keys(order) == First(MostRecent(history), max)
    }

    constructor (max: int)
      ensures Valid() && history == [] && this.max == if max <= 0 then 1 else max
    {
      this.max := if max <= 0 then 1 else max;
      order, index, history := [], map[], [];
    }

    /**
     Adds a fingerprint and says whether it was new: whether it is outside the `max` distinct
     fingerprints used last.
     */
    method Add(key: Fingerprint) returns (isNew: bool)
      requires Valid()
      modifies this
      ensures Valid() && history == old(history) + [key]
      ensures isNew <==> key !in First(MostRecent(old(history)), max)
      ensures isNew <==> !(key in old(history) && |Members(Since(old(history), key))| < max)
    {
      hide MostRecent, First, Since;
      TouchFollows(history, max, key);
      RememberedExactlyWhen(history, max, key);
      MostRecentDistinct(history);
      FirstDistinct(MostRecent(history), max);
      IndexKnows(key);
      history := history + [key];
      if key in index {
        MoveToFront(index[key]);
        return false;
      }
      PushFront(key);
      return true;
    }

    lemma IndexKnows(key: Fingerprint)
      requires Agree()
      ensures key in index <==> key in Keys(order)
    {
      if key in Keys(order) {
        var i :| 0 <= i < |order| && Keys(order)[i] == key;
        assert order[i].key in index;
      }
      if key in index {
        var i :| 0 <= i < |order| && order[i] == index[key];
        assert Keys(order)[i] == key;
      }
    }

    method MoveToFront(el: Element<Fingerprint>)
      requires Agree() && Distinct(Keys(order)) && el in order
      modifies this`order
      ensures Agree() && Keys(order) == [el.key] + Without(old(Keys(order)), el.key)
    {
      KeysWithout(order, el);
      WithoutMembers(order, el);
      ghost var was := order;
      order := [el] + Without(order, el);
      forall i | 0 <= i < |order|
        ensures order[i].key in index && index[order[i].key] == order[i]
      {
        assert order[i] in was;
      }
    }

    method PushFront(key: Fingerprint)
      requires Agree() && max >= 1 && Distinct(Keys(order)) && key !in index && |order| <= max
      modifies this`order, this`index
      ensures Agree() && Keys(order) == First([key] + old(Keys(order)), max)
    {
      Link(key);
      if |order| > max {
        DropOldest();
      }
    }

    method Link(key: Fingerprint)
      requires Agree() && Distinct(Keys(order)) && key !in index
      modifies this`order, this`index
      ensures Agree() && Distinct(Keys(order)) && Keys(order) == [key] + old(Keys(order))
    {
      assert key !in Keys(order) by {
        IndexKnows(key);
      }
      var el := new Element(key);
      order := [el] + order;
      index := index[key := el];
      assert Keys(order) == [key] + old(Keys(order));
    }

    method DropOldest()
      requires Agree() && Distinct(Keys(order)) && order != []
      modifies this`order, this`index
      ensures Agree() && Keys(order) == old(Keys(order))[..|old(order)| - 1]
    {
      var oldest := order[|order| - 1];
      ghost var was := order;
      assert forall i | 0 <= i < |was| - 1 :: Keys(was)[i] != Keys(was)[|was| - 1];
      order := order[..|order| - 1];
      index := index - {oldest.key};
      forall k | k in index
        ensures index[k] in order
      {
        assert index[k] in was && index[k] != oldest;
      }
    }
  }

  lemma FirstDistinct<T>(s: seq<T>, n: nat)
    requires Distinct(s)
    ensures Distinct(First(s, n)) && |First(s, n)| <= n
  {}

  /** A larger set holds all that a smaller one does, in the same order, so it repeats less. */
  lemma {:induction false} LargerRemembersMore(history: seq<Fingerprint>, small: nat, large: nat, key: Fingerprint)
    requires small <= large
    ensures First(MostRecent(history), small) <= First(MostRecent(history), large)
    ensures key !in First(MostRecent(history), large) ==> key !in First(MostRecent(history), small)
  {
    assert First(MostRecent(history), small) == First(First(MostRecent(history), large), small);
  }
}
