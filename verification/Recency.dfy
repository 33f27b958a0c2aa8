/** Recency lists: what a bounded list that moves to the front holds after any history of keys. */
module Recency {
  import opened Wrappers

  /** A node of a linked list; the same key can come back as another node. */
  class Element<K> {
    const key: K

    constructor (key: K)
      ensures this.key == key
    {
      this.key := key;
    }
  }

  function Keys<K>(nodes: seq<Element<K>>): (keys: seq<K>)
    ensures |keys| == |nodes| && forall i | 0 <= i < |keys| :: keys[i] == nodes[i].key
  {
    seq(|nodes|, i requires 0 <= i < |nodes| => nodes[i].key)
  }

  function Without<T(==)>(s: seq<T>, x: T): seq<T> {
    if s == [] then []
    else Without(s[..|s| - 1], x) + if s[|s| - 1] == x then [] else [s[|s| - 1]]
  }

  function First<T>(s: seq<T>, n: nat): seq<T> {
    if |s| > n then s[..n] else s
  }

  function Members<T(==)>(s: seq<T>): set<T> {
    set x | x in s
  }

  /** Every key of a history once, the one used last in front. */
  function MostRecent<K(==)>(history: seq<K>): seq<K> {
    if history == [] then []
    else
      var k := history[|history| - 1];
      [k] + Without(MostRecent(history[..|history| - 1]), k)
  }

  // ---- Removing -----------------------------------------------------------------------

  lemma {:induction false} WithoutMembers<T>(s: seq<T>, x: T)
    ensures forall y :: y in Without(s, x) <==> y in s && y != x
  {
    if s != [] {
      WithoutMembers(s[..|s| - 1], x);
      assert s == s[..|s| - 1] + [s[|s| - 1]];
    }
  }

  lemma {:induction false} WithoutAbsent<T>(s: seq<T>, x: T)
    requires x !in s
    ensures Without(s, x) == s
  {
    if s != [] {
      WithoutAbsent(s[..|s| - 1], x);
      assert s == s[..|s| - 1] + [s[|s| - 1]];
    }
  }

  lemma {:induction false} WithoutConcat<T>(a: seq<T>, b: seq<T>, x: T)
    ensures Without(a + b, x) == Without(a, x) + Without(b, x)
  {
    if b == [] {
      assert a + b == a;
    } else {
      assert (a + b)[..|a + b| - 1] == a + b[..|b| - 1];
      WithoutConcat(a, b[..|b| - 1], x);
    }
  }

  lemma {:induction false} WithoutDistinct<T>(s: seq<T>, x: T)
    requires Distinct(s)
    ensures Distinct(Without(s, x)) && |Without(s, x)| == |s| - if x in s then 1 else 0
  {
    if s != [] {
      var front, last := s[..|s| - 1], s[|s| - 1];
      WithoutDistinct(front, x);
      WithoutMembers(front, x);
      assert s == front + [last] && last !in front;
    }
  }

  /** Unlinking a node removes its key from the keys. */
  lemma {:induction false} KeysWithout<K>(nodes: seq<Element<K>>, el: Element<K>)
    requires Distinct(Keys(nodes)) && el in nodes
    ensures Keys(Without(nodes, el)) == Without(Keys(nodes), el.key)
  {
    var front, last := nodes[..|nodes| - 1], nodes[|nodes| - 1];
    assert Keys(nodes)[..|nodes| - 1] == Keys(front);
    if last == el {
      assert forall i | 0 <= i < |front| :: Keys(nodes)[i] != Keys(nodes)[|nodes| - 1];
      WithoutAbsent(front, el);
      WithoutAbsent(Keys(front), el.key);
    } else {
      var i :| 0 <= i < |nodes| && nodes[i] == el;
      assert front[i] == el;
      assert Keys(nodes)[i] != Keys(nodes)[|nodes| - 1];
      KeysWithout(front, el);
    }
  }

  // ---- The bounded list follows the history ---------------------------------------------

  lemma {:induction false} MostRecentDistinct<K>(history: seq<K>)
    ensures Distinct(MostRecent(history)) && forall k :: k in MostRecent(history) <==> k in history
  {
    if history != [] {
      var k, before := history[|history| - 1], history[..|history| - 1];
      MostRecentDistinct(before);
      WithoutDistinct(MostRecent(before), k);
      WithoutMembers(MostRecent(before), k);
      assert history == before + [k];
    }
  }

  lemma FirstIsFront<T>(front: seq<T>, rest: seq<T>, n: nat)
    requires |front| <= n && (rest == [] || |front| == n)
    ensures First(front + rest, n) == front
  {
    assert (front + rest)[..|front|] == front;
    assert rest == [] ==> front + rest == front;
  }

  lemma FrontAssociates<T>(x: T, a: seq<T>, b: seq<T>)
    ensures [x] + (a + b) == ([x] + a) + b
  {}

  lemma {:induction false} TouchKept<K>(kept: seq<K>, rest: seq<K>, n: nat, k: K)
    requires Distinct(kept) && k in kept && k !in rest && |kept| <= n && (rest == [] || |kept| == n)
    ensures First([k] + Without(kept + rest, k), n) == [k] + Without(kept, k)
  {
    hide Without, First;
    WithoutConcat(kept, rest, k);
    WithoutAbsent(rest, k);
    assert |Without(kept, k)| == |kept| - 1 by {
      WithoutDistinct(kept, k);
    }
    hide Distinct;
    FrontAssociates(k, Without(kept, k), rest);
    FirstIsFront([k] + Without(kept, k), rest, n);
  }

  lemma {:induction false} TouchForgotten<K>(kept: seq<K>, rest: seq<K>, n: nat, k: K)
    requires n >= 1 && k !in kept && |kept| <= n && (rest == [] || |kept| == n)
    ensures First([k] + Without(kept + rest, k), n) == First([k] + kept, n)
  {
    WithoutConcat(kept, rest, k);
    WithoutAbsent(kept, k);
    assert rest == [] ==> Without(rest, k) == [];
    hide Without;
    FrontAssociates(k, kept, Without(rest, k));
  }

  /**
   Touching a key in the first `n` of a list and touching it in the whole list come to the
   same first `n`: a bounded list never has to know what it has forgotten.
   */
  lemma {:induction false} TouchBounded<K>(all: seq<K>, n: nat, k: K)
    requires Distinct(all) && n >= 1
    ensures First([k] + Without(all, k), n)
         == if k in First(all, n) then [k] + Without(First(all, n), k) else First([k] + First(all, n), n)
  {
    hide Without;
    var kept := First(all, n);
    var rest := all[|kept|..];
    assert all == kept + rest;
    if k in kept {
      assert k !in rest;
      TouchKept(kept, rest, n, k);
    } else {
      TouchForgotten(kept, rest, n, k);
    }
  }

  lemma {:induction false} TouchFollows<K>(history: seq<K>, n: nat, k: K)
    requires n >= 1
    ensures var kept := First(MostRecent(history), n);
            First(MostRecent(history + [k]), n) == if k in kept then [k] + Without(kept, k) else First([k] + kept, n)
  {
    assert (history + [k])[..|history|] == history;
    MostRecentDistinct(history);
    TouchBounded(MostRecent(history), n, k);
  }

  // ---- What is remembered, without any list ---------------------------------------------

  /** The part of a history after the last use of `k`. */
  function Since<K(==)>(history: seq<K>, k: K): seq<K>
    requires k in history
  {
    if history[|history| - 1] == k then []
    else Since(history[..|history| - 1], k) + [history[|history| - 1]]
  }

  /** Exactly the keys used since `k` stand before it. */
  lemma {:induction false} StandsAfter<K>(history: seq<K>, k: K) returns (before: seq<K>, after: seq<K>)
    requires k in history
    ensures MostRecent(history) == before + [k] + after
    ensures forall x :: x in before <==> x in Since(history, k)
  {
    var x, earlier := history[|history| - 1], history[..|history| - 1];
    if x == k {
      before, after := [], Without(MostRecent(earlier), k);
    } else {
      var b, a := StandsAfter(earlier, k);
      WithoutConcat(b + [k], a, x);
      WithoutConcat(b, [k], x);
      WithoutAbsent([k], x);
      WithoutMembers(b, x);
      before, after := [x] + Without(b, x), Without(a, x);
    }
  }

  lemma {:induction false} DistinctSize<T>(s: seq<T>)
    requires Distinct(s)
    ensures |Members(s)| == |s|
  {
    if s != [] {
      var front, last := s[..|s| - 1], s[|s| - 1];
      DistinctSize(front);
      assert s == front + [last];
      assert Members(s) == Members(front) + {last};
    }
  }

  /** A key is remembered exactly while fewer than `n` different keys were used since it was. */
  lemma {:induction false} RememberedExactlyWhen<K>(history: seq<K>, n: nat, k: K)
    ensures k in First(MostRecent(history), n) <==> k in history && |Members(Since(history, k))| < n
  {
    MostRecentDistinct(history);
    if k in history {
      var before, after := StandsAfter(history, k);
      var all := MostRecent(history);
      assert forall i | 0 <= i < |before| :: before[i] == all[i];
      DistinctSize(before);
      assert Members(before) == Members(Since(history, k));
      assert all[|before|] == k;
    }
  }
}
