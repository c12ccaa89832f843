/**
 The ordered tree of the red-black tree test: search and insert walk down by
 the sign of a key difference; rebalancing is any series of rotations.
 */
module OrderedTree {
  import opened Common

  datatype Tree = Leaf | Node(left: Tree, val: Int, right: Tree)

  /** One step of a walk down: what was passed on the way. */
  datatype Turn = WentLeft(val: Int, right: Tree) | WentRight(left: Tree, val: Int)

  function InOrder(t: Tree): seq<int> {
    match t
    case Leaf => []
    case Node(l, v, r) => InOrder(l) + [v] + InOrder(r)
  }

  /** The whole tree around a subtree; the last turn is the nearest one. */
  function Plug(path: seq<Turn>, t: Tree): Tree
    decreases |path|
  {
    if path == [] then t
    else
      var init := path[..|path| - 1];
      match path[|path| - 1]
      case WentLeft(v, r) => Plug(init, Node(t, v, r))
      case WentRight(l, v) => Plug(init, Node(l, v, t))
  }

  function Before(path: seq<Turn>): seq<int>
    decreases |path|
  {
    if path == [] then []
    else
      match path[|path| - 1]
      case WentLeft(_, _) => Before(path[..|path| - 1])
      case WentRight(l, v) => Before(path[..|path| - 1]) + (InOrder(l) + [v])
  }

  function After(path: seq<Turn>): seq<int>
    decreases |path|
  {
    if path == [] then []
    else
      match path[|path| - 1]
      case WentLeft(v, r) => ([v] + InOrder(r)) + After(path[..|path| - 1])
      case WentRight(_, _) => After(path[..|path| - 1])
  }

  lemma {:induction false} InOrderOfPlug(path: seq<Turn>, t: Tree)
    ensures InOrder(Plug(path, t)) == Before(path) + InOrder(t) + After(path)
    decreases |path|
  {
    if path != [] {
      var init := path[..|path| - 1];
      match path[|path| - 1]
      case WentLeft(v, r) =>
        InOrderOfPlug(init, Node(t, v, r));
        assert InOrder(Node(t, v, r)) == InOrder(t) + ([v] + InOrder(r));
        Regroup(Before(init), InOrder(t), [v] + InOrder(r), After(init));
      case WentRight(l, v) =>
        InOrderOfPlug(init, Node(l, v, t));
        Assoc(Before(init), InOrder(l) + [v], InOrder(t));
    }
  }

  lemma Regroup(a: seq<int>, b: seq<int>, c: seq<int>, d: seq<int>)
    ensures a + (b + c) + d == a + b + (c + d)
  {
  }

  // ----- comparing keys

  ghost predicate Increasing(s: seq<int>) {
    forall i, j :: 0 <= i < j < |s| ==> s[i] < s[j]
  }

  /** The difference of two keys, as the program computes it, has the sign of their order exactly when it is an `int`. */
  lemma SignOfDifference(a: Int, b: Int)
    ensures var d: int := a as int - b as int;
            ((Wrap(d) < 0 <==> a < b) && (Wrap(d) > 0 <==> a > b)) <==> INT_MIN <= d <= INT_MAX
  {
  }

  /** The key can be compared with every key of the tree. */
  ghost predicate Comparable(keys: seq<int>, v: Int) {
    forall i :: 0 <= i < |keys| ==> INT_MIN <= v as int - keys[i] <= INT_MAX
  }

  /** A walk for v has passed only smaller keys on its left and greater ones on its right. */
  ghost predicate Walked(t: Tree, path: seq<Turn>, at: Tree, v: int) {
    && t == Plug(path, at)
    && (forall i :: 0 <= i < |Before(path)| ==> Before(path)[i] < v)
    && (forall i :: 0 <= i < |After(path)| ==> v < After(path)[i])
  }

  /** Where the keys of the node at hand stand in the whole walk. */
  lemma NodeInWalk(t: Tree, path: seq<Turn>, at: Tree)
    requires t == Plug(path, at) && at.Node?
    ensures InOrder(t) == (Before(path) + InOrder(at.left)) + [at.val] + (InOrder(at.right) + After(path))
  {
    InOrderOfPlug(path, at);
    Spread(Before(path), InOrder(at.left), at.val, InOrder(at.right), After(path));
  }

  lemma Spread(a: seq<int>, l: seq<int>, x: int, r: seq<int>, b: seq<int>)
    ensures a + (l + [x] + r) + b == (a + l) + [x] + (r + b)
  {
  }

  /** Around a key of an increasing sequence, everything before is smaller and everything after is greater. */
  lemma AroundKey(a: seq<int>, x: int, b: seq<int>)
    requires Increasing(a + [x] + b)
    ensures forall i :: 0 <= i < |a| ==> a[i] < x
    ensures forall i :: 0 <= i < |b| ==> x < b[i]
  {
    var s := a + [x] + b;
    assert s[|a|] == x;
    assert forall i :: 0 <= i < |a| ==> s[i] == a[i];
    assert forall i :: 0 <= i < |b| ==> s[|a| + 1 + i] == b[i];
  }

  lemma WalkOn(t: Tree, path: seq<Turn>, at: Tree, v: Int)
    requires Increasing(InOrder(t)) && Comparable(InOrder(t), v) && Walked(t, path, at, v) && at.Node?
    ensures INT_MIN <= v as int - at.val as int <= INT_MAX
    ensures v < at.val ==> Walked(t, path + [WentLeft(at.val, at.right)], at.left, v)
    ensures v > at.val ==> Walked(t, path + [WentRight(at.left, at.val)], at.right, v)
    ensures v == at.val ==> v in InOrder(t)
  {
    var a, b := Before(path) + InOrder(at.left), InOrder(at.right) + After(path);
    NodeInWalk(t, path, at);
    AroundKey(a, at.val, b);
    assert InOrder(t)[|a|] == at.val;
    if v < at.val {
      var more := path + [WentLeft(at.val, at.right)];
      assert more[..|path|] == path;
      assert After(more) == [at.val] + b;
    } else if v > at.val {
      var more := path + [WentRight(at.left, at.val)];
      assert more[..|path|] == path;
      assert Before(more) == a + [at.val];
    }
  }

  /** A walk that reaches the end has gone round the key's place: the key is not there. */
  lemma WalkEnds(t: Tree, path: seq<Turn>, v: Int)
    requires Walked(t, path, Leaf, v)
    ensures v as int !in InOrder(t)
    ensures InOrder(t) == Before(path) + After(path)
  {
    InOrderOfPlug(path, Leaf);
  }

  // ----- the operations

  /** Where the walk for v ends: at a node for which the difference is zero, or at a free link. */
  function Walk(at: Tree, v: Int, path: seq<Turn>): (seq<Turn>, Tree) {
    if at.Leaf? then (path, Leaf)
    else
      var result := Wrap(v as int - at.val as int);
      if result < 0 then Walk(at.left, v, path + [WentLeft(at.val, at.right)])
      else if result > 0 then Walk(at.right, v, path + [WentRight(at.left, at.val)])
      else (path, at)
  }

  /** rbn_search: whether the walk ends at a node. */
  predicate Found(t: Tree, v: Int) {
    Walk(t, v, []).1.Node?
  }

  /** rbn_insert before rebalancing: the tree with a node linked where the walk ends, or the tree itself and false. */
  function InsertInto(t: Tree, v: Int): (Tree, bool) {
    if Found(t, v) then (t, false) else (Plug(Walk(t, v, []).0, Node(Leaf, v, Leaf)), true)
  }

  method Search(t: Tree, v: Int) returns (found: bool)
    ensures found == Found(t, v)
  {
    var node := t;
    ghost var path: seq<Turn> := [];
    while node.Node?
      invariant Walk(t, v, []) == Walk(node, v, path)
      decreases node
    {
      var result := Wrap(v as int - node.val as int);
      if result < 0 {
        path := path + [WentLeft(node.val, node.right)];
        node := node.left;
      } else if result > 0 {
        path := path + [WentRight(node.left, node.val)];
        node := node.right;
      } else {
        return true;
      }
    }
    found := false;
  }

  method Insert(t: Tree, v: Int) returns (t': Tree, ok: bool)
    ensures (t', ok) == InsertInto(t, v)
  {
    var node := t;
    var path: seq<Turn> := [];
    while node.Node?
      invariant Walk(t, v, []) == Walk(node, v, path)
      decreases node
    {
      var result := Wrap(v as int - node.val as int);
      if result < 0 {
        path := path + [WentLeft(node.val, node.right)];
        node := node.left;
      } else if result > 0 {
        path := path + [WentRight(node.left, node.val)];
        node := node.right;
      } else {
        return t, false;
      }
    }
    t', ok := Plug(path, Node(Leaf, v, Leaf)), true;
  }

  // ----- what they do on an ordered tree

  lemma {:induction false} WalkFindsPlace(t: Tree, path: seq<Turn>, at: Tree, v: Int)
    requires Increasing(InOrder(t)) && Comparable(InOrder(t), v) && Walked(t, path, at, v)
    ensures var (p, e) := Walk(at, v, path);
            Walked(t, p, e, v) && (e.Node? ==> v as int in InOrder(t))
    decreases at
  {
    if at.Node? {
      WalkOn(t, path, at, v);
      SignOfDifference(v, at.val);
      var result := Wrap(v as int - at.val as int);
      if result < 0 {
        WalkFindsPlace(t, path + [WentLeft(at.val, at.right)], at.left, v);
      } else if result > 0 {
        WalkFindsPlace(t, path + [WentRight(at.left, at.val)], at.right, v);
      }
    }
  }

  /** Search finds exactly the keys of an ordered tree. */
  lemma FoundIff(t: Tree, v: Int)
    requires Increasing(InOrder(t)) && Comparable(InOrder(t), v)
    ensures Found(t, v) <==> v as int in InOrder(t)
  {
    WalkFindsPlace(t, [], t, v);
    if !Found(t, v) {
      WalkEnds(t, Walk(t, v, []).0, v);
    }
  }

  /** s' is s with the key v put in its place. */
  ghost predicate Inserted(s: seq<int>, v: int, s': seq<int>) {
    exists k :: 0 <= k <= |s| && s' == s[..k] + [v] + s[k..]
  }

  lemma IncreasingInsert(a: seq<int>, v: int, b: seq<int>)
    requires Increasing(a + b)
    requires forall i :: 0 <= i < |a| ==> a[i] < v
    requires forall i :: 0 <= i < |b| ==> v < b[i]
    ensures Increasing(a + [v] + b)
  {
    var s, s' := a + b, a + [v] + b;
    assert forall i :: 0 <= i < |a| ==> s'[i] == s[i] == a[i];
    assert forall i :: |a| < i < |s'| ==> s'[i] == s[i - 1] == b[i - |a| - 1];
  }

  lemma {:induction false} Linked(t: Tree, path: seq<Turn>, v: Int)
    requires Increasing(InOrder(t)) && Walked(t, path, Leaf, v)
    ensures var t' := Plug(path, Node(Leaf, v, Leaf));
            Inserted(InOrder(t), v, InOrder(t')) && Increasing(InOrder(t'))
  {
    var a, b := Before(path), After(path);
    WalkEnds(t, path, v);
    InOrderOfPlug(path, Node(Leaf, v, Leaf));
    assert InOrder(Node(Leaf, v, Leaf)) == [v];
    assert (a + b)[..|a|] == a && (a + b)[|a|..] == b;
    IncreasingInsert(a, v, b);
  }

  /** Insertion refuses exactly the repeated keys, puts any other in its place, and keeps the order. */
  lemma InsertKeepsOrder(t: Tree, v: Int)
    requires Increasing(InOrder(t)) && Comparable(InOrder(t), v)
    ensures var (t', ok) := InsertInto(t, v);
            && (ok <==> v as int !in InOrder(t))
            && (!ok ==> t' == t)
            && (ok ==> Inserted(InOrder(t), v, InOrder(t')))
            && Increasing(InOrder(t'))
  {
    FoundIff(t, v);
    if !Found(t, v) {
      WalkFindsPlace(t, [], t, v);
      Linked(t, Walk(t, v, []).0, v);
    }
  }

  /** Of two different keys inserted in turn, the walk comes out in order if and only if their difference is an `int`. */
  lemma TwoKeysInOrderIff(a: Int, b: Int)
    requires a != b
    ensures var t := InsertInto(InsertInto(Leaf, a).0, b).0;
            Increasing(InOrder(t)) <==> INT_MIN <= b as int - a as int <= INT_MAX
  {
    var one := Node(Leaf, a, Leaf);
    assert Plug([], one) == one;
    assert InsertInto(Leaf, a).0 == one;
    var d := Wrap(b as int - a as int);
    var turn := if d < 0 then WentLeft(a, Leaf) else WentRight(Leaf, a);
    assert [turn][..0] == [] && [] + [turn] == [turn];
    assert d != 0;
    assert Walk(one, b, []) == ([turn], Leaf);
    var two := Node(Leaf, b, Leaf);
    InOrderOfPlug([turn], two);
    assert InOrder(Plug([turn], two)) == if d < 0 then [b as int, a as int] else [a as int, b as int];
    SignOfDifference(b, a);
    IncreasingPair(a, b);
    IncreasingPair(b, a);
  }

  lemma IncreasingPair(x: int, y: int)
    ensures Increasing([x, y]) <==> x < y
  {
    assert [x, y][0] == x && [x, y][1] == y;
  }

  // ----- rotations and whole runs

  /** A right rotation somewhere in the tree turns t into t'. */
  ghost predicate RotatesRight(t: Tree, t': Tree) {
    exists path, l, a, m, b, r ::
      t == Plug(path, Node(Node(l, a, m), b, r)) && t' == Plug(path, Node(l, a, Node(m, b, r)))
  }

  lemma {:induction false} RotateAt(path: seq<Turn>, l: Tree, a: Int, m: Tree, b: Int, r: Tree)
    ensures InOrder(Plug(path, Node(Node(l, a, m), b, r))) == InOrder(Plug(path, Node(l, a, Node(m, b, r))))
  {
    InOrderOfPlug(path, Node(Node(l, a, m), b, r));
    InOrderOfPlug(path, Node(l, a, Node(m, b, r)));
    Assoc(InOrder(l) + [a], InOrder(m), [b] + InOrder(r));
    Assoc(InOrder(m), [b], InOrder(r));
    Assoc(InOrder(l) + [a] + InOrder(m), [b], InOrder(r));
  }

  lemma {:induction false} RightKeepsOrder(t: Tree, t': Tree)
    requires RotatesRight(t, t')
    ensures InOrder(t) == InOrder(t')
  {
    var path, l, a, m, b, r :|
      t == Plug(path, Node(Node(l, a, m), b, r)) && t' == Plug(path, Node(l, a, Node(m, b, r)));
    RotateAt(path, l, a, m, b, r);
  }

  /** A rotation either way, anywhere in the tree, leaves the in-order walk as it was. */
  lemma {:induction false} RotationKeepsOrder(t: Tree, t': Tree)
    requires RotatesRight(t, t') || RotatesRight(t', t)
    ensures InOrder(t) == InOrder(t')
  {
    if RotatesRight(t, t') {
      RightKeepsOrder(t, t');
    } else {
      RightKeepsOrder(t', t);
    }
  }

  /** A call of insert and what it returned, or a rotation of the rebalancing. */
  datatype Event = Offer(key: Int, ok: bool) | Rotated

  ghost predicate Step(t: Tree, e: Event, t': Tree) {
    match e
    case Offer(v, ok) => (t', ok) == InsertInto(t, v)
    case Rotated => RotatesRight(t, t') || RotatesRight(t', t)
  }

  ghost predicate IsRun(trees: seq<Tree>, events: seq<Event>) {
    && |trees| == |events| + 1
    && trees[0] == Leaf
    && forall i :: 0 <= i < |events| ==> Step(trees[i], events[i], trees[i + 1])
  }

  /** Event i offers the key v. */
  ghost predicate OfferAt(events: seq<Event>, i: int, v: int) {
    0 <= i < |events| && events[i].Offer? && events[i].key == v
  }

  ghost predicate Offered(events: seq<Event>, v: int) {
    exists i :: OfferAt(events, i, v)
  }

  /** A key whose difference to every key offered is an `int`. */
  ghost predicate Within(events: seq<Event>, v: int) {
    forall w: int :: Offered(events, w) ==> INT_MIN <= v - w <= INT_MAX
  }

  ghost predicate AllWithin(events: seq<Event>) {
    forall v: int :: Offered(events, v) ==> Within(events, v)
  }

  lemma OfferedNext(events: seq<Event>, e: Event, v: int)
    ensures Offered(events + [e], v) <==> Offered(events, v) || (e.Offer? && e.key == v)
  {
    var more := events + [e];
    assert forall i :: 0 <= i < |events| ==> (OfferAt(more, i, v) <==> OfferAt(events, i, v));
    assert OfferAt(more, |events|, v) <==> e.Offer? && e.key == v;
    if i :| OfferAt(events, i, v) {
      assert OfferAt(more, i, v);
    }
  }

  lemma InsertedKeys(s: seq<int>, v: int, s': seq<int>)
    requires Inserted(s, v, s')
    ensures forall x :: x in s' <==> x in s || x == v
  {
    var k :| 0 <= k <= |s| && s' == s[..k] + [v] + s[k..];
    assert s == s[..k] + s[k..];
    forall x
      ensures x in s' <==> x in s || x == v
    {
    }
  }

  lemma AllWithinPrefix(events: seq<Event>, e: Event)
    requires AllWithin(events + [e])
    ensures AllWithin(events)
    ensures e.Offer? ==> Within(events, e.key)
  {
    forall v: int
      ensures Offered(events, v) ==> Offered(events + [e], v)
      ensures e.Offer? && e.key == v ==> Offered(events + [e], v)
    {
      OfferedNext(events, e, v);
    }
  }

  /** The in-order walk is strictly increasing and holds exactly the keys offered. */
  ghost predicate HoldsOffered(t: Tree, events: seq<Event>) {
    Increasing(InOrder(t)) && forall v: int :: v in InOrder(t) <==> Offered(events, v)
  }

  lemma WithinIsComparable(t: Tree, events: seq<Event>, v: Int)
    requires HoldsOffered(t, events) && Within(events, v)
    ensures Comparable(InOrder(t), v)
  {
    forall i | 0 <= i < |InOrder(t)|
      ensures INT_MIN <= v as int - InOrder(t)[i] <= INT_MAX
    {
      assert InOrder(t)[i] in InOrder(t);
    }
  }

  lemma StepHoldsOffered(t: Tree, events: seq<Event>, e: Event, t': Tree)
    requires HoldsOffered(t, events) && Step(t, e, t') && (e.Offer? ==> Within(events, e.key))
    ensures HoldsOffered(t', events + [e])
    ensures e.Offer? ==> (e.ok <==> !Offered(events, e.key))
  {
    forall v: int
      ensures Offered(events + [e], v) <==> Offered(events, v) || (e.Offer? && e.key == v)
    {
      OfferedNext(events, e, v);
    }
    match e
    case Offer(v, ok) =>
      WithinIsComparable(t, events, v);
      InsertKeepsOrder(t, v);
      if ok {
        InsertedKeys(InOrder(t), v, InOrder(t'));
      }
    case Rotated => RotationKeepsOrder(t, t');
  }

  /**
   Over any run whose keys differ by at most an `int`, whatever rotations
   happen, the tree holds exactly the keys offered, in order.
   */
  lemma {:induction false} RunHoldsOffered(trees: seq<Tree>, events: seq<Event>)
    requires IsRun(trees, events) && AllWithin(events)
    ensures HoldsOffered(trees[|events|], events)
    decreases |events|
  {
    if events == [] {
      assert forall v: int :: !Offered(events, v);
    } else {
      var n := |events| - 1;
      var init, e := events[..n], events[n];
      assert init + [e] == events;
      AllWithinPrefix(init, e);
      RunHoldsOffered(trees[..n + 1], init);
      assert Step(trees[n], e, trees[n + 1]);
      StepHoldsOffered(trees[n], init, e, trees[n + 1]);
    }
  }

  /** In such a run insert returns false exactly on a key offered before. */
  lemma RunRefusesRepeats(trees: seq<Tree>, events: seq<Event>, i: nat)
    requires IsRun(trees, events) && AllWithin(events) && i < |events| && events[i].Offer?
    ensures events[i].ok <==> !Offered(events[..i], events[i].key)
  {
    WithinOfPrefix(events, i + 1);
    assert events[..i + 1] == events[..i] + [events[i]];
    AllWithinPrefix(events[..i], events[i]);
    RunHoldsOffered(trees[..i + 1], events[..i]);
    assert Step(trees[i], events[i], trees[i + 1]);
    StepHoldsOffered(trees[i], events[..i], events[i], trees[i + 1]);
  }

  lemma WithinOfPrefix(events: seq<Event>, i: nat)
    requires AllWithin(events) && i <= |events|
    ensures AllWithin(events[..i])
  {
    forall v: int
      ensures Offered(events[..i], v) ==> Offered(events, v)
    {
      if k :| OfferAt(events[..i], k, v) {
        assert OfferAt(events, k, v);
      }
    }
  }

  /** After such a run search finds exactly the keys offered. */
  lemma RunSearchFinds(trees: seq<Tree>, events: seq<Event>, v: Int)
    requires IsRun(trees, events) && AllWithin(events) && Within(events, v)
    ensures Found(trees[|events|], v) <==> Offered(events, v)
  {
    RunHoldsOffered(trees, events);
    WithinIsComparable(trees[|events|], events, v);
    FoundIff(trees[|events|], v);
  }

  // ----- exactly which keys are safe

  ghost predicate DrawnFrom(events: seq<Event>, keys: set<Int>) {
    forall i :: 0 <= i < |events| && events[i].Offer? ==> events[i].key in keys
  }

  /** Whatever is offered from these keys, in whatever order and under whatever rotations, the walk is in order. */
  ghost predicate AlwaysOrdered(keys: set<Int>) {
    forall trees, events :: IsRun(trees, events) && DrawnFrom(events, keys) ==> Increasing(InOrder(trees[|events|]))
  }

  ghost predicate Close(keys: set<Int>) {
    forall a, b :: a in keys && b in keys ==> INT_MIN <= b as int - a as int <= INT_MAX
  }

  lemma CloseIsWithin(events: seq<Event>, keys: set<Int>)
    requires DrawnFrom(events, keys) && Close(keys)
    ensures AllWithin(events)
  {
    forall v: int, w: int | Offered(events, v) && Offered(events, w)
      ensures INT_MIN <= v - w <= INT_MAX
    {
      var i :| OfferAt(events, i, v);
      var j :| OfferAt(events, j, w);
      assert events[i].key in keys && events[j].key in keys;
    }
  }

  lemma TwoKeyRun(a: Int, b: Int, keys: set<Int>)
    requires a in keys && b in keys && a != b && AlwaysOrdered(keys)
    ensures INT_MIN <= b as int - a as int <= INT_MAX
  {
    var (one, ok) := InsertInto(Leaf, a);
    var (two, ok') := InsertInto(one, b);
    var trees, events := [Leaf, one, two], [Offer(a, ok), Offer(b, ok')];
    assert IsRun(trees, events) && DrawnFrom(events, keys);
    assert Increasing(InOrder(trees[|events|]));
    TwoKeysInOrderIff(a, b);
  }

  /** A set of keys always ends up in order if and only if every two of them differ by an `int`. */
  lemma AlwaysOrderedIff(keys: set<Int>)
    ensures AlwaysOrdered(keys) <==> Close(keys)
  {
    if Close(keys) {
      forall trees, events | IsRun(trees, events) && DrawnFrom(events, keys)
        ensures Increasing(InOrder(trees[|events|]))
      {
        CloseIsWithin(events, keys);
        RunHoldsOffered(trees, events);
      }
    }
    if AlwaysOrdered(keys) {
      forall a, b | a in keys && b in keys
        ensures INT_MIN <= b as int - a as int <= INT_MAX
      {
        if a != b {
          TwoKeyRun(a, b, keys);
        }
      }
    }
  }
}
