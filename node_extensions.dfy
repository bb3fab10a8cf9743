/**
  Typed child collection and strict node lookup on the scene tree.

  A node is a value: the name of its runtime class and its children in
  order. The type argument `T` of `GetChildren<T>` is the set of class names
  for which `child is T` holds (T itself and every class derived from it).
*/
module NodeExtensions {
  import opened Wrappers

  datatype Node = Node(className: string, children: seq<Node>)

  /** The classes a type test `is T` accepts. */
  type TypeFilter = set<string>

  predicate IsOfType(n: Node, t: TypeFilter) {
    n.className in t
  }

  // ----- What GetChildren<T> builds -----

  /**
    The list GetChildren<T> has built after the first `k` children: for each
    child, the child itself when it is a `T`, then (when `recursive`) what the
    recursive call gives for that child.
  */
  function Listing(node: Node, t: TypeFilter, recursive: bool, k: nat): (list: seq<Node>)
    requires k <= |node.children|
    decreases node, k
  {
    if k == 0 then []
    else
      var child := node.children[k - 1];
      Listing(node, t, recursive, k - 1)
      + (if IsOfType(child, t) then [child] else [])
      + (if recursive then Listing(child, t, recursive, |child.children|) else [])
  }

  function ChildrenOfType(node: Node, t: TypeFilter, recursive: bool): (list: seq<Node>) {
    Listing(node, t, recursive, |node.children|)
  }

  /**
    GetChildren<T>: walks the children in order, adding each one that is a `T`
    and, when `recursive`, everything the same call gives for that child.
    The tree is a value, so it is only read.
  */
  method GetChildren(node: Node, t: TypeFilter, recursive: bool) returns (list: seq<Node>)
    ensures list == ChildrenOfType(node, t, recursive)
    ensures forall x :: x in list ==> IsOfType(x, t)
    ensures !recursive ==> list == Filter(node.children, t)
    ensures node !in list
    decreases node
  {
    list := [];
    for i := 0 to |node.children|
      invariant list == Listing(node, t, recursive, i)
    {
      var child := node.children[i];
      if IsOfType(child, t) {
        list := list + [child];
      }
      if recursive {
        var sub := GetChildren(child, t, recursive);
        list := list + sub;
      }
    }
    ListingOfType(node, t, recursive, |node.children|);
    if !recursive {
      NonRecursiveIsFilter(node, t);
    }
    StartNodeExcluded(node, t, recursive);
  }

  /** The null-reference error GetNodeStrict<T> raises, naming the path. */
  datatype NodeError = NodeNotFound(path: string)

  /**
    GetNodeStrict<T>: the node `getNode` (the engine's GetNode<T>) finds at
    `path`, or the error when it finds none.
  */
  function GetNodeStrict(node: Node, path: string, getNode: (Node, string) -> Option<Node>)
    : (r: Result<Node, NodeError>)
    ensures r.Failure? <==> getNode(node, path).None?
    ensures r.Failure? ==> r.error == NodeNotFound(path)
    ensures r.Success? ==> Some(r.value) == getNode(node, path)
  {
    match getNode(node, path)
    case Some(found) => Success(found)
    case None => Failure(NodeNotFound(path))
  }

  // ----- Reference definitions -----

  /** The nodes of `nodes` that are a `T`, in order. */
  function Filter(nodes: seq<Node>, t: TypeFilter): (kept: seq<Node>) {
    if nodes == [] then []
    else (if IsOfType(nodes[0], t) then [nodes[0]] else []) + Filter(nodes[1..], t)
  }

  /** The number of nodes in the subtrees of the first `k` children. */
  function SubtreeSize(node: Node, k: nat): (size: nat)
    requires k <= |node.children|
    decreases node, k
  {
    if k == 0 then 0
    else
      var child := node.children[k - 1];
      SubtreeSize(node, k - 1) + 1 + SubtreeSize(child, |child.children|)
  }

  /** The number of descendants of `node`. */
  function DescendantCount(node: Node): (count: nat) {
    SubtreeSize(node, |node.children|)
  }

  /** A path is the list of child indices leading from a node down to a descendant. */
  type Path = seq<nat>

  /** The node at the end of `p`, if every index on the way exists. */
  function Subtree(node: Node, p: Path): (found: Option<Node>)
    decreases |p|
  {
    if p == [] then Some(node)
    else if p[0] < |node.children| then Subtree(node.children[p[0]], p[1..])
    else None
  }

  /** The paths `ps`, each prefixed with the child index `i`. */
  function Under(i: nat, ps: seq<Path>): (r: seq<Path>)
    ensures |r| == |ps|
    ensures forall j :: 0 <= j < |ps| ==> r[j] == [i] + ps[j]
  {
    seq(|ps|, j requires 0 <= j < |ps| => [i] + ps[j])
  }

  /** The paths to the descendants in the subtrees of the first `k` children, in pre-order. */
  function PathsUpTo(node: Node, k: nat): (ps: seq<Path>)
    requires k <= |node.children|
    decreases node, k
  {
    if k == 0 then []
    else
      var child := node.children[k - 1];
      PathsUpTo(node, k - 1) + [[k - 1]] + Under(k - 1, PathsUpTo(child, |child.children|))
  }

  /** The paths to all descendants, in pre-order. */
  function Paths(node: Node): (ps: seq<Path>) {
    PathsUpTo(node, |node.children|)
  }

  predicate PathMatches(node: Node, p: Path, t: TypeFilter) {
    Subtree(node, p).Some? && IsOfType(Subtree(node, p).value, t)
  }

  /** The paths of `ps` that lead to a `T`, in order. */
  function KeepMatching(node: Node, ps: seq<Path>, t: TypeFilter): (kept: seq<Path>) {
    if ps == [] then []
    else (if PathMatches(node, ps[0], t) then [ps[0]] else []) + KeepMatching(node, ps[1..], t)
  }

  /** The paths to the descendants that are a `T`, in pre-order. */
  function MatchingPaths(node: Node, t: TypeFilter): (ps: seq<Path>) {
    KeepMatching(node, Paths(node), t)
  }

  /** The nodes at the ends of the paths `ps`, in order (paths that lead nowhere give nothing). */
  function NodesAt(node: Node, ps: seq<Path>): (nodes: seq<Node>) {
    if ps == [] then []
    else
      (match Subtree(node, ps[0]) case Some(n) => [n] case None => []) + NodesAt(node, ps[1..])
  }

  ghost predicate NoDuplicates<X>(s: seq<X>) {
    forall a, b :: 0 <= a < b < |s| ==> s[a] != s[b]
  }

  /**
    `p` comes before `q` in pre-order: `p` is a proper prefix of `q`, or the
    first child index where they differ is smaller in `p`.
  */
  predicate PreorderBefore(p: Path, q: Path)
    decreases |p|
  {
    if p == [] then q != []
    else q != [] && (p[0] < q[0] || (p[0] == q[0] && PreorderBefore(p[1..], q[1..])))
  }

  /** Every path of `s` comes before every later one in pre-order. */
  ghost predicate InPreorder(s: seq<Path>) {
    forall a, b :: 0 <= a < b < |s| ==> PreorderBefore(s[a], s[b])
  }

  /** The elements of `b` that `mask` keeps, in order. */
  function Select<X>(b: seq<X>, mask: seq<bool>): (kept: seq<X>)
    requires |mask| == |b|
  {
    if b == [] then []
    else (if mask[0] then [b[0]] else []) + Select(b[1..], mask[1..])
  }

  /** `a` is `b` with some elements left out, the rest in the same order. */
  ghost predicate IsSubsequence<X>(a: seq<X>, b: seq<X>) {
    exists mask: seq<bool> :: |mask| == |b| && Select(b, mask) == a
  }

  // ----- Properties -----

  /** Every node GetChildren<T> lists is a `T`. */
  lemma {:induction false} ListingOfType(node: Node, t: TypeFilter, recursive: bool, k: nat)
    requires k <= |node.children|
    ensures forall x :: x in Listing(node, t, recursive, k) ==> IsOfType(x, t)
    decreases node, k
  {
    if k > 0 {
      var child := node.children[k - 1];
      ListingOfType(node, t, recursive, k - 1);
      if recursive {
        ListingOfType(child, t, recursive, |child.children|);
      }
    }
  }

  lemma {:induction false} FilterAppend(a: seq<Node>, b: seq<Node>, t: TypeFilter)
    ensures Filter(a + b, t) == Filter(a, t) + Filter(b, t)
  {
    if a != [] {
      assert (a + b)[0] == a[0] && (a + b)[1..] == a[1..] + b;
      FilterAppend(a[1..], b, t);
    } else {
      assert a + b == b;
    }
  }

  lemma {:induction false} NonRecursivePrefix(node: Node, t: TypeFilter, k: nat)
    requires k <= |node.children|
    ensures Listing(node, t, false, k) == Filter(node.children[..k], t)
  {
    if k > 0 {
      var child := node.children[k - 1];
      NonRecursivePrefix(node, t, k - 1);
      assert node.children[..k] == node.children[..k - 1] + [child];
      FilterAppend(node.children[..k - 1], [child], t);
    }
  }

  /** Without `recursive`, the result is exactly the direct children that are a `T`, in child order. */
  lemma NonRecursiveIsFilter(node: Node, t: TypeFilter)
    ensures ChildrenOfType(node, t, false) == Filter(node.children, t)
  {
    NonRecursivePrefix(node, t, |node.children|);
    assert node.children[..|node.children|] == node.children;
  }

  /** A node is in the filter of `nodes` exactly when it is one of them and a `T`. */
  lemma {:induction false} FilterMembership(nodes: seq<Node>, t: TypeFilter, x: Node)
    ensures x in Filter(nodes, t) <==> x in nodes && IsOfType(x, t)
  {
    if nodes != [] {
      FilterMembership(nodes[1..], t, x);
      assert nodes == [nodes[0]] + nodes[1..];
    }
  }

  lemma {:induction false} ListingBelow(node: Node, t: TypeFilter, recursive: bool, k: nat, x: Node)
    requires k <= |node.children|
    requires x in Listing(node, t, recursive, k)
    ensures DescendantCount(x) < SubtreeSize(node, k)
    decreases node, k
  {
    var child := node.children[k - 1];
    if x in Listing(node, t, recursive, k - 1) {
      ListingBelow(node, t, recursive, k - 1, x);
    } else if x != child {
      ListingBelow(child, t, recursive, |child.children|, x);
    }
  }

  /** The starting node is never in its own listing. */
  lemma StartNodeExcluded(node: Node, t: TypeFilter, recursive: bool)
    ensures node !in ChildrenOfType(node, t, recursive)
  {
    if node in ChildrenOfType(node, t, recursive) {
      ListingBelow(node, t, recursive, |node.children|, node);
    }
  }

  lemma {:induction false} ListingLength(node: Node, t: TypeFilter, recursive: bool, k: nat)
    requires k <= |node.children|
    ensures !recursive ==> |Listing(node, t, recursive, k)| <= k
    ensures |Listing(node, t, recursive, k)| <= SubtreeSize(node, k)
    decreases node, k
  {
    if k > 0 {
      var child := node.children[k - 1];
      ListingLength(node, t, recursive, k - 1);
      if recursive {
        ListingLength(child, t, recursive, |child.children|);
      }
    }
  }

  /**
    The result has at most as many nodes as there are children (without
    `recursive`) or descendants (with it).
  */
  lemma ResultLength(node: Node, t: TypeFilter)
    ensures |ChildrenOfType(node, t, false)| <= |node.children|
    ensures |ChildrenOfType(node, t, true)| <= DescendantCount(node)
  {
    ListingLength(node, t, false, |node.children|);
    ListingLength(node, t, true, |node.children|);
  }

  lemma {:induction false} SelectAppend<X>(b1: seq<X>, m1: seq<bool>, b2: seq<X>, m2: seq<bool>)
    requires |m1| == |b1| && |m2| == |b2|
    ensures Select(b1 + b2, m1 + m2) == Select(b1, m1) + Select(b2, m2)
  {
    if b1 != [] {
      assert (b1 + b2)[0] == b1[0] && (b1 + b2)[1..] == b1[1..] + b2;
      assert (m1 + m2)[0] == m1[0] && (m1 + m2)[1..] == m1[1..] + m2;
      SelectAppend(b1[1..], m1[1..], b2, m2);
    } else {
      assert b1 + b2 == b2 && m1 + m2 == m2;
    }
  }

  lemma {:induction false} SelectNone<X>(b: seq<X>, mask: seq<bool>)
    requires |mask| == |b|
    requires forall j :: 0 <= j < |mask| ==> !mask[j]
    ensures Select(b, mask) == []
  {
    if b != [] {
      SelectNone(b[1..], mask[1..]);
    }
  }

  lemma {:induction false} SelectAll<X>(b: seq<X>, mask: seq<bool>)
    requires |mask| == |b|
    requires forall j :: 0 <= j < |mask| ==> mask[j]
    ensures Select(b, mask) == b
  {
    if b != [] {
      SelectAll(b[1..], mask[1..]);
    }
  }

  /** A mask that picks the non-recursive listing out of the recursive one. */
  lemma {:induction false} NonRecursiveMask(node: Node, t: TypeFilter, k: nat) returns (mask: seq<bool>)
    requires k <= |node.children|
    ensures |mask| == |Listing(node, t, true, k)|
    ensures Select(Listing(node, t, true, k), mask) == Listing(node, t, false, k)
  {
    if k == 0 {
      mask := [];
    } else {
      var child := node.children[k - 1];
      var m := NonRecursiveMask(node, t, k - 1);
      var own: seq<Node> := if IsOfType(child, t) then [child] else [];
      var ownMask := seq(|own|, j => true);
      var sub := Listing(child, t, true, |child.children|);
      var subMask := seq(|sub|, j => false);
      SelectAll(own, ownMask);
      SelectNone(sub, subMask);
      SelectAppend(Listing(node, t, true, k - 1), m, own, ownMask);
      SelectAppend(Listing(node, t, true, k - 1) + own, m + ownMask, sub, subMask);
      mask := m + ownMask + subMask;
    }
  }

  /** The non-recursive result is a subsequence of the recursive one. */
  lemma NonRecursiveIsSubsequence(node: Node, t: TypeFilter)
    ensures IsSubsequence(ChildrenOfType(node, t, false), ChildrenOfType(node, t, true))
  {
    var mask := NonRecursiveMask(node, t, |node.children|);
    assert Select(ChildrenOfType(node, t, true), mask) == ChildrenOfType(node, t, false);
  }

  // ----- Paths: every matching descendant exactly once, in pre-order -----

  lemma {:induction false} UnderMembership(i: nat, ps: seq<Path>, x: Path)
    ensures x in Under(i, ps) <==> |x| > 0 && x[0] == i && x[1..] in ps
  {
    if x in Under(i, ps) {
      var j :| 0 <= j < |ps| && Under(i, ps)[j] == x;
      assert x[1..] == ps[j];
    }
    if |x| > 0 && x[0] == i && x[1..] in ps {
      var j :| 0 <= j < |ps| && ps[j] == x[1..];
      assert Under(i, ps)[j] == x;
    }
  }

  /** A path is listed exactly when it is non-empty and leads to a node. */
  lemma {:induction false} PathsUpToMembership(node: Node, k: nat, p: Path)
    requires k <= |node.children|
    ensures p in PathsUpTo(node, k) <==> p != [] && p[0] < k && Subtree(node, p).Some?
    decreases node, k
  {
    if k > 0 {
      var child := node.children[k - 1];
      var rest := PathsUpTo(child, |child.children|);
      PathsUpToMembership(node, k - 1, p);
      UnderMembership(k - 1, rest, p);
      if p != [] && p[0] == k - 1 {
        PathsUpToMembership(child, |child.children|, p[1..]);
        assert Subtree(node, p) == Subtree(child, p[1..]);
        if p[1..] == [] {
          assert p == [k - 1];
        }
      }
    }
  }

  lemma {:induction false} NoDuplicatesAppend<X>(a: seq<X>, b: seq<X>)
    requires NoDuplicates(a) && NoDuplicates(b)
    requires forall x :: x in a ==> x !in b
    ensures NoDuplicates(a + b)
  {
    forall i, j | 0 <= i < j < |a + b|
      ensures (a + b)[i] != (a + b)[j]
    {
      if i < |a| && j >= |a| {
        assert (a + b)[i] in a;
        assert (a + b)[j] == b[j - |a|];
      }
    }
  }

  lemma {:induction false} PathsUpToNoDuplicates(node: Node, k: nat)
    requires k <= |node.children|
    ensures NoDuplicates(PathsUpTo(node, k))
    decreases node, k
  {
    if k > 0 {
      var child := node.children[k - 1];
      var rest := PathsUpTo(child, |child.children|);
      var under := Under(k - 1, rest);
      PathsUpToNoDuplicates(node, k - 1);
      PathsUpToNoDuplicates(child, |child.children|);
      forall a, b | 0 <= a < b < |under|
        ensures under[a] != under[b]
      {
        assert under[a][1..] == rest[a];
        assert under[b][1..] == rest[b];
      }
      forall x | x in under
        ensures x != [k - 1]
      {
        UnderMembership(k - 1, rest, x);
        PathsUpToMembership(child, |child.children|, x[1..]);
      }
      NoDuplicatesAppend([[k - 1]], under);
      var before := PathsUpTo(node, k - 1);
      forall j | 0 <= j < |before|
        ensures before[j] !in [[k - 1]] + under
      {
        PathsUpToMembership(node, k - 1, before[j]);
        UnderMembership(k - 1, rest, before[j]);
      }
      NoDuplicatesAppend(PathsUpTo(node, k - 1), [[k - 1]] + under);
      assert PathsUpTo(node, k) == PathsUpTo(node, k - 1) + ([[k - 1]] + under);
    }
  }

  lemma {:induction false} KeepMatchingAppend(node: Node, a: seq<Path>, b: seq<Path>, t: TypeFilter)
    ensures KeepMatching(node, a + b, t) == KeepMatching(node, a, t) + KeepMatching(node, b, t)
  {
    if a != [] {
      assert (a + b)[0] == a[0] && (a + b)[1..] == a[1..] + b;
      KeepMatchingAppend(node, a[1..], b, t);
    } else {
      assert a + b == b;
    }
  }

  lemma {:induction false} NodesAtAppend(node: Node, a: seq<Path>, b: seq<Path>)
    ensures NodesAt(node, a + b) == NodesAt(node, a) + NodesAt(node, b)
  {
    if a != [] {
      assert (a + b)[0] == a[0] && (a + b)[1..] == a[1..] + b;
      NodesAtAppend(node, a[1..], b);
    } else {
      assert a + b == b;
    }
  }

  lemma {:induction false} KeepMatchingUnder(node: Node, i: nat, ps: seq<Path>, t: TypeFilter)
    requires i < |node.children|
    ensures KeepMatching(node, Under(i, ps), t) == Under(i, KeepMatching(node.children[i], ps, t))
  {
    if ps != [] {
      assert Under(i, ps)[1..] == Under(i, ps[1..]);
      assert Subtree(node, [i] + ps[0]) == Subtree(node.children[i], ps[0]);
      KeepMatchingUnder(node, i, ps[1..], t);
      var head := if PathMatches(node.children[i], ps[0], t) then [ps[0]] else [];
      assert Under(i, head + KeepMatching(node.children[i], ps[1..], t))
          == Under(i, head) + Under(i, KeepMatching(node.children[i], ps[1..], t));
    }
  }

  lemma {:induction false} NodesAtUnder(node: Node, i: nat, ps: seq<Path>)
    requires i < |node.children|
    ensures NodesAt(node, Under(i, ps)) == NodesAt(node.children[i], ps)
  {
    if ps != [] {
      assert Under(i, ps)[1..] == Under(i, ps[1..]);
      assert Subtree(node, [i] + ps[0]) == Subtree(node.children[i], ps[0]);
      NodesAtUnder(node, i, ps[1..]);
    }
  }

  lemma {:induction false} RecursiveListingAlongPaths(node: Node, t: TypeFilter, k: nat)
    requires k <= |node.children|
    ensures Listing(node, t, true, k) == NodesAt(node, KeepMatching(node, PathsUpTo(node, k), t))
    decreases node, k
  {
    if k > 0 {
      var child := node.children[k - 1];
      var before := PathsUpTo(node, k - 1);
      var rest := PathsUpTo(child, |child.children|);
      RecursiveListingAlongPaths(node, t, k - 1);
      RecursiveListingAlongPaths(child, t, |child.children|);
      var want := KeepMatching(node, before, t);
      var own := KeepMatching(node, [[k - 1]], t);
      var sub := KeepMatching(node, Under(k - 1, rest), t);
      assert KeepMatching(node, PathsUpTo(node, k), t) == want + own + sub by {
        KeepMatchingAppend(node, before, [[k - 1]], t);
        KeepMatchingAppend(node, before + [[k - 1]], Under(k - 1, rest), t);
      }
      assert NodesAt(node, own) == if IsOfType(child, t) then [child] else [] by {
        assert [k - 1][1..] == [];
        assert Subtree(node, [k - 1]) == Some(child);
        assert [[k - 1]][1..] == [];
        assert KeepMatching(node, [[k - 1]][1..], t) == [];
        assert own == if IsOfType(child, t) then [[k - 1]] else [];
      }
      assert NodesAt(node, sub) == Listing(child, t, true, |child.children|) by {
        KeepMatchingUnder(node, k - 1, rest, t);
        NodesAtUnder(node, k - 1, KeepMatching(child, rest, t));
      }
      NodesAtAppend(node, want, own);
      NodesAtAppend(node, want + own, sub);
    }
  }

  lemma {:induction false} KeepMatchingMembership(node: Node, ps: seq<Path>, t: TypeFilter, p: Path)
    ensures p in KeepMatching(node, ps, t) <==> p in ps && PathMatches(node, p, t)
  {
    if ps != [] {
      KeepMatchingMembership(node, ps[1..], t, p);
      assert ps == [ps[0]] + ps[1..];
    }
  }

  lemma {:induction false} KeepMatchingNoDuplicates(node: Node, ps: seq<Path>, t: TypeFilter)
    requires NoDuplicates(ps)
    ensures NoDuplicates(KeepMatching(node, ps, t))
  {
    if ps != [] {
      var tail := KeepMatching(node, ps[1..], t);
      KeepMatchingNoDuplicates(node, ps[1..], t);
      KeepMatchingMembership(node, ps[1..], t, ps[0]);
      var head := if PathMatches(node, ps[0], t) then [ps[0]] else [];
      NoDuplicatesAppend(head, tail);
    }
  }

  lemma {:induction false} InPreorderAppend(a: seq<Path>, b: seq<Path>)
    requires InPreorder(a) && InPreorder(b)
    requires forall i, j :: 0 <= i < |a| && 0 <= j < |b| ==> PreorderBefore(a[i], b[j])
    ensures InPreorder(a + b)
  {
  }

  lemma {:induction false} PathsUpToInPreorder(node: Node, k: nat)
    requires k <= |node.children|
    ensures InPreorder(PathsUpTo(node, k))
    decreases node, k
  {
    if k > 0 {
      var child := node.children[k - 1];
      var before := PathsUpTo(node, k - 1);
      var rest := PathsUpTo(child, |child.children|);
      var under := Under(k - 1, rest);
      PathsUpToInPreorder(node, k - 1);
      PathsUpToInPreorder(child, |child.children|);
      forall a, b | 0 <= a < b < |under|
        ensures PreorderBefore(under[a], under[b])
      {
        assert under[a][1..] == rest[a] && under[b][1..] == rest[b];
      }
      forall j | 0 <= j < |under|
        ensures PreorderBefore([k - 1], under[j])
      {
        PathsUpToMembership(child, |child.children|, rest[j]);
        assert under[j][1..] == rest[j];
        assert [k - 1][1..] == [];
      }
      InPreorderAppend([[k - 1]], under);
      var block := [[k - 1]] + under;
      forall i, j | 0 <= i < |before| && 0 <= j < |block|
        ensures PreorderBefore(before[i], block[j])
      {
        PathsUpToMembership(node, k - 1, before[i]);
        if j > 0 {
          assert block[j] == under[j - 1];
          UnderMembership(k - 1, rest, under[j - 1]);
        }
      }
      InPreorderAppend(before, block);
      assert PathsUpTo(node, k) == before + block;
    }
  }

  lemma {:induction false} KeepMatchingInPreorder(node: Node, ps: seq<Path>, t: TypeFilter)
    requires InPreorder(ps)
    ensures InPreorder(KeepMatching(node, ps, t))
  {
    if ps != [] {
      var tail := KeepMatching(node, ps[1..], t);
      assert InPreorder(ps[1..]) by {
        forall a, b | 0 <= a < b < |ps[1..]|
          ensures PreorderBefore(ps[1..][a], ps[1..][b])
        {
          assert ps[1..][a] == ps[a + 1] && ps[1..][b] == ps[b + 1];
        }
      }
      KeepMatchingInPreorder(node, ps[1..], t);
      var head := if PathMatches(node, ps[0], t) then [ps[0]] else [];
      forall i, j | 0 <= i < |head| && 0 <= j < |tail|
        ensures PreorderBefore(head[i], tail[j])
      {
        KeepMatchingMembership(node, ps[1..], t, tail[j]);
        var m :| 0 <= m < |ps[1..]| && ps[1..][m] == tail[j];
        assert ps[m + 1] == tail[j];
      }
      InPreorderAppend(head, tail);
    }
  }

  /**
    The paths to the descendants, in pre-order: each one comes before every
    later one in pre-order, each path that leads from the node to a
    descendant appears once, and nothing else appears.
  */
  lemma DescendantPaths(node: Node)
    ensures InPreorder(Paths(node))
    ensures NoDuplicates(Paths(node))
    ensures forall p :: p in Paths(node) <==> p != [] && Subtree(node, p).Some?
  {
    PathsUpToInPreorder(node, |node.children|);
    PathsUpToNoDuplicates(node, |node.children|);
    forall p
      ensures p in Paths(node) <==> p != [] && Subtree(node, p).Some?
    {
      PathsUpToMembership(node, |node.children|, p);
    }
  }

  /**
    With `recursive`, the result is the nodes at the matching paths in
    pre-order; every path to a descendant that is a `T` is among them exactly
    once, and the starting node (the empty path) is not.
  */
  lemma RecursiveListsEachMatchOnce(node: Node, t: TypeFilter)
    ensures ChildrenOfType(node, t, true) == NodesAt(node, MatchingPaths(node, t))
    ensures NoDuplicates(MatchingPaths(node, t))
    ensures InPreorder(MatchingPaths(node, t))
    ensures forall p :: p in MatchingPaths(node, t) <==> p != [] && PathMatches(node, p, t)
  {
    RecursiveListingAlongPaths(node, t, |node.children|);
    DescendantPaths(node);
    KeepMatchingNoDuplicates(node, Paths(node), t);
    KeepMatchingInPreorder(node, Paths(node), t);
    forall p
      ensures p in MatchingPaths(node, t) <==> p != [] && PathMatches(node, p, t)
    {
      KeepMatchingMembership(node, Paths(node), t, p);
    }
  }
}
