/** The document tree as a value, and the DOM mutation algorithms that the
    element mover relies on: "pre-insert" (behind `insertBefore` and
    `appendChild`) and "remove", as section 4.2.3 "Mutation algorithms" of
    the WHATWG DOM Living Standard defines them. Only element nodes occur. */
module DomTree {
  import opened Seqs

  /** A node is known by its identity. */
  type Node = nat

  /** The exceptions the mover can run into: a property read on `null`
      (a reference node without a parent, a missing element), and the two
      the DOM throws from pre-insert. */
  datatype DomError = TypeError | NotFoundError | HierarchyRequestError

  datatype Result<+T> = Ok(value: T) | Err(error: DomError)

  /** Every node of the document (attached or not) has a child list; attached
      nodes have a parent; attributes are keyed by node and name. */
  datatype Tree = Tree(
    children: map<Node, seq<Node>>,
    parent: map<Node, Node>,
    attributes: map<(Node, string), string>)

  /** The child lists and the parent map describe the same tree edges, and no
      child list holds a node twice. */
  ghost predicate Valid(t: Tree) {
    && (forall n | n in t.parent ::
          n in t.children && t.parent[n] in t.children && n in t.children[t.parent[n]])
    && (forall p, c | p in t.children && c in t.children[p] :: c in t.parent && t.parent[c] == p)
    && (forall p | p in t.children :: Distinct(t.children[p]))
  }

  /** An operation's effect on a piece of state: on success the state becomes
      the computed one and no error is reported; on failure the state is left
      as it was and the error is reported. */
  predicate Committed<T(==)>(r: Result<T>, before: T, after: T, err: Option<DomError>) {
    match r
    case Ok(v) => err == None && after == v
    case Err(e) => err == Some(e) && after == before
  }

  function ParentOf(t: Tree, n: Node): Option<Node> {
    if n in t.parent then Some(t.parent[n]) else None
  }

  function NextSibling(t: Tree, n: Node): Option<Node> {
    if n in t.parent && t.parent[n] in t.children then Next(t.children[t.parent[n]], n) else None
  }

  function FirstChild(t: Tree, p: Node): Option<Node> {
    if p in t.children then First(t.children[p]) else None
  }

  function LastChild(t: Tree, p: Node): Option<Node> {
    if p in t.children then Last(t.children[p]) else None
  }

  /** `n` and its ancestors, following at most `fuel` parent links. */
  function InclusiveAncestors(t: Tree, n: Node, fuel: nat): set<Node>
    decreases fuel
  {
    {n} + if fuel > 0 && n in t.parent then InclusiveAncestors(t, t.parent[n], fuel - 1) else {}
  }

  /** `a` is `n` or one of its ancestors. On an acyclic tree a chain of parent
      links visits every parented node at most once, so `|t.parent|` links
      reach the root. */
  predicate IsInclusiveAncestor(t: Tree, a: Node, n: Node) {
    a in InclusiveAncestors(t, n, |t.parent|)
  }

  /** A child's parent is in the tree, and a node's successor is a child of
      the same parent, distinct from the node. */
  lemma ChildFacts(t: Tree, n: Node)
    requires Valid(t)
    ensures ParentOf(t, n).Some? ==> ParentOf(t, n).value in t.children
    ensures NextSibling(t, n).Some? ==>
      NextSibling(t, n).value != n && ParentOf(t, NextSibling(t, n).value) == ParentOf(t, n)
    ensures FirstChild(t, n).Some? ==> ParentOf(t, FirstChild(t, n).value) == Some(n)
  {
    if NextSibling(t, n).Some? {
      var s := t.children[t.parent[n]];
      var i := IndexOf(s, n);
      assert s[i + 1] in s;
    }
    if FirstChild(t, n).Some? {
      assert t.children[n][0] in t.children[n];
    }
  }

  /** The "remove" algorithm: `n` leaves its parent's child list. */
  function Detach(t: Tree, n: Node): (r: Tree)
    requires Valid(t)
    ensures Valid(r) && n !in r.parent
    ensures r.children.Keys == t.children.Keys && r.attributes == t.attributes
    ensures forall q | q in t.children :: r.children[q] == Delete(t.children[q], n)
    ensures forall m | m != n :: ParentOf(r, m) == ParentOf(t, m)
  {
    if n in t.parent then
      var p := t.parent[n];
      DetachedValid(t, n);
      Tree(t.children[p := Delete(t.children[p], n)], t.parent - {n}, t.attributes)
    else
      t
  }

  lemma DetachedValid(t: Tree, n: Node)
    requires Valid(t) && n in t.parent
    ensures var p := t.parent[n];
      Valid(Tree(t.children[p := Delete(t.children[p], n)], t.parent - {n}, t.attributes))
  {
    var p := t.parent[n];
    var r := Tree(t.children[p := Delete(t.children[p], n)], t.parent - {n}, t.attributes);
    DetachedParents(t, n);
    DetachedChildren(t, n);
    forall q | q in r.children
      ensures Distinct(r.children[q])
    {
      if q == p {
        DeleteMembers(t.children[p], n);
      }
    }
  }

  lemma DetachedParents(t: Tree, n: Node)
    requires Valid(t) && n in t.parent
    ensures var p := t.parent[n];
      var r := Tree(t.children[p := Delete(t.children[p], n)], t.parent - {n}, t.attributes);
      forall m | m in r.parent :: m in r.children && r.parent[m] in r.children && m in r.children[r.parent[m]]
  {
    var p := t.parent[n];
    DeleteMembers(t.children[p], n);
  }

  lemma DetachedChildren(t: Tree, n: Node)
    requires Valid(t) && n in t.parent
    ensures var p := t.parent[n];
      var r := Tree(t.children[p := Delete(t.children[p], n)], t.parent - {n}, t.attributes);
      forall q, c | q in r.children && c in r.children[q] :: c in r.parent && r.parent[c] == q
  {
    var p := t.parent[n];
    var r := Tree(t.children[p := Delete(t.children[p], n)], t.parent - {n}, t.attributes);
    forall q, c | q in r.children && c in r.children[q]
      ensures c in r.parent && r.parent[c] == q
    {
      if q == p {
        DeleteMembers(t.children[p], n);
        assert c in t.children[p] && c != n;
      } else {
        assert c in t.children[q];
      }
    }
  }


  /** Puts a parentless `n` at position `i` of `p`'s child list. */
  function InsertChild(t: Tree, p: Node, n: Node, i: nat): (r: Tree)
    requires Valid(t) && p in t.children && n in t.children && n !in t.parent
    requires i <= |t.children[p]|
    ensures Valid(r)
    ensures r.children.Keys == t.children.Keys && r.attributes == t.attributes
    ensures r.children[p] == Insert(t.children[p], i, n)
    ensures forall q | q in t.children && q != p :: r.children[q] == t.children[q]
    ensures ParentOf(r, n) == Some(p) && forall m | m != n :: ParentOf(r, m) == ParentOf(t, m)
  {
    InsertedValid(t, p, n, i);
    Tree(t.children[p := Insert(t.children[p], i, n)], t.parent[n := p], t.attributes)
  }

  lemma InsertedValid(t: Tree, p: Node, n: Node, i: nat)
    requires Valid(t) && p in t.children && n in t.children && n !in t.parent
    requires i <= |t.children[p]|
    ensures Valid(Tree(t.children[p := Insert(t.children[p], i, n)], t.parent[n := p], t.attributes))
  {
    InsertMembers(t.children[p], i, n);
    var r := Tree(t.children[p := Insert(t.children[p], i, n)], t.parent[n := p], t.attributes);
    forall m | m in r.parent
      ensures m in r.children && r.parent[m] in r.children && m in r.children[r.parent[m]]
    {
      if m != n {
        assert m in t.parent;
      }
    }
    forall q, c | q in r.children && c in r.children[q]
      ensures c in r.parent && r.parent[c] == q
    {
      if q != p {
        assert c in t.children[q];
      }
    }
  }

  /** The "insert" step: `n` leaves its old parent and goes into `p`'s child
      list directly before `ref`, or last when `ref` is `None`. */
  function Reinsert(t: Tree, n: Node, p: Node, ref: Option<Node>): (r: Tree)
    requires Valid(t) && n in t.children && p in t.children
    requires ref.Some? ==> ref.value in t.children[p] && ref.value != n
    ensures Valid(r) && r.children.Keys == t.children.Keys && r.attributes == t.attributes
  {
    var d := Detach(t, n);
    DeleteMembers(t.children[p], n);
    var i := if ref.Some? then IndexOf(d.children[p], ref.value) else |d.children[p]|;
    InsertChild(d, p, n, i)
  }

  /** The "pre-insert" algorithm, `p.insertBefore(n, child)`; a `None` child
      appends. It throws HierarchyRequestError when `n` is `p` or one of its
      ancestors, NotFoundError when `child` is not a child of `p`; a child
      equal to `n` itself is replaced by `n`'s next sibling; `n` is removed
      from its old parent before it is inserted. */
  function PreInsert(t: Tree, n: Node, p: Node, child: Option<Node>): (r: Result<Tree>)
    requires Valid(t) && n in t.children && p in t.children
    ensures r.Ok? <==>
      !IsInclusiveAncestor(t, n, p) && (child.None? || ParentOf(t, child.value) == Some(p))
    ensures r.Err? ==>
      r.error == if IsInclusiveAncestor(t, n, p) then HierarchyRequestError else NotFoundError
    ensures r.Ok? ==>
      Valid(r.value) && r.value.children.Keys == t.children.Keys && r.value.attributes == t.attributes
  {
    if IsInclusiveAncestor(t, n, p) then Err(HierarchyRequestError)
    else if child.Some? && ParentOf(t, child.value) != Some(p) then Err(NotFoundError)
    else
      var ref := if child == Some(n) then NextSibling(t, n) else child;
      ChildFacts(t, n);
      Ok(Reinsert(t, n, p, ref))
  }

  /** `createElement`: a new node, with no parent and no children. */
  function AddNode(t: Tree, n: Node): (r: Tree)
    requires Valid(t) && n !in t.children
    ensures Valid(r) && r.children.Keys == t.children.Keys + {n}
    ensures r.children[n] == [] && n !in r.parent
    ensures r.parent == t.parent && r.attributes == t.attributes
    ensures forall q | q in t.children :: r.children[q] == t.children[q]
  {
    Tree(t.children[n := []], t.parent, t.attributes)
  }

  /** `setAttribute`: records one attribute value, and nothing else. */
  function SetAttribute(t: Tree, n: Node, name: string, value: string): (r: Tree)
    requires Valid(t)
    ensures Valid(r) && r.children == t.children && r.parent == t.parent
    ensures r.attributes == t.attributes[(n, name) := value]
  {
    t.(attributes := t.attributes[(n, name) := value])
  }

  /** `appendChild`: pre-insert before no child, so on success `n` ends up
      last among `p`'s children. */
  function AppendChild(t: Tree, p: Node, n: Node): (r: Result<Tree>)
    requires Valid(t) && n in t.children && p in t.children
    ensures r.Err? <==> IsInclusiveAncestor(t, n, p)
    ensures r.Err? ==> r.error == HierarchyRequestError
    ensures r.Ok? ==> ParentOf(r.value, n) == Some(p) && LastChild(r.value, p) == Some(n)
  {
    var r := PreInsert(t, n, p, None);
    if r.Ok? then
      PreInsertPlaces(t, n, p, None);
      EndsOrStartsWith(r.value.children[p], n);
      r
    else
      r
  }

  /** Where pre-insert puts `n`: under `p`, directly before the (adjusted)
      reference child, or last when there is none. Every child list reads as
      before once `n` is left out of it, and no other node changes parent. */
  lemma PreInsertPlaces(t: Tree, n: Node, p: Node, child: Option<Node>)
    requires Valid(t) && n in t.children && p in t.children
    requires PreInsert(t, n, p, child).Ok?
    ensures ParentOf(PreInsert(t, n, p, child).value, n) == Some(p)
    ensures NextSibling(PreInsert(t, n, p, child).value, n) ==
      if child == Some(n) then NextSibling(t, n) else child
    ensures forall q | q in t.children ::
      Delete(PreInsert(t, n, p, child).value.children[q], n) == Delete(t.children[q], n)
    ensures forall m | m != n :: ParentOf(PreInsert(t, n, p, child).value, m) == ParentOf(t, m)
  {
    var r := PreInsert(t, n, p, child).value;
    var ref := if child == Some(n) then NextSibling(t, n) else child;
    ChildFacts(t, n);
    assert r == Reinsert(t, n, p, ref);
    var d := Detach(t, n);
    DeleteMembers(t.children[p], n);
    var k := d.children[p];
    var i := if ref.Some? then IndexOf(k, ref.value) else |k|;
    assert r == InsertChild(d, p, n, i);
    NextOfInserted(k, i, n);
    assert n !in k;
    forall q | q in t.children
      ensures Delete(r.children[q], n) == Delete(t.children[q], n)
    {
      DeleteMembers(t.children[q], n);
      if q == p {
        DeleteInsert(k, i, n);
      } else {
        DeleteAbsent(d.children[q], n);
      }
    }
  }

  /** The parent map of a valid tree is fixed by its child lists. */
  lemma ParentsFromChildren(t: Tree, u: Tree)
    requires Valid(t) && Valid(u) && t.children == u.children
    ensures t.parent == u.parent
  {
    forall m | m in t.parent
      ensures m in u.parent && u.parent[m] == t.parent[m]
    {
      var p := t.parent[m];
      assert p in u.children && m in u.children[p];
    }
    forall m | m in u.parent
      ensures m in t.parent
    {
      var p := u.parent[m];
      assert p in t.children && m in t.children[p];
    }
    assert t.parent.Keys == u.parent.Keys;
  }

  /** Two valid trees that agree on all nodes, attributes and every child
      list with `n` left out, and that give `n` the same parent and the same
      next sibling, are the same tree. */
  lemma SamePlacementSameTree(t: Tree, u: Tree, n: Node)
    requires Valid(t) && Valid(u)
    requires t.children.Keys == u.children.Keys && t.attributes == u.attributes
    requires forall q | q in t.children :: Delete(t.children[q], n) == Delete(u.children[q], n)
    requires ParentOf(t, n) == ParentOf(u, n) && NextSibling(t, n) == NextSibling(u, n)
    ensures t == u
  {
    forall q | q in t.children
      ensures t.children[q] == u.children[q]
    {
      var l, m := t.children[q], u.children[q];
      if ParentOf(t, n) == Some(q) {
        assert n in l && n in m;
        assert Next(l, n) == Next(m, n);
        DeterminedByNext(l, m, n);
      } else {
        assert n !in l && n !in m;
        DeleteAbsent(l, n);
        DeleteAbsent(m, n);
      }
    }
    assert t.children == u.children;
    ParentsFromChildren(t, u);
  }

  /** Pre-inserting a child before its own next sibling (or appending a last
      child) leaves the tree exactly as it was. */
  lemma ReinsertInPlace(t: Tree, n: Node)
    requires Valid(t) && n in t.parent && !IsInclusiveAncestor(t, n, t.parent[n])
    ensures n in t.children && t.parent[n] in t.children
    ensures PreInsert(t, n, t.parent[n], NextSibling(t, n)) == Ok(t)
  {
    var p := t.parent[n];
    ChildFacts(t, n);
    var r := PreInsert(t, n, p, NextSibling(t, n));
    PreInsertPlaces(t, n, p, NextSibling(t, n));
    SamePlacementSameTree(r.value, t, n);
  }

  /** When only `n` may have changed parent, a chain of parent links from `x`
      in `u` that reaches `n` is a chain in `t` as well. */
  lemma {:induction false} AncestorBack(t: Tree, u: Tree, n: Node, x: Node, fuel: nat)
    requires forall m | m != n :: ParentOf(u, m) == ParentOf(t, m)
    requires n in InclusiveAncestors(u, x, fuel)
    ensures n in InclusiveAncestors(t, x, fuel)
    decreases fuel
  {
    if x != n {
      assert ParentOf(u, x) == ParentOf(t, x);
      AncestorBack(t, u, n, u.parent[x], fuel - 1);
    }
  }

  /** A node with no children is nobody's ancestor but its own. */
  lemma {:induction false} ChildlessNotAncestor(t: Tree, h: Node, x: Node, fuel: nat)
    requires Valid(t) && h in t.children && t.children[h] == [] && x != h
    ensures h !in InclusiveAncestors(t, x, fuel)
    decreases fuel
  {
    if fuel > 0 && x in t.parent {
      assert x in t.children[t.parent[x]];
      ChildlessNotAncestor(t, h, t.parent[x], fuel - 1);
    }
  }

  /** Moving `n` (and nothing else) does not make it an ancestor of a node it
      was not an ancestor of before. */
  lemma AncestryKept(t: Tree, u: Tree, n: Node, x: Node)
    requires n in t.parent && n in u.parent
    requires forall m | m != n :: ParentOf(u, m) == ParentOf(t, m)
    requires !IsInclusiveAncestor(t, n, x)
    ensures !IsInclusiveAncestor(u, n, x)
  {
    forall m
      ensures m in u.parent <==> m in t.parent
    {
      if m != n {
        assert ParentOf(u, m) == ParentOf(t, m);
      }
    }
    assert u.parent.Keys == t.parent.Keys;
    if IsInclusiveAncestor(u, n, x) {
      AncestorBack(t, u, n, x, |u.parent|);
    }
  }

  /** Appending a node that has no parent just adds it at the end of the
      parent's child list. */
  lemma AppendDetached(t: Tree, p: Node, n: Node)
    requires Valid(t) && p in t.children && n in t.children && n !in t.parent
    requires !IsInclusiveAncestor(t, n, p)
    ensures AppendChild(t, p, n) ==
      Ok(Tree(t.children[p := t.children[p] + [n]], t.parent[n := p], t.attributes))
  {
    assert Detach(t, n) == t;
    assert Insert(t.children[p], |t.children[p]|, n) == t.children[p] + [n];
  }
}
