/** The live document: its child lists, parent links and attributes change in
    place under `insertBefore`, `appendChild`, `createElement` and
    `setAttribute`, each of which follows the value-level algorithm of the
    same name in DomTree. */
module Dom {
  import opened Seqs
  import opened DomTree

  class Document {
    var children: map<Node, seq<Node>>
    var parent: map<Node, Node>
    var attributes: map<(Node, string), string>
    /** Every node made so far is below this bound; the next new node gets it. */
    var nextNode: Node
    const body: Node

    function Snapshot(): Tree
      reads this
    {
      Tree(children, parent, attributes)
    }

    ghost predicate Valid()
      reads this
    {
      && DomTree.Valid(Snapshot())
      && body in children
      && forall n | n in children :: n < nextNode
    }

    /** A document holding only its (empty) body. */
    constructor (body: Node)
      ensures Valid() && this.body == body
      ensures Snapshot() == Tree(map[body := []], map[], map[])
    {
      this.body := body;
      children, parent, attributes := map[body := []], map[], map[];
      nextNode := body + 1;
    }

    /** Walks up from `n` to find `a` among its inclusive ancestors. */
    method IsInclusiveAncestorOf(a: Node, n: Node) returns (b: bool)
      ensures b == IsInclusiveAncestor(Snapshot(), a, n)
    {
      var cur: Node, fuel: nat := n, |parent|;
      while cur != a && fuel > 0 && cur in parent
        invariant IsInclusiveAncestor(Snapshot(), a, n) <==> a in InclusiveAncestors(Snapshot(), cur, fuel)
        decreases fuel
      {
        cur, fuel := parent[cur], fuel - 1;
      }
      b := cur == a;
    }

    method CreateElement() returns (n: Node)
      requires Valid()
      modifies this
      ensures Valid() && n !in old(children)
      ensures Snapshot() == AddNode(old(Snapshot()), n)
    {
      n := nextNode;
      children := children[n := []];
      nextNode := nextNode + 1;
    }

    method SetAttribute(n: Node, name: string, value: string)
      requires Valid()
      modifies this`attributes
      ensures Valid()
      ensures Snapshot() == DomTree.SetAttribute(old(Snapshot()), n, name, value)
    {
      attributes := attributes[(n, name) := value];
    }

    /** The "remove" algorithm on the live tree. */
    method Remove(n: Node)
      requires Valid()
      modifies this`children, this`parent
      ensures Valid() && Snapshot() == Detach(old(Snapshot()), n)
    {
      ghost var t := Snapshot();
      if n in parent {
        var p := parent[n];
        children := children[p := Delete(children[p], n)];
        parent := parent - {n};
      }
      assert Snapshot() == Detach(t, n);
      assert children.Keys == t.children.Keys;
    }

    /** `p.insertBefore(n, child)`; `child == None` appends. */
    method InsertBefore(p: Node, n: Node, child: Option<Node>) returns (err: Option<DomError>)
      requires Valid() && n in children && p in children
      modifies this`children, this`parent
      ensures Valid()
      ensures Committed(PreInsert(old(Snapshot()), n, p, child), old(Snapshot()), Snapshot(), err)
    {
      var cycle := IsInclusiveAncestorOf(n, p);
      if cycle {
        return Some(HierarchyRequestError);
      }
      if child.Some? && ParentOf(Snapshot(), child.value) != Some(p) {
        return Some(NotFoundError);
      }
      var ref := if child == Some(n) then NextSibling(Snapshot(), n) else child;
      ChildFacts(Snapshot(), n);
      Relink(p, n, ref);
      err := None;
    }

    /** The "insert" step on the live tree. */
    method Relink(p: Node, n: Node, ref: Option<Node>)
      requires Valid() && n in children && p in children
      requires ref.Some? ==> ref.value in children[p] && ref.value != n
      modifies this`children, this`parent
      ensures Valid() && Snapshot() == Reinsert(old(Snapshot()), n, p, ref)
    {
      DeleteMembers(children[p], n);
      Remove(n);
      ghost var d := Snapshot();
      var kids := children[p];
      var i := if ref.Some? then IndexOf(kids, ref.value) else |kids|;
      children := children[p := Insert(kids, i, n)];
      parent := parent[n := p];
      assert Snapshot() == InsertChild(d, p, n, i);
      assert children.Keys == d.children.Keys;
    }

    /** `p.appendChild(n)`. */
    method AppendChild(p: Node, n: Node) returns (err: Option<DomError>)
      requires Valid() && n in children && p in children
      modifies this`children, this`parent
      ensures Valid()
      ensures Committed(DomTree.AppendChild(old(Snapshot()), p, n), old(Snapshot()), Snapshot(), err)
    {
      err := InsertBefore(p, n, None);
    }
  }
}
