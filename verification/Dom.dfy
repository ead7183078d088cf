/** The mutable DOM of tinyxml2: doubly linked children, the table of unlinked nodes, and the operations
    that move and delete nodes. `f` is the forest that the links represent. */
module Dom {
  import opened Forests

  ghost function Pointers(n: XMLNode): Links
    reads n
  {
    Links(n.parent, n.firstChild, n.lastChild, n.prev, n.next)
  }

  /** The pointers of `n` are those of its place in `f`. */
  ghost predicate Linked(f: Forest, n: XMLNode)
    requires Consistent(f) && n in f.kids
    reads n
  {
    Pointers(n) == LinksOf(f, n)
  }

  /** `unlinked` lists, once each, the nodes without a parent, other than the document itself and those
      that an operation is just moving. */
  ghost predicate TableOk(f: Forest, root: XMLNode, unlinked: seq<XMLNode>, moving: set<XMLNode>) {
    && NoDup(unlinked)
    && (forall n | n in unlinked :: n in f.kids && n !in f.par && n != root && n !in moving)
    && (forall n | n in f.kids && n !in f.par && n != root && n !in moving :: n in unlinked)
  }

  /** A forest in which `root` has no parent. */
  ghost predicate Sound(f: Forest, root: XMLNode) {
    IsForest(f) && root !in f.par
  }

  lemma DetachSound(f: Forest, root: XMLNode, c: XMLNode)
    requires Sound(f, root)
    ensures Sound(Detach(f, c), root)
  {
    DetachConsistent(f, c);
    DetachAcyclic(f, c);
  }

  lemma SoundMeans(f: Forest, root: XMLNode)
    ensures Sound(f, root) <==> IsForest(f) && root !in f.par
  {
  }

  lemma DetachTable(f: Forest, root: XMLNode, unlinked: seq<XMLNode>, moving: set<XMLNode>, c: XMLNode)
    requires Consistent(f) && TableOk(f, root, unlinked, moving) && c in f.par
    ensures TableOk(Detach(f, c), root, unlinked, moving + {c})
  {
    DetachConsistent(f, c);
  }

  lemma PointersMean(f: Forest, n: XMLNode)
    requires Consistent(f) && n in f.kids && Linked(f, n)
    ensures Pointers(n) == LinksOf(f, n)
  {
  }

  lemma PointersAre(f: Forest, n: XMLNode)
    requires Consistent(f) && n in f.kids && Linked(f, n)
    ensures var l := LinksOf(f, n);
            n.parent == l.parent && n.prev == l.prev && n.next == l.next
  {
  }

  lemma LinkedIf(f: Forest, n: XMLNode)
    requires Consistent(f) && n in f.kids && Pointers(n) == LinksOf(f, n)
    ensures Linked(f, n)
  {
  }

  lemma CreateTable(f: Forest, root: XMLNode, unlinked: seq<XMLNode>, c: XMLNode)
    requires Consistent(f) && TableOk(f, root, unlinked, {}) && c !in f.kids && root in f.kids
    ensures TableOk(Create(f, c), root, unlinked + [c], {})
  {
    assert (unlinked + [c])[|unlinked|] == c;
    assert forall n | n in unlinked :: n in unlinked + [c];
  }

  lemma CreateLinks(f: Forest, c: XMLNode, n: XMLNode)
    requires Consistent(f) && c !in f.kids && n in Create(f, c).kids && Consistent(Create(f, c))
    ensures n != c ==> n in f.kids && LinksOf(Create(f, c), n) == LinksOf(f, n)
    ensures n == c ==> LinksOf(Create(f, c), n) == Links(null, null, null, null, null)
  {
  }

  lemma LinkedMeans(f: Forest, n: XMLNode)
    requires Consistent(f) && n in f.kids && Linked(f, n)
    ensures n.parent == ParentOf(f, n) && n.next == NextOf(f, n) && n.prev == PrevOf(f, n)
  {
  }

  class XMLDocument {
    const root: XMLNode
    var unlinked: seq<XMLNode>
    ghost var f: Forest

    /** The pointers represent `f`, and the table is complete but for the `moving` nodes. */
    ghost predicate Represents(moving: set<XMLNode>)
      reads this, f.kids.Keys
    {
      && Consistent(f)
      && root in f.kids
      && (forall n | n in f.kids :: Linked(f, n) && n.document == this)
      && TableOk(f, root, unlinked, moving)
    }

    /** What is represented is a forest, and the document is not below another node. */
    ghost predicate Inv(moving: set<XMLNode>)
      reads this, f.kids.Keys
    {
      Represents(moving) && Sound(f, root)
    }

    ghost predicate Valid()
      reads this, f.kids.Keys
    {
      Inv({})
    }

    /** XMLDocument::XMLDocument: a document is its own root node. */
    constructor ()
      ensures Valid() && f == Forest(map[root := []], map[]) && unlinked == [] && fresh(root)
    {
      root := new XMLNode(null);
      unlinked := [];
      new;
      root.document := this;
      f := Forest(map[root := []], map[]);
      assert forall s: set<XMLNode> | s <= f.kids.Keys && s != {} :: root in s ==> Grounded(f, s);
    }

    /** XMLNode::Unlink, called on the parent `self`. */
    method Unlink(self: XMLNode, child: XMLNode, ghost moving: set<XMLNode>)
      requires Represents(moving) && child in f.par && f.par[child] == self
      modifies this`f, f.kids.Keys
      ensures f == Detach(old(f), child) && Represents(moving + {child})
      ensures unlinked == old(unlinked)
    {
      hide Consistent, Detach, LinksOf, AfterUnlink, TableOk, Linked, Pointers;
      ghost var f0 := f;
      ChildLinks(f0, child);
      PointersAre(f0, child);
      forall n | n in f0.kids
        ensures Pointers(n) == LinksOf(f0, n)
      {
        PointersMean(f0, n);
      }
      UnlinkPointers(self, child, f0.kids.Keys);
      DetachConsistent(f0, child);
      DetachTable(f0, root, unlinked, moving, child);
      f := Detach(f0, child);
      forall n | n in f.kids
        ensures Linked(f, n) && n.document == this
      {
        DetachLinks(f0, child, n);
        LinkedIf(f, n);
      }
    }

    /** XMLDocument::MarkInUse: takes `node` out of the table, if it is there, by SwapRemove. */
    method MarkInUse(node: XMLNode, ghost moving: set<XMLNode>)
      requires Represents(moving) && node in f.kids && node !in f.par
      modifies this`unlinked
      ensures Represents(moving + {node})
    {
      hide Consistent, Linked;
      for i := 0 to |unlinked|
        invariant unlinked == old(unlinked) && forall j | 0 <= j < i :: unlinked[j] != node
      {
        if node == unlinked[i] {
          SwapRemoved(unlinked, i);
          unlinked := SwapRemove(unlinked, i);
          return;
        }
      }
    }

    /** XMLNode::InsertChildPreamble. */
    method InsertChildPreamble(insertThis: XMLNode)
      requires Represents({}) && insertThis in f.kids
      modifies this`f, this`unlinked, f.kids.Keys
      ensures f == Detach(old(f), insertThis) && Represents({insertThis})
    {
      hide TableOk;
      if insertThis.parent != null {
        assert Linked(f, insertThis);
        Unlink(insertThis.parent, insertThis, {});
        assert {} + {insertThis} == {insertThis};
      } else {
        assert Linked(f, insertThis);
        MarkInUse(insertThis, {});
        assert {} + {insertThis} == {insertThis};
      }
    }

    /** What the insertions rely on: nodes that are alive. A node of another document is refused. */
    ghost predicate MayInsert(self: XMLNode, addThis: XMLNode)
      reads this, addThis
    {
      self in f.kids && (addThis.document == this ==> addThis in f.kids)
    }

    /** XMLNode::InsertEndChild: a move when `addThis` is already linked. Nothing stops a node from being put below
        itself: then the links go round in a cycle. */
    method InsertEndChild(self: XMLNode, addThis: XMLNode) returns (r: XMLNode?)
      requires Represents({}) && MayInsert(self, addThis)
      modifies this`f, this`unlinked, f.kids.Keys
      ensures Represents({})
      ensures old(addThis.document) != this ==> r == null && f == old(f) && unlinked == old(unlinked)
      ensures old(addThis.document) == this ==> r == addThis && f == InsertEnd(old(f), self, addThis)
      ensures old(addThis.document) == this && old(Valid()) ==>
                (Valid() <==> addThis != root && !Descends(old(f), self, addThis))
    {
      hide IsForest, Consistent, Linked, TableOk, Detach, AttachAt, Descends, Sound;
      if addThis.document != this {
        return null;
      }
      ghost var f0 := f;
      DetachReady(f, self, addThis);
      InsertChildPreamble(addThis);
      PlaceLast(self, addThis);
      InsertionSound(f0, root, self, addThis, |Detach(f0, addThis).kids[self]|);
      return addThis;
    }

    /** InsertEndChild after its preamble. */
    method PlaceLast(self: XMLNode, addThis: XMLNode)
      requires Represents({addThis}) && self in f.kids && addThis in f.kids && addThis !in f.par
      modifies this`f, f.kids.Keys
      ensures Represents({}) && f == AttachAt(old(f), self, addThis, |old(f).kids[self]|)
    {
      hide Linked, TableOk, AttachAt, AfterLink, LinksOf;
      PlaceAt(self);
      LinkEnd(self, addThis, f.kids.Keys);
      Attach(self, addThis, |f.kids[self]|);
    }

    /** XMLNode::InsertFirstChild. */
    method InsertFirstChild(self: XMLNode, addThis: XMLNode) returns (r: XMLNode?)
      requires Represents({}) && MayInsert(self, addThis)
      modifies this`f, this`unlinked, f.kids.Keys
      ensures Represents({})
      ensures old(addThis.document) != this ==> r == null && f == old(f) && unlinked == old(unlinked)
      ensures old(addThis.document) == this ==> r == addThis && f == InsertFirst(old(f), self, addThis)
      ensures old(addThis.document) == this && old(Valid()) ==>
                (Valid() <==> addThis != root && !Descends(old(f), self, addThis))
    {
      hide IsForest, Consistent, Linked, TableOk, Detach, AttachAt, Descends, Sound;
      if addThis.document != this {
        return null;
      }
      ghost var f0 := f;
      DetachReady(f, self, addThis);
      InsertChildPreamble(addThis);
      PlaceFirst(self, addThis);
      InsertionSound(f0, root, self, addThis, 0);
      return addThis;
    }

    /** InsertFirstChild after its preamble. */
    method PlaceFirst(self: XMLNode, addThis: XMLNode)
      requires Represents({addThis}) && self in f.kids && addThis in f.kids && addThis !in f.par
      modifies this`f, f.kids.Keys
      ensures Represents({}) && f == AttachAt(old(f), self, addThis, 0)
    {
      hide Linked, TableOk, AttachAt, AfterLink, LinksOf;
      PlaceAt(self);
      LinkFirst(self, addThis, f.kids.Keys);
      Attach(self, addThis, 0);
    }

    /** XMLNode::InsertAfterChild. `crashed` stands for the null dereference of
        `afterThis->_next->_prev` after the preamble has unlinked `addThis`: it happens exactly when
        `addThis` is the last child and comes directly after `afterThis`. */
    method InsertAfterChild(self: XMLNode, afterThis: XMLNode, addThis: XMLNode)
      returns (r: XMLNode?, crashed: bool)
      requires Represents({}) && MayInsert(self, addThis) && afterThis in f.kids
      modifies this`f, this`unlinked, f.kids.Keys
      ensures crashed <==> old(addThis.document == this && afterThis.parent == self && afterThis != addThis
                               && afterThis.next == addThis && addThis.next == null)
      ensures !crashed ==> Represents({})
      ensures !crashed && old(addThis.document != this || afterThis.parent != self) ==>
                r == null && f == old(f) && unlinked == old(unlinked)
      ensures !crashed && old(addThis.document == this && afterThis.parent == self) ==>
                r == addThis && f == InsertAfter(old(f), afterThis, addThis)
      ensures !crashed && old(addThis.document == this && afterThis.parent == self && Valid()) ==>
                (Valid() <==> afterThis == addThis || (addThis != root && !Descends(old(f), self, addThis)))
    {
      hide IsForest, Consistent, Detach, AttachAt, Descends, NextOf, PrevOf, First, Last, TableOk, Linked, Sound;
      ghost var f0 := f;
      LinkedMeans(f, afterThis);
      if addThis.document != this || afterThis.parent != self {
        return null, false;
      }
      if afterThis == addThis {
        return addThis, false;
      }
      LinkedMeans(f, addThis);
      NextMeans(f, afterThis, addThis);
      DetachReady(f, self, addThis);
      if afterThis.next == null {
        r := InsertEndChild(self, addThis);
        return r, false;
      }
      InsertChildPreamble(addThis);
      LinkedMeans(f, afterThis);
      if afterThis.next == null {
        return null, true;
      }
      PlaceAfter(self, afterThis, addThis);
      InsertionSound(f0, root, self, addThis, IndexOf(Detach(f0, addThis).kids[self], afterThis) + 1);
      return addThis, false;
    }

    /** InsertAfterChild after its preamble. */
    method PlaceAfter(self: XMLNode, afterThis: XMLNode, addThis: XMLNode)
      requires Represents({addThis}) && self in f.kids && addThis in f.kids && addThis !in f.par
      requires afterThis in f.kids && afterThis in f.par && f.par[afterThis] == self && afterThis.next != null
      modifies this`f, f.kids.Keys
      ensures Represents({}) && old(afterThis in f.kids[self])
      ensures f == AttachAt(old(f), self, addThis, IndexOf(old(f).kids[self], afterThis) + 1)
    {
      hide Linked, TableOk, AttachAt, AfterLink, LinksOf, IndexOf, NextOf;
      PlaceAt(self);
      LinkedMeans(f, afterThis);
      NextIsSibling(f, self, afterThis);
      ghost var i := IndexOf(f.kids[self], afterThis) + 1;
      LinkAfter(self, afterThis, addThis, f.kids.Keys);
      Attach(self, addThis, i);
    }

    /** XMLDocument::CreateUnlinkedNode. */
    method CreateUnlinkedNode() returns (node: XMLNode)
      requires Valid()
      modifies this`f, this`unlinked
      ensures fresh(node) && Valid() && node.document == this
      ensures f == Create(old(f), node) && unlinked == old(unlinked) + [node]
    {
      hide IsForest, Consistent, Linked, TableOk, LinksOf;
      node := new XMLNode(null);
      node.document := this;
      ghost var f0 := f;
      ForestIsConsistent(f0);
      CreateForest(f0, node);
      ForestIsConsistent(Create(f0, node));
      CreateTable(f0, root, unlinked, node);
      unlinked := unlinked + [node];
      f := Create(f0, node);
      forall n | n in f.kids
        ensures Linked(f, n) && n.document == this
      {
        CreateLinks(f0, node, n);
        if n != node {
          assert old(Linked(f0, n));
          PointersMean(f0, n);
        }
        LinkedIf(f, n);
      }
    }

    /** The static XMLNode::DeleteNode with the destructor of XMLNode: the node and all below it go. */
    method DestroyNode(node: XMLNode, ghost moving: set<XMLNode>)
      requires Inv(moving) && node in f.kids && node !in f.par && node != root
      modifies this`f, this`unlinked, f.kids.Keys
      ensures Inv(moving) && f == Prune(old(f), Subtree(old(f), node))
      decreases Subtree(f, node), 2
    {
      hide IsForest, Consistent, Linked, TableOk, Subtree;
      ghost var f0 := f;
      SoundMeans(f, root);
      MarkInUse(node, moving);
      DestroyChildren(node, moving + {node});
      DeletedNode(f0, node, f, root, unlinked, moving);
      ghost var f1 := f;
      f := Prune(f1, {node});
      ForestIsConsistent(f1);
      ForestIsConsistent(f);
      forall n | n in f.kids
        ensures Linked(f, n) && n.document == this
      {
        PruneLinks(f1, {node}, n);
        PointersMean(f1, n);
        LinkedIf(f, n);
      }
    }

    /** XMLNode::DeleteChildren. */
    method DestroyChildren(node: XMLNode, ghost moving: set<XMLNode>)
      requires Inv(moving) && node in f.kids
      modifies this`f, this`unlinked, f.kids.Keys
      ensures Inv(moving) && Deleting(old(f), node, Subtree(old(f), node) - {node}, f) && f.kids[node] == []
      decreases Subtree(f, node), 1
    {
      hide IsForest, Consistent, Linked, TableOk, Subtree, Deleting;
      ghost var f0, d: set<XMLNode> := f, {};
      NothingDeleted(f0, node);
      while node.firstChild != null
        invariant Inv(moving) && Deleting(f0, node, d, f) && node in f.kids && f.kids.Keys <= f0.kids.Keys
        decreases f.kids.Keys
      {
        ghost var f1, c := f, node.firstChild;
        ForestIsConsistent(f);
        FirstChildOf(f, node);
        DeletingChild(f0, node, d, f, c);
        d := d + Subtree(Detach(f, c), c);
        DeleteChild(node, node.firstChild, moving);
        PruneShrinks(f1, c);
        DeletingFacts(f0, node, d, f);
      }
      ForestIsConsistent(f);
      FirstChildOf(f, node);
      DeletedAll(f0, node, d, f);
    }

    /** XMLNode::DeleteChild. */
    method DeleteChild(self: XMLNode, node: XMLNode, ghost moving: set<XMLNode>)
      requires Inv(moving) && node in f.par && f.par[node] == self
      modifies this`f, this`unlinked, f.kids.Keys
      ensures Inv(moving)
      ensures f == Prune(Detach(old(f), node), Subtree(Detach(old(f), node), node))
      decreases Subtree(Detach(f, node), node), 3
    {
      hide Acyclic, Linked, TableOk, Subtree;
      DetachConsistent(f, node);
      DetachSound(f, root, node);
      Unlink(self, node, moving);
      ghost var f1 := f;
      DestroyNode(node, moving + {node});
      SubtreeClosed(f1, node);
      NotMoving(f, root, unlinked, moving, node);
    }

    /** XMLDocument::DeleteNode. */
    method DeleteNode(node: XMLNode)
      requires Valid() && node in f.kids && node != root
      modifies this`f, this`unlinked, f.kids.Keys
      ensures Valid() && f == Prune(Detach(old(f), node), Subtree(Detach(old(f), node), node))
    {
      hide Acyclic, TableOk, Subtree;
      assert Linked(f, node);
      if node.parent != null {
        DeleteChild(node.parent, node, {});
      } else {
        DestroyNode(node, {});
      }
    }

    /** XMLDocument::Clear: nothing is left but the document itself. */
    method Clear()
      requires Valid()
      modifies this`f, this`unlinked, f.kids.Keys
      ensures Valid() && f == Forest(map[root := []], map[]) && unlinked == []
    {
      hide Acyclic, Subtree;
      ghost var f0 := f;
      DestroyChildren(root, {});
      while |unlinked| > 0
        invariant Valid() && f.kids[root] == [] && f.kids.Keys <= f0.kids.Keys
        decreases f.kids.Keys
      {
        ghost var f1, node := f, unlinked[0];
        SubtreeClosed(f, node);
        RootOutside(f, root, node);
        DeleteNode(unlinked[0]);
      }
      NothingLeft(f, root);
    }

    /** What the code reads off `self`. */
    lemma PlaceAt(self: XMLNode)
      requires Consistent(f) && self in f.kids
      requires forall n | n in f.kids :: Linked(f, n)
      ensures self.lastChild == Last(f.kids[self]) && self.firstChild == First(f.kids[self])
      ensures forall n | n in f.kids :: Pointers(n) == LinksOf(f, n)
      ensures self.lastChild != null ==> self.lastChild in f.kids && self.lastChild in f.par
      ensures self.firstChild != null ==> self.firstChild in f.kids && self.firstChild in f.par
      ensures self.lastChild == null <==> self.firstChild == null
    {
      assert Linked(f, self);
      var s := f.kids[self];
      assert forall k | 0 <= k < |s| :: s[k] in f.par;
    }

    /** The pointers already say that `c` is at `i` under `p`: so does the forest now. */
    ghost method Attach(p: XMLNode, c: XMLNode, i: nat)
      requires Consistent(f) && root in f.kids && TableOk(f, root, unlinked, {c})
      requires p in f.kids && i <= |f.kids[p]| && c in f.kids && c !in f.par
      requires var s := f.kids[p];
               var (before, after) := (if i > 0 then s[i - 1] else null, if i < |s| then s[i] else null);
               forall n | n in f.kids ::
                 n.document == this && Pointers(n) == AfterLink(n, LinksOf(f, n), p, c, before, after)
      modifies this`f
      ensures Represents({}) && f == AttachAt(old(f), p, c, i)
    {
      hide Consistent, LinksOf, AfterLink, AttachAt, TableOk;
      ghost var g := f;
      AttachConsistent(g, p, c, i);
      AttachTable(g, root, unlinked, p, c, i);
      f := AttachAt(g, p, c, i);
      forall n | n in f.kids
        ensures Linked(f, n) && n.document == this
      {
        AttachLinks(g, p, c, i, n);
      }
    }
  }

  /** What the preamble leaves. */
  lemma DetachReady(f: Forest, self: XMLNode, c: XMLNode)
    requires Consistent(f) && self in f.kids && c in f.kids
    ensures var g := Detach(f, c);
            Consistent(g) && self in g.kids && c in g.kids && c !in g.par && g.kids.Keys == f.kids.Keys
            && g.par.Keys == f.par.Keys - {c}
  {
    DetachConsistent(f, c);
  }

  /** A move keeps the forest exactly when the node is not the document and does not go below itself. */
  lemma InsertionSound(f: Forest, root: XMLNode, p: XMLNode, c: XMLNode, i: nat)
    requires Consistent(f) && p in f.kids && c in f.kids
    requires p in Detach(f, c).kids && i <= |Detach(f, c).kids[p]|
    ensures Sound(f, root) ==> (Sound(AttachAt(Detach(f, c), p, c, i), root) <==> c != root && !Descends(f, p, c))
  {
    hide IsForest, Consistent, AttachAt, Detach, Descends;
    if Sound(f, root) {
      var g := Detach(f, c);
      DetachReady(f, p, c);
      DetachSound(f, root, c);
      AttachAcyclicExactly(g, p, c, i);
      AttachedParents(g, p, c, i);
      DescentStays(f, p, c);
    }
  }

  lemma AttachedParents(g: Forest, p: XMLNode, c: XMLNode, i: nat)
    requires p in g.kids && i <= |g.kids[p]|
    ensures AttachAt(g, p, c, i).par.Keys == g.par.Keys + {c}
  {
  }

  /** What is below a node stays below it when it is detached. */
  lemma DescentStays(f: Forest, n: XMLNode, c: XMLNode)
    requires Consistent(f)
    ensures Descends(Detach(f, c), n, c) <==> Descends(f, n, c)
  {
    hide Consistent, Detach;
    DetachConsistent(f, c);
    var g := Detach(f, c);
    forall d: set<XMLNode> | c in d
      ensures Closed(f, d) <==> Closed(g, d)
    {
      ClosedWithout(f, g, c, d);
    }
  }

  lemma ClosedWithout(f: Forest, g: Forest, c: XMLNode, d: set<XMLNode>)
    requires g.par == f.par - {c} && c in d
    ensures Closed(f, d) <==> Closed(g, d)
  {
    assert forall m | m in f.par && m != c :: m in g.par && g.par[m] == f.par[m];
  }

  ghost function InsertEnd(f: Forest, p: XMLNode, c: XMLNode): Forest
    requires Consistent(f) && p in Detach(f, c).kids
  {
    AttachAt(Detach(f, c), p, c, |Detach(f, c).kids[p]|)
  }

  /** The assignments of InsertEndChild. */
  method LinkEnd(self: XMLNode, addThis: XMLNode, ghost nodes: set<XMLNode>)
    requires self in nodes && addThis in nodes && (self.lastChild != null ==> self.lastChild in nodes)
    requires self.lastChild != addThis && (self.lastChild == null <==> self.firstChild == null)
    modifies nodes
    ensures forall n | n in nodes :: n.document == old(n.document)
    ensures forall n | n in nodes ::
              Pointers(n) == AfterLink(n, old(Pointers(n)), self, addThis, old(self.lastChild), null)
  {
    if self.lastChild != null {
      self.lastChild.next := addThis;
      addThis.prev := self.lastChild;
      self.lastChild := addThis;
      addThis.next := null;
    } else {
      self.firstChild, self.lastChild := addThis, addThis;
      addThis.prev := null;
      addThis.next := null;
    }
    addThis.parent := self;
  }

  ghost function InsertFirst(f: Forest, p: XMLNode, c: XMLNode): Forest
    requires Consistent(f) && p in Detach(f, c).kids
  {
    AttachAt(Detach(f, c), p, c, 0)
  }

  /** `c` moves to directly after its new sibling `a`; a node put after itself stays where it is. */
  ghost function InsertAfter(f: Forest, a: XMLNode, c: XMLNode): Forest
    requires Consistent(f)
  {
    if a == c || a !in f.par then f
    else
      DetachConsistent(f, c);
      var (g, p) := (Detach(f, c), f.par[a]);
      if a in g.kids[p] then AttachAt(g, p, c, IndexOf(g.kids[p], a) + 1) else f
  }

  /** InsertEndChild on every child list `q`: the node leaves its old place and comes last under `p`. */
  lemma InsertEndMeaning(f: Forest, p: XMLNode, c: XMLNode, q: XMLNode)
    requires Consistent(f) && p in f.kids && q in f.kids
    ensures p in Detach(f, c).kids && q in InsertEnd(f, p, c).kids
    ensures InsertEnd(f, p, c).kids[q] == Minus(f.kids[q], c) + if q == p then [c] else []
  {
    hide Detach;
    DetachMeaning(f, c, p);
    DetachMeaning(f, c, q);
    var others := Minus(f.kids[q], c);
    assert others[..|others|] == others && others[|others|..] == [];
  }

  /** InsertFirstChild: it comes first under `p`. */
  lemma InsertFirstMeaning(f: Forest, p: XMLNode, c: XMLNode, q: XMLNode)
    requires Consistent(f) && p in f.kids && q in f.kids
    ensures p in Detach(f, c).kids && q in InsertFirst(f, p, c).kids
    ensures InsertFirst(f, p, c).kids[q] == (if q == p then [c] else []) + Minus(f.kids[q], c)
  {
    hide Detach;
    DetachMeaning(f, c, p);
    DetachMeaning(f, c, q);
    var others := Minus(f.kids[q], c);
    assert others[..0] == [] && others[0..] == others;
  }

  /** InsertAfterChild: it comes directly after `a`; put after itself, it stays where it is. */
  lemma InsertAfterMeaning(f: Forest, a: XMLNode, c: XMLNode, q: XMLNode)
    requires Consistent(f) && a in f.par && q in f.kids && c in f.kids
    ensures var (g, others) := (InsertAfter(f, a, c), Minus(f.kids[q], c));
            && q in g.kids
            && if a == c then g.kids[q] == f.kids[q]
               else if q != f.par[a] then g.kids[q] == others
               else a in others && g.kids[q] == Insert(others, c, IndexOf(others, a) + 1)
  {
    hide Detach, NextOf, Insert;
    if a != c {
      DetachMeaning(f, c, f.par[a]);
      DetachMeaning(f, c, q);
      NextMeans(f, a, c);
    }
  }

  /** After `c` is detached, `a` is the last child exactly if only `c`, or nothing, came after it. */
  lemma NextMeans(f: Forest, a: XMLNode, c: XMLNode)
    requires Consistent(f) && a in f.par && a != c && c in f.kids
    ensures var g := Detach(f, c);
            && Consistent(g) && a in g.par && g.par[a] == f.par[a] && a in g.kids
            && NextOf(g, a) == (if c in f.par && NextOf(f, a) == c then NextOf(f, c) else NextOf(f, a))
            && (NextOf(f, a) == c ==> c in f.par)
            && (NextOf(g, a) == null ==> IndexOf(g.kids[g.par[a]], a) + 1 == |g.kids[g.par[a]]|)
  {
    DetachConsistent(f, c);
    NeighboursAreSiblings(f, a);
    if c in f.par {
      DetachLinks(f, c, a);
      NeighboursAreSiblings(f, c);
      if f.par[c] == f.par[a] {
        NeighboursMatch(f.kids[f.par[a]], a, c);
      }
    }
  }

  lemma NeighboursMatch(s: seq<XMLNode>, a: XMLNode, c: XMLNode)
    requires NoDup(s) && a in s && c in s
    ensures NextIn(s, a) == c <==> PrevIn(s, c) == a
  {
    hide IndexOf, NextIn, PrevIn;
    NextIs(s, a, IndexOf(s, a));
    NextIs(s, c, IndexOf(s, c));
  }

  lemma NextIsSibling(f: Forest, self: XMLNode, a: XMLNode)
    requires Consistent(f) && a in f.par && f.par[a] == self && NextOf(f, a) != null
    ensures var (s, i) := (f.kids[self], IndexOf(f.kids[self], a) + 1);
            i < |s| && s[i] == NextOf(f, a) && s[i - 1] == a && s[i] in f.par && s[i] in f.kids && a in f.kids && s[i] != a
  {
    NeighboursAreSiblings(f, a);
  }

  /** The assignments of InsertFirstChild. */
  method LinkFirst(self: XMLNode, addThis: XMLNode, ghost nodes: set<XMLNode>)
    requires self in nodes && addThis in nodes && (self.firstChild != null ==> self.firstChild in nodes)
    requires self.firstChild != addThis && (self.lastChild == null <==> self.firstChild == null)
    modifies nodes
    ensures forall n | n in nodes :: n.document == old(n.document)
    ensures forall n | n in nodes ::
              Pointers(n) == AfterLink(n, old(Pointers(n)), self, addThis, null, old(self.firstChild))
  {
    if self.firstChild != null {
      self.firstChild.prev := addThis;
      addThis.next := self.firstChild;
      self.firstChild := addThis;
      addThis.prev := null;
    } else {
      self.firstChild, self.lastChild := addThis, addThis;
      addThis.prev := null;
      addThis.next := null;
    }
    addThis.parent := self;
  }

  /** The assignments of InsertAfterChild. */
  method LinkAfter(self: XMLNode, afterThis: XMLNode, addThis: XMLNode, ghost nodes: set<XMLNode>)
    requires addThis in nodes && afterThis in nodes && afterThis.next != null && afterThis.next in nodes
    requires afterThis != addThis && afterThis.next != addThis && afterThis.next != afterThis
    modifies nodes
    ensures forall n | n in nodes :: n.document == old(n.document)
    ensures forall n | n in nodes ::
              Pointers(n) == AfterLink(n, old(Pointers(n)), self, addThis, afterThis, old(afterThis.next))
  {
    addThis.prev := afterThis;
    addThis.next := afterThis.next;
    afterThis.next.prev := addThis;
    afterThis.next := addThis;
    addThis.parent := self;
  }

  lemma NothingDeleted(f: Forest, n: XMLNode)
    requires IsForest(f) && n in f.kids
    ensures Deleting(f, n, {}, f)
  {
  }

  lemma FirstChildOf(f: Forest, n: XMLNode)
    requires IsForest(f) && n in f.kids && Linked(f, n)
    ensures n.firstChild == null <==> f.kids[n] == []
    ensures n.firstChild != null ==> n.firstChild in f.par && f.par[n.firstChild] == n && Consistent(Detach(f, n.firstChild))
  {
    if n.firstChild != null {
      assert f.kids[n][0] in f.par;
      DetachConsistent(f, n.firstChild);
    }
  }

  lemma PruneShrinks(f: Forest, c: XMLNode)
    requires IsForest(f) && c in f.par
    ensures var g := Detach(f, c);
            Prune(g, Subtree(g, c)).kids.Keys < f.kids.Keys
  {
    DetachConsistent(f, c);
    SubtreeClosed(Detach(f, c), c);
  }

  lemma DeletingFacts(f0: Forest, n: XMLNode, d: set<XMLNode>, f: Forest)
    requires Deleting(f0, n, d, f)
    ensures n in f.kids && f.kids.Keys <= f0.kids.Keys
  {
  }

  /** What is left when a node without children is removed after them. */
  lemma DeletedNode(f0: Forest, n: XMLNode, f: Forest, root: XMLNode, unlinked: seq<XMLNode>, moving: set<XMLNode>)
    requires Deleting(f0, n, Subtree(f0, n) - {n}, f) && f.kids[n] == [] && n !in f0.par && n != root
    requires TableOk(f, root, unlinked, moving + {n}) && root in f.kids && root !in f.par
    ensures Prune(f, {n}) == Prune(f0, Subtree(f0, n))
    ensures IsForest(Prune(f, {n})) && TableOk(Prune(f, {n}), root, unlinked, moving)
    ensures root in Prune(f, {n}).kids && root !in Prune(f, {n}).par
  {
    hide IsForest, Subtree, TableOk;
    ForestIsConsistent(f0);
    SubtreeClosed(f0, n);
    PruneSubtree(f0, n);
    PrunedKids(f0, n, f);
    PrunedTable(f, n, root, unlinked, moving);
  }

  lemma PrunedKids(f0: Forest, n: XMLNode, f: Forest)
    requires Deleting(f0, n, Subtree(f0, n) - {n}, f) && n in Subtree(f0, n) && n !in f0.par
    ensures Prune(f, {n}) == Prune(f0, Subtree(f0, n))
  {
    hide IsForest, Subtree;
    var g, h := Prune(f, {n}), Prune(f0, Subtree(f0, n));
    assert g.kids.Keys == h.kids.Keys;
    assert g.kids == h.kids;
    assert g.par == h.par;
  }

  lemma PrunedTable(f: Forest, n: XMLNode, root: XMLNode, unlinked: seq<XMLNode>, moving: set<XMLNode>)
    requires TableOk(f, root, unlinked, moving + {n})
    ensures TableOk(Prune(f, {n}), root, unlinked, moving)
  {
    hide NoDup;
  }

  lemma PruneLinks(f: Forest, d: set<XMLNode>, n: XMLNode)
    requires Consistent(f) && n in Prune(f, d).kids && Consistent(Prune(f, d))
    ensures n in f.kids && LinksOf(Prune(f, d), n) == LinksOf(f, n)
  {
  }

  lemma NotMoving(f: Forest, root: XMLNode, unlinked: seq<XMLNode>, moving: set<XMLNode>, n: XMLNode)
    requires TableOk(f, root, unlinked, moving + {n}) && n !in f.kids
    ensures TableOk(f, root, unlinked, moving)
  {
  }

  lemma RootOutside(f: Forest, root: XMLNode, x: XMLNode)
    requires Consistent(f) && root in f.kids && root !in f.par && x in f.kids && x != root
    ensures root !in Subtree(f, x) && !Descends(f, root, x)
  {
    assert Closed(f, f.kids.Keys - {root});
  }

  lemma NothingLeft(f: Forest, root: XMLNode)
    requires IsForest(f) && TableOk(f, root, [], {}) && root in f.kids && f.kids[root] == [] && root !in f.par
    ensures f == Forest(map[root := []], map[])
  {
    var s := f.kids.Keys - {root};
    forall m | m in s
      ensures m in f.par && f.par[m] in s
    {
      assert m in f.par && m in f.kids[f.par[m]];
    }
    NoneUngrounded(f, s);
  }

  // ---- Three small documents ---------------------------------------------------------------------------

  /** Two nodes beside the root: unlinked, one linked, or both. */
  ghost function Three(root: XMLNode, a: XMLNode, b: XMLNode, kids: seq<XMLNode>, below: seq<XMLNode>,
                       par: map<XMLNode, XMLNode>): Forest {
    Forest(map[root := kids, a := below, b := []], par)
  }

  /** InsertEndChild, by its meaning. */
  lemma InsertEndIs(f: Forest, p: XMLNode, c: XMLNode, h: Forest)
    requires Consistent(f) && p in f.kids && c in f.kids
    requires h.kids.Keys == f.kids.Keys && h.par == f.par[c := p]
    requires forall q | q in f.kids :: h.kids[q] == Minus(f.kids[q], c) + if q == p then [c] else []
    ensures p in Detach(f, c).kids && InsertEnd(f, p, c) == h
  {
    hide Minus, InsertEnd, Detach, Consistent;
    InsertEndShape(f, p, c);
    var g := InsertEnd(f, p, c);
    forall q | q in f.kids
      ensures g.kids[q] == h.kids[q]
    {
      InsertEndMeaning(f, p, c, q);
    }
    assert g.kids == h.kids;
    assert g == Forest(h.kids, h.par);
  }

  lemma InsertEndShape(f: Forest, p: XMLNode, c: XMLNode)
    requires Consistent(f) && p in f.kids && c in f.kids
    ensures p in Detach(f, c).kids
    ensures InsertEnd(f, p, c).kids.Keys == f.kids.Keys && InsertEnd(f, p, c).par == f.par[c := p]
  {
    hide Detach, Consistent;
    DetachConsistent(f, c);
    assert (f.par - {c})[c := p] == f.par[c := p];
  }

  lemma MinusSmall(a: XMLNode, b: XMLNode)
    requires a != b
    ensures Minus([], a) == [] && Minus([a], a) == [] && Minus([a], b) == [a]
  {
    assert [a][1..] == [];
  }

  lemma FirstUnderRoot(root: XMLNode, a: XMLNode, b: XMLNode, f0: Forest)
    requires a != root && b != root && a != b
    requires f0 == Create(Create(Forest(map[root := []], map[]), a), b) && Consistent(f0)
    ensures a in f0.kids && root in f0.kids && root in Detach(f0, a).kids
    ensures InsertEnd(f0, root, a) == Three(root, a, b, [a], [], map[a := root])
  {
    MinusSmall(a, b);
    assert [] + [a] == [a];
    InsertEndIs(f0, root, a, Three(root, a, b, [a], [], map[a := root]));
  }

  lemma SecondUnderRoot(root: XMLNode, a: XMLNode, b: XMLNode)
    requires a != root && b != root && a != b && Consistent(Three(root, a, b, [a], [], map[a := root]))
    ensures var f1 := Three(root, a, b, [a], [], map[a := root]);
            && root in f1.kids && b in f1.kids && root in Detach(f1, b).kids
            && InsertEnd(f1, root, b) == Three(root, a, b, [a, b], [], map[a := root, b := root])
  {
    MinusSmall(a, b);
    MinusSmall(b, a);
    assert [a] + [b] == [a, b];
    InsertEndIs(Three(root, a, b, [a], [], map[a := root]), root, b,
                Three(root, a, b, [a, b], [], map[a := root, b := root]));
  }

  lemma SecondUnderFirst(root: XMLNode, a: XMLNode, b: XMLNode)
    requires a != root && b != root && a != b && Consistent(Three(root, a, b, [a], [], map[a := root]))
    ensures var f1 := Three(root, a, b, [a], [], map[a := root]);
            && a in f1.kids && b in f1.kids && a in Detach(f1, b).kids
            && InsertEnd(f1, a, b) == Three(root, a, b, [a], [b], map[a := root, b := a])
  {
    MinusSmall(a, b);
    MinusSmall(b, a);
    assert [] + [b] == [b];
    InsertEndIs(Three(root, a, b, [a], [], map[a := root]), a, b, Three(root, a, b, [a], [b], map[a := root, b := a]));
  }

  /** `a` and `b` below each other. */
  ghost function Circular(root: XMLNode, a: XMLNode, b: XMLNode): Forest {
    Forest(map[root := [], a := [b], b := [a]], map[a := b, b := a])
  }

  lemma FirstUnderSecond(root: XMLNode, a: XMLNode, b: XMLNode)
    requires a != root && b != root && a != b && Consistent(Three(root, a, b, [a], [b], map[a := root, b := a]))
    ensures var f2 := Three(root, a, b, [a], [b], map[a := root, b := a]);
            && a in f2.kids && b in f2.kids && b in Detach(f2, a).kids
            && InsertEnd(f2, b, a) == Circular(root, a, b)
  {
    MinusSmall(a, b);
    MinusSmall(b, a);
    assert [] + [a] == [a];
    InsertEndIs(Three(root, a, b, [a], [b], map[a := root, b := a]), b, a, Circular(root, a, b));
  }

  lemma CircleLinks(root: XMLNode, a: XMLNode, b: XMLNode)
    requires a != root && b != root && a != b && Consistent(Circular(root, a, b))
    ensures var f := Circular(root, a, b);
            && LinksOf(f, root) == Links(null, null, null, null, null)
            && LinksOf(f, a) == Links(b, b, b, null, null) && LinksOf(f, b) == Links(a, a, a, null, null)
    ensures !Sound(Circular(root, a, b), root)
  {
    NextIs([a], a, 0);
    NextIs([b], b, 0);
    assert !Grounded(Circular(root, a, b), {a, b});
  }

  lemma NothingUnlinked(f: Forest, root: XMLNode, unlinked: seq<XMLNode>)
    requires TableOk(f, root, unlinked, {}) && forall n | n in f.kids :: n == root || n in f.par
    ensures unlinked == []
  {
    hide TableOk;
    if unlinked != [] {
      var n := UnlinkedNode(f, root, unlinked);
    }
  }

  lemma UnlinkedNode(f: Forest, root: XMLNode, unlinked: seq<XMLNode>) returns (n: XMLNode)
    requires TableOk(f, root, unlinked, {}) && unlinked != []
    ensures n in f.kids && n != root && n !in f.par
  {
    n := unlinked[0];
    assert n in unlinked;
  }

  /** The null dereference is reached: with children a, b, putting b after a where it already is. */
  method LastSiblingAfterItsNeighbour() returns (crashed: bool)
    ensures crashed
  {
    hide IsForest, Consistent, TableOk, Create, InsertEnd, Detach, LinksOf, Linked, Descends, Sound, Three;
    var doc := new XMLDocument();
    var a := doc.CreateUnlinkedNode();
    var b := doc.CreateUnlinkedNode();
    FirstUnderRoot(doc.root, a, b, doc.f);
    var r := doc.InsertEndChild(doc.root, a);
    SecondUnderRoot(doc.root, a, b);
    r := doc.InsertEndChild(doc.root, b);
    LastOfTwo(doc.root, a, b);
    LinkedMeans(doc.f, a);
    LinkedMeans(doc.f, b);
    r, crashed := doc.InsertAfterChild(doc.root, a, b);
  }

  /** A cycle is reached: `a` is a child of the document and `b` a child of `a`; putting `a` under `b` takes both
      out of the document and makes each the parent and the only child of the other. */
  method CycleByInsertion() returns (doc: XMLDocument, a: XMLNode, b: XMLNode)
    ensures doc.root.firstChild == doc.root.lastChild == null && doc.unlinked == []
    ensures a.parent == b && b.parent == a && a.firstChild == a.lastChild == b && b.firstChild == b.lastChild == a
    ensures doc.Represents({}) && !doc.Valid()
  {
    hide IsForest, Consistent, TableOk, Create, InsertEnd, Detach, LinksOf, Linked, Descends, Sound, Three, Circular;
    doc := new XMLDocument();
    a := doc.CreateUnlinkedNode();
    b := doc.CreateUnlinkedNode();
    FirstUnderRoot(doc.root, a, b, doc.f);
    var r := doc.InsertEndChild(doc.root, a);
    SecondUnderFirst(doc.root, a, b);
    r := doc.InsertEndChild(a, b);
    FirstUnderSecond(doc.root, a, b);
    r := doc.InsertEndChild(b, a);
    CircleLinks(doc.root, a, b);
    NothingOutside(doc.root, a, b, doc.unlinked);
    PointersMean(doc.f, doc.root);
    PointersMean(doc.f, a);
    PointersMean(doc.f, b);
  }

  lemma NothingOutside(root: XMLNode, a: XMLNode, b: XMLNode, unlinked: seq<XMLNode>)
    requires TableOk(Circular(root, a, b), root, unlinked, {}) && a != root && b != root
    ensures unlinked == [] && root in Circular(root, a, b).kids && a in Circular(root, a, b).kids
    ensures b in Circular(root, a, b).kids
  {
    NothingUnlinked(Circular(root, a, b), root, unlinked);
  }

  lemma LastOfTwo(root: XMLNode, a: XMLNode, b: XMLNode)
    requires a != root && b != root && a != b
    ensures var f2 := Three(root, a, b, [a, b], [], map[a := root, b := root]);
            && Consistent(f2) && a in f2.kids && b in f2.kids && root in f2.kids
            && NextOf(f2, a) == b && NextOf(f2, b) == null && ParentOf(f2, a) == root
  {
    NextIs([a, b], a, 0);
    NextIs([a, b], b, 1);
  }

  /** Every live node is in exactly one of the trees: below the document, or below one unlinked node. */
  lemma EveryNodeInOneTree(f: Forest, root: XMLNode, unlinked: seq<XMLNode>, n: XMLNode) returns (top: XMLNode)
    requires IsForest(f) && TableOk(f, root, unlinked, {}) && root in f.kids && root !in f.par && n in f.kids
    ensures (top == root || top in unlinked) && Descends(f, n, top)
    ensures forall t | (t == root || t in unlinked) && Descends(f, n, t) :: t == top
  {
    hide Acyclic, Grounded;
    var lost := set m | m in f.kids && forall t | t in f.kids && t !in f.par :: !Descends(f, m, t);
    forall m | m in lost
      ensures m in f.par && f.par[m] in lost
    {
      assert Descends(f, m, m);
      forall t | t in f.kids && t !in f.par
        ensures !Descends(f, f.par[m], t)
      {
        assert !Descends(f, m, t);
      }
    }
    NoneUngrounded(f, lost);
    assert n !in lost;
    top :| top in f.kids && top !in f.par && Descends(f, n, top);
    forall t | (t == root || t in unlinked) && Descends(f, n, t)
      ensures t == top
    {
      TopsAreApart(f, n, top, t);
    }
  }

  lemma TopsAreApart(f: Forest, n: XMLNode, t: XMLNode, u: XMLNode)
    requires Consistent(f) && t in f.kids && u in f.kids && t !in f.par && u !in f.par
    requires Descends(f, n, t) && Descends(f, n, u) && n in f.kids
    ensures t == u
  {
    if t != u {
      var e := f.kids.Keys - Subtree(f, t);
      RootOutside(f, u, t);
      forall c | c in f.par && f.par[c] in e
        ensures c in e
      {
        if Descends(f, c, t) {
          DescendsParent(f, c, t);
        }
      }
      assert Closed(f, e);
      assert false;
    }
  }

  /** DynArray::SwapRemove: the last element takes the place of the removed one. */
  function SwapRemove(s: seq<XMLNode>, i: nat): seq<XMLNode>
    requires i < |s|
  {
    s[i := s[|s| - 1]][..|s| - 1]
  }

  lemma SwapRemoved(s: seq<XMLNode>, i: nat)
    requires i < |s| && NoDup(s)
    ensures var t := SwapRemove(s, i);
            NoDup(t) && forall n :: n in t <==> n in s && n != s[i]
  {
    var t := SwapRemove(s, i);
    forall n | n in s && n != s[i]
      ensures n in t
    {
      var k :| 0 <= k < |s| && s[k] == n;
      assert t[if k == |s| - 1 then i else k] == n;
    }
  }

  lemma AttachTable(f: Forest, root: XMLNode, unlinked: seq<XMLNode>, p: XMLNode, c: XMLNode, i: nat)
    requires TableOk(f, root, unlinked, {c}) && p in f.kids && i <= |f.kids[p]| && c in f.kids
    ensures AttachAt(f, p, c, i).kids.Keys == f.kids.Keys
    ensures AttachAt(f, p, c, i).par.Keys == f.par.Keys + {c}
    ensures TableOk(AttachAt(f, p, c, i), root, unlinked, {})
  {
  }

  lemma ChildLinks(f: Forest, c: XMLNode)
    requires Consistent(f) && c in f.par
    ensures c in f.kids && f.par[c] in f.kids
    ensures var l := LinksOf(f, c);
            && l.parent == f.par[c] && l.prev != c && l.next != c
            && (l.prev != null ==> l.prev in f.kids) && (l.next != null ==> l.next in f.kids)
  {
    NeighboursAreSiblings(f, c);
  }

  /** The assignments of XMLNode::Unlink, and their effect on any of the `nodes`. */
  method UnlinkPointers(self: XMLNode, child: XMLNode, ghost nodes: set<XMLNode>)
    requires child.prev != child && child.next != child && child.parent == self
    requires self in nodes && child in nodes
    requires (child.prev != null ==> child.prev in nodes) && (child.next != null ==> child.next in nodes)
    modifies nodes
    ensures forall n | n in nodes :: n.document == old(n.document)
    ensures forall n | n in nodes :: Pointers(n) == AfterUnlink(n, old(Pointers(n)), child, old(Pointers(child)))
  {
    UnlinkEnds(self, child, nodes);
    if child.prev != null {
      child.prev.next := child.next;
    }
    if child.next != null {
      child.next.prev := child.prev;
    }
    child.next := null;
    child.prev := null;
    child.parent := null;
  }

  /** The first half of UnlinkPointers: the ends of the parent's child list. */
  method UnlinkEnds(self: XMLNode, child: XMLNode, ghost nodes: set<XMLNode>)
    requires self in nodes && child in nodes
    modifies self`firstChild, self`lastChild
    ensures self.firstChild == if old(self.firstChild) == child then child.next else old(self.firstChild)
    ensures self.lastChild == if old(self.lastChild) == child then child.prev else old(self.lastChild)
  {
    if child == self.firstChild {
      self.firstChild := self.firstChild.next;
    }
    if child == self.lastChild {
      self.lastChild := self.lastChild.prev;
    }
  }
}
