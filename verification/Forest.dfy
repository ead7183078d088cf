/** The shape of a DOM as a value: the children of each live node, and the parent of each node that has
    one. What the link operations of XMLNode do to it, and when it stays a forest. */
module Forests {
  /** The links of tinyxml2's XMLNode. `document` is its owner. */
  class XMLNode {
    var document: object?
    var parent: XMLNode?
    var firstChild: XMLNode?
    var lastChild: XMLNode?
    var prev: XMLNode?
    var next: XMLNode?

    constructor (document: object?)
      ensures this.document == document && parent == firstChild == lastChild == prev == next == null
    {
      this.document := document;
      parent, firstChild, lastChild, prev, next := null, null, null, null, null;
    }
  }

  /** The five pointers of a node. */
  datatype Links = Links(parent: XMLNode?, firstChild: XMLNode?, lastChild: XMLNode?, prev: XMLNode?, next: XMLNode?)

  datatype Forest = Forest(kids: map<XMLNode, seq<XMLNode>>, par: map<XMLNode, XMLNode>)

  ghost predicate NoDup(s: seq<XMLNode>) {
    forall i, j | 0 <= i < j < |s| :: s[i] != s[j]
  }

  /** Children and parents agree, and no child is listed twice. */
  ghost predicate Consistent(f: Forest) {
    && (forall p | p in f.kids :: NoDup(f.kids[p]))
    && (forall p, i | p in f.kids && 0 <= i < |f.kids[p]| :: f.kids[p][i] in f.par && f.par[f.kids[p][i]] == p)
    && (forall c | c in f.par :: c in f.kids && f.par[c] in f.kids && c in f.kids[f.par[c]])
  }

  /** Some node of `s` has no parent in `s`. */
  ghost predicate Grounded(f: Forest, s: set<XMLNode>) {
    exists n :: n in s && (n !in f.par || f.par[n] !in s)
  }

  /** No cycle of parents, not even through all nodes. */
  ghost predicate Acyclic(f: Forest) {
    forall s: set<XMLNode> | s <= f.kids.Keys && s != {} :: Grounded(f, s)
  }

  ghost predicate IsForest(f: Forest) {
    Consistent(f) && Acyclic(f)
  }

  /** With a node, `d` holds all its children. */
  ghost predicate Closed(f: Forest, d: set<XMLNode>) {
    forall c | c in f.par :: f.par[c] in d ==> c in d
  }

  /** `n` is `x` or below it. */
  ghost predicate Descends(f: Forest, n: XMLNode, x: XMLNode) {
    forall d: set<XMLNode> | d <= f.kids.Keys && x in d && Closed(f, d) :: n in d
  }

  ghost function Subtree(f: Forest, x: XMLNode): set<XMLNode> {
    set n | n in f.kids && Descends(f, n, x)
  }

  // ---- Operations --------------------------------------------------------------------------------------

  ghost function IndexOf(s: seq<XMLNode>, c: XMLNode): (i: nat)
    requires c in s
    ensures i < |s| && s[i] == c && forall j | 0 <= j < i :: s[j] != c
  {
    if s[0] == c then 0 else 1 + IndexOf(s[1..], c)
  }

  ghost function Without(s: seq<XMLNode>, c: XMLNode): seq<XMLNode>
    requires c in s
  {
    s[..IndexOf(s, c)] + s[IndexOf(s, c) + 1..]
  }

  ghost function Create(f: Forest, n: XMLNode): Forest {
    Forest(f.kids[n := []], f.par)
  }

  /** Unlink. */
  ghost function Detach(f: Forest, c: XMLNode): Forest
    requires Consistent(f)
  {
    if c in f.par then
      Forest(f.kids[f.par[c] := Without(f.kids[f.par[c]], c)], f.par - {c})
    else f
  }

  ghost function AttachAt(f: Forest, p: XMLNode, c: XMLNode, i: nat): Forest
    requires p in f.kids && i <= |f.kids[p]|
  {
    Forest(f.kids[p := Insert(f.kids[p], c, i)], f.par[c := p])
  }

  /** A removal of the nodes of `s`, with everything below them. */
  ghost function Prune(f: Forest, s: set<XMLNode>): Forest {
    Forest(f.kids - s, f.par - s)
  }

  // ---- Consistency -------------------------------------------------------------------------------------

  lemma WithoutFacts(s: seq<XMLNode>, c: XMLNode)
    requires c in s && NoDup(s)
    ensures var w := Without(s, c);
            && NoDup(w) && c !in w && |w| == |s| - 1
            && (forall n | n != c :: n in w <==> n in s)
            && forall k | 0 <= k < |w| :: w[k] == s[if k < IndexOf(s, c) then k else k + 1]
  {
    var i, w := IndexOf(s, c), Without(s, c);
    assert forall k | 0 <= k < |w| :: w[k] == s[if k < i then k else k + 1];
    forall n | n != c && n in s
      ensures n in w
    {
      var k :| 0 <= k < |s| && s[k] == n;
      assert w[if k < i then k else k - 1] == n;
    }
  }

  lemma DetachConsistent(f: Forest, c: XMLNode)
    requires Consistent(f)
    ensures Consistent(Detach(f, c)) && Detach(f, c).kids.Keys == f.kids.Keys && Detach(f, c).par == f.par - {c}
  {
    if c in f.par {
      var g, p := Detach(f, c), f.par[c];
      WithoutFacts(f.kids[p], c);
      forall q, i | q in g.kids && 0 <= i < |g.kids[q]|
        ensures g.kids[q][i] in g.par && g.par[g.kids[q][i]] == q
      {
        var n := g.kids[q][i];
        assert n in f.kids[q];
        assert f.par[n] == q;
        assert n == c ==> q == p;
      }
    }
  }

  lemma AttachConsistent(f: Forest, p: XMLNode, c: XMLNode, i: nat)
    requires Consistent(f) && p in f.kids && i <= |f.kids[p]| && c in f.kids && c !in f.par
    ensures Consistent(AttachAt(f, p, c, i))
  {
    hide Insert;
    var g, s := AttachAt(f, p, c, i), f.kids[p];
    assert forall k | 0 <= k < |s| :: s[k] in f.par;
    InsertFacts(s, c, i);
    forall q, k | q in g.kids && 0 <= k < |g.kids[q]|
      ensures g.kids[q][k] in g.par && g.par[g.kids[q][k]] == q
    {
      AttachedChild(f, p, c, i, q, k);
    }
  }

  /** The children listed after an attachment have the parent that lists them. */
  lemma AttachedChild(f: Forest, p: XMLNode, c: XMLNode, i: nat, q: XMLNode, k: nat)
    requires Consistent(f) && p in f.kids && i <= |f.kids[p]| && c in f.kids && c !in f.par
    requires q in f.kids && k < |AttachAt(f, p, c, i).kids[q]|
    ensures var (g, n) := (AttachAt(f, p, c, i), AttachAt(f, p, c, i).kids[q][k]);
            n in g.par && g.par[n] == q
  {
    var s, t := f.kids[p], AttachAt(f, p, c, i).kids[q];
    if q == p {
      assert t[k] == if k < i then s[k] else if k == i then c else s[k - 1];
    } else {
      assert t[k] in f.par;
    }
  }

  // ---- Cycles ------------------------------------------------------------------------------------------

  lemma DetachAcyclic(f: Forest, c: XMLNode)
    requires IsForest(f)
    ensures IsForest(Detach(f, c))
  {
    var g := Detach(f, c);
    DetachConsistent(f, c);
    forall s: set<XMLNode> | s <= g.kids.Keys && s != {}
      ensures Grounded(g, s)
    {
      assert Grounded(f, s);
    }
  }

  /** Below a detached node, only it lacks a parent: descent is reached through a child. */
  lemma DescendsParent(f: Forest, n: XMLNode, x: XMLNode)
    requires Consistent(f) && x in f.kids && Descends(f, n, x) && n != x
    ensures n in f.par && Descends(f, f.par[n], x)
  {
    var d := {x} + set m | m in f.par && Descends(f, f.par[m], x) && m in f.kids;
    forall c | c in f.par && f.par[c] in d
      ensures c in d
    {
      if f.par[c] == x {
        assert Descends(f, x, x);
      } else {
        DescendsChild(f, f.par[c], x);
      }
    }
    assert Closed(f, d);
    assert n in d;
  }

  lemma DescendsChild(f: Forest, c: XMLNode, x: XMLNode)
    requires Consistent(f) && c in f.par && Descends(f, f.par[c], x)
    ensures Descends(f, c, x)
  {
  }

  lemma DescendsTrans(f: Forest, a: XMLNode, b: XMLNode, c: XMLNode)
    requires Descends(f, a, b) && Descends(f, b, c)
    ensures Descends(f, a, c)
  {
  }

  /** Putting `c` under `p` keeps the forest exactly when `p` is not `c` or below it. The source does not
      check this. */
  lemma AttachAcyclicExactly(f: Forest, p: XMLNode, c: XMLNode, i: nat)
    requires IsForest(f) && p in f.kids && i <= |f.kids[p]| && c in f.kids && c !in f.par
    ensures IsForest(AttachAt(f, p, c, i)) <==> !Descends(f, p, c)
  {
    var g := AttachAt(f, p, c, i);
    AttachConsistent(f, p, c, i);
    assert g.kids.Keys == f.kids.Keys;
    if Descends(f, p, c) {
      AttachMakesCycle(f, p, c, i);
    } else {
      var d: set<XMLNode> :| d <= f.kids.Keys && c in d && Closed(f, d) && p !in d;
      forall s: set<XMLNode> | s <= g.kids.Keys && s != {}
        ensures Grounded(g, s)
      {
        AttachGrounded(f, p, c, i, d, s);
      }
    }
  }

  lemma AttachMakesCycle(f: Forest, p: XMLNode, c: XMLNode, i: nat)
    requires Consistent(f) && p in f.kids && i <= |f.kids[p]| && c in f.kids && c !in f.par
    requires Descends(f, p, c)
    ensures !Acyclic(AttachAt(f, p, c, i))
  {
    var g := AttachAt(f, p, c, i);
    var s := set n | n in f.kids && Descends(f, n, c) && Descends(f, p, n);
    assert p in s && c in s by { assert Descends(f, p, p); assert Descends(f, c, c); }
    forall n | n in s
      ensures n in g.par && g.par[n] in s
    {
      if n != c {
        DescendsParent(f, n, c);
        DescendsChild(f, n, f.par[n]);
        DescendsTrans(f, p, n, f.par[n]);
      }
    }
    assert !Grounded(g, s);
    assert s <= g.kids.Keys;
  }

  lemma AttachGrounded(f: Forest, p: XMLNode, c: XMLNode, i: nat, d: set<XMLNode>, s: set<XMLNode>)
    requires IsForest(f) && p in f.kids && i <= |f.kids[p]| && c in f.kids && c !in f.par
    requires d <= f.kids.Keys && c in d && Closed(f, d) && p !in d
    requires s <= f.kids.Keys && s != {}
    ensures Grounded(AttachAt(f, p, c, i), s)
  {
    var g := AttachAt(f, p, c, i);
    if c in s && p !in s {
      assert g.par[c] == p;
    } else if p in s {
      assert p in s - d && s - d <= f.kids.Keys;
      assert Grounded(f, s - d);
      var n :| n in s - d && (n !in f.par || f.par[n] !in s - d);
      assert n !in g.par || g.par[n] !in s;
    } else {
      assert Grounded(f, s);
      var n :| n in s && (n !in f.par || f.par[n] !in s);
      assert n !in g.par || g.par[n] !in s;
    }
  }

  // ---- Links ------------------------------------------------------------------------------------------

  ghost function NextIn(s: seq<XMLNode>, n: XMLNode): XMLNode?
    requires n in s
  {
    if IndexOf(s, n) + 1 < |s| then s[IndexOf(s, n) + 1] else null
  }

  ghost function PrevIn(s: seq<XMLNode>, n: XMLNode): XMLNode?
    requires n in s
  {
    if IndexOf(s, n) > 0 then s[IndexOf(s, n) - 1] else null
  }

  ghost function First(s: seq<XMLNode>): XMLNode? {
    if s == [] then null else s[0]
  }

  ghost function Last(s: seq<XMLNode>): XMLNode? {
    if s == [] then null else s[|s| - 1]
  }

  ghost function ParentOf(f: Forest, n: XMLNode): XMLNode? {
    if n in f.par then f.par[n] else null
  }

  ghost function NextOf(f: Forest, n: XMLNode): XMLNode?
    requires Consistent(f)
  {
    if n in f.par then NextIn(f.kids[f.par[n]], n) else null
  }

  ghost function PrevOf(f: Forest, n: XMLNode): XMLNode?
    requires Consistent(f)
  {
    if n in f.par then PrevIn(f.kids[f.par[n]], n) else null
  }

  lemma IndexIs(s: seq<XMLNode>, n: XMLNode, i: nat)
    requires NoDup(s) && i < |s| && s[i] == n
    ensures n in s && IndexOf(s, n) == i
  {
    hide IndexOf;
    assert s[IndexOf(s, n)] == n;
  }

  lemma NextIs(s: seq<XMLNode>, n: XMLNode, i: nat)
    requires NoDup(s) && i < |s| && s[i] == n
    ensures n in s && NextIn(s, n) == (if i + 1 < |s| then s[i + 1] else null)
    ensures PrevIn(s, n) == (if i > 0 then s[i - 1] else null)
  {
    IndexIs(s, n, i);
  }

  /** The neighbours of `n` after a removal: those of the removed node are joined. */
  lemma WithoutNeighbours(s: seq<XMLNode>, c: XMLNode, n: XMLNode)
    requires NoDup(s) && c in s && n in s && n != c
    ensures var w := Without(s, c);
            && n in w
            && NextIn(w, n) == (if n == PrevIn(s, c) then NextIn(s, c) else NextIn(s, n))
            && PrevIn(w, n) == (if n == NextIn(s, c) then PrevIn(s, c) else PrevIn(s, n))
  {
    hide IndexOf, NextIn, PrevIn, Without;
    var i, j, w := IndexOf(s, c), IndexOf(s, n), Without(s, c);
    WithoutFacts(s, c);
    NextIs(s, c, i);
    NextIs(s, n, j);
    NextIs(w, n, if j < i then j else j - 1);
  }

  lemma WithoutEnds(s: seq<XMLNode>, c: XMLNode)
    requires NoDup(s) && c in s
    ensures First(Without(s, c)) == (if First(s) == c then NextIn(s, c) else First(s))
    ensures Last(Without(s, c)) == (if Last(s) == c then PrevIn(s, c) else Last(s))
  {
    hide IndexOf, NextIn, PrevIn, Without;
    WithoutFacts(s, c);
    NextIs(s, c, IndexOf(s, c));
    NextIs(s, s[0], 0);
    NextIs(s, s[|s| - 1], |s| - 1);
  }

  ghost function Insert(s: seq<XMLNode>, c: XMLNode, i: nat): seq<XMLNode>
    requires i <= |s|
  {
    s[..i] + [c] + s[i..]
  }

  lemma InsertFacts(s: seq<XMLNode>, c: XMLNode, i: nat)
    requires NoDup(s) && c !in s && i <= |s|
    ensures var t := Insert(s, c, i);
            && |t| == |s| + 1 && NoDup(t) && c in t && (forall n | n in s :: n in t)
            && forall k | 0 <= k < |t| :: t[k] == if k < i then s[k] else if k == i then c else s[k - 1]
  {
    var t := Insert(s, c, i);
    assert t[i] == c;
    assert forall k | 0 <= k < |t| :: t[k] == if k < i then s[k] else if k == i then c else s[k - 1];
    forall n | n in s
      ensures n in t
    {
      var k :| 0 <= k < |s| && s[k] == n;
      assert t[if k < i then k else k + 1] == n;
    }
  }

  /** The neighbours of `n` after `c` is inserted at `i`. */
  lemma InsertNeighbours(s: seq<XMLNode>, c: XMLNode, i: nat, n: XMLNode)
    requires NoDup(s) && c !in s && i <= |s| && n in s
    ensures var t := Insert(s, c, i);
            && n in t
            && NextIn(t, n) == (if i > 0 && n == s[i - 1] then c else NextIn(s, n))
            && PrevIn(t, n) == (if i < |s| && n == s[i] then c else PrevIn(s, n))
  {
    hide IndexOf, NextIn, PrevIn;
    var j := IndexOf(s, n);
    InsertFacts(s, c, i);
    NextIs(s, n, j);
    NextIs(Insert(s, c, i), n, if j < i then j else j + 1);
  }

  lemma InsertEnds(s: seq<XMLNode>, c: XMLNode, i: nat)
    requires NoDup(s) && c !in s && i <= |s|
    ensures var t := Insert(s, c, i);
            && First(t) == (if i == 0 then c else First(s))
            && Last(t) == (if i == |s| then c else Last(s))
            && c in t
            && NextIn(t, c) == (if i < |s| then s[i] else null)
            && PrevIn(t, c) == (if i > 0 then s[i - 1] else null)
  {
    hide IndexOf, NextIn, PrevIn;
    InsertFacts(s, c, i);
    NextIs(Insert(s, c, i), c, i);
  }

  /** The pointers that represent the place of `n` in the forest. */
  ghost function LinksOf(f: Forest, n: XMLNode): Links
    requires Consistent(f) && n in f.kids
  {
    Links(ParentOf(f, n), First(f.kids[n]), Last(f.kids[n]), PrevOf(f, n), NextOf(f, n))
  }

  /** The pointers `l` of `n` after `c`, which has the pointers `k`, has been unlinked. */
  ghost function AfterUnlink(n: XMLNode, l: Links, c: XMLNode, k: Links): Links {
    Links(
      if n == c then null else l.parent,
      if n == k.parent && l.firstChild == c then k.next else l.firstChild,
      if n == k.parent && l.lastChild == c then k.prev else l.lastChild,
      if n == c then null else if n == k.next then k.prev else l.prev,
      if n == c then null else if n == k.prev then k.next else l.next)
  }

  /** The pointers `l` of `n` after `c` has been put between `before` and `after` under `p`. */
  ghost function AfterLink(n: XMLNode, l: Links, p: XMLNode, c: XMLNode, before: XMLNode?, after: XMLNode?): Links {
    Links(
      if n == c then p else l.parent,
      if n == p && before == null then c else l.firstChild,
      if n == p && after == null then c else l.lastChild,
      if n == c then before else if n == after then c else l.prev,
      if n == c then after else if n == before then c else l.next)
  }

  lemma DetachLinks(f: Forest, c: XMLNode, n: XMLNode)
    requires Consistent(f) && c in f.par && n in f.kids && Consistent(Detach(f, c))
    ensures n in Detach(f, c).kids
    ensures LinksOf(Detach(f, c), n) == AfterUnlink(n, LinksOf(f, n), c, LinksOf(f, c))
  {
    hide NextIn, PrevIn, Without, IndexOf, First, Last;
    var s := f.kids[f.par[c]];
    WithoutEnds(s, c);
    if n != c && n in f.par && f.par[n] == f.par[c] {
      WithoutNeighbours(s, c, n);
    }
    NeighboursAreSiblings(f, c);
  }

  lemma NeighboursAreSiblings(f: Forest, c: XMLNode)
    requires Consistent(f) && c in f.par
    ensures var (p, q) := (PrevOf(f, c), NextOf(f, c));
            && (p != null ==> p in f.par && f.par[p] == f.par[c])
            && (q != null ==> q in f.par && f.par[q] == f.par[c])
            && p != c && q != c
  {
    hide IndexOf;
    var s, i := f.kids[f.par[c]], IndexOf(f.kids[f.par[c]], c);
    assert i > 0 ==> s[i - 1] in f.par;
    assert i + 1 < |s| ==> s[i + 1] in f.par;
  }

  lemma AttachLinks(f: Forest, p: XMLNode, c: XMLNode, i: nat, n: XMLNode)
    requires Consistent(f) && p in f.kids && i <= |f.kids[p]| && c in f.kids && c !in f.par && n in f.kids
    requires Consistent(AttachAt(f, p, c, i))
    ensures var s := f.kids[p];
            var (before, after) := (if i > 0 then s[i - 1] else null, if i < |s| then s[i] else null);
            && n in AttachAt(f, p, c, i).kids
            && LinksOf(AttachAt(f, p, c, i), n) == AfterLink(n, LinksOf(f, n), p, c, before, after)
  {
    hide NextIn, PrevIn, Insert, IndexOf, First, Last;
    var s := f.kids[p];
    assert forall k | 0 <= k < |s| :: s[k] in f.par && f.par[s[k]] == p;
    InsertEnds(s, c, i);
    if n != c && n in f.par && f.par[n] == p {
      InsertNeighbours(s, c, i, n);
    }
  }

  // ---- Sequence meaning ------------------------------------------------------------------------------

  /** `s` without any occurrence of `c`. */
  ghost function Minus(s: seq<XMLNode>, c: XMLNode): seq<XMLNode> {
    if s == [] then [] else if s[0] == c then Minus(s[1..], c) else [s[0]] + Minus(s[1..], c)
  }

  lemma {:induction false} MinusAbsent(s: seq<XMLNode>, c: XMLNode)
    requires c !in s
    ensures Minus(s, c) == s
  {
    if s != [] {
      MinusAbsent(s[1..], c);
    }
  }

  lemma {:induction false} MinusIsWithout(s: seq<XMLNode>, c: XMLNode)
    requires c in s && NoDup(s)
    ensures Minus(s, c) == Without(s, c)
  {
    if s[0] == c {
      assert forall i | 0 <= i < |s[1..]| :: s[1..][i] == s[i + 1];
      assert c !in s[1..];
      MinusAbsent(s[1..], c);
      assert s[..0] + s[1..] == s[1..];
    } else {
      assert NoDup(s[1..]);
      MinusIsWithout(s[1..], c);
      var i := IndexOf(s[1..], c);
      assert [s[0]] + (s[1..][..i] + s[1..][i + 1..]) == s[..i + 1] + s[i + 2..];
    }
  }

  /** Unlinking takes the node out of every child list, and changes nothing else. */
  lemma DetachMeaning(f: Forest, c: XMLNode, q: XMLNode)
    requires Consistent(f) && q in f.kids
    ensures q in Detach(f, c).kids && Detach(f, c).kids[q] == Minus(f.kids[q], c)
  {
    assert forall k | 0 <= k < |f.kids[q]| :: f.kids[q][k] in f.par && f.par[f.kids[q][k]] == q;
    if c in f.par && f.par[c] == q {
      MinusIsWithout(f.kids[q], c);
    } else {
      MinusAbsent(f.kids[q], c);
    }
  }

  // ---- Creation and deletion -------------------------------------------------------------------------

  lemma CreateForest(f: Forest, n: XMLNode)
    requires IsForest(f) && n !in f.kids
    ensures IsForest(Create(f, n))
  {
    var g := Create(f, n);
    forall s: set<XMLNode> | s <= g.kids.Keys && s != {}
      ensures Grounded(g, s)
    {
      if n !in s {
        assert s <= f.kids.Keys;
        assert Grounded(f, s);
      }
    }
  }

  /** A set of nodes none of which has a parent or a child outside it can be removed. */
  lemma PruneForest(f: Forest, d: set<XMLNode>)
    requires IsForest(f) && Closed(f, d) && (forall c | c in d && c in f.par :: f.par[c] in d)
    ensures IsForest(Prune(f, d))
  {
    var g := Prune(f, d);
    forall s: set<XMLNode> | s <= g.kids.Keys && s != {}
      ensures Grounded(g, s)
    {
      assert s <= f.kids.Keys;
      assert Grounded(f, s);
    }
    forall p, i | p in g.kids && 0 <= i < |g.kids[p]|
      ensures g.kids[p][i] in g.par && g.par[g.kids[p][i]] == p
    {
      assert f.kids[p][i] in f.par;
    }
  }

  lemma SubtreeClosed(f: Forest, x: XMLNode)
    requires Consistent(f) && x in f.kids
    ensures Closed(f, Subtree(f, x)) && x in Subtree(f, x) && Subtree(f, x) <= f.kids.Keys
  {
    assert Descends(f, x, x);
    forall c | c in f.par && f.par[c] in Subtree(f, x)
      ensures c in Subtree(f, x)
    {
      DescendsChild(f, c, x);
    }
  }

  /** The subtree of a node without a parent, removed. */
  lemma PruneSubtree(f: Forest, x: XMLNode)
    requires IsForest(f) && x in f.kids && x !in f.par
    ensures IsForest(Prune(f, Subtree(f, x)))
  {
    SubtreeClosed(f, x);
    forall c | c in Subtree(f, x) && c in f.par
      ensures f.par[c] in Subtree(f, x)
    {
      DescendsParent(f, c, x);
    }
    PruneForest(f, Subtree(f, x));
  }

  /** Part of the way through deleting the children of `n`: the nodes of `d` are gone from `f0`, and with
      them some children of `n`. */
  ghost predicate Deleting(f0: Forest, n: XMLNode, d: set<XMLNode>, f: Forest) {
    && IsForest(f0) && IsForest(f)
    && n in f0.kids && n in f.kids && d <= Subtree(f0, n) - {n}
    && f.kids.Keys == f0.kids.Keys - d && f.par == f0.par - d
    && (forall m | m in f.kids && m != n :: f.kids[m] == f0.kids[m])
  }

  /** The child that is deleted next, and its subtree, lie below `n`. */
  lemma DeletingChild(f0: Forest, n: XMLNode, d: set<XMLNode>, f: Forest, c: XMLNode)
    requires Deleting(f0, n, d, f) && c in f.par && f.par[c] == n
    ensures var g := Detach(f, c);
            && IsForest(g) && c in g.kids && c !in g.par
            && Subtree(g, c) < Subtree(f0, n) && n !in Subtree(g, c)
            && Deleting(f0, n, d + Subtree(g, c), Prune(g, Subtree(g, c)))
  {
    hide Acyclic, Closed, Descends, Grounded;
    var g := Detach(f, c);
    DetachAcyclic(f, c);
    DetachConsistent(f, c);
    SubtreeClosed(g, c);
    SubtreeBelow(f0, n, d, f, c);
    SubtreeClosed(f0, n);
    PruneSubtree(g, c);
    DeletingStep(f0, n, d, f, c, Subtree(g, c));
  }

  lemma ForestIsConsistent(f: Forest)
    requires IsForest(f)
    ensures Consistent(f)
  {
  }

  lemma DetachElsewhere(f: Forest, c: XMLNode)
    requires Consistent(f) && c in f.par
    ensures Detach(f, c).kids.Keys == f.kids.Keys && Detach(f, c).par == f.par - {c}
    ensures forall m | m in f.kids && m != f.par[c] :: Detach(f, c).kids[m] == f.kids[m]
  {
  }

  lemma DeletingStep(f0: Forest, n: XMLNode, d: set<XMLNode>, f: Forest, c: XMLNode, t: set<XMLNode>)
    requires Deleting(f0, n, d, f) && c in f.par && f.par[c] == n
    requires c in t && t <= Subtree(f0, n) - {n} && IsForest(Prune(Detach(f, c), t))
    ensures Deleting(f0, n, d + t, Prune(Detach(f, c), t))
  {
    hide Acyclic, Consistent, Subtree, Detach;
    ForestIsConsistent(f);
    DetachElsewhere(f, c);
    var g := Prune(Detach(f, c), t);
    assert g.kids.Keys == f.kids.Keys - t == f0.kids.Keys - (d + t);
    assert g.par == f.par - ({c} + t) == f0.par - (d + t);
  }

  lemma SubtreeBelow(f0: Forest, n: XMLNode, d: set<XMLNode>, f: Forest, c: XMLNode)
    requires Deleting(f0, n, d, f) && c in f.par && f.par[c] == n
    requires IsForest(Detach(f, c))
    ensures Subtree(Detach(f, c), c) <= Subtree(f0, n) - {n}
  {
    var g := Detach(f, c);
    DetachConsistent(f, c);
    SubtreeClosed(f0, n);
    ChildIsNotAbove(f, c);
    var e := (Subtree(f0, n) - {n}) * g.kids.Keys;
    assert c in e by { DescendsChild(f0, c, n); }
    forall m | m in g.par && g.par[m] in e
      ensures m in e
    {
      DescendsChild(f0, m, n);
      assert m != n by { RootHasNoParentInside(f0, n, m); }
    }
    assert Closed(g, e);
  }

  lemma ChildIsNotAbove(f: Forest, c: XMLNode)
    requires IsForest(f) && c in f.par
    ensures f.par[c] != c
  {
    assert c in f.kids;
    assert Grounded(f, {c});
  }

  /** No node of the subtree of `n` is a parent of `n`. */
  lemma RootHasNoParentInside(f: Forest, n: XMLNode, m: XMLNode)
    requires IsForest(f) && n in f.kids && m in f.par && Descends(f, f.par[m], n)
    ensures m != n
  {
    if m == n {
      var p := f.par[n];
      var s := set x | x in f.kids && Descends(f, x, n) && Descends(f, p, x);
      assert Descends(f, p, p) && p in f.kids;
      assert p in s;
      forall x | x in s
        ensures x in f.par && f.par[x] in s
      {
        if x != n {
          DescendsParent(f, x, n);
          DescendsChild(f, x, f.par[x]);
          DescendsTrans(f, p, x, f.par[x]);
        }
      }
      NoneUngrounded(f, s);
      assert false;
    }
  }

  /** In a forest, only the empty set has all its parents in itself. */
  lemma NoneUngrounded(f: Forest, s: set<XMLNode>)
    requires IsForest(f) && s <= f.kids.Keys && (forall m | m in s :: m in f.par && f.par[m] in s)
    ensures s == {}
  {
    assert s != {} ==> Grounded(f, s);
  }

  /** When no child is left, the whole subtree but `n` itself is gone. */
  lemma DeletedAll(f0: Forest, n: XMLNode, d: set<XMLNode>, f: Forest)
    requires Deleting(f0, n, d, f) && f.kids[n] == []
    ensures d == Subtree(f0, n) - {n}
  {
    var r := Subtree(f0, n) - {n} - d;
    SubtreeClosed(f0, n);
    forall m | m in r
      ensures m in f.par && f.par[m] in r
    {
      DescendsParent(f0, m, n);
      assert m in f.par && m in f.kids[f.par[m]];
    }
    NoneUngrounded(f, r);
  }
}
