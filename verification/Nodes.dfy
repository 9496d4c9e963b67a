/**
 The nodes of core/src/json.c and core/src/xml.c: nodes linked into sibling lists, with
 the same code in both files to append a child.
 */
module Nodes {

  /** The fields of a node and its children in order: what the links of a node spell. */
  datatype Tree<F> = Tree(fields: F, children: seq<Tree<F>>)

  class Node<F> {
    var fields: F
    var parent: Node?<F>
    var firstChild: Node?<F>
    var nextSibling: Node?<F>

    /** The nodes on the sibling list of firstChild, every node below, and the tree they spell. */
    ghost var children: seq<Node<F>>
    ghost var repr: set<Node<F>>
    ghost var tree: Tree<F>

    /** The links below this node spell its tree. Its own parent and nextSibling are not looked at. */
    ghost predicate Valid()
      reads this`fields, this`firstChild, this`children, this`repr, this`tree, repr - {this}
      decreases repr
    {
      && this in repr
      && tree == Tree(fields, tree.children)
      && |tree.children| == |children|
      && firstChild == (if |children| == 0 then null else children[0])
      && (forall i :: 0 <= i < |children| ==> children[i] in repr && children[i] != this)
      && (forall i :: 0 <= i < |children| ==> ChildAt(i))
      && (forall i, j :: 0 <= i < j < |children| ==> children[i].repr !! children[j].repr)
    }

    ghost predicate ChildAt(i: nat)
      requires i < |children| && |tree.children| == |children| && this in repr
      reads this`children, this`repr, this`tree, repr - {this}
      decreases repr, 0
    {
      && children[i] in repr && children[i] != this
      && children[i] in children[i].repr && children[i].repr <= repr - {this}
      && children[i].Valid()
      && children[i].tree == tree.children[i]
      && children[i].parent == this
      && children[i].nextSibling == (if i + 1 < |children| then children[i + 1] else null)
    }

    constructor (fields: F)
      ensures Valid() && fresh(repr)
      ensures tree == Tree(fields, [])
      ensures parent == null && nextSibling == null
    {
      this.fields := fields;
      parent, firstChild, nextSibling := null, null, null;
      children, repr, tree := [], {this}, Tree(fields, []);
    }

    twostate lemma StaysValid(node: Node<F>)
      requires old(node.Valid())
      requires node.SameLinks()
      requires forall m :: m in node.repr && m != node ==> unchanged(m)
      ensures node.Valid()
    {
    }

    /** All fields that Valid looks at are as before. */
    twostate predicate SameLinks()
      reads this
    {
      unchanged(`fields, `firstChild, `children, `repr, `tree)
    }

    static function LastOf(nodes: seq<Node<F>>): seq<Node<F>> {
      if |nodes| == 0 then [] else [nodes[|nodes| - 1]]
    }

    /** The state of the links after AppendChild. */
    twostate predicate Appended(child: Node<F>)
      reads this, repr, child
    {
      && repr == old(repr) + old(child.repr)
      && child.SameLinks() && child.parent == this && child.nextSibling == null
      && (forall m :: m in old(repr) + old(child.repr) && m != this && m != child && m !in old(LastOf(children)) ==> unchanged(m))
      && (forall m :: m in old(LastOf(children)) ==>
            m in repr && m.SameLinks() && m.parent == old(m.parent) && m.nextSibling == child)
      && unchanged(`fields)
      && firstChild == (if |old(children)| == 0 then child else old(firstChild))
      && children == old(children) + [child]
      && tree == old(tree).(children := old(tree.children) + [child.tree])
    }

    twostate lemma ChildStays(child: Node<F>, new i: nat)
      requires old(Valid()) && old(child.Valid()) && old(repr !! child.repr) && child in repr
      requires Appended(child)
      requires i < |children|
      ensures |tree.children| == |children| && this in repr && ChildAt(i)
    {
      var n := old(|children|);
      assert n > 0 ==> old(ChildAt(n - 1));
      assert i < n ==> old(ChildAt(i));
      StaysValid(children[i]);
    }

    twostate lemma LengthsStay(child: Node<F>)
      requires old(Valid()) && child in repr && Appended(child)
      ensures |tree.children| == |children| && this in repr
    {
    }

    twostate lemma AllChildrenStay(child: Node<F>)
      requires old(Valid()) && old(child.Valid()) && old(repr !! child.repr) && child in repr
      requires Appended(child)
      ensures |tree.children| == |children| && this in repr
      ensures forall i :: 0 <= i < |children| ==> ChildAt(i)
    {
      hide Appended, SameLinks;
      LengthsStay(child);
      forall i | 0 <= i < |children| ensures ChildAt(i) {
        ChildStays(child, i);
      }
    }

    twostate lemma AllDisjoint(child: Node<F>)
      requires old(Valid()) && old(child.Valid()) && old(repr !! child.repr) && child in repr
      requires Appended(child)
      ensures forall i, j :: 0 <= i < j < |children| ==> children[i].repr !! children[j].repr
    {
      var n := old(|children|);
      assert n > 0 ==> old(ChildAt(n - 1));
      forall i, j | 0 <= i < j < |children| ensures children[i].repr !! children[j].repr {
        assert old(ChildAt(i));
        assert j < n ==> old(ChildAt(j));
      }
    }

    twostate lemma StaysValidWith(child: Node<F>)
      requires old(Valid()) && old(child.Valid()) && old(repr !! child.repr) && child in repr
      requires Appended(child)
      ensures Valid()
    {
      AllChildrenStay(child);
      AllDisjoint(child);
    }

    /** The last node of the sibling list. */
    method LastChild() returns (last: Node<F>)
      requires Valid() && firstChild != null
      ensures |children| > 0 && last == children[|children| - 1]
    {
      last := firstChild;
      ghost var i := 0;
      while last.nextSibling != null
        invariant 0 <= i < |children| && last == children[i]
        decreases |children| - i
      {
        assert ChildAt(i);
        last := last.nextSibling;
        i := i + 1;
      }
      assert ChildAt(i);
    }

    /** Walks the sibling list and links child behind its last node. */
    method AppendChild(child: Node<F>)
      requires Valid() && child.Valid() && repr !! child.repr && child.nextSibling == null
      modifies this, repr, child`parent
      ensures Valid()
      ensures children == old(children) + [child] && repr == old(repr) + old(child.repr)
      ensures tree == old(tree).(children := old(tree.children) + [old(child.tree)])
      ensures parent == old(parent) && nextSibling == old(nextSibling)
      ensures child.repr == old(child.repr)
    {
      assert |children| > 0 ==> ChildAt(|children| - 1);
      if firstChild == null {
        child.parent := this;
        firstChild := child;
      } else {
        var last := LastChild();
        child.parent := this;
        last.nextSibling := child;
      }
      children := children + [child];
      repr := repr + child.repr;
      tree := tree.(children := tree.children + [child.tree]);
      StaysValidWith(child);
    }

    /** Overwrites the fields of a node that are no links. */
    method SetFields(newFields: F)
      requires Valid()
      modifies `fields, `tree
      ensures Valid() && fields == newFields && tree == old(tree).(fields := newFields)
    {
      fields := newFields;
      tree := tree.(fields := newFields);
      forall i | 0 <= i < |children| ensures ChildAt(i) {
        assert old(ChildAt(i));
        StaysValid(children[i]);
      }
    }
  }
}
