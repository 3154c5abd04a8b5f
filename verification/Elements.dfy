/** The Element tree of strategy.cpp: an element with children is to be enabled exactly when a child is. */
module Elements {

  class Element {
    var enable: bool
    var parent: Element?
    var children: seq<Element>

    constructor ()
      ensures !enable && parent == null && children == []
    {
      enable, parent, children := false, null, [];
    }

    ghost predicate HasOn(all: set<Element>)
      reads this, all
    {
      exists c :: c in all && c in children && c.enable
    }

    /** A leaf, or enabled exactly when some child is. */
    ghost predicate Fine(all: set<Element>)
      reads this, all
    {
      children != [] ==> (enable <==> HasOn(all))
    }

    /** Enables the element and, as far as the disabled ones reach, those above it. With everything else settled
        and an enabled child, unless it is a leaf, the trees end up settled. */
    method Enable(ghost all: set<Element>, ghost depth: map<Element, nat>)
      requires Tree(all, depth) && this in all
      modifies all`enable
      ensures Tree(all, depth) && enable
      ensures old(FineBut(all, this) && (children == [] || HasOn(all))) ==> Settled(all)
      ensures forall x :: x in all && old(x.enable) ==> x.enable
      ensures forall x :: x in all && x != this && (x.children == [] || depth[x] >= depth[this]) ==>
              x.enable == old(x.enable)
      decreases depth[this], 1
    {
      if enable {
        return;
      }
      TurnOn(all, depth);
      AfterEnable(all, depth);
    }

    lemma OnlyParentsChild(all: set<Element>, depth: map<Element, nat>)
      requires Tree(all, depth) && this in all
      ensures parent != this && forall x :: x in all && x != parent ==> this !in x.children
    {
    }

    /** The assignment in Enable: all that may be unsettled now is the parent. */
    method TurnOn(ghost all: set<Element>, ghost depth: map<Element, nat>)
      requires Tree(all, depth) && this in all
      modifies this`enable
      ensures enable && Tree(all, depth)
      ensures old(FineBut(all, this) && (children == [] || HasOn(all))) ==> FineBut(all, parent)
    {
      OnlyParentsChild(all, depth);
      hide Tree;
      enable := true;
      if old(FineBut(all, this) && (children == [] || HasOn(all))) {
        assert HasOn(all) <==> old(HasOn(all));
        forall x | x in all && x != parent && x != this ensures x.Fine(all) {
          assert old(x.Fine(all)) && (x.HasOn(all) <==> old(x.HasOn(all)));
        }
      }
    }

    /** Climbs, enabling disabled elements, until it meets an enabled one. */
    method AfterEnable(ghost all: set<Element>, ghost depth: map<Element, nat>)
      requires Tree(all, depth) && this in all
      modifies all`enable
      ensures Tree(all, depth)
      ensures old(enable && FineBut(all, parent)) ==> Settled(all)
      ensures forall x :: x in all && old(x.enable) ==> x.enable
      ensures forall x :: x in all && (x.children == [] || depth[x] >= depth[this]) ==> x.enable == old(x.enable)
      decreases depth[this], 0
    {
      ghost var good := enable && FineBut(all, parent);
      var now := parent;
      while now != null
        invariant Tree(all, depth) && (good ==> FineBut(all, now))
        invariant now != null ==> now in all && now.children != [] && depth[now] < depth[this]
                                  && (good ==> now.HasOn(all))
        invariant forall x :: x in all && old(x.enable) ==> x.enable
        invariant forall x :: x in all && (x.children == [] || depth[x] >= depth[this]) ==> x.enable == old(x.enable)
        decreases if now == null then 0 else depth[now] + 1
      {
        if now.enable {
          break;
        }
        now.Enable(all, depth);
        now := now.parent;
      }
    }

    /** Disables the element and those above it left without an enabled child. */
    method Disable(ghost all: set<Element>, ghost depth: map<Element, nat>)
      requires Tree(all, depth) && this in all
      modifies all`enable
      ensures Tree(all, depth) && !enable
      ensures old(FineBut(all, this) && (children == [] || !HasOn(all))) ==> Settled(all)
      ensures forall x :: x in all && x.enable ==> old(x.enable)
      ensures forall x :: x in all && x != this && (x.children == [] || depth[x] >= depth[this]) ==>
              x.enable == old(x.enable)
      decreases depth[this], 1
    {
      if !enable {
        return;
      }
      TurnOff(all, depth);
      AfterDisable(all, depth);
    }

    /** The assignment in Disable: all that may be unsettled now is the parent, and that only by being enabled. */
    method TurnOff(ghost all: set<Element>, ghost depth: map<Element, nat>)
      requires Tree(all, depth) && this in all
      modifies this`enable
      ensures !enable && Tree(all, depth)
      ensures old(FineBut(all, this) && (children == [] || !HasOn(all)))
              ==> FineBut(all, parent) && (parent != null && parent.HasOn(all) ==> parent.enable)
    {
      OnlyParentsChild(all, depth);
      hide Tree;
      enable := false;
      if old(FineBut(all, this) && (children == [] || !HasOn(all))) {
        forall x | x in all && x != parent && x != this ensures x.Fine(all) {
          assert old(x.Fine(all)) && (x.HasOn(all) <==> old(x.HasOn(all)));
        }
        if parent != null && parent.HasOn(all) {
          assert parent != this && old(parent.Fine(all)) && old(parent.HasOn(all));
        }
      }
    }

    /** Climbs, disabling elements, until it meets one with an enabled child. */
    method AfterDisable(ghost all: set<Element>, ghost depth: map<Element, nat>)
      requires Tree(all, depth) && this in all
      modifies all`enable
      ensures Tree(all, depth)
      ensures old(FineBut(all, parent) && (parent != null && parent.HasOn(all) ==> parent.enable)) ==> Settled(all)
      ensures forall x :: x in all && x.enable ==> old(x.enable)
      ensures forall x :: x in all && (x.children == [] || depth[x] >= depth[this]) ==> x.enable == old(x.enable)
      decreases depth[this], 0
    {
      ghost var good := FineBut(all, parent) && (parent != null && parent.HasOn(all) ==> parent.enable);
      var now := parent;
      while now != null
        invariant Tree(all, depth) && (good ==> FineBut(all, now))
        invariant now != null ==> now in all && now.children != [] && depth[now] < depth[this]
                                  && (good && now.HasOn(all) ==> now.enable)
        invariant forall x :: x in all && x.enable ==> old(x.enable)
        invariant forall x :: x in all && (x.children == [] || depth[x] >= depth[this]) ==> x.enable == old(x.enable)
        decreases if now == null then 0 else depth[now] + 1
      {
        var allDisable := now.AllDisabled(all);
        if allDisable {
          now.Disable(all, depth);
          now := now.parent;
        } else {
          break;
        }
      }
    }

    /** The scan over the children. */
    method AllDisabled(ghost all: set<Element>) returns (r: bool)
      requires forall c :: c in children ==> c in all
      ensures r == !HasOn(all)
    {
      for i := 0 to |children|
        invariant forall j :: 0 <= j < i ==> !children[j].enable
      {
        if children[i].enable {
          return false;
        }
      }
      return true;
    }

    /** AddChild, for the root ele of another tree. The trees stay settled exactly when this is a leaf in the same
        state as ele, or has children already and is enabled if ele is. */
    method AddChild(ele: Element, ghost all: set<Element>, ghost depth: map<Element, nat>, ghost below: set<Element>)
      returns (ok: bool, ghost depth': map<Element, nat>)
      requires Tree(all, depth) && Settled(all) && this in all && ele in below && ele.parent == null
      requires below <= all && this !in below && WholeTrees(below, all)
      modifies this`children, ele`parent, all`enable
      ensures ok && children == old(children) + [ele] && ele.parent == this && Tree(all, depth')
      ensures Settled(all) <==> old(if children == [] then ele.enable == enable else ele.enable ==> enable)
      ensures !old(ele.enable) ==> forall x :: x in all ==> x.enable == old(x.enable)
    {
      hide Tree, WholeTrees;
      Belongs(ele, all, below);
      depth' := Link(ele, all, depth, below);
      forall x | x in all && x != this ensures x.Fine(all) {
        assert old(x.Fine(all));
      }
      assert old(this.Fine(all));
      assert forall c :: c in children <==> c in old(children) || c == ele;
      if ele.enable {
        Deeper(ele, all, depth');
        AfterEnable(all, depth');
      }
      return true, depth';
    }

    lemma Belongs(ele: Element, all: set<Element>, below: set<Element>)
      requires ele in below && below <= all
      ensures ele in all
    {
    }

    /** The two pointers of AddChild. */
    method Link(ele: Element, ghost all: set<Element>, ghost depth: map<Element, nat>, ghost below: set<Element>)
      returns (ghost depth': map<Element, nat>)
      requires Tree(all, depth) && this in all && ele in below && ele.parent == null
      requires below <= all && this !in below && WholeTrees(below, all)
      modifies this`children, ele`parent
      ensures Tree(all, depth') && children == old(children) + [ele] && ele.parent == this && parent == old(parent)
      ensures forall x :: x in all && x != this ==> x.children == old(x.children)
    {
      hide Tree, Shape, Deepen, WholeTrees, WholeShape;
      InTree(this, ele, all, depth, below);
      ghost var parents: map<Element, Element?> := map x: Element | x in all :: x.parent;
      ghost var kids: map<Element, seq<Element>> := map x: Element | x in all :: x.children;
      TreeShape(all, depth, parents, kids);
      WholeTreesShape(all, parents, below);
      depth' := Deepen(depth, below, depth[this] + 1);
      Linked(all, depth, depth', parents, kids, this, ele, below);
      children := children + [ele];
      ele.parent := this;
      TreeShape(all, depth', parents[ele := this], kids[this := kids[this] + [ele]]);
    }

    lemma Deeper(ele: Element, all: set<Element>, depth: map<Element, nat>)
      requires Tree(all, depth) && this in all && ele in all && ele.parent == this
      ensures depth[this] < depth[ele] && (parent != null ==> parent in all && parent != this)
    {
    }
  }

  /** Tree, on the pointers as values. */
  ghost predicate Shape(all: set<Element>, depth: map<Element, nat>, parents: map<Element, Element?>,
                        kids: map<Element, seq<Element>>)
    requires depth.Keys == parents.Keys == kids.Keys == all
  {
    && (forall x :: x in all && parents[x] != null ==>
          parents[x] in all && depth[parents[x]] < depth[x] && x in kids[parents[x]])
    && (forall x, c :: x in all && c in kids[x] ==> c in all && parents[c] == x)
  }

  lemma TreeShape(all: set<Element>, depth: map<Element, nat>, parents: map<Element, Element?>,
                  kids: map<Element, seq<Element>>)
    requires depth.Keys == parents.Keys == kids.Keys == all
    requires forall x :: x in all ==> parents[x] == x.parent && kids[x] == x.children
    ensures Tree(all, depth) <==> Shape(all, depth, parents, kids)
  {
  }

  ghost predicate WholeShape(all: set<Element>, parents: map<Element, Element?>, below: set<Element>)
    requires parents.Keys == all
  {
    forall x :: x in all && parents[x] != null ==> (x in below <==> parents[x] in below)
  }

  lemma WholeTreesShape(all: set<Element>, parents: map<Element, Element?>, below: set<Element>)
    requires parents.Keys == all && forall x :: x in all ==> parents[x] == x.parent
    ensures WholeTrees(below, all) <==> WholeShape(all, parents, below)
  {
  }

  lemma InTree(x: Element, ele: Element, all: set<Element>, depth: map<Element, nat>, below: set<Element>)
    requires Tree(all, depth) && x in all && ele in below && below <= all
    ensures x in depth && depth.Keys == all && ele in all
  {
  }

  /** The root ele of another tree becomes a child of x. */
  lemma Linked(all: set<Element>, depth: map<Element, nat>, depth': map<Element, nat>, parents: map<Element, Element?>,
               kids: map<Element, seq<Element>>, x: Element, ele: Element, below: set<Element>)
    requires depth.Keys == parents.Keys == kids.Keys == all && Shape(all, depth, parents, kids)
    requires x in all && ele in below && below <= all && x !in below && parents[ele] == null
    requires WholeShape(all, parents, below)
    requires depth' == Deepen(depth, below, depth[x] + 1)
    ensures Shape(all, depth', parents[ele := x], kids[x := kids[x] + [ele]])
  {
    hide Deepen;
    var parents', kids' := parents[ele := x], kids[x := kids[x] + [ele]];
    forall y | y in all && parents'[y] != null
      ensures parents'[y] in all && depth'[parents'[y]] < depth'[y] && y in kids'[parents'[y]]
    {
      assert kids'[x][|kids[x]|] == ele;
    }
    forall y, c | y in all && c in kids'[y] ensures c in all && parents'[c] == y {
      assert c in kids[y] || (y == x && c == ele);
    }
  }

  ghost function Deepen(depth: map<Element, nat>, below: set<Element>, k: nat): (d: map<Element, nat>)
    ensures d.Keys == depth.Keys && forall x :: x in depth ==> d[x] == if x in below then depth[x] + k else depth[x]
  {
    map x | x in depth :: if x in below then depth[x] + k else depth[x]
  }

  /** The elements all, closed under parents and children, every parent less deep than its children. */
  ghost predicate Tree(all: set<Element>, depth: map<Element, nat>)
    reads all
  {
    && depth.Keys == all
    && (forall x :: x in all && x.parent != null ==> x.parent in all && depth[x.parent] < depth[x]
                                                     && x in x.parent.children)
    && (forall x, c :: x in all && c in x.children ==> c in all && c.parent == x)
  }

  ghost predicate Settled(all: set<Element>)
    reads all
  {
    forall x :: x in all ==> x.Fine(all)
  }

  ghost predicate FineBut(all: set<Element>, but: Element?)
    reads all
  {
    forall x :: x in all && x != but ==> x.Fine(all)
  }

  /** A union of whole trees. */
  ghost predicate WholeTrees(below: set<Element>, all: set<Element>)
    reads all
  {
    forall x :: x in all && x.parent != null ==> (x in below <==> x.parent in below)
  }

  /** Some leaf at or below x is enabled; top bounds the depths. */
  ghost predicate LeafOn(all: set<Element>, depth: map<Element, nat>, top: nat, x: Element)
    requires Tree(all, depth) && x in all && forall y :: y in all ==> depth[y] <= top
    reads all
    decreases top - depth[x]
  {
    if x.children == [] then x.enable
    else exists c :: c in all && c in x.children && depth[x] < depth[c] && LeafOn(all, depth, top, c)
  }

  /** In settled trees the leaves decide: an element is enabled exactly when a leaf at or below it is. So what
      Enable and Disable of a leaf do to all other elements is determined by their contracts. */
  lemma {:induction false} LeavesDecide(all: set<Element>, depth: map<Element, nat>, top: nat, x: Element)
    requires Tree(all, depth) && Settled(all) && x in all && forall y :: y in all ==> depth[y] <= top
    ensures x.enable <==> LeafOn(all, depth, top, x)
    decreases top - depth[x]
  {
    assert x.Fine(all);
    forall c | c in all && c in x.children ensures depth[x] < depth[c] && (c.enable <==> LeafOn(all, depth, top, c)) {
      LeavesDecide(all, depth, top, c);
    }
  }
}
