/** Nodes of a JSON tree: a doubly linked chain of children under each array or object. */
module JsonNodes {
  import opened Options
  import opened JsonText

  datatype Kind = IsNull | IsFalse | IsTrue | IsNumber | IsString | IsArray | IsObject

  /** The i-th node of a chain, or null outside it. */
  function Nth(kids: seq<Node>, i: int): Node? {
    if 0 <= i < |kids| then kids[i] else null
  }

  /** The chain runs through exactly these nodes, in both directions. */
  ghost predicate Chained(kids: seq<Node>)
    reads kids
  {
    forall i :: 0 <= i < |kids| ==> kids[i].next == Nth(kids, i + 1) && kids[i].prev == Nth(kids, i - 1)
  }

  ghost function Trees(kids: seq<Node>): (r: seq<Json>)
    reads kids
    ensures |r| == |kids|
  {
    seq(|kids|, i requires 0 <= i < |kids| reads kids => kids[i].tree)
  }

  ghost function Members(kids: seq<Node>): (r: seq<Member>)
    reads kids
    requires forall k :: k in kids ==> k.name.Some?
    ensures |r| == |kids|
  {
    seq(|kids|, i requires 0 <= i < |kids| && kids[i].name.Some? reads kids => Member(kids[i].name.value, kids[i].tree))
  }

  ghost predicate Within(k: Node, owner: Node, repr: set<Node>)
    reads k
  {
    k in repr && k in k.repr && k.repr <= repr && owner !in k.repr
  }

  /** Each child has a subtree of its own, without its parent. */
  ghost predicate Owned(kids: seq<Node>, owner: Node, repr: set<Node>)
    reads kids
  {
    forall k :: k in kids ==> Within(k, owner, repr)
  }

  /** The subtrees of different children share no node. */
  ghost predicate Disjoint(kids: seq<Node>)
    reads kids
  {
    forall i, j :: 0 <= i < j < |kids| ==> kids[i].repr !! kids[j].repr
  }

  /** The tree with one more child. */
  ghost function WithChild(tree: Json, name: Option<string>, child: Json): Json {
    match tree
    case Arr(items) => Arr(items + [child])
    case Obj(members) => if name.Some? then Obj(members + [Member(name.value, child)]) else tree
    case _ => tree
  }

  /** The tree without its child at w. */
  ghost function WithoutChild(tree: Json, w: nat): Json {
    match tree
    case Arr(items) => if w < |items| then Arr(items[..w] + items[w + 1..]) else tree
    case Obj(members) => if w < |members| then Obj(members[..w] + members[w + 1..]) else tree
    case _ => tree
  }

  /** The tree with another child at w. */
  ghost function WithOther(tree: Json, w: nat, name: Option<string>, child: Json): Json {
    match tree
    case Arr(items) => if w < |items| then Arr(items[w := child]) else tree
    case Obj(members) => if w < |members| && name.Some? then Obj(members[w := Member(name.value, child)]) else tree
    case _ => tree
  }

  /** The tree with its first i children only. */
  ghost function TakeChildren(tree: Json, i: nat): Json {
    match tree
    case Arr(items) => if i <= |items| then Arr(items[..i]) else tree
    case Obj(members) => if i <= |members| then Obj(members[..i]) else tree
    case _ => tree
  }

  function NotNegative(which: int): nat {
    if which < 0 then 0 else which
  }

  class Node {
    var next: Node?
    var prev: Node?
    var child: Node?
    var kind: Kind
    var valuestring: string
    var valuedouble: real
    var name: Option<string>
    ghost var kids: seq<Node>
    ghost var repr: set<Node>
    ghost var tree: Json

    /** The fields stand for the tree. */
    ghost predicate Denotes()
      reads this, kids
    {
      match kind
      case IsNull => tree == Null
      case IsFalse => tree == False
      case IsTrue => tree == True
      case IsNumber => tree == Number(valuedouble)
      case IsString => tree == Str(valuestring)
      case IsArray => tree == Arr(Trees(kids))
      case IsObject => (forall k :: k in kids ==> k.name.Some?) && tree == Obj(Members(kids))
    }

    ghost predicate Valid()
      reads this, repr
      decreases repr
    {
      && this in repr
      && (forall k :: k in kids ==> k in repr)
      && Owned(kids, this, repr) && Disjoint(kids)
      && child == Nth(kids, 0) && Chained(kids)
      && Denotes()
      && forall k :: k in kids ==> k.Valid()
    }

    /** cJSON_New_Item. */
    constructor ()
      ensures Valid() && tree == Null && repr == {this} && kids == []
      ensures next == null && prev == null && name == None
    {
      next, prev, child := null, null, null;
      kind, valuestring, valuedouble, name := IsNull, [], 0.0, None;
      kids, repr, tree := [], {this}, Null;
    }

    /** Not in any list. */
    predicate Detached() reads this {
      next == null && prev == null
    }

    /** The walk to the end of the chain. */
    method Last() returns (c: Node)
      requires Valid() && child != null
      ensures kids != [] && c == kids[|kids| - 1]
    {
      hide *;
      Opened(this);
      NthIs(kids, 0);
      c := child;
      ghost var i: nat := 0;
      ChainAt(kids, 0);
      while c.next != null
        invariant i < |kids| && c == kids[i]
        invariant c.next == if i + 1 < |kids| then kids[i + 1] else null
        decreases |kids| - i
      {
        c := c.next;
        i := i + 1;
        ChainAt(kids, i);
      }
    }

    /** suffix_object, or the first link of an empty chain. */
    method Join(last: Node?, item: Node)
      requires Valid() && item.Valid() && item.Detached() && item.repr !! repr
      requires kind == IsObject ==> item.name.Some?
      requires last == Nth(kids, |kids| - 1)
      modifies this, kids, item
      ensures Valid() && kind == old(kind) && kids == old(kids) + [item] && repr == old(repr) + item.repr
      ensures tree == WithChild(old(tree), item.name, item.tree)
      ensures item.Valid() && item.repr == old(item.repr) && item.tree == old(item.tree) && item.name == old(item.name)
      ensures next == old(next) && prev == old(prev) && name == old(name)
    {
      hide *;
      FarFrom(this, item);
      DetachedIs(item);
      ChildIs(this);
      NthIs(kids, |kids| - 1);
      if last == null {
        child := item;
      } else {
        last.next := item;
        item.prev := last;
      }
      KeptItem(item);
      Undisturbed(item);
      repr := repr + item.repr;
      kids := kids + [item];
      tree := WithChild(tree, item.name, item.tree);
      KeptIf(old(kids));
      Joined(this);
    }

    /** cJSON_AddItemToArray; with a named item, the end of cJSON_AddItemToObject. */
    method Append(item: Node)
      requires Valid() && item.Valid() && item.Detached() && item.repr !! repr
      requires kind == IsObject ==> item.name.Some?
      modifies this, kids, item
      ensures Valid() && kind == old(kind) && kids == old(kids) + [item] && repr == old(repr) + item.repr
      ensures tree == WithChild(old(tree), item.name, item.tree)
      ensures item.Valid() && item.repr == old(item.repr) && item.tree == old(item.tree) && item.name == old(item.name)
      ensures next == old(next) && prev == old(prev) && name == old(name)
    {
      hide *;
      ChildIs(this);
      NthIs(kids, |kids| - 1);
      if child == null {
        Join(null, item);
      } else {
        var c := Last();
        Join(c, item);
      }
    }

    /** cJSON_GetArrayItem: the item at an index; a negative index is taken for 0. */
    method Item(which: int) returns (c: Node?)
      requires Valid()
      ensures c == Nth(kids, NotNegative(which))
    {
      hide *;
      Opened(this);
      NotNegativeIs(which);
      c := child;
      var left, i: nat := which, 0;
      while c != null && left > 0
        invariant i + NotNegative(left) == NotNegative(which)
        invariant c == Nth(kids, i)
        decreases left
      {
        NthIs(kids, i);
        ChainAt(kids, i);
        NotNegativeIs(left);
        c := c.next;
        left, i := left - 1, i + 1;
        NthIs(kids, i);
        NotNegativeIs(left);
      }
      NotNegativeIs(left);
      NthIs(kids, i);
      NthIs(kids, NotNegative(which));
    }

    /** The child at w is taken out of the chain. */
    method Unlink(c: Node, ghost w: nat)
      requires Valid() && w < |kids| && c == kids[w]
      modifies this`child, kids
      ensures kids == old(kids)
      ensures forall k :: k in kids ==> k.child == old(k.child) && k.kind == old(k.kind) && k.valuestring == old(k.valuestring)
      ensures forall k :: k in kids ==> k.valuedouble == old(k.valuedouble) && k.name == old(k.name)
      ensures forall k :: k in kids ==> k.kids == old(k.kids) && k.repr == old(k.repr) && k.tree == old(k.tree)
      ensures child == if w > 0 then kids[0] else Nth(kids, 1)
      ensures c.next == null && c.prev == null
      ensures w > 0 ==> kids[w - 1].next == Nth(kids, w + 1)
      ensures w + 1 < |kids| ==> kids[w + 1].prev == Nth(kids, w - 1)
      ensures forall k :: k in kids && k != c && k != Nth(kids, w + 1) ==> k.prev == old(k.prev)
      ensures forall k :: k in kids && k != c && k != Nth(kids, w - 1) ==> k.next == old(k.next)
    {
      hide *;
      SelfFar(this);
      ChildIs(this);
      Around(this, w);
      if c.prev != null { c.prev.next := c.next; }
      if c.next != null { c.next.prev := c.prev; }
      if c == child { child := c.next; }
      c.prev, c.next := null, null;
    }

    /** cJSON_DetachItemFromArray. */
    method Detach(which: int) returns (c: Node?)
      requires Valid()
      modifies this, kids
      ensures var w := NotNegative(which);
        && Valid() && kind == old(kind) && c == Nth(old(kids), w)
        && (c == null ==> kids == old(kids) && repr == old(repr) && tree == old(tree))
        && (c != null ==>
              && kids == old(kids)[..w] + old(kids)[w + 1..] && repr == old(repr) - c.repr && tree == WithoutChild(old(tree), w)
              && c.Valid() && c.Detached() && Kept(c) && c.repr <= old(repr))
      ensures next == old(next) && prev == old(prev) && name == old(name)
    {
      hide *;
      c := Item(which);
      ghost var w := NotNegative(which);
      NthIs(kids, w);
      if c == null { return; }
      SelfFar(this);
      NthIs(kids, 1);
      Unlink(c, w);
      repr := repr - c.repr;
      kids := kids[..w] + kids[w + 1..];
      tree := WithoutChild(tree, w);
      KeptIf(old(kids));
      Cut(Spot(this, w));
      DetachedIs(c);
    }

    /** Another item takes the place of the child at w. */
    method Relink(c: Node, item: Node, ghost w: nat)
      requires Valid() && w < |kids| && c == kids[w] && item.Valid() && item.repr !! repr
      modifies this`child, kids, item`next, item`prev
      ensures kids == old(kids)
      ensures forall k :: k in kids ==> k.child == old(k.child) && k.kind == old(k.kind) && k.valuestring == old(k.valuestring)
      ensures forall k :: k in kids ==> k.valuedouble == old(k.valuedouble) && k.name == old(k.name)
      ensures forall k :: k in kids ==> k.kids == old(k.kids) && k.repr == old(k.repr) && k.tree == old(k.tree)
      ensures child == if w > 0 then kids[0] else item
      ensures item.next == Nth(kids, w + 1) && item.prev == Nth(kids, w - 1)
      ensures w > 0 ==> kids[w - 1].next == item
      ensures w + 1 < |kids| ==> kids[w + 1].prev == item
      ensures forall k :: k in kids && k != c && k != Nth(kids, w + 1) ==> k.prev == old(k.prev)
      ensures forall k :: k in kids && k != c && k != Nth(kids, w - 1) ==> k.next == old(k.next)
    {
      hide *;
      FarFrom(this, item);
      ChildIs(this);
      Around(this, w);
      item.next := c.next;
      item.prev := c.prev;
      if item.next != null { item.next.prev := item; }
      if c == child { child := item; } else { item.prev.next := item; }
      c.next, c.prev := null, null;
    }

    /** The child at w makes place for another item. */
    method Substitute(c: Node, item: Node, ghost w: nat)
      requires Valid() && w < |kids| && c == kids[w] && item.Valid() && item.repr !! repr
      requires kind == IsObject ==> item.name.Some?
      modifies this, kids, item
      ensures Valid() && kind == old(kind) && item.Valid() && item.tree == old(item.tree)
      ensures kids == old(kids)[w := item] && repr == old(repr) - old(c.repr) + item.repr
      ensures tree == WithOther(old(tree), w, item.name, item.tree)
      ensures next == old(next) && prev == old(prev) && name == old(name) && item.repr == old(item.repr) && item.name == old(item.name)
    {
      hide *;
      FarFrom(this, item);
      Relink(c, item, w);
      Undisturbed(item);
      repr := repr - c.repr + item.repr;
      kids := kids[w := item];
      tree := WithOther(tree, w, item.name, item.tree);
      KeptIf(old(kids));
      Swapped(Spot(this, w));
    }

    /** cJSON_ReplaceItemInArray; with a named item, the end of cJSON_ReplaceItemInObject. */
    method Replace(which: int, item: Node)
      requires Valid() && item.Valid() && item.repr !! repr
      requires kind == IsObject ==> item.name.Some?
      modifies this, kids, item
      ensures var w := NotNegative(which);
        && Valid() && kind == old(kind) && item.Valid() && item.tree == old(item.tree)
        && (w >= |old(kids)| ==> kids == old(kids) && repr == old(repr) && tree == old(tree))
        && (w < |old(kids)| ==>
              && kids == old(kids)[w := item] && repr == old(repr) - old(kids[w].repr) + item.repr
              && tree == WithOther(old(tree), w, item.name, item.tree))
      ensures next == old(next) && prev == old(prev) && name == old(name) && item.repr == old(item.repr) && item.name == old(item.name)
    {
      hide *;
      var c := Item(which);
      ghost var w := NotNegative(which);
      NthIs(kids, w);
      if c == null { return; }
      Substitute(c, item, w);
    }

    /** cJSON_AddItemToObject. */
    method AppendNamed(key: string, item: Node)
      requires Valid() && item.Valid() && item.Detached() && item.repr !! repr
      modifies this, kids, item
      ensures Valid() && kind == old(kind) && kids == old(kids) + [item] && repr == old(repr) + item.repr
      ensures tree == WithChild(old(tree), Some(key), old(item.tree)) && item.Valid()
      ensures next == old(next) && prev == old(prev) && name == old(name) && item.name == Some(key) && item.tree == old(item.tree)
    {
      hide *;
      FarFrom(this, item);
      DetachedIs(item);
      item.name := Some(key);
      Undisturbed(item);
      Undisturbed(this);
      DetachedIs(item);
      Append(item);
    }

    /** cJSON_Duplicate: an equal tree of new nodes, or a copy of this node without its children. */
    method Duplicate(recurse: bool) returns (copy: Node)
      requires Valid()
      ensures fresh(copy.repr) && copy.Valid() && copy.Detached() && copy.kind == kind && copy.name == name
      ensures copy.tree == if recurse then tree else TakeChildren(tree, 0)
      decreases repr
    {
      hide *;
      copy := Bare();
      if !recurse { return; }
      ChildIs(this);
      TakeAll(this);
      var from := child;
      var last: Node? := null;
      ghost var i: nat := 0;
      NthIs(kids, 0);
      NthIs(copy.kids, -1);
      DetachedIs(copy);
      while from != null
        invariant i <= |kids| && from == Nth(kids, i)
        invariant fresh(copy.repr) && copy.Valid() && copy.kind == kind
        invariant copy.next == null && copy.prev == null && copy.name == name
        invariant last == Nth(copy.kids, |copy.kids| - 1)
        invariant copy.tree == TakeChildren(tree, i)
        decreases |kids| - i
      {
        NthIs(kids, i);
        KidTree(this, i);
        var item := from.Duplicate(true);
        SelfFar(copy);
        SelfFar(item);
        copy.Join(last, item);
        NthIs(copy.kids, |copy.kids| - 1);
        last := item;
        Around(this, i);
        from := from.next;
        i := i + 1;
      }
      NthIs(kids, i);
      DetachedIs(copy);
    }

    /** A new node with this node's own fields. */
    method Bare() returns (copy: Node)
      requires Valid()
      ensures fresh(copy.repr) && copy.Valid() && copy.Detached() && copy.kind == kind && copy.name == name
      ensures copy.kids == [] && copy.tree == TakeChildren(tree, 0)
    {
      copy := new Node();
      copy.kind, copy.valuestring, copy.valuedouble, copy.name := kind, valuestring, valuedouble, name;
      copy.tree := TakeChildren(tree, 0);
      BareIs(this, copy);
    }
  }

  // ---------- opening and closing validity ----------

  lemma Opened(n: Node)
    requires n.Valid()
    ensures n in n.repr && (forall k :: k in n.kids ==> k in n.repr)
    ensures Owned(n.kids, n, n.repr) && Disjoint(n.kids)
    ensures n.child == Nth(n.kids, 0) && Chained(n.kids) && n.Denotes()
    ensures forall k :: k in n.kids ==> k.Valid()
  {
    hide Owned, Disjoint, Chained, Nth, Node.Denotes;
  }

  lemma Closed(n: Node)
    requires n in n.repr && Owned(n.kids, n, n.repr) && Disjoint(n.kids)
    requires n.child == Nth(n.kids, 0) && Chained(n.kids) && n.Denotes()
    requires forall k :: k in n.kids ==> k.Valid()
    ensures n.Valid()
  {
    hide Disjoint, Chained, Nth, Node.Denotes;
  }

  lemma Separate(kids: seq<Node>, owner: Node, repr: set<Node>, i: nat, j: nat)
    requires Owned(kids, owner, repr) && Disjoint(kids) && i < |kids| && j < |kids|
    ensures kids[i] in repr && kids[i] in kids[i].repr && kids[i].repr <= repr && owner !in kids[i].repr
    ensures i != j ==> kids[i].repr !! kids[j].repr && kids[i] != kids[j]
  {
    assert kids[i] in kids && kids[j] in kids;
  }

  /** Children are different nodes outside each other's subtrees. */
  lemma KidsDiffer(n: Node, i: nat, j: nat)
    requires n.Valid() && i < |n.kids| && j < |n.kids|
    ensures n.kids[i] in n.repr && n.kids[i] in n.kids[i].repr && n.kids[i].repr <= n.repr
    ensures n !in n.kids[i].repr && n.kids[i] != n && n.kids[i].Valid()
    ensures i != j ==> n.kids[i].repr !! n.kids[j].repr && n.kids[i] != n.kids[j]
  {
    hide *;
    Opened(n);
    Separate(n.kids, n, n.repr, i, j);
  }

  // ---------- what a change elsewhere leaves valid ----------

  twostate lemma DenotesKept(n: Node)
    requires old(n.Denotes())
    requires unchanged(n`kind, n`valuestring, n`valuedouble, n`kids, n`tree)
    requires forall k :: k in n.kids ==> k.tree == old(k.tree) && k.name == old(k.name)
    ensures n.Denotes()
  {
    if n.kind == IsArray {
      assert Trees(n.kids) == old(Trees(n.kids));
    } else if n.kind == IsObject {
      assert Members(n.kids) == old(Members(n.kids));
    }
  }

  twostate lemma ChainedKept(kids: seq<Node>)
    requires old(Chained(kids))
    requires forall k :: k in kids ==> k.next == old(k.next) && k.prev == old(k.prev)
    ensures Chained(kids)
  {
    forall i | 0 <= i < |kids| ensures kids[i].next == Nth(kids, i + 1) && kids[i].prev == Nth(kids, i - 1) {
      assert kids[i] in kids;
    }
  }

  twostate predicate Same(k: Node)
    reads k, k.repr
  {
    && k.Valid() && k.next == old(k.next) && k.prev == old(k.prev)
    && k.repr == old(k.repr) && k.tree == old(k.tree) && k.name == old(k.name)
  }

  twostate lemma SameFields(kids: seq<Node>)
    requires forall k :: k in kids ==> Same(k)
    ensures forall k :: k in kids ==> k.Valid() && k.next == old(k.next) && k.prev == old(k.prev)
    ensures forall k :: k in kids ==> k.repr == old(k.repr) && k.tree == old(k.tree) && k.name == old(k.name)
  {
  }

  twostate lemma OpenedBefore(n: Node)
    requires old(n.Valid())
    ensures n in old(n.repr)
    ensures old(Owned(n.kids, n, n.repr)) && old(Disjoint(n.kids))
    ensures old(n.child) == Nth(old(n.kids), 0) && old(Chained(n.kids)) && old(n.Denotes())
    ensures forall k :: k in old(n.kids) ==> old(k.Valid())
  {
    hide Owned, Disjoint, Chained, Nth, Node.Denotes;
  }

  twostate lemma Elsewhere(n: Node)
    requires unchanged(n`kids, n`repr)
    requires old(Owned(n.kids, n, n.repr))
    requires forall k :: k in old(n.kids) ==> old(k.Valid())
    requires forall m :: m in old(n.repr) && m != n ==> unchanged(m)
    ensures forall k :: k in n.kids ==> Same(k)
  {
    hide Node.Valid;
  }

  /** A node stays valid when only its place in its parent's chain, or its name, changes. */
  twostate lemma Undisturbed(n: Node)
    requires old(n.Valid())
    requires unchanged(n`child, n`kind, n`valuestring, n`valuedouble, n`kids, n`repr, n`tree)
    requires forall m :: m in old(n.repr) && m != n ==> unchanged(m)
    ensures n.Valid()
  {
    hide *;
    OpenedBefore(n);
    Elsewhere(n);
    SameFields(n.kids);
    DenotesKept(n);
    ChainedKept(n.kids);
    StillOwned(n);
    Closed(n);
  }

  /** Only its place in a chain may have changed. */
  twostate predicate Kept(k: Node)
    reads k
  {
    && k.child == old(k.child) && k.kind == old(k.kind) && k.valuestring == old(k.valuestring)
    && k.valuedouble == old(k.valuedouble) && k.name == old(k.name)
    && k.kids == old(k.kids) && k.repr == old(k.repr) && k.tree == old(k.tree)
  }

  twostate lemma SeparateBefore(n: Node)
    requires old(Owned(n.kids, n, n.repr)) && old(Disjoint(n.kids))
    ensures forall k, m :: k in old(n.kids) && m in old(k.repr) && m != k ==> m in old(n.repr) && m != n && m !in old(n.kids)
  {
    var kids := old(n.kids);
    forall k, m | k in kids && m in old(k.repr) && m != k ensures m in old(n.repr) && m != n && m !in kids {
      var i :| 0 <= i < |kids| && kids[i] == k;
      assert old(Within(k, n, n.repr));
    }
  }

  /** Children stay valid when only their places in chains change. */
  twostate lemma KidsKept(n: Node)
    requires old(n.Valid())
    requires forall k :: k in old(n.kids) ==> Kept(k)
    requires forall m :: m in old(n.repr) && m != n && m !in old(n.kids) ==> unchanged(m)
    ensures forall k :: k in old(n.kids) ==> k.Valid() && k.repr == old(k.repr) && k.tree == old(k.tree) && k.name == old(k.name)
    ensures Owned(old(n.kids), n, old(n.repr)) && Disjoint(old(n.kids))
  {
    hide *;
    OpenedBefore(n);
    SeparateBefore(n);
    KeptFields(n);
    forall k | k in old(n.kids) ensures k.Valid() {
      forall m | m in old(k.repr) && m != k ensures unchanged(m) {
        assert m in old(n.repr) && m != n && m !in old(n.kids);
      }
      Undisturbed(k);
    }
    StillOwned(n);
  }

  twostate lemma KeptFields(n: Node)
    requires forall k :: k in old(n.kids) ==> Kept(k)
    ensures forall k :: k in old(n.kids) ==> unchanged(k`child, k`kind, k`valuestring, k`valuedouble, k`kids, k`repr, k`tree)
    ensures forall k :: k in old(n.kids) ==> k.repr == old(k.repr) && k.tree == old(k.tree) && k.name == old(k.name)
  {
  }

  twostate lemma StillOwned(n: Node)
    requires old(Owned(n.kids, n, n.repr)) && old(Disjoint(n.kids))
    requires forall k :: k in old(n.kids) ==> k.repr == old(k.repr)
    ensures Owned(old(n.kids), n, old(n.repr)) && Disjoint(old(n.kids))
  {
    var kids := old(n.kids);
    forall k | k in kids ensures Within(k, n, old(n.repr)) {
      assert old(Within(k, n, n.repr));
    }
    forall i, j | 0 <= i < j < |kids| ensures kids[i].repr !! kids[j].repr {
      assert kids[i] in kids && kids[j] in kids;
    }
  }

  // ---------- appending ----------

  lemma NthIs(kids: seq<Node>, i: int)
    ensures Nth(kids, i) == if 0 <= i < |kids| then kids[i] else null
  {
  }

  lemma ChainAt(kids: seq<Node>, i: nat)
    requires Chained(kids)
    ensures i < |kids| ==> kids[i].next == if i + 1 < |kids| then kids[i + 1] else null
    ensures i < |kids| ==> kids[i].prev == if i > 0 then kids[i - 1] else null
  {
  }

  lemma ChildIs(n: Node)
    requires n.Valid()
    ensures n.child == if n.kids == [] then null else n.kids[0]
  {
    hide *;
    Opened(n);
    NthIs(n.kids, 0);
  }

  lemma DetachedIs(item: Node)
    ensures item.Detached() <==> item.next == null && item.prev == null
  {
  }

  /** An item from elsewhere is no part of a tree. */
  lemma FarFrom(n: Node, item: Node)
    requires n.Valid() && item.Valid() && item.repr !! n.repr
    ensures n in n.repr && item in item.repr
    ensures forall k :: k in n.kids ==> k != n && k in n.repr
    ensures forall i, j :: 0 <= i < j < |n.kids| ==> n.kids[i] != n.kids[j]
  {
    hide *;
    Opened(n);
    Opened(item);
    AllDiffer(n);
  }

  lemma AllDiffer(n: Node)
    requires Owned(n.kids, n, n.repr) && Disjoint(n.kids)
    ensures forall k :: k in n.kids ==> k != n && k in n.repr
    ensures forall i, j :: 0 <= i < j < |n.kids| ==> n.kids[i] != n.kids[j]
  {
    forall i, j | 0 <= i < j < |n.kids| ensures n.kids[i] != n.kids[j] {
      Separate(n.kids, n, n.repr, i, j);
    }
  }

  twostate lemma KeptIf(kids: seq<Node>)
    requires forall k :: k in kids ==> k.child == old(k.child) && k.kind == old(k.kind) && k.valuestring == old(k.valuestring)
    requires forall k :: k in kids ==> k.valuedouble == old(k.valuedouble) && k.name == old(k.name)
    requires forall k :: k in kids ==> k.kids == old(k.kids) && k.repr == old(k.repr) && k.tree == old(k.tree)
    ensures forall k :: k in kids ==> Kept(k)
  {
  }

  twostate lemma KeptItem(k: Node)
    requires k.child == old(k.child) && k.kind == old(k.kind) && k.valuestring == old(k.valuestring)
    requires k.valuedouble == old(k.valuedouble) && k.name == old(k.name)
    requires k.kids == old(k.kids) && k.repr == old(k.repr) && k.tree == old(k.tree)
    ensures Kept(k)
  {
  }

  twostate lemma ChainJoined(n: Node)
    requires var was := old(n.kids); var m := |was|;
      && old(Chained(n.kids))
      && (forall i, j :: 0 <= i < j < m ==> was[i] != was[j])
      && |n.kids| == m + 1 && n.kids[..m] == was
      && n.kids[m].next == null && n.kids[m].prev == Nth(was, m - 1)
      && (m > 0 ==> was[m - 1].next == n.kids[m])
      && (forall k :: k in was ==> k.prev == old(k.prev))
      && (forall k :: k in was && k != was[m - 1] ==> k.next == old(k.next))
    ensures Chained(n.kids)
  {
    var was := old(n.kids);
    var m := |was|;
    forall i | 0 <= i <= m
      ensures n.kids[i].next == Nth(n.kids, i + 1) && n.kids[i].prev == Nth(n.kids, i - 1)
    {
      if i < m {
        assert n.kids[i] == n.kids[..m][i] == was[i] && was[i] in was;
        assert was[i].prev == Nth(was, i - 1);
        assert i > 0 ==> n.kids[i - 1] == n.kids[..m][i - 1];
        if i < m - 1 {
          assert old(was[i].next) == Nth(was, i + 1);
          assert n.kids[i + 1] == n.kids[..m][i + 1];
        }
      }
    }
  }

  twostate lemma DenotesJoined(n: Node)
    requires old(n.Denotes()) && n.kind == old(n.kind) && n.valuestring == old(n.valuestring) && n.valuedouble == old(n.valuedouble)
    requires |n.kids| == |old(n.kids)| + 1 && n.kids[..|old(n.kids)|] == old(n.kids)
    requires forall k :: k in old(n.kids) ==> k.tree == old(k.tree) && k.name == old(k.name)
    requires var item := n.kids[|old(n.kids)|];
             (n.kind == IsObject ==> item.name.Some?) && n.tree == WithChild(old(n.tree), item.name, item.tree)
    ensures n.Denotes()
  {
    var was := old(n.kids);
    var m := |was|;
    assert n.kids == was + [n.kids[m]];
    if n.kind == IsArray {
      assert Trees(n.kids) == old(Trees(n.kids)) + [n.kids[m].tree];
    } else if n.kind == IsObject {
      assert Members(n.kids) == old(Members(n.kids)) + [Member(n.kids[m].name.value, n.kids[m].tree)];
    }
  }

  lemma OwnedJoined(was: seq<Node>, owner: Node, repr: set<Node>, item: Node)
    requires Owned(was, owner, repr) && Disjoint(was) && owner in repr && item in item.repr && item.repr !! repr
    ensures Owned(was + [item], owner, repr + item.repr) && Disjoint(was + [item])
  {
    forall i, j | 0 <= i < j < |was + [item]| ensures (was + [item])[i].repr !! (was + [item])[j].repr {
      assert i < |was| && Within(was[i], owner, repr);
    }
  }

  /** The tree after one more item has been linked to the end of its chain. */
  twostate lemma Joined(n: Node)
    requires old(n.Valid())
    requires n.kind == old(n.kind) && n.valuestring == old(n.valuestring) && n.valuedouble == old(n.valuedouble)
    requires |n.kids| == |old(n.kids)| + 1 && n.kids[..|old(n.kids)|] == old(n.kids) && n.child == n.kids[0]
    requires var item := n.kids[|old(n.kids)|];
      && item.Valid() && item in item.repr && item.repr !! old(n.repr) && n.repr == old(n.repr) + item.repr
      && (n.kind == IsObject ==> item.name.Some?) && n.tree == WithChild(old(n.tree), item.name, item.tree)
      && item.next == null && item.prev == Nth(old(n.kids), |old(n.kids)| - 1)
      && (|old(n.kids)| > 0 ==> n.kids[|old(n.kids)| - 1].next == item)
    requires forall i, j :: 0 <= i < j < |old(n.kids)| ==> old(n.kids)[i] != old(n.kids)[j]
    requires forall k :: k in old(n.kids) ==> Kept(k) && k.prev == old(k.prev)
    requires forall k :: k in old(n.kids) && k != old(n.kids)[|old(n.kids)| - 1] ==> k.next == old(k.next)
    requires forall m :: m in old(n.repr) && m != n && m !in old(n.kids) ==> unchanged(m)
    ensures n.Valid()
  {
    hide *;
    OpenedBefore(n);
    KidsKept(n);
    ChainJoined(n);
    DenotesJoined(n);
    ghost var item := n.kids[|old(n.kids)|];
    assert n.kids == old(n.kids) + [item];
    OwnedJoined(old(n.kids), n, old(n.repr), item);
    NthIs(n.kids, 0);
    Closed(n);
  }

  // ---------- detaching ----------

  datatype Spot = Spot(n: Node, w: nat)

  lemma NotNegativeIs(which: int)
    ensures NotNegative(which) == if which < 0 then 0 else which
  {
  }

  lemma SelfFar(n: Node)
    requires n.Valid()
    ensures n in n.repr && forall k :: k in n.kids ==> k != n && k in n.repr
    ensures forall i :: 0 <= i < |n.kids| ==> n.kids[i] in n.repr
    ensures forall i, j :: 0 <= i < j < |n.kids| ==> n.kids[i] != n.kids[j]
  {
    hide *;
    Opened(n);
    AllDiffer(n);
  }

  /** A child and its neighbours. */
  lemma Around(n: Node, w: nat)
    requires n.Valid() && w < |n.kids|
    ensures n.kids[w].next == Nth(n.kids, w + 1) && n.kids[w].prev == Nth(n.kids, w - 1)
    ensures Nth(n.kids, w + 1) == if w + 1 < |n.kids| then n.kids[w + 1] else null
    ensures Nth(n.kids, w - 1) == if w > 0 then n.kids[w - 1] else null
  {
    hide *;
    Opened(n);
    ChainAt(n.kids, w);
    NthIs(n.kids, w + 1);
    NthIs(n.kids, w - 1);
  }

  twostate lemma ChainCut(at: Spot)
    requires var was := old(at.n.kids);
      && old(Chained(at.n.kids))
      && (forall i, j :: 0 <= i < j < |was| ==> was[i] != was[j])
      && at.w < |was| && at.n.kids == was[..at.w] + was[at.w + 1..]
      && (at.w > 0 ==> was[at.w - 1].next == Nth(was, at.w + 1))
      && (at.w + 1 < |was| ==> was[at.w + 1].prev == Nth(was, at.w - 1))
      && (forall k :: k in was && k != was[at.w] && k != Nth(was, at.w + 1) ==> k.prev == old(k.prev))
      && (forall k :: k in was && k != was[at.w] && k != Nth(was, at.w - 1) ==> k.next == old(k.next))
    ensures Chained(at.n.kids)
  {
    hide Nth;
    var was := old(at.n.kids);
    NthIs(was, at.w - 1);
    NthIs(was, at.w + 1);
    forall i | 0 <= i < |at.n.kids|
      ensures at.n.kids[i].next == Nth(at.n.kids, i + 1) && at.n.kids[i].prev == Nth(at.n.kids, i - 1)
    {
      NthCut(was, at.w, i - 1);
      NthCut(was, at.w, i + 1);
      var j := if i < at.w then i else i + 1;
      assert at.n.kids[i] == was[j] && was[j] in was && was[j] != was[at.w];
      assert old(was[j].next) == Nth(was, j + 1) && old(was[j].prev) == Nth(was, j - 1);
    }
  }

  lemma NthCut(was: seq<Node>, w: nat, i: int)
    requires w < |was|
    ensures Nth(was[..w] + was[w + 1..], i) == if i < w then Nth(was, i) else Nth(was, i + 1)
  {
  }

  lemma OwnedCut(was: seq<Node>, owner: Node, repr: set<Node>, w: nat)
    requires Owned(was, owner, repr) && Disjoint(was) && w < |was|
    ensures var cut, c := was[..w] + was[w + 1..], was[w];
      Owned(cut, owner, repr - c.repr) && Disjoint(cut) && owner !in c.repr && c.repr <= repr
  {
    var cut, c := was[..w] + was[w + 1..], was[w];
    assert c in was && Within(c, owner, repr);
    forall k | k in cut ensures Within(k, owner, repr - c.repr) {
      var i :| 0 <= i < |cut| && cut[i] == k;
      var j := if i < w then i else i + 1;
      assert k == was[j] && k in was && Within(k, owner, repr);
      assert k.repr !! c.repr;
    }
    forall i, j | 0 <= i < j < |cut| ensures cut[i].repr !! cut[j].repr {
      assert cut[i] == was[if i < w then i else i + 1] && cut[j] == was[if j < w then j else j + 1];
    }
  }

  twostate lemma DenotesCut(at: Spot)
    requires old(at.n.Denotes()) && at.n.kind == old(at.n.kind) && at.n.valuestring == old(at.n.valuestring) && at.n.valuedouble == old(at.n.valuedouble)
    requires at.w < |old(at.n.kids)| && at.n.kids == old(at.n.kids)[..at.w] + old(at.n.kids)[at.w + 1..]
    requires forall k :: k in old(at.n.kids) ==> k.tree == old(k.tree) && k.name == old(k.name)
    requires at.n.tree == WithoutChild(old(at.n.tree), at.w)
    ensures at.n.Denotes()
  {
    if at.n.kind == IsArray {
      assert Trees(at.n.kids) == old(Trees(at.n.kids))[..at.w] + old(Trees(at.n.kids))[at.w + 1..];
    } else if at.n.kind == IsObject {
      assert forall k :: k in at.n.kids ==> k in old(at.n.kids);
      assert Members(at.n.kids) == old(Members(at.n.kids))[..at.w] + old(Members(at.n.kids))[at.w + 1..];
    }
  }

  /** The tree after its child at w has been taken out of the chain. */
  twostate lemma Cut(at: Spot)
    requires old(at.n.Valid())
    requires at.n.kind == old(at.n.kind) && at.n.valuestring == old(at.n.valuestring) && at.n.valuedouble == old(at.n.valuedouble)
    requires at.w < |old(at.n.kids)| && at.n.kids == old(at.n.kids)[..at.w] + old(at.n.kids)[at.w + 1..]
    requires var was, c := old(at.n.kids), old(at.n.kids)[at.w];
      && at.n.child == (if at.n.kids == [] then null else at.n.kids[0])
      && at.n.repr == old(at.n.repr) - c.repr && at.n.tree == WithoutChild(old(at.n.tree), at.w)
      && (at.w > 0 ==> was[at.w - 1].next == Nth(was, at.w + 1))
      && (at.w + 1 < |was| ==> was[at.w + 1].prev == Nth(was, at.w - 1))
      && (forall k :: k in was && k != c && k != Nth(was, at.w + 1) ==> k.prev == old(k.prev))
      && (forall k :: k in was && k != c && k != Nth(was, at.w - 1) ==> k.next == old(k.next))
    requires forall i, j :: 0 <= i < j < |old(at.n.kids)| ==> old(at.n.kids)[i] != old(at.n.kids)[j]
    requires forall k :: k in old(at.n.kids) ==> Kept(k)
    requires forall m :: m in old(at.n.repr) && m != at.n && m !in old(at.n.kids) ==> unchanged(m)
    ensures at.n.Valid() && old(at.n.kids)[at.w].Valid() && old(at.n.kids)[at.w].repr <= old(at.n.repr)
  {
    hide *;
    OpenedBefore(at.n);
    KidsKept(at.n);
    ChainCut(at);
    DenotesCut(at);
    OwnedCut(old(at.n.kids), at.n, old(at.n.repr), at.w);
    NthIs(at.n.kids, 0);
    assert forall k :: k in at.n.kids ==> k in old(at.n.kids);
    Closed(at.n);
  }

  // ---------- replacing ----------

  lemma NthSwapped(was: seq<Node>, w: nat, item: Node, i: int)
    requires w < |was|
    ensures Nth(was[w := item], i) == if i == w then item else Nth(was, i)
  {
  }

  twostate lemma ChainSwapped(at: Spot)
    requires var was, w := old(at.n.kids), at.w;
      && old(Chained(at.n.kids))
      && (forall i, j :: 0 <= i < j < |was| ==> was[i] != was[j])
      && w < |was| == |at.n.kids| && at.n.kids == was[w := at.n.kids[w]]
      && at.n.kids[w].next == Nth(was, w + 1) && at.n.kids[w].prev == Nth(was, w - 1)
      && (w > 0 ==> was[w - 1].next == at.n.kids[w])
      && (w + 1 < |was| ==> was[w + 1].prev == at.n.kids[w])
      && (forall k :: k in was && k != was[w] && k != Nth(was, w + 1) ==> k.prev == old(k.prev))
      && (forall k :: k in was && k != was[w] && k != Nth(was, w - 1) ==> k.next == old(k.next))
    ensures Chained(at.n.kids)
  {
    hide Nth;
    var was := old(at.n.kids);
    var w: int := at.w;
    var item := at.n.kids[w];
    NthIs(was, w - 1);
    NthIs(was, w + 1);
    forall i | 0 <= i < |was|
      ensures at.n.kids[i].next == Nth(at.n.kids, i + 1) && at.n.kids[i].prev == Nth(at.n.kids, i - 1)
    {
      NthSwapped(was, w, item, i - 1);
      NthSwapped(was, w, item, i + 1);
      if i != w {
        assert at.n.kids[i] == was[i] && was[i] in was && was[i] != was[w];
        assert old(was[i].next) == Nth(was, i + 1) && old(was[i].prev) == Nth(was, i - 1);
      }
    }
  }

  lemma OwnedSwapped(was: seq<Node>, owner: Node, repr: set<Node>, w: nat, item: Node)
    requires Owned(was, owner, repr) && Disjoint(was) && w < |was| && owner in repr
    requires item in item.repr && item.repr !! repr
    ensures var now, more := was[w := item], repr - was[w].repr + item.repr;
      Owned(now, owner, more) && Disjoint(now) && owner in more
  {
    var now, more, c := was[w := item], repr - was[w].repr + item.repr, was[w];
    assert c in was && Within(c, owner, repr);
    forall k | k in now ensures Within(k, owner, more) {
      var i :| 0 <= i < |now| && now[i] == k;
      if i != w {
        assert k in was && Within(k, owner, repr);
        assert k.repr !! c.repr;
      }
    }
    forall i, j | 0 <= i < j < |now| ensures now[i].repr !! now[j].repr {
      assert was[i] in was && was[j] in was && Within(was[i], owner, repr) && Within(was[j], owner, repr);
    }
  }

  twostate lemma DenotesSwapped(at: Spot)
    requires old(at.n.Denotes()) && at.n.kind == old(at.n.kind) && at.n.valuestring == old(at.n.valuestring) && at.n.valuedouble == old(at.n.valuedouble)
    requires at.w < |old(at.n.kids)| == |at.n.kids| && at.n.kids == old(at.n.kids)[at.w := at.n.kids[at.w]]
    requires forall k :: k in old(at.n.kids) ==> k.tree == old(k.tree) && k.name == old(k.name)
    requires var item := at.n.kids[at.w];
      (at.n.kind == IsObject ==> item.name.Some?) && at.n.tree == WithOther(old(at.n.tree), at.w, item.name, item.tree)
    ensures at.n.Denotes()
  {
    var item := at.n.kids[at.w];
    if at.n.kind == IsArray {
      assert Trees(at.n.kids) == old(Trees(at.n.kids))[at.w := item.tree];
    } else if at.n.kind == IsObject {
      assert forall k :: k in at.n.kids ==> k == item || k in old(at.n.kids);
      assert Members(at.n.kids) == old(Members(at.n.kids))[at.w := Member(item.name.value, item.tree)];
    }
  }

  /** The tree after another item has taken the place of its child at w. */
  twostate lemma Swapped(at: Spot)
    requires old(at.n.Valid())
    requires at.n.kind == old(at.n.kind) && at.n.valuestring == old(at.n.valuestring) && at.n.valuedouble == old(at.n.valuedouble)
    requires at.w < |old(at.n.kids)| == |at.n.kids| && at.n.kids == old(at.n.kids)[at.w := at.n.kids[at.w]]
    requires var was, w, item := old(at.n.kids), at.w, at.n.kids[at.w];
      && item.Valid() && item in item.repr && item.repr !! old(at.n.repr)
      && at.n.child == at.n.kids[0] && (at.n.kind == IsObject ==> item.name.Some?)
      && at.n.repr == old(at.n.repr) - was[w].repr + item.repr
      && at.n.tree == WithOther(old(at.n.tree), w, item.name, item.tree)
      && item.next == Nth(was, w + 1) && item.prev == Nth(was, w - 1)
      && (w > 0 ==> was[w - 1].next == item)
      && (w + 1 < |was| ==> was[w + 1].prev == item)
      && (forall k :: k in was && k != was[w] && k != Nth(was, w + 1) ==> k.prev == old(k.prev))
      && (forall k :: k in was && k != was[w] && k != Nth(was, w - 1) ==> k.next == old(k.next))
    requires forall i, j :: 0 <= i < j < |old(at.n.kids)| ==> old(at.n.kids)[i] != old(at.n.kids)[j]
    requires forall k :: k in old(at.n.kids) ==> Kept(k)
    requires forall m :: m in old(at.n.repr) && m != at.n && m !in old(at.n.kids) ==> unchanged(m)
    ensures at.n.Valid()
  {
    hide *;
    OpenedBefore(at.n);
    KidsKept(at.n);
    ChainSwapped(at);
    DenotesSwapped(at);
    OwnedSwapped(old(at.n.kids), at.n, old(at.n.repr), at.w, at.n.kids[at.w]);
    NthIs(at.n.kids, 0);
    assert forall k :: k in at.n.kids ==> k == at.n.kids[at.w] || k in old(at.n.kids);
    Closed(at.n);
  }

  // ---------- duplicating ----------

  lemma BareIs(n: Node, copy: Node)
    requires n.Valid()
    requires copy.repr == {copy} && copy.kids == [] && copy.child == null
    requires copy.kind == n.kind && copy.valuestring == n.valuestring && copy.valuedouble == n.valuedouble
    requires copy.tree == TakeChildren(n.tree, 0)
    ensures copy.Valid()
  {
    hide Node.Valid;
    Opened(n);
    assert Trees(copy.kids) == [] && Members(copy.kids) == [];
    Closed(copy);
  }

  lemma TakeAll(n: Node)
    requires n.Valid()
    ensures TakeChildren(n.tree, |n.kids|) == n.tree
  {
    hide Node.Valid, Owned, Disjoint, Chained;
    Opened(n);
    if n.kind == IsArray {
      assert n.tree.items[..|n.kids|] == n.tree.items;
    } else if n.kind == IsObject {
      assert n.tree.members[..|n.kids|] == n.tree.members;
    }
  }

  lemma KidTree(n: Node, i: nat)
    requires n.Valid() && i < |n.kids|
    ensures n.kids[i].Valid() && n.kids[i].repr < n.repr
    ensures n.kind == IsObject ==> n.kids[i].name.Some?
    ensures WithChild(TakeChildren(n.tree, i), n.kids[i].name, n.kids[i].tree) == TakeChildren(n.tree, i + 1)
  {
    hide *;
    Opened(n);
    Separate(n.kids, n, n.repr, i, i);
    OneMore(n, i);
  }

  lemma OneMore(n: Node, i: nat)
    requires n.Denotes() && i < |n.kids|
    ensures n.kind == IsObject ==> n.kids[i].name.Some?
    ensures WithChild(TakeChildren(n.tree, i), n.kids[i].name, n.kids[i].tree) == TakeChildren(n.tree, i + 1)
  {
    var k := n.kids[i];
    assert k in n.kids;
    if n.kind == IsArray {
      assert n.tree.items[..i + 1] == n.tree.items[..i] + [k.tree];
    } else if n.kind == IsObject {
      assert n.tree.members[..i + 1] == n.tree.members[..i] + [Member(k.name.value, k.tree)];
    }
  }
}
