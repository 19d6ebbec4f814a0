/**
 * A vertex of the suffix classification tree: a half-open index range into a
 * copy of the text, the children ordered by suffix, the g-list, the insertion
 * target and an owned occurrence bit vector.
 */
module Nodes {
  import opened Errors
  import opened Strings
  import opened BitVectors
  import Sorting

  /** The largest value of a signed 32-bit int, into which get_suffix converts the end index. */
  const INT_MAX: nat := 0x7FFF_FFFF

  class Node {
    var root: Node?
    var parent: Node?
    var text: string
    var children: seq<Node>
    var indexes: (U32, U32)
    var gList: seq<int>
    var insertionTarget: U32
    var bv: array?<bool>
    /** The nodes reachable from this one through children, this one included. */
    ghost var Repr: set<Node>

    /** Repr is exactly the set of reachable nodes, and no node reaches itself through its children. */
    ghost predicate Valid()
      reads this`Repr, this`children, Repr`Repr, Repr`children
      decreases Repr
    {
      && this in Repr
      && (forall c :: c in children ==> c in Repr && c.Repr <= Repr && this !in c.Repr && c.Valid())
      && Repr == {this} + ChildrenRepr(children)
    }

    /** The union of the reachable sets of the nodes in cs. */
    static ghost function ChildrenRepr(cs: seq<Node>): set<Node>
      reads (set c | c in cs)`Repr
    {
      if cs == [] then {} else ChildrenRepr(cs[..|cs| - 1]) + cs[|cs| - 1].Repr
    }

    static lemma {:induction false} ChildrenReprMembers(cs: seq<Node>, m: Node)
      ensures m in ChildrenRepr(cs) <==> exists c :: c in cs && m in c.Repr
    {
      if cs != [] {
        var init := cs[..|cs| - 1];
        ChildrenReprMembers(init, m);
        assert cs == init + [cs[|cs| - 1]];
        if m in ChildrenRepr(init) {
          var c :| c in init && m in c.Repr;
          assert c in cs;
        }
      }
    }

    /** ChildrenRepr depends only on which nodes occur in cs. */
    static lemma ChildrenReprSameNodes(cs: seq<Node>, ds: seq<Node>)
      requires forall c :: c in cs <==> c in ds
      ensures ChildrenRepr(cs) == ChildrenRepr(ds)
    {
      forall m | m in ChildrenRepr(cs) ensures m in ChildrenRepr(ds) {
        ChildrenReprMembers(cs, m);
        ChildrenReprMembers(ds, m);
      }
      forall m | m in ChildrenRepr(ds) ensures m in ChildrenRepr(cs) {
        ChildrenReprMembers(cs, m);
        ChildrenReprMembers(ds, m);
      }
    }

    /** A node whose children are valid and do not reach it is valid with Repr = {this} + ChildrenRepr(children). */
    lemma ValidFromChildren()
      requires Repr == {this} + ChildrenRepr(children)
      requires forall c :: c in children ==> c.Valid() && this !in c.Repr
      ensures Valid()
    {
      forall c | c in children
        ensures c in Repr && c.Repr <= Repr
      {
        forall m | m in c.Repr ensures m in ChildrenRepr(children) {
          ChildrenReprMembers(children, m);
        }
      }
    }

    function GetParent(): Node? reads this`parent { parent }
    function GetText(): string reads this`text { text }
    function GetChildren(): seq<Node> reads this`children { children }
    function GetBvPointer(): array?<bool> reads this`bv { bv }

    /** The default constructor: a root of itself with one zero bit and the empty range. */
    constructor ()
      ensures root == this && parent == null && text == "" && children == []
      ensures indexes == (0, 0) && gList == [] && insertionTarget == 0
      ensures fresh(bv) && bv[..] == [false]
      ensures Valid() && Repr == {this}
    {
      var b := Zeros(1);
      parent, text, children := null, "", [];
      indexes, gList, insertionTarget, bv := (0, 0), [], 0, b;
      new;
      root := this;
      Repr := {this};
    }

    /** A root of itself holding text, with a vector of bvSize zero bits. */
    constructor WithText(t: string, bvSize: nat)
      ensures root == this && parent == null && text == t && children == []
      ensures indexes == (0, 0) && gList == [] && insertionTarget == 0
      ensures fresh(bv) && bv.Length == bvSize && forall j :: 0 <= j < bvSize ==> !bv[j]
      ensures Valid() && Repr == {this}
    {
      var b := Zeros(bvSize);
      parent, text, children := null, t, [];
      indexes, gList, insertionTarget, bv := (0, 0), [], 0, b;
      new;
      root := this;
      Repr := {this};
    }

    /**
     * The full constructor: the text is taken from rootNode, and a non-null
     * bit vector is copied bit by bit into a fresh one.
     */
    constructor Init(rootNode: Node, parentNode: Node?, cs: seq<Node>, idx: (U32, U32),
                     g: seq<int>, it: U32, src: array?<bool>)
      ensures root == rootNode && parent == parentNode && children == cs
      ensures indexes == idx && gList == g && insertionTarget == it
      ensures text == rootNode.text
      ensures src == null ==> bv == null
      ensures src != null ==> fresh(bv) && bv[..] == src[..]
      ensures Repr == {this} + ChildrenRepr(cs)
      ensures (forall c :: c in cs ==> c.Valid()) ==> Valid()
    {
      root, parent, children := rootNode, parentNode, cs;
      indexes, gList, insertionTarget := idx, g, it;
      text := rootNode.text;
      var b: array?<bool> := null;
      if src != null {
        b := CopyBits(src);
      }
      bv := b;
      Repr := {this} + ChildrenRepr(cs);
      new;
      if forall c :: c in cs ==> c.Valid() {
        ValidFromChildren();
      }
    }

    /** The copy constructor: every field but the text (left empty), the bit vector deep-copied. */
    constructor Copy(other: Node)
      ensures root == other.root && parent == other.parent && children == other.children
      ensures indexes == other.indexes && gList == other.gList && insertionTarget == other.insertionTarget
      ensures text == ""
      ensures other.bv == null ==> bv == null
      ensures other.bv != null ==> fresh(bv) && bv[..] == other.bv[..]
      ensures Repr == {this} + ChildrenRepr(other.children)
      ensures other.Valid() ==> Valid()
    {
      root, parent, children := other.root, other.parent, other.children;
      indexes, gList, insertionTarget := other.indexes, other.gList, other.insertionTarget;
      text := "";
      var b: array?<bool> := null;
      if other.bv != null {
        b := CopyBits(other.bv);
      }
      bv := b;
      Repr := {this} + ChildrenRepr(other.children);
      new;
      if other.Valid() {
        ValidFromChildren();
      }
    }

    /**
     * operator=: nothing happens on self-assignment; otherwise every field,
     * the text included, becomes other's, the bit vector deep-copied.
     */
    method Assign(other: Node)
      modifies this`root, this`parent, this`text, this`children, this`indexes
      modifies this`gList, this`insertionTarget, this`bv, this`Repr
      ensures this == other ==> unchanged(this)
      ensures this != other ==>
        && root == other.root && parent == other.parent && children == other.children
        && indexes == other.indexes && gList == other.gList && insertionTarget == other.insertionTarget
        && text == other.text
        && (other.bv == null ==> bv == null)
        && (other.bv != null ==> fresh(bv) && bv[..] == other.bv[..])
        && Repr == {this} + old(ChildrenRepr(other.children))
      ensures this != other && old(forall c :: c in other.children ==> c.Valid() && this !in c.Repr) ==> Valid()
    {
      if this != other {
        CopyFields(other);
        SetChildren(other.children);
      }
    }

    /** Every field of other except children and Repr, the bit vector deep-copied. */
    method CopyFields(other: Node)
      modifies this`root, this`parent, this`text, this`indexes, this`gList, this`insertionTarget, this`bv
      ensures root == old(other.root) && parent == old(other.parent) && text == old(other.text)
      ensures indexes == old(other.indexes) && gList == old(other.gList) && insertionTarget == old(other.insertionTarget)
      ensures old(other.bv) == null ==> bv == null
      ensures old(other.bv) != null ==> fresh(bv) && bv[..] == old(other.bv[..])
    {
      var b: array?<bool> := null;
      if other.bv != null {
        b := CopyBits(other.bv);
      }
      root, parent := other.root, other.parent;
      indexes, gList, insertionTarget := other.indexes, other.gList, other.insertionTarget;
      text, bv := other.text, b;
    }

    /**
     * get_suffix: the empty string for the range (0, 0); std::out_of_range when
     * the end is past the text (the end is first converted to a signed int, so
     * an end above INT_MAX also throws); otherwise text.substr(first, second - first)
     * with unsigned subtraction.
     */
    function GetSuffix(): (r: Result<string>)
      reads this`indexes, this`text
      ensures indexes == (0, 0) ==> r == Ok("")
      ensures indexes != (0, 0) ==>
        (r.Err? <==> indexes.1 > |text| || indexes.1 > INT_MAX || indexes.0 > |text|)
      ensures r.Err? ==> r.error == OutOfRange
      ensures indexes.0 <= indexes.1 <= |text| && indexes.1 <= INT_MAX ==>
        r == Ok(text[indexes.0..indexes.1]) && |r.value| == indexes.1 - indexes.0
      ensures indexes.1 < indexes.0 <= |text| < TWO32 && indexes.1 <= INT_MAX ==> r == Ok(text[indexes.0..])
    {
      if indexes == (0, 0) then Ok("")
      else if indexes.1 > INT_MAX || indexes.1 > |text| then Err(OutOfRange)
      else
        var count := Sub32(indexes.1, indexes.0);
        assert indexes.1 < indexes.0 <= |text| < TWO32 ==>
          && count >= |text| - indexes.0
          && Min(count, |text| - indexes.0) == |text| - indexes.0
          && Substr(text, indexes.0, count).Ok?
          && |Substr(text, indexes.0, count).value| == |text| - indexes.0
          && Substr(text, indexes.0, count).value == text[indexes.0..];
        Substr(text, indexes.0, count)
    }

    /** compare_nodes: a precedes b when a's suffix is lexicographically smaller; get_suffix's exception propagates. */
    static function CompareNodes(a: Node, b: Node): (r: Result<bool>)
      reads a`indexes, a`text, b`indexes, b`text
      ensures r.Ok? <==> a.GetSuffix().Ok? && b.GetSuffix().Ok?
      ensures r.Ok? ==> (r.value <==> LexLess(a.GetSuffix().value, b.GetSuffix().value))
      ensures r.Err? ==> r.error == OutOfRange
    {
      match a.GetSuffix()
      case Err(e) => Err(e)
      case Ok(sa) =>
        match b.GetSuffix()
        case Err(e) => Err(e)
        case Ok(sb) => Ok(LexLess(sa, sb))
    }

    /** compare_nodes is a strict weak ordering, as std::sort requires of its comparator. */
    static lemma CompareNodesIsStrictWeakOrder(a: Node, b: Node, c: Node)
      requires a.GetSuffix().Ok? && b.GetSuffix().Ok? && c.GetSuffix().Ok?
      ensures CompareNodes(a, a) == Ok(false)
      ensures CompareNodes(a, b) == Ok(true) ==> CompareNodes(b, a) == Ok(false)
      ensures CompareNodes(a, b) == Ok(true) && CompareNodes(b, c) == Ok(true) ==> CompareNodes(a, c) == Ok(true)
      ensures CompareNodes(a, b) == Ok(false) && CompareNodes(b, a) == Ok(false) ==>
        a.GetSuffix() == b.GetSuffix()
    {
      var sa, sb, sc := a.GetSuffix().value, b.GetSuffix().value, c.GetSuffix().value;
      LexLessIrreflexive(sa);
      if LexLess(sa, sb) {
        LexLessAsymmetric(sa, sb);
        if LexLess(sb, sc) { LexLessTransitive(sa, sb, sc); }
      }
      LexLessTotal(sa, sb);
    }

    /** Children in the order std::sort leaves them: no child compares less than one before it. */
    static ghost predicate SortedBySuffix(cs: seq<Node>)
      reads cs`indexes, cs`text
    {
      forall i, j {:trigger CompareNodes(cs[j], cs[i])} :: 0 <= i < j < |cs| ==> CompareNodes(cs[j], cs[i]) == Ok(false)
    }

    static ghost predicate AllSuffixesOk(cs: seq<Node>)
      reads cs`indexes, cs`text
    {
      forall c :: c in cs ==> c.GetSuffix().Ok?
    }

    /** The suffix of every node in cs, keyed by node; the first suffix that throws is the error. */
    static function SuffixKeys(cs: seq<Node>): (r: Result<map<Node, string>>)
      reads cs`indexes, cs`text
      ensures r.Ok? <==> AllSuffixesOk(cs)
      ensures r.Err? ==> r.error == OutOfRange
      ensures r.Ok? ==> forall c :: c in cs ==> c in r.value && c.GetSuffix() == Ok(r.value[c])
    {
      if cs == [] then Ok(map[])
      else
        var init := cs[..|cs| - 1];
        var last := cs[|cs| - 1];
        assert cs == init + [last];
        match SuffixKeys(init)
        case Err(e) => Err(e)
        case Ok(key) =>
          match last.GetSuffix()
          case Err(e) => Err(e)
          case Ok(sfx) => Ok(key[last := sfx])
    }

    /**
     * std::sort(list, compare_nodes): a single node is compared with nothing;
     * with two or more, every node's suffix is taken, and one that throws
     * makes the sort throw.
     */
    static function SortBySuffix(list: seq<Node>): (r: Result<seq<Node>>)
      reads list`indexes, list`text
      ensures r.Ok? <==> |list| <= 1 || AllSuffixesOk(list)
      ensures r.Err? ==> r.error == OutOfRange
      ensures r.Ok? ==> multiset(r.value) == multiset(list) && SortedBySuffix(r.value)
    {
      if |list| <= 1 then Ok(list)
      else
        match SuffixKeys(list)
        case Err(e) => Err(e)
        case Ok(key) =>
          var sorted := Sorting.SortByKey(list, key);
          KeyOrderIsSuffixOrder(list, key, sorted);
          Ok(sorted)
    }

    /** A permutation of list sorted by the suffix keys is sorted by compare_nodes. */
    static lemma KeyOrderIsSuffixOrder(list: seq<Node>, key: map<Node, string>, sorted: seq<Node>)
      requires forall c :: c in list ==> c in key && c.GetSuffix() == Ok(key[c])
      requires multiset(sorted) == multiset(list)
      requires Sorting.SortedByKey(sorted, key)
      ensures forall c :: c in sorted ==> c in list
      ensures SortedBySuffix(sorted)
    {
      forall c | c in sorted ensures c in list {
        assert c in multiset(sorted);
      }
      forall i, j | 0 <= i < j < |sorted|
        ensures CompareNodes(sorted[j], sorted[i]) == Ok(false)
      {
        assert LexLessEq(key[sorted[i]], key[sorted[j]]);
      }
    }

    /**
     * add_child: push n, then sort all children with compare_nodes. When the
     * sort throws, the children are left a permutation of the old ones and n.
     */
    method AddChild(n: Node) returns (r: Result<()>)
      modifies this`children, this`Repr
      ensures multiset(children) == multiset(old(children)) + multiset{n}
      ensures r.Ok? <==> |old(children)| == 0 || old(AllSuffixesOk(children + [n]))
      ensures r.Err? ==> r.error == OutOfRange
      ensures r.Ok? ==> SortedBySuffix(children)
      ensures Repr == old(Repr) + old(n.Repr)
      ensures old(Valid() && n.Valid() && this !in n.Repr) ==> Valid()
    {
      r := PushSorted(n);
      AddChildKeepsValid(n);
    }

    /** The push and the sort of add_child, and the nodes n brings into Repr. */
    method PushSorted(n: Node) returns (r: Result<()>)
      modifies this`children, this`Repr
      ensures multiset(children) == multiset(old(children)) + multiset{n}
      ensures r.Ok? <==> |old(children)| == 0 || old(AllSuffixesOk(children + [n]))
      ensures r.Err? ==> r.error == OutOfRange
      ensures r.Ok? ==> SortedBySuffix(children)
      ensures Repr == old(Repr) + old(n.Repr)
    {
      var list := children + [n];
      var sorted := SortBySuffix(list);
      var newChildren := if sorted.Ok? then sorted.value else list;
      children, Repr := newChildren, Repr + n.Repr;
      if sorted.Ok? {
        SortedBySuffixFramed(newChildren);
      }
      r := if sorted.Ok? then Ok(()) else Err(sorted.error);
    }

    /** Order by suffix depends only on the nodes' ranges and texts. */
    static twostate lemma SortedBySuffixFramed(cs: seq<Node>)
      requires old(SortedBySuffix(cs))
      requires forall c :: c in cs ==> old(c.indexes) == c.indexes && old(c.text) == c.text
      ensures SortedBySuffix(cs)
    {
      forall i, j | 0 <= i < j < |cs|
        ensures CompareNodes(cs[j], cs[i]) == Ok(false)
      {
        assert old(CompareNodes(cs[j], cs[i])) == Ok(false);
      }
    }

    /**
     * Replacing the children of a valid node by a permutation of them and a
     * valid n that does not reach the node, and adding n's nodes to Repr,
     * keeps the node valid.
     */
    twostate lemma AddChildKeepsValid(n: Node)
      requires multiset(children) == multiset(old(children)) + multiset{n}
      requires Repr == old(Repr) + old(n.Repr)
      requires unchanged(old(Repr) + old(n.Repr) - {this})
      ensures old(Valid() && n.Valid() && this !in n.Repr) ==> Valid()
    {
      if old(Valid() && n.Valid() && this !in n.Repr) {
        var list := old(children) + [n];
        forall c ensures c in children <==> c in list {
          assert c in children <==> c in multiset(children);
          assert c in list <==> c in multiset(list);
        }
        assert list[..|list| - 1] == old(children);
        ChildrenReprSameNodes(children, list);
        forall c | c in list ensures c != this && unchanged(c) && old(c.Valid()) && this !in c.Repr {
        }
        assert ChildrenRepr(old(children)) == old(ChildrenRepr(children));
        assert ChildrenRepr(list) == ChildrenRepr(old(children)) + n.Repr;
        forall c | c in children ensures c.Valid() && this !in c.Repr {
          assert old(c.Valid());
        }
        ValidFromChildren();
      }
    }

    /** set_text: this node and, recursively, every node reachable through children get text t. */
    method SetText(t: string)
      requires Valid()
      modifies Repr`text
      ensures forall m :: m in Repr ==> m.text == t
      decreases Repr
    {
      text := t;
      for i := 0 to |children|
        invariant text == t
        invariant forall k :: 0 <= k < i ==> forall m :: m in children[k].Repr ==> m.text == t
      {
        children[i].SetText(t);
      }
      TextReachesRepr(t);
    }

    /** When this node and every node its children reach hold t, every node of Repr does. */
    lemma TextReachesRepr(t: string)
      requires Valid() && text == t
      requires forall k :: 0 <= k < |children| ==> forall m :: m in children[k].Repr ==> m.text == t
      ensures forall m :: m in Repr ==> m.text == t
    {
      forall m | m in Repr && m != this
        ensures m.text == t
      {
        ChildrenReprMembers(children, m);
      }
    }

    method SetParent(p: Node?)
      modifies this`parent
      ensures parent == p
    {
      parent := p;
    }

    /** set_children: the children vector is replaced by cs. */
    method SetChildren(cs: seq<Node>)
      modifies this`children, this`Repr
      ensures children == cs
      ensures Repr == {this} + old(ChildrenRepr(cs))
      ensures old(forall c :: c in cs ==> c.Valid() && this !in c.Repr) ==> Valid()
    {
      ghost var childrenValid := forall c :: c in cs ==> c.Valid() && this !in c.Repr;
      children := cs;
      Repr := {this} + ChildrenRepr(cs);
      if childrenValid {
        ValidFromChildren();
      }
    }
  }
}
