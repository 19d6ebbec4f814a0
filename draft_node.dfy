/**
 * The earlier variant of the tree vertex: no per-node text and no root; the
 * suffixes are cut from one text shared by all nodes through a static
 * pointer, set once with set_global_text.
 */
module DraftNodes {
  import opened Errors
  import opened Strings
  import opened BitVectors
  import Sorting

  /** The cell behind the static pointer to the shared text. */
  class GlobalText {
    var text: string

    constructor (t: string)
      ensures text == t
    {
      text := t;
    }
  }

  class Node {
    var parent: Node?
    var children: seq<Node>
    var indexes: (U32, U32)
    var gList: seq<int>
    var insertionTarget: U32
    var bv: array?<bool>

    /** set_global_text: every node now cuts its suffix from t. */
    static method SetGlobalText(g: GlobalText, t: string)
      modifies g`text
      ensures g.text == t
    {
      g.text := t;
    }

    /**
     * get_suffix: T.substr(first, second - first) with unsigned subtraction and
     * no range check of its own; only a start past the end of T throws.
     */
    function GetSuffix(g: GlobalText): (r: Result<string>)
      reads this`indexes, g`text
      ensures r.Err? <==> indexes.0 > |g.text|
      ensures r.Err? ==> r.error == OutOfRange
      ensures indexes.0 <= indexes.1 <= |g.text| ==>
        r == Ok(g.text[indexes.0..indexes.1]) && |r.value| == indexes.1 - indexes.0
      ensures indexes.0 <= |g.text| < TWO32 && (indexes.1 < indexes.0 || |g.text| < indexes.1) ==>
        r == Ok(g.text[indexes.0..])
    {
      var count := Sub32(indexes.1, indexes.0);
      assert indexes.0 <= |g.text| < TWO32 && (indexes.1 < indexes.0 || |g.text| < indexes.1) ==>
        && count >= |g.text| - indexes.0
        && Min(count, |g.text| - indexes.0) == |g.text| - indexes.0
        && Substr(g.text, indexes.0, count).Ok?
        && |Substr(g.text, indexes.0, count).value| == |g.text| - indexes.0
        && Substr(g.text, indexes.0, count).value == g.text[indexes.0..];
      Substr(g.text, indexes.0, count)
    }

    /** compare_nodes: a precedes b when a's substring of T is lexicographically smaller. */
    static function CompareNodes(g: GlobalText, a: Node, b: Node): (r: Result<bool>)
      reads g`text, a`indexes, b`indexes
      ensures r.Ok? <==> a.GetSuffix(g).Ok? && b.GetSuffix(g).Ok?
      ensures r.Ok? ==> (r.value <==> LexLess(a.GetSuffix(g).value, b.GetSuffix(g).value))
      ensures r.Err? ==> r.error == OutOfRange
    {
      match a.GetSuffix(g)
      case Err(e) => Err(e)
      case Ok(sa) =>
        match b.GetSuffix(g)
        case Err(e) => Err(e)
        case Ok(sb) => Ok(LexLess(sa, sb))
    }

    /** compare_nodes is a strict weak ordering, as std::sort requires of its comparator. */
    static lemma CompareNodesIsStrictWeakOrder(g: GlobalText, a: Node, b: Node, c: Node)
      requires a.GetSuffix(g).Ok? && b.GetSuffix(g).Ok? && c.GetSuffix(g).Ok?
      ensures CompareNodes(g, a, a) == Ok(false)
      ensures CompareNodes(g, a, b) == Ok(true) ==> CompareNodes(g, b, a) == Ok(false)
      ensures CompareNodes(g, a, b) == Ok(true) && CompareNodes(g, b, c) == Ok(true) ==>
        CompareNodes(g, a, c) == Ok(true)
      ensures CompareNodes(g, a, b) == Ok(false) && CompareNodes(g, b, a) == Ok(false) ==>
        a.GetSuffix(g) == b.GetSuffix(g)
    {
      var sa, sb, sc := a.GetSuffix(g).value, b.GetSuffix(g).value, c.GetSuffix(g).value;
      LexLessIrreflexive(sa);
      if LexLess(sa, sb) {
        LexLessAsymmetric(sa, sb);
        if LexLess(sb, sc) { LexLessTransitive(sa, sb, sc); }
      }
      LexLessTotal(sa, sb);
    }

    /** No node compares less than one before it. */
    static ghost predicate SortedBySuffix(g: GlobalText, cs: seq<Node>)
      reads g`text, cs`indexes
    {
      forall i, j {:trigger CompareNodes(g, cs[j], cs[i])} ::
        0 <= i < j < |cs| ==> CompareNodes(g, cs[j], cs[i]) == Ok(false)
    }

    static ghost predicate AllSuffixesOk(g: GlobalText, cs: seq<Node>)
      reads g`text, cs`indexes
    {
      forall c :: c in cs ==> c.GetSuffix(g).Ok?
    }

    /** The suffix of every node in cs, keyed by node; the first suffix that throws is the error. */
    static function SuffixKeys(g: GlobalText, cs: seq<Node>): (r: Result<map<Node, string>>)
      reads g`text, cs`indexes
      ensures r.Ok? <==> AllSuffixesOk(g, cs)
      ensures r.Err? ==> r.error == OutOfRange
      ensures r.Ok? ==> forall c :: c in cs ==> c in r.value && c.GetSuffix(g) == Ok(r.value[c])
    {
      if cs == [] then Ok(map[])
      else
        var init := cs[..|cs| - 1];
        var last := cs[|cs| - 1];
        assert cs == init + [last];
        match SuffixKeys(g, init)
        case Err(e) => Err(e)
        case Ok(key) =>
          match last.GetSuffix(g)
          case Err(e) => Err(e)
          case Ok(sfx) => Ok(key[last := sfx])
    }

    /** A permutation of list sorted by the suffix keys is sorted by compare_nodes. */
    static lemma KeyOrderIsSuffixOrder(g: GlobalText, list: seq<Node>, key: map<Node, string>, sorted: seq<Node>)
      requires forall c :: c in list ==> c in key && c.GetSuffix(g) == Ok(key[c])
      requires multiset(sorted) == multiset(list)
      requires Sorting.SortedByKey(sorted, key)
      ensures forall c :: c in sorted ==> c in list
      ensures SortedBySuffix(g, sorted)
    {
      forall c | c in sorted ensures c in list {
        assert c in multiset(sorted);
      }
      forall i, j | 0 <= i < j < |sorted|
        ensures CompareNodes(g, sorted[j], sorted[i]) == Ok(false)
      {
        assert LexLessEq(key[sorted[i]], key[sorted[j]]);
      }
    }

    /**
     * std::sort(list, compare_nodes): a single node is compared with nothing;
     * with two or more, every node's suffix is taken, and one that throws
     * makes the sort throw.
     */
    static function SortBySuffix(g: GlobalText, list: seq<Node>): (r: Result<seq<Node>>)
      reads g`text, list`indexes
      ensures r.Ok? <==> |list| <= 1 || AllSuffixesOk(g, list)
      ensures r.Err? ==> r.error == OutOfRange
      ensures r.Ok? ==> multiset(r.value) == multiset(list) && SortedBySuffix(g, r.value)
    {
      if |list| <= 1 then Ok(list)
      else
        match SuffixKeys(g, list)
        case Err(e) => Err(e)
        case Ok(key) =>
          var sorted := Sorting.SortByKey(list, key);
          KeyOrderIsSuffixOrder(g, list, key, sorted);
          Ok(sorted)
    }

    /** The default constructor: no parent, no children, zero range and target, no bit vector. */
    constructor ()
      ensures parent == null && children == [] && indexes == (0, 0)
      ensures gList == [] && insertionTarget == 0 && bv == null
    {
      parent, children, indexes := null, [], (0, 0);
      gList, insertionTarget, bv := [], 0, null;
    }

    /** The full constructor: the (non-null) bit vector is copied bit by bit into a fresh one. */
    constructor Init(parentNode: Node?, cs: seq<Node>, idx: (U32, U32), g: seq<int>, it: U32, src: array<bool>)
      ensures parent == parentNode && children == cs && indexes == idx
      ensures gList == g && insertionTarget == it
      ensures fresh(bv) && bv[..] == src[..]
    {
      var b := CopyBits(src);
      parent, children, indexes := parentNode, cs, idx;
      gList, insertionTarget, bv := g, it, b;
    }

    /** The copy constructor: every field, the bit vector deep-copied and a null one kept null. */
    constructor Copy(other: Node)
      ensures parent == other.parent && children == other.children && indexes == other.indexes
      ensures gList == other.gList && insertionTarget == other.insertionTarget
      ensures other.bv == null ==> bv == null
      ensures other.bv != null ==> fresh(bv) && bv[..] == other.bv[..]
    {
      var b: array?<bool> := null;
      if other.bv != null {
        b := CopyBits(other.bv);
      }
      parent, children, indexes := other.parent, other.children, other.indexes;
      gList, insertionTarget, bv := other.gList, other.insertionTarget, b;
    }

    /** operator=: nothing happens on self-assignment; otherwise every field becomes other's, the bit vector deep-copied. */
    method Assign(other: Node)
      modifies this`parent, this`children, this`indexes, this`gList, this`insertionTarget, this`bv
      ensures this == other ==> unchanged(this)
      ensures this != other ==>
        && parent == other.parent && children == other.children && indexes == other.indexes
        && gList == other.gList && insertionTarget == other.insertionTarget
        && (other.bv == null ==> bv == null)
        && (other.bv != null ==> fresh(bv) && bv[..] == other.bv[..])
    {
      if this != other {
        var b: array?<bool> := null;
        if other.bv != null {
          b := CopyBits(other.bv);
        }
        parent, children, indexes := other.parent, other.children, other.indexes;
        gList, insertionTarget, bv := other.gList, other.insertionTarget, b;
      }
    }

    function GetParent(): Node? reads this`parent { parent }
    function GetBvPointer(): array?<bool> reads this`bv { bv }

    /** set_children: the children vector is replaced by cs. */
    method SetChildren(cs: seq<Node>)
      modifies this`children
      ensures children == cs
    {
      children := cs;
    }

    /**
     * add_child: push n, then sort all children with compare_nodes. When the
     * sort throws, the children are left a permutation of the old ones and n.
     */
    method AddChild(g: GlobalText, n: Node) returns (r: Result<()>)
      modifies this`children
      ensures multiset(children) == multiset(old(children)) + multiset{n}
      ensures r.Ok? <==> |old(children)| == 0 || old(AllSuffixesOk(g, children + [n]))
      ensures r.Err? ==> r.error == OutOfRange
      ensures r.Ok? ==> SortedBySuffix(g, children)
    {
      var list := children + [n];
      var sorted := SortBySuffix(g, list);
      var newChildren := if sorted.Ok? then sorted.value else list;
      children := newChildren;
      r := if sorted.Ok? then Ok(()) else Err(sorted.error);
    }
  }
}
