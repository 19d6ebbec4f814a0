/**
 * The holder of a classification tree: the text and the root node. Setting
 * the root hands the tree's text to every node the root reaches.
 */
module Trees {
  import opened Nodes

  class Tree {
    var root: Node?
    var text: string

    /** The default tree: no root and the empty text. */
    constructor ()
      ensures root == null && text == ""
    {
      root, text := null, "";
    }

    /** A tree over text whose root is r; r itself is left as it is. */
    constructor Init(t: string, r: Node)
      ensures text == t && root == r
      ensures unchanged(r)
    {
      text, root := t, r;
    }

    function GetText(): string reads this`text { text }
    function GetRoot(): Node? reads this`root { root }

    /**
     * set_root: the root becomes r; a non-null r and every node it reaches
     * get the tree's text, and the tree's own text stays as it was.
     */
    method SetRoot(r: Node?)
      requires r != null ==> r.Valid()
      modifies this`root
      modifies (if r == null then {} else r.Repr)`text
      ensures GetRoot() == r && GetText() == old(text)
      ensures r != null ==> forall m :: m in r.Repr ==> m.text == text
    {
      root := r;
      if r != null {
        r.SetText(text);
      }
    }
  }
}
