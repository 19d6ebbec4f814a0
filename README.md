# ICFL classification-tree core in Dafny

This project models the sequential core of the ICFL suffix-classification tree.
A text arrives as an ordered list of factors (its inverse Lyndon factorization).
The tree classifies suffixes of that text, and each node records which factors
end with the node's suffix in an occurrence bit vector. The modelled parts are:

- **func.hpp** (module `Func`). It holds the example factor list and g-lists, and
  `find_node`, a positional list lookup. Its main function is `getInsertionTarget`.
  That function takes rank and select over two occurrence bit vectors `b_x` and `b_z`
  and computes an upper bound `u`. It then scans down from `u - 1`, comparing the
  first `|y|` characters of a factor with the remainder `y`.
- **node.hpp** (module `Nodes`). This is the tree vertex. It holds a half-open
  index range into its own copy of the text, children kept sorted by suffix
  (`add_child` pushes, then sorts), and a g-list. It also holds an insertion target
  and an owned bit vector that constructors and assignment deep-copy. `set_text`
  pushes a text down to every node below.
- **tree.hpp** (module `Trees`). This is the holder of the text and the root;
  `set_root` gives the text to the whole tree.
- **myTree.hpp** (module `DraftNodes`). This is the earlier node, which cuts
  every suffix from one text shared through a static pointer.

Supporting modules:

- `Errors`: the exceptions and undefined reads, as `Result` values.
- `Strings`: unsigned 32-bit subtraction, `std::string::substr`, and the
  lexicographic `<` and `<=`.
- `RankSelect`: the rank/select support of the bit-vector library, as pure
  functions over `seq<bool>`. `rank1(i)` counts the set bits strictly before `i`.
  `select1(k)` takes `k` from 1 and returns a 0-based position.
- `BitVectors`: allocating and deep-copying a node's bit vector.
- `Sorting`: a stand-in for `std::sort`, an insertion sort by a string key,
  proved to return a sorted permutation.

Node objects are Dafny classes whose methods update fields in place.
`children` is a `seq<Node>`, the bit vector is an `array?<bool>`, and a ghost
`Repr` holds the set of nodes reachable through children. `Valid()` states that
no node reaches itself, which is what makes the recursive `set_text` terminate.
The static `_T` of the draft node is a `GlobalText` object passed to the members
that read it.

`getInsertionTarget` (func.hpp:127-160) is modelled as written:

- rank is taken over `b_z`;
- `rank1` counts the set bits strictly before its position;
- `k = |b_x|`, so `b_x[k]` reads one past the end;
- there is no `i == 0` branch, so `i - 1` wraps around;
- the loop runs while `p >= s`;
- the result is `p + 1`.

## Model

| member | source | states |
|---|---|---|
| Func.BuildIcfl | func.hpp:19-26 | returns exactly the factors "aaa", "baa", "caabca", "dcaabca" |
| Func.BuildXgList | func.hpp:35-42 | returns exactly [19, 3, 6, 12] |
| Func.BuildZgList | func.hpp:51-56 | returns exactly [16, 9] |
| Func.ExampleListsAgree | func.hpp:19-56 | the factors spell a text of length 19. Each x g-list entry is the 1-based position of an "a" that is the end of some factor (FactorEnd, the length of the concatenated factors up to it). The first entry is the end of the last factor. Each z g-list entry starts an occurrence of "abca" whose end is some factor's end, and the first entry's occurrence ends the last factor |
| Func.FindNode | func.hpp:102-114 | the element at position i when i < \|list\|, and out_of_range otherwise |
| RankSelect.Rank1 | func.hpp:139 | the exclusive rank: the number of set bits among b[0..i), never more than i (Rank1Step is its partner) |
| RankSelect.PopCount | func.hpp:142 | rank1(b_z.size()), the number of set bits; at most \|b\| and at least rank1 at every position |
| Strings.LexLess | node.hpp:183 | std::string <. A proper prefix comes first, and no string is below itself (LexLessMatchesIndex is its partner) |
| Strings.LexLessEq | func.hpp:150 | std::string <=, defined as !(b < a), holds exactly when a < b or a == b |
| Func.Probe | func.hpp:148-150 | one scan step at p. It succeeds exactly when 1 <= p - sentinel <= popcount(b_x) (select1) and q + 1 < \|icfl\| (find_node). It then tells whether alpha (factor q + 1 cut to \|y\| characters) is < y or equal to it. A select1 out of range fails with SelectOutOfRange; a find_node past the list fails with out_of_range (func.hpp:113) |
| RankSelect.Select1 | func.hpp:134 | select1 succeeds exactly for 1 <= k <= popcount. It then returns a set position with k - 1 set bits before it |
| RankSelect.SelectInvertsRank | func.hpp:148 | select1(rank1(p) + 1) = p for every set position p, the inverse of Select1's contract |
| RankSelect.RankBeforeFirstSetBit | func.hpp:138-139 | rank1 is 0 at every position up to the first set bit |
| RankSelect.Rank1Monotone | func.hpp:139 | rank1 is monotone in its position |
| RankSelect.Rank1Step | func.hpp:142 | rank1 grows by exactly the bit at each position |
| Func.UpperBound | func.hpp:134-143 | u fails exactly when b_z has no set bit (select fails) or its first set bit is at 0 < \|b_x\| (i - 1 wraps). Otherwise u >= s = sentinel + 1; u = s when i < k, and u = popcount(b_z) + 1 when i >= k |
| Func.GetInsertionTarget | func.hpp:127-160 | propagates UpperBound's failure. Otherwise it succeeds exactly when no lookup the scan reaches fails (select1 past the set bits, or find_node past the list). A failure is the error of such a reached step. When it succeeds the result is always sentinel + 1 |
| Func.ScanSafeWhenEnoughOccurrences | func.hpp:147-149 | every lookup succeeds when u <= popcount(b_x) + sentinel + 1 and the factor list is longer than b_x |
| Func.GetInsertionTargetIntended | func.hpp:145-159 | the corrected scan. It fails under the same conditions as the code, with the error of a reached failing step. On success h lies in [s, u]; alpha > y at every position in [h, u); and alpha <= y at h - 1 when h > s |
| Func.ScanIntended | func.hpp:145-158 | the corrected downward loop on its own. It succeeds iff no reached lookup fails, and otherwise returns the error of a reached failing step. On success the result is the position just above where alpha <= y first holds |
| Func.InsertionTargetDiscrepancy | func.hpp:150-152 | on b_x = 11, b_z = 0011, factors "a", "b", "c", y = "b" and no sentinel bit, the code yields 1 and the corrected scan 2 |
| Strings.Sub32 | node.hpp:138 | unsigned subtraction: a - b when a >= b, otherwise 2^32 - (b - a) |
| Strings.Substr | node.hpp:138 | substr throws exactly when pos > \|s\|. Otherwise the result is s[pos..pos+len] with len = min(count, \|s\| - pos) |
| Strings.Prefix | func.hpp:149 | alpha = factor.substr(0, \|y\|) has length min(\|y\|, \|factor\|) and is a prefix of the factor |
| Strings.LexLessMatchesIndex | node.hpp:183 | std::string < agrees with the textbook definition: a proper prefix, or a smaller character at the first difference |
| Strings.LexLessEqTotalOrder | func.hpp:150 | <= on strings is reflexive, total, transitive and antisymmetric |
| Strings.LexLessTransitive | node.hpp:183 | < on strings is transitive |
| Strings.LexLessTotal | node.hpp:183 | any two distinct strings are ordered by < one way or the other |
| Sorting.SortByKey | node.hpp:192 | the sort returns a permutation of its input in which no element's key exceeds a later one's |
| Sorting.InsertKeepsSorted | node.hpp:192 | inserting into a sorted sequence keeps it sorted |
| BitVectors.Zeros | node.hpp:40 | a fresh vector of n zero bits |
| BitVectors.CopyBits | node.hpp:64-68 | a fresh vector of the source's size with identical bits |
| Nodes.Node.constructor | node.hpp:39-41 | the default node is its own root, with no parent, empty text, no children, range (0, 0), and a fresh one-bit zero vector; it is valid |
| Nodes.Node.WithText | node.hpp:43-46 | the node is its own root, holds text, and has a fresh vector of bv_size zero bits |
| Nodes.Node.Init | node.hpp:58-73 | the fields are the arguments and the text is the root's. A non-null vector is deep-copied into a fresh one; a null vector stays null |
| Nodes.Node.Copy | node.hpp:79-89 | copies root, parent, children, indexes, g-list and insertion target, leaves the text empty, and deep-copies the bit vector |
| Nodes.Node.Assign | node.hpp:96-116 | self-assignment changes nothing. Otherwise every field, the text included, equals other's, with the bit vector deep-copied |
| Nodes.Node.CopyFields | node.hpp:98-113 | the field copies of operator= other than the children vector |
| Nodes.Node.GetSuffix | node.hpp:130-139 | "" for the range (0, 0). Otherwise out_of_range exactly when second > \|text\|, second > INT_MAX or first > \|text\|. When first <= second <= \|text\| the result is text[first..second), of length second - first; when second < first the unsigned count wraps and the result is text[first..] |
| Nodes.Node.CompareNodes | node.hpp:180-184 | a precedes b exactly when a's suffix is lexicographically smaller; a throwing get_suffix propagates |
| Nodes.Node.CompareNodesIsStrictWeakOrder | node.hpp:180-184 | compare_nodes is irreflexive, asymmetric and transitive, and incomparable nodes have equal suffixes |
| Nodes.Node.SuffixKeys | node.hpp:181-182 | every node's suffix is taken; this fails exactly when some node's get_suffix throws |
| Nodes.Node.SortBySuffix | node.hpp:192 | std::sort with compare_nodes fails exactly when there are two or more nodes and some suffix throws. Otherwise it yields a permutation in which no node compares less than an earlier one |
| Nodes.Node.KeyOrderIsSuffixOrder | node.hpp:192 | sorting by the suffix keys is sorting by compare_nodes |
| Nodes.Node.AddChild | node.hpp:190-193 | the children become a permutation of the old ones plus the new node. They are sorted by suffix unless a suffix throws, which happens exactly when there were children and some suffix fails. Repr gains the new node's nodes, and validity is kept |
| Nodes.Node.PushSorted | node.hpp:191-192 | the push and sort of add_child, without the validity argument |
| Nodes.Node.AddChildKeepsValid | node.hpp:190-193 | a permutation of valid children plus a valid node that does not reach this one keeps the node valid |
| Nodes.Node.SortedBySuffixFramed | node.hpp:192 | the order by suffix depends only on the nodes' ranges and texts |
| Nodes.Node.SetText | node.hpp:149-156 | afterwards this node and every node reachable through children hold text t |
| Nodes.Node.TextReachesRepr | node.hpp:149-156 | t in this node and in everything its children reach means t in the whole Repr |
| Nodes.Node.SetParent | node.hpp:162-164 | the parent becomes the argument |
| Nodes.Node.SetChildren | node.hpp:170-172 | the children become the argument; Repr is recomputed, and the node is valid when the new children are |
| Nodes.Node.ValidFromChildren | node.hpp:149-156 | a node whose children are valid and do not reach it is valid |
| Trees.Tree.constructor | tree.hpp:18 | the default tree has no root and empty text |
| Trees.Tree.Init | tree.hpp:20 | stores the text and the root, leaving the root node unchanged |
| Trees.Tree.SetRoot | tree.hpp:26-31 | get_root returns r and the tree's own text is unchanged. A non-null r and every node it reaches get that text; a null r modifies no node |
| DraftNodes.GlobalText.constructor | myTree.hpp:28 | the shared text cell holds the given text |
| DraftNodes.Node.SetGlobalText | myTree.hpp:36-38 | the shared text becomes t |
| DraftNodes.Node.GetSuffix | myTree.hpp:119-121 | throws exactly when first > \|T\|. The result is T[first..second) when first <= second <= \|T\|; when the unsigned count wraps or overshoots, it is T[first..] |
| DraftNodes.Node.CompareNodes | myTree.hpp:46-50 | a precedes b exactly when a's substring of T is lexicographically smaller |
| DraftNodes.Node.CompareNodesIsStrictWeakOrder | myTree.hpp:46-50 | the draft comparator is a strict weak order |
| DraftNodes.Node.SuffixKeys | myTree.hpp:47-48 | every node's substring of T is taken; this fails exactly when one throws |
| DraftNodes.Node.SortBySuffix | myTree.hpp:145 | std::sort over the shared text: fails iff two or more nodes and some substring throws; otherwise a sorted permutation |
| DraftNodes.Node.KeyOrderIsSuffixOrder | myTree.hpp:145 | sorting by keys is sorting by the draft compare_nodes |
| DraftNodes.Node.constructor | myTree.hpp:55 | no parent, no children, range (0, 0), zero insertion target, null bit vector |
| DraftNodes.Node.Init | myTree.hpp:66-75 | the fields are the arguments, and the (non-null) bit vector is deep-copied into a fresh one |
| DraftNodes.Node.Copy | myTree.hpp:107-117 | every field copied, with the bit vector deep-copied and null kept null |
| DraftNodes.Node.Assign | myTree.hpp:83-101 | self-assignment changes nothing. Otherwise every field equals other's, with the bit vector deep-copied |
| DraftNodes.Node.SetChildren | myTree.hpp:135-137 | the children become the argument |
| DraftNodes.Node.AddChild | myTree.hpp:143-146 | the children become a permutation of the old ones plus the new node, sorted by substring of T unless some substring throws (exactly when there were children and one fails) |

## Left out

- Printing: `print_list` and `print_bv` in func.hpp, `print_bv`, `print_children`, `print_data` and `operator<<` in node.hpp, and `operator<<` in myTree.hpp. They only write to standard output.
- The bit-vector library's internals. Rank and select are pure functions over `seq<bool>`. Asking it for a rank past the end or for a set bit that does not exist is undefined there, and appears here as `Err(RankOutOfRange)` / `Err(SelectOutOfRange)`.
- Func.GetInsertionTarget: the read `b_x[b_x.size()]` one past the end is the parameter `sentinel`; what that memory holds is not modelled.
- Func.GetInsertionTarget: integers are unbounded. In the source, `i`, `k`, `u`, `p` and `h` are 32-bit `unsigned int`s, and func.hpp:134-135 and 142 store `select1(1)`, `b_x.size()` and `rank1(b_z.size()) + 1` into them. On bit vectors with fewer than 2^32 - 1 bits none of these wraps, apart from `i - 1` when `i == 0`, which is modelled as an error. Truncating `i`, `k` and `u` to 32 bits on longer vectors is not modelled. When |b_x| >= 2^32, `b_x[k]` becomes an in-bounds bit rather than the read past the end that `sentinel` stands for, and `i < k` is decided on truncated values.
- Manual memory management: `new` and `delete`, the destructor, and `set_bv`, which aliases a caller's bit vector and would make the node free memory it does not own. Dafny references stand for ownership.
- Null entries in a children vector: children are non-null nodes. `set_text` skips null children, so a null child would not change the result.
- Nodes.Node.GetParent, GetText, GetChildren and GetBvPointer, Trees.Tree.GetText and GetRoot, and DraftNodes.Node.GetParent and GetBvPointer are plain field reads with no contract of their own. Tree.SetRoot's contract states them.
- Nodes.Node.SortBySuffix: when some suffix throws, std::sort stops part-way and leaves the vector in an order that is not specified. The model keeps the pushed vector unsorted and states only that it is a permutation of the old children plus the new node. Nor does it model which comparison throws first.
- Nodes.Node.SortBySuffix: std::sort is not stable, and the order of nodes with equal suffixes is not specified; an insertion sort stands in for it.
- DraftNodes.Node.GetSuffix: a null `_T` (before `set_global_text` is called) is not modelled; the shared text always exists.
- Nodes.Node.Init, DraftNodes.Node.Init: the bit-vector copy loops of node.hpp:66 and myTree.hpp:72 count with a 32-bit `unsigned int` against the `size_t` size. On a vector of 2^32 or more bits the counter wraps and the loop never ends. The model's copy (BitVectors.CopyBits) always ends with a full copy. The copy constructor and operator= count with `size_t` and do not have this problem.
- Nodes.Node.Init: the source reads the text through `root` (node.hpp:62), so a null root would be dereferenced; the parameter's type excludes a null root.
- Strings: a Dafny `string` holds Unicode scalar values, while `std::string` holds bytes compared as `unsigned char`. Each `char` here stands for one byte, so `substr` offsets and the order given by `<` are the source's.
- DraftNodes.Node.Init: the constructor dereferences its bit-vector argument, so a null argument is excluded by its type.
- The empty `Tree` class of myTree.hpp and the demo driver main.cpp. main.cpp is not part of this model.
- The construction of the whole tree and the merge of occurrence lists. No code for them is part of this model.

## Findings

| source | as written | input that shows it | evidently intended | confidence | as-written member | corrected member |
|---|---|---|---|---|---|---|
| func.hpp:150-152 | when `alpha <= y` the scan sets `p = s - 1`. Both branches then leave the loop with `p = s - 1`, so the function always returns `h = s = b_x[k] + 1`, whatever `y` and the factors are | `b_x = 11`, sentinel bit 0, `b_z = 0011`, factors "a", "b", "c", `y = "b"`: position 2 probes "c" > "b", then position 1 probes "b" <= "b", and the code returns 1 | stop at the first position `p` whose `alpha <= y`, leave `p` there and return `p + 1`, which is 2 here; `alpha > y` at every position from the result up to `u` | medium, not executed | Func.GetInsertionTarget, Func.InsertionTargetDiscrepancy | Func.GetInsertionTargetIntended |
