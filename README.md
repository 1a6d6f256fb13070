# Decision trees and random forests compiled to matrix products

This project models `random_forest_pytorch/random_forest_gemm.py`. That file compiles a fitted
scikit-learn classification tree into five dense matrices and evaluates them with
three matrix products and two comparisons, the "GEMM strategy". It also adds up the
one-hot outputs of a forest of compiled trees into a vote matrix.

- **A** (n_features × n_internal) selects the feature each internal node tests.
- **B** holds the internal nodes' thresholds.
- **C** (n_internal × n_leaves) holds, for each leaf, the direction (+1 left,
  −1 right) its root-to-leaf path takes at each ancestor.
- **D** counts the +1 entries of each column of C.
- **E** (n_leaves × n_classes) maps each leaf to its majority class.

A sample's row goes through `X @ A < B`, then `… @ C == D`, then `… @ E`.
The result is one-hot at the class of the leaf reached by the strict-`<` tree walk, which goes left when `x[feature] < threshold`.
The main theorems here state exactly that, for every well-formed tree and every batch.

Modules:

- `Errors`: the two ways the source fails on valid compiled trees, as a `Result`.
  A batch of the wrong width raises in the first product; `numpy.stack` of no
  arrays or of arrays of different shapes raises.
- `Dense`: matrices as `seq<seq<real>>`, with product, broadcast comparison,
  counting along an axis and `argmax` (first maximum).
- `DecisionTree`: the `tree_` arrays and the reference semantics the matrices
  must reproduce:
  - the recursive walk (left when `x[feature] < threshold`);
  - the root-to-leaf path that `utils.compute_path` returns.
- `TreeGemm`: the compiled tree `DecisionTreeGemm` and its evaluation functions
  `Gemm`, `PredictOnehot` and `Predict`.
  - `Compile` is a specification function: what the constructor builds.
  - `Build` is the constructor as it runs. It zero-allocates A, C and E, fills them in
    place with loops, and rewrites each path in place. It is proved to return
    `Compile(t)`.
- `GemmCorrectness`: what each matrix means, and the theorems that the pipeline
  agrees with the walk.
- `Forest`: `RandomForestGEMM`, meaning its constructor, `vote` and `predict`. The
  theorems say:
  - the vote counts the trees predicting each class;
  - each vote row adds up to the number of trees;
  - the vote does not depend on tree order;
  - `predict` returns the lowest class with the most votes.

## Model

| member | source | states |
|---|---|---|
| TreeGemm.NodesWhere | random_forest_pytorch/random_forest_gemm.py:23-25 | `flatnonzero` of the internal-node mask (or its complement) is strictly increasing and holds exactly the nodes whose two child links differ (or agree) |
| GemmCorrectness.NodePartition | random_forest_pytorch/random_forest_gemm.py:23-25 | `internal_nodes` and `leaf_nodes` are strictly increasing, their lengths add up to the node count, and a node is in the first exactly when it is internal and in the second exactly when it is a leaf |
| TreeGemm.Remap | random_forest_pytorch/random_forest_gemm.py:37-38 | the dictionary `{v: k for k, v in enumerate(internal_nodes)}` has exactly the internal nodes as keys, sends `internal_nodes[k]` to k, and every value indexes back to its key: a bijection onto 0..n_internal-1 |
| TreeGemm.Thresholds | random_forest_pytorch/random_forest_gemm.py:34 | `tree.threshold[internal_nodes]`: B has one entry per internal node, and entry i is the threshold of the i-th internal node |
| GemmCorrectness.CompactIndex | random_forest_pytorch/random_forest_gemm.py:26-38 | for an internal node n, its compact index i addresses n in `internal_nodes`, `B[i]` is n's threshold and column i of A is one-hot at n's feature |
| GemmCorrectness.MatrixShapes | random_forest_pytorch/random_forest_gemm.py:29-61 | A is n_features × n_internal, B has n_internal entries, C is n_internal × n_leaves, D has n_leaves entries, E is n_leaves × n_classes |
| TreeGemm.Compile | random_forest_pytorch/random_forest_gemm.py:21-61 | the five compiled matrices have mutually consistent shapes and there is at least one class |
| TreeGemm.FeatureSelector | random_forest_pytorch/random_forest_gemm.py:29-31 | zero-filling A and writing `A[j, i] = 1` for each split feature j yields the matrix whose column i is one-hot at the i-th split feature |
| GemmCorrectness.FeatureSelectorColumns | random_forest_pytorch/random_forest_gemm.py:26-31 | column i of A is one-hot at the feature internal node i tests, so it sums to 1 |
| TreeGemm.LeafToClass | random_forest_pytorch/random_forest_gemm.py:57-61 | zero-filling E and writing `E[i, leaf_to_class[i]] = 1` for each leaf yields the matrix whose row i is one-hot at that class |
| GemmCorrectness.LeafClassRows | random_forest_pytorch/random_forest_gemm.py:57-61 | row j of E is one-hot at the first maximum of leaf j's class distribution, so it sums to 1 |
| Dense.ArgMax | random_forest_pytorch/random_forest_gemm.py:58 | `argmax` returns an index whose entry is at least every other entry and strictly greater than every earlier one: the first maximum |
| DecisionTree.Path | random_forest_pytorch/random_forest_gemm.py:42 | the path to a leaf lists internal nodes of the subtree, in strictly increasing order, each with direction +1 or −1 |
| DecisionTree.PathDirectionsFromRoot | random_forest_pytorch/random_forest_gemm.py:42 | the direction the path to a leaf records for internal node n is +1 when the leaf lies in n's left subtree, −1 in its right subtree, 0 when n is not an ancestor |
| TreeGemm.ComputePath | random_forest_pytorch/random_forest_gemm.py:42 | `compute_path` returns a fresh list holding the root-to-leaf path |
| TreeGemm.RelabelInPlace | random_forest_pytorch/random_forest_gemm.py:44-48 | rewriting each path entry in place replaces its node id by its compact index and keeps its direction |
| GemmCorrectness.RelabelDirection | random_forest_pytorch/random_forest_gemm.py:44-48 | after relabelling, the direction recorded for compact index r is the one recorded for node `internal_nodes[r]` |
| TreeGemm.CompactPathNodes | random_forest_pytorch/random_forest_gemm.py:44-48 | every node of a path to a leaf is a key of the remap, so `s_to_g` never fails, and relabelled nodes are valid row indices of C |
| TreeGemm.WriteColumn | random_forest_pytorch/random_forest_gemm.py:50-51 | writing `C[node, j] = value` for each path entry in order sets column j to the directions of the path and leaves every other column unchanged |
| TreeGemm.FillColumn | random_forest_pytorch/random_forest_gemm.py:41-51 | one iteration of the leaf loop sets column j of C to the relabelled path of leaf j and changes nothing else |
| TreeGemm.PathColumns | random_forest_pytorch/random_forest_gemm.py:39-51 | the loop over leaves produces exactly the path matrix |
| GemmCorrectness.PathMatrixAncestors | random_forest_pytorch/random_forest_gemm.py:39-51 | `C[r][j]` is +1 when leaf j is in the left subtree of internal node r, −1 when it is in the right one, and 0 when r is not an ancestor of leaf j |
| GemmCorrectness.PathMatrixCounts | random_forest_pytorch/random_forest_gemm.py:39-54 | column j of C has as many nonzero entries as the path to leaf j has steps (the leaf's depth), and `D[j]` is the number of left turns on that path |
| GemmCorrectness.ColumnCounts | random_forest_pytorch/random_forest_gemm.py:50-54 | writing a path of distinct nodes into a zero column leaves one nonzero entry per step and one +1 entry per left turn |
| TreeGemm.Build | random_forest_pytorch/random_forest_gemm.py:21-61 | the constructor returns exactly the compiled tree |
| GemmCorrectness.SatisfiedTests | random_forest_pytorch/random_forest_gemm.py:77-78 | entry (s, i) of `X @ A < B` is 1 exactly when sample s passes internal node i's test `x[feature] < threshold`, and 0 otherwise |
| Dense.DotAgainstCountOnes | random_forest_pytorch/random_forest_gemm.py:79-80 | a 0/1 row times a ±1/0 column never exceeds the column's count of +1 entries, and equals it exactly when the row is 1 at every +1 and 0 at every −1 |
| GemmCorrectness.ReachedIffAgree | random_forest_pytorch/random_forest_gemm.py:77-80 | entry (s, j) of `(X @ A < B) @ C == D` is 1 exactly when every internal node's test agrees with the direction the path to leaf j takes there |
| DecisionTree.WalkReachesFromRoot | random_forest_pytorch/random_forest_gemm.py:77-80 | the walk ends at a leaf exactly when every internal node's test agrees with the path to that leaf |
| GemmCorrectness.ReachedLeaves | random_forest_pytorch/random_forest_gemm.py:77-80 | entry (s, j) of `… @ C == D` is 1 exactly when the walk of sample s ends at leaf j |
| GemmCorrectness.OneLeafReached | random_forest_pytorch/random_forest_gemm.py:77-80 | each row of `… @ C == D` is one-hot, at the leaf the walk reaches |
| TreeGemm.DecisionTreeGemm.Gemm | random_forest_pytorch/random_forest_gemm.py:75-82 | `_GEMM` succeeds exactly when every sample has the compiled tree's feature count, and then gives an n_samples × n_classes matrix; otherwise it fails with a shape mismatch |
| TreeGemm.DecisionTreeGemm.PredictOnehot | random_forest_pytorch/random_forest_gemm.py:89-91 | `predict_onehot` succeeds exactly when the batch width fits, with an n_samples × n_classes output, and otherwise fails with a shape mismatch |
| TreeGemm.DecisionTreeGemm.Predict | random_forest_pytorch/random_forest_gemm.py:84-87 | `predict` succeeds exactly when the batch width fits, and then returns one label per sample, each below n_classes; otherwise it fails with a shape mismatch |
| GemmCorrectness.GemmMatchesWalk | random_forest_pytorch/random_forest_gemm.py:75-91 | `_GEMM` (and `predict_onehot`, which returns it unchanged) gives row s one-hot at the class the walk predicts for sample s; a batch of the wrong width fails with a shape mismatch |
| GemmCorrectness.PredictMatchesWalk | random_forest_pytorch/random_forest_gemm.py:84-87 | `predict` returns, for every sample, the majority class of the leaf the walk reaches |
| Forest.CompiledTrees | random_forest_pytorch/random_forest_gemm.py:101 | one compiled tree per estimator, in order, each with consistent shapes |
| Forest.BuildForest | random_forest_pytorch/random_forest_gemm.py:101-102 | the forest constructor compiles every estimator, in order |
| Forest.RandomForestGemm.Vote | random_forest_pytorch/random_forest_gemm.py:104-112 | `vote` succeeds exactly when the forest is not empty, every tree accepts the batch width and all trees have the same class count; an empty forest fails with `EmptyForest` (nothing to stack), any other failure is a shape mismatch (a tree's first product, or `stack` of outputs of different widths); on success the vote is n_samples × n_classes |
| Forest.VoteRejects | random_forest_pytorch/random_forest_gemm.py:104-112 | for any forest built from the trees, whatever its stored class count, `vote` fails on an empty forest (nothing to stack) and, with a shape mismatch, on a batch whose width differs from the trees' |
| Forest.TreeOutput | random_forest_pytorch/random_forest_gemm.py:89-91 | entry (s, c) of a compiled tree's one-hot output is 1 when the walk predicts c for sample s, else 0 |
| Forest.VoteAtCounts | random_forest_pytorch/random_forest_gemm.py:112 | the sum over trees of entry (s, c) equals the number of trees whose walk predicts class c for sample s |
| Forest.VoteCountsTrees | random_forest_pytorch/random_forest_gemm.py:104-112 | for any forest built from the trees, whatever its stored class count, `vote` on a batch of the right width succeeds, row s counts per class the trees predicting it, and each row adds up to the number of trees |
| Forest.CountRowSum | random_forest_pytorch/random_forest_gemm.py:112 | every tree casts exactly one vote: the per-class counts add up to the number of trees |
| Forest.SumByPermutation | random_forest_pytorch/random_forest_gemm.py:112 | the sum over the stacked axis does not depend on the order of the stacked items |
| Forest.VotePermutationInvariant | random_forest_pytorch/random_forest_gemm.py:104-116 | reordering the trees leaves both the vote and the prediction unchanged |
| Forest.RandomForestGemm.Predict | random_forest_pytorch/random_forest_gemm.py:114-116 | the forest's `predict` fails exactly when `vote` fails, with the same error, and otherwise returns one label per sample, each below the trees' class count |
| Forest.PredictIsPlurality | random_forest_pytorch/random_forest_gemm.py:114-116 | for any forest built from the trees, whatever its stored class count, `predict` on a batch of the right width succeeds and returns for each sample a class that at least as many trees predict as any other, and strictly more than any lower class: the lowest class with the most votes |

## Left out

- Backend and device selection (`numpy` or `torch`, `cpu` or `cuda`), the asserts on those strings and the tensor conversion (lines 14-19, 63-67 and 96-99).
  - The torch backend also casts A–E to float32 (line 65). This rounds the thresholds in B, so a sample equal to a threshold's float32 rounding can be routed differently than under numpy.
  - The model keeps B exact, as the numpy backend does.
- `convert_to_float` and float32 arithmetic (lines 69-73). Matrices hold exact reals. Comparisons become 0.0/1.0 entries. The products of 0/1 and ±1 entries are small integers, which float32 represents exactly.
- Training, and the scikit-learn objects `decision_tree.tree_` and `random_forest.estimators_`. A tree is given as its node arrays and a forest as a sequence of trees. The model assumes the invariants scikit-learn guarantees (`WellFormed`), which the source does not check:
  - a child is numbered after its parent;
  - the two subtrees of a node are disjoint;
  - every node lies below the root.
- The walk that the compiled trees are proved to match is the strict-`<` walk of the source (line 78, `T < self.B`). scikit-learn's own traversal of `tree_` goes left when `x[feature] <= threshold`. On a sample whose feature equals a node's threshold, the compiled tree therefore goes right where scikit-learn's `predict` goes left. The model keeps the source's `<` and does not relate it to scikit-learn's `predict`.
- Non-finite features are outside the model. Every feature is a finite real. A NaN feature makes every projected entry of `X @ A` NaN, so the sample goes right at every node. An infinite feature makes the entries of the other columns NaN (0 × inf), so the pipeline need not agree with the walk.
- `utils.compute_path` is not part of this model. `DecisionTree.Path` specifies it as the root-to-leaf list of ancestors with +1 where the leaf lies in the left subtree and −1 otherwise.
- The commented-out loop-based vote (lines 106-111). It is dead code.
- The forest's `n_classes_` field (line 102) is stored as `RandomForestGemm.nClasses` but, as in the source, neither `vote` nor `predict` reads it. The width of the vote comes from the trees.
- A forest whose trees read different numbers of features fails on every non-empty batch. At least one tree then rejects the batch, so `Vote` returns `ShapeMismatch`, as the source raises in that tree's first product. There is no separate check for it.
- An empty batch has no rows, so its width is not represented. The model accepts an empty batch for every tree, where numpy would still compare the declared width.
- The compiled tree is a value (`DecisionTreeGemm` datatype) rather than an object. Its fields are assigned once in the constructor and never change afterwards.
- `random_forest_gemm.py` itself checks none of these: a node with one child, a missing node, an empty tree, an all-zero leaf distribution. The model follows the code.
  - Compiling requires `WellFormed`, the shape scikit-learn guarantees, which includes having a root.
  - An all-zero leaf is not rejected. `argmax` sends it to class 0, in the model as in the source.
