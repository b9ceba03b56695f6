# TensorFlow graph-rewriting and shape-checking helpers in Dafny

This project models a set of small, deterministic pieces of TensorFlow and proves properties about them:

- **The constant-folding pass** of the graph runtime (`constant_folding.dfy`):
  - which nodes may be folded;
  - how the foldable region is discovered in data-flow order;
  - how that region is extracted into its own graph, together with the nodes whose values must be fetched back;
  - the single-slot rendezvous the extracted graph sends its results through;
  - replacing a node by a constant while keeping its out-edges;
  - the driver's partial-success rule.
- **Strided-slice validation** (`strided_slice.dfy`): sparse-to-dense expansion of the specification, canonicalisation of the bounds, and the processing and final shapes.
- **Tensor-name parsing**, `name:digits` (`tensor_id.dfy`).
- **TensorRT converter helpers** (`convert_nodes.dfy`):
  - data-type tables;
  - shape sizes;
  - SAME padding;
  - the broadcast rule of binary constant folding;
  - output naming;
  - the Pad and Mean argument validators.
- **Shape checks of three kernels:** the XLA `Pack` kernel, the TFLite `Mul` kernel, and the TFLite LSH projection kernel, including its bit packing.
- **The toco rule that removes trivial binary operators.**
- **Object-based checkpoint naming** (`checkpointable.dfy`):
  - registration of variables and dependencies;
  - the breadth-first traversal that gives each object a shortest path;
  - the keys built from those paths, including optimizer slot keys.
- **The MetaGraphDef transform helpers:**
  - removed-op tests;
  - op names;
  - the split of the transform list at `freeze_graph`;
  - pruning of collections, savers and signatures.
- **Three small Python helpers:**
  - Estimator `RunConfig.replace`;
  - the device checks and batch slicing of Keras `multi_gpu_model`;
  - the TOCO option string and error counting of the TFLite example generator.

Modelling conventions:

- Graphs are maps from integer ids to nodes, plus sets of edges.
- Shapes are `seq<int>`. Errors are `Result`/`Outcome` values; they are never aborts.
- Calls into code outside the model are parameters. These include kernel execution, hashing, TensorFlow sessions, and the Graph Transform Tool.
- The shared modules give Python's meaning to a few language primitives:
  - `Strings`: join, split, startswith, `in`, lower;
  - `StringOrder`: string order and `sorted`;
  - `Decimal`: `%d`/`str`;
  - `CppInt`: C++ truncating `/` and `%`.

## Model

| member | source | states |
|---|---|---|
| ConstantFolding.IsConstantFoldable | tensorflow/core/common_runtime/constant_folding.cc:36-48 | a node is foldable exactly when its op is stateless, the caller's filter (when given) accepts it, and it is neither control flow nor a Send or Recv |
| ConstantFolding.FindConstantFoldableNodes | tensorflow/core/common_runtime/constant_folding.cc:51-87 | the loop computes the discovered list of the visit order; each entry is a node of the graph; a list of constants only is cleared to empty |
| ConstantFolding.ScanClosed | tensorflow/core/common_runtime/constant_folding.cc:57-81 | every admitted node comes from the visit order and was admissible given exactly the nodes admitted before it; the "internal node inserted" flag is set iff some admitted node is not a constant |
| ConstantFolding.ScanMembership | tensorflow/core/common_runtime/constant_folding.cc:59-81 | with a repetition-free visit order, a node ends up admitted iff it was admissible given what the visit had admitted before reaching it |
| ConstantFolding.ConstantsAlwaysAdmitted | tensorflow/core/common_runtime/constant_folding.cc:59-62 | as written, every constant visited is admitted, whatever feeds it |
| ConstantFolding.DiscoveredIsClosed | tensorflow/core/common_runtime/constant_folding.cc:63-86 | each discovered non-constant is foldable, has an input, and all its in-nodes (data and control) were discovered before it; with the constant guard, every in-node of a discovered constant is a sentinel or was discovered before it |
| ConstantFolding.SentinelsNotDiscovered | tensorflow/core/common_runtime/constant_folding.cc:59-81 | neither the source nor the sink node is ever discovered |
| ConstantFolding.ScanDistinct | tensorflow/core/common_runtime/constant_folding.cc:51-81 | the discovered list holds each node at most once |
| ConstantFolding.NodeMap | tensorflow/core/common_runtime/constant_folding.cc:97-107 | `node_map` has exactly the two sentinels and the discovered nodes as keys, and is a bijection onto the copy ids below the number of copies plus two |
| ConstantFolding.CopyEdges | tensorflow/core/common_runtime/constant_folding.cc:108-114 | every edge of the copy graph is the image of an original in-edge of a copied node, with its ports kept; every such in-edge whose source has a copy is copied |
| ConstantFolding.FetchMap | tensorflow/core/common_runtime/constant_folding.cc:117-128 | a node of `node_map` is in `nodes_to_fetch` (keyed by its copy) iff it has an out-edge to a node outside `node_map` |
| ConstantFolding.ChecksMeanInNodesMapped | tensorflow/core/common_runtime/constant_folding.cc:108-112 | the two CHECKs of the copy loop pass iff every in-node of a copied node is a sentinel or a node copied before it |
| ConstantFolding.CopyNodes | tensorflow/core/common_runtime/constant_folding.cc:103-106 | the copy graph holds exactly the ids below the number of copies plus two, the k-th discovered node's copy at k+2 |
| ConstantFolding.GetConstantGraph | tensorflow/core/common_runtime/constant_folding.cc:94-131 | extraction aborts iff a CHECK fails; otherwise the result is a valid graph with sentinels 0 and 1, copies of the discovered nodes, every in-edge of a copied node copied, and the `node_map` and `nodes_to_fetch` above |
| ConstantFolding.GuardedExtractionSucceeds | tensorflow/core/common_runtime/constant_folding.cc:59-112 | with a constant admitted only when each of its in-nodes is a sentinel or already admitted, the CHECKs of extraction always pass |
| ConstantFolding.GuardedScanWithin | tensorflow/core/common_runtime/constant_folding.cc:59-81 | the guarded scan admits no node that the scan as written does not admit |
| ConstantFolding.GuardedScanAgrees | tensorflow/core/common_runtime/constant_folding.cc:59-112 | where the scan as written passes extraction's CHECKs, the guarded scan admits exactly the same nodes and sets the same flag |
| ConstantFolding.GuardedDiscoveryAgrees | tensorflow/core/common_runtime/constant_folding.cc:51-112 | where the list discovered as written passes extraction's CHECKs, the guarded discovery gives the same list: the guard changes only graphs on which the source aborts |
| ConstantFolding.UnguardedExtractionAborts | tensorflow/core/common_runtime/constant_folding.cc:59-112 | as written, a constant with a control input from a stateful node is discovered and extraction then fails its CHECK (the concrete graph of `CounterexampleGraph`) |
| ConstantFolding.RemoveNode | tensorflow/core/common_runtime/constant_folding.cc:140 | removing a node deletes it and exactly the edges touching it; every other node and edge stays |
| ConstantFolding.ReplaceNodeWithConstant | tensorflow/core/common_runtime/constant_folding.cc:133-150 | the node is replaced by a fresh constant named from it and holding the tensor; every consumer reads the constant on the same ports; edges not touching the node are kept and no other edge appears |
| ConstantFolding.ReplaceAll | tensorflow/core/common_runtime/constant_folding.cc:326-342 | the replacements keep the graph valid, allocate one id per replaced node, and leave every node not replaced as it was |
| ConstantFolding.ReplaceAllNodes | tensorflow/core/common_runtime/constant_folding.cc:326-342 | after the replacements the k-th replaced node is gone and the k-th new node is a constant holding the k-th received tensor |
| ConstantFolding.ReplaceAllAddsOnlyConstants | tensorflow/core/common_runtime/constant_folding.cc:326-342 | the replacements add no node other than the new constants |
| ConstantFolding.ReplaceAllEdges | tensorflow/core/common_runtime/constant_folding.cc:326-342 | edges away from the replaced nodes are kept, and each edge from a replaced node to a node not replaced now leaves that node's constant on the same ports |
| ConstantFolding.ReplaceAllKeepsEdges | tensorflow/core/common_runtime/constant_folding.cc:326-342 | edges that touch no replaced node survive every replacement |
| ConstantFolding.ReplaceAllRedirects | tensorflow/core/common_runtime/constant_folding.cc:326-342 | an edge out of the k-th replaced node into a node not replaced is rewired to the k-th constant |
| ConstantFolding.RemoveNodes | tensorflow/core/common_runtime/constant_folding.cc:345-347 | deleting a list of nodes keeps exactly the other nodes, unchanged, and exactly the edges touching none of the deleted nodes |
| ConstantFolding.RendezvousSend | tensorflow/core/common_runtime/constant_folding.cc:178-191 | a send succeeds iff it is live, its key parses, and the edge name was not sent before; success stores the value under the edge name, failure leaves the table unchanged |
| ConstantFolding.RendezvousRecv | tensorflow/core/common_runtime/constant_folding.cc:194-207 | receiving fails iff the key was never sent; otherwise it returns the stored value, marked live |
| ConstantFolding.SendThenRecv | tensorflow/core/common_runtime/constant_folding.cc:178-207 | a live send under a fresh edge name is received back unchanged and live |
| ConstantFolding.SentValuesPersist | tensorflow/core/common_runtime/constant_folding.cc:186-189 | a stored entry is never overwritten by later sends |
| ConstantFolding.FirstSendWins | tensorflow/core/common_runtime/constant_folding.cc:178-207 | what is received from an edge name is the value of the first live send to it |
| ConstantFolding.FetchList | tensorflow/core/common_runtime/constant_folding.cc:257-260 | the fetch order lists every fetched copy id exactly once, ascending |
| ConstantFolding.ReplaceList | tensorflow/core/common_runtime/constant_folding.cc:257-260 | `nodes_to_replace` has one entry per fetch, the original behind that fetched copy |
| ConstantFolding.ReplaceListFacts | tensorflow/core/common_runtime/constant_folding.cc:117-128 | the nodes to replace are distinct nodes of the graph, and a node of the region is replaced iff it feeds a node outside the region |
| ConstantFolding.DiscoveryExtractable | tensorflow/core/common_runtime/constant_folding.cc:51-131 | the discovered list, as written or guarded, is distinct and sentinel-free; the guarded list also passes the CHECKs of extraction |
| ConstantFolding.PlanFor | tensorflow/core/common_runtime/constant_folding.cc:94-131 | extraction of a non-empty list aborts iff a CHECK fails; it plans nothing iff the CHECKs pass and no node feeds back into the graph; a plan replaces one region node per fetch, exactly the region's nodes that feed outside it |
| ConstantFolding.Plan | tensorflow/core/common_runtime/constant_folding.cc:229-260 | discovery then extraction: a CHECK failure iff the list is non-empty and fails the CHECKs (never with the guard); no fold iff nothing was discovered or nothing feeds back into the graph; otherwise the plan holds the discovered list, one replaced node per fetch, each in the region, and exactly the region's nodes that feed outside it |
| ConstantFolding.Fetched | tensorflow/core/common_runtime/constant_folding.cc:326-339 | the tensors received are a prefix of the fetches, each the table's value under the fetch's tensor name; a shorter prefix means the next name is missing or not in the table |
| ConstantFolding.ToDelete | tensorflow/core/common_runtime/constant_folding.cc:316-323 | `to_delete` holds exactly the discovered nodes that are not replaced |
| ConstantFolding.Execute | tensorflow/core/common_runtime/constant_folding.cc:220-339 | the driver aborts iff a device is found and extraction fails a CHECK; it reaches the fetch loop iff a device is found, a plan exists, and fetching, executor creation and the early status all succeed; the fetch loop then runs on that plan and reads the tensors the run's sends left in the rendezvous, at most one per fetch |
| ConstantFolding.Finish | tensorflow/core/common_runtime/constant_folding.cc:326-348 | the graph stays valid, and reporting no change means it is untouched |
| ConstantFolding.FinishRewires | tensorflow/core/common_runtime/constant_folding.cc:326-342 | each node replaced is gone, its constant holds the received tensor, and each consumer outside the region reads the constant on the same ports |
| ConstantFolding.FinishPartialKeeps | tensorflow/core/common_runtime/constant_folding.cc:330-338 | a fetch loop that stops early reports a change iff it replaced something, and deletes no node it did not replace |
| ConstantFolding.FinishCompleteRemoves | tensorflow/core/common_runtime/constant_folding.cc:340-348 | a complete fetch loop deletes every discovered node and keeps every node and edge outside the region and the replaced nodes |
| ConstantFolding.DoConstantFolding | tensorflow/core/common_runtime/constant_folding.cc:220-349 | the pass aborts exactly when the driver does; stopping before the fetch loop returns false with the graph unchanged; the folded graph is valid, and a result of false means the graph is untouched |
| ConstantFolding.GuardedFoldingNeverAborts | tensorflow/core/common_runtime/constant_folding.cc:59-131 | with the constant guard the pass never aborts |
| ConstantFolding.GuardOnlyPreventsAborts | tensorflow/core/common_runtime/constant_folding.cc:59-349 | on every graph where the pass as written does not abort, the guarded pass gives the same result |
| ConstantFolding.CounterexampleFoldingAborts | tensorflow/core/common_runtime/constant_folding.cc:59-131 | as written, the pass aborts on the counterexample graph whenever a device is found |
| ConstantFolding.FoldingFinishes | tensorflow/core/common_runtime/constant_folding.cc:326-348 | a run that reaches the fetch loop gives the replacements and deletions of its plan over the tensors it received |
| ConstantFolding.ReplacedNodesBecomeConstants | tensorflow/core/common_runtime/constant_folding.cc:326-342 | after a run that received k+1 tensors, the k-th replaced node is gone, its constant holds the k-th tensor, and its consumers outside the region read the constant |
| ConstantFolding.PartialRunKeepsRegion | tensorflow/core/common_runtime/constant_folding.cc:326-338 | a run that stops in the fetch loop reports a change iff it replaced something, and every discovered node it did not replace survives unchanged |
| ConstantFolding.CompleteRunRemovesRegion | tensorflow/core/common_runtime/constant_folding.cc:326-348 | a complete run leaves no discovered node behind and keeps every node and edge outside the region and the replaced nodes |
| ConstantFolding.CopyGraphValid | tensorflow/core/common_runtime/constant_folding.cc:94-131 | the extracted graph is a valid graph: every edge joins two of its nodes |
| ConstantFolding.CopyGraphHasInEdges | tensorflow/core/common_runtime/constant_folding.cc:108-114 | every in-edge of a discovered node reappears in the extracted graph between the copies, with its ports |
| StridedSlice.SingleEllipsisAccepted | tensorflow/core/util/strided_slice_op.cc:184-189 | a mask with exactly one ellipsis bit passes the "multiple ellipses" test |
| StridedSlice.TwoEllipsesRejected | tensorflow/core/util/strided_slice_op.cc:184-189 | any mask with two distinct ellipsis bits fails the test |
| StridedSlice.MakeSparse | tensorflow/core/util/strided_slice_op.cc:191-221 | step 1 keeps the begin, end and stride vectors; it appends an entry iff no ellipsis bit was set among the entries, and that entry is the only new ellipsis |
| StridedSlice.InitialDense | tensorflow/core/util/strided_slice_op.cc:101-107 | the fresh dense spec has one zeroed entry per input dimension, an empty gather list and index 0 |
| StridedSlice.Fill | tensorflow/core/util/strided_slice_op.cc:116-129 | the ellipsis expansion advances the dense index to `next_index`; each dimension it passes takes everything (begin and end masked, stride 1) and is gathered as itself; other dimensions are unchanged |
| StridedSlice.DenseFrom | tensorflow/core/util/strided_slice_op.cc:115-155 | the unchecked walk never fails; with the bounds check, a success keeps the gather list within the dense dimensions and never writes past them; an overrun once recorded stays recorded |
| StridedSlice.RealEntry | tensorflow/core/util/strided_slice_op.cc:132-153 | a real entry consumes exactly one dense dimension, and it overruns iff the dense index has already reached the input rank |
| StridedSlice.BuildDenseSpec | tensorflow/core/util/strided_slice_op.cc:97-157 | with the bounds check, a successful step 2 yields one entry per input dimension, gather indices that are markers or dense indices, and no write past the arrays |
| StridedSlice.BuildDenseSpecAsWritten | tensorflow/core/util/strided_slice_op.cc:97-157 | step 2 as written never fails and keeps the dense arrays at the input rank, dropping writes past their end |
| StridedSlice.CheckedAgreesInRange | tensorflow/core/util/strided_slice_op.cc:115-155 | where the walk as written stays inside the dense arrays, the checked walk gives the same result |
| StridedSlice.DenseOverrunAsWritten | tensorflow/core/util/strided_slice_op.cc:132-153 | as written, `foo[0:1, 0:1]` on a rank-1 input writes dense entry 1 of a 1-entry array and gathers dimension 1, which the input does not have |
| StridedSlice.DenseOverrunRejected | tensorflow/core/util/strided_slice_op.cc:132-153 | with the bounds check, the same slice is an error |
| StridedSlice.PlainSpecIsDense | tensorflow/core/util/strided_slice_op.cc:97-221 | with no masks and one entry per dimension, the dense spec is the entries themselves, no mask bit set, each dimension gathered once in order |
| StridedSlice.Canonical | tensorflow/core/util/strided_slice_op.cc:262-276 | a canonical bound lies in [0, dim] for a positive stride and in [-1, dim-1] for a negative one; a masked bound is the full range's end; an in-range index is kept; a negative index counts from the end |
| StridedSlice.SliceSizeCounts | tensorflow/core/util/strided_slice_op.cc:304-313 | the processing size is 0 iff the interval is empty in the stride's direction; otherwise it is the number of steps from begin that stay short of end, the next step reaching or passing it |
| StridedSlice.SliceStaysInBounds | tensorflow/core/util/strided_slice_op.cc:262-313 | every index a canonical slice visits lies inside the dimension |
| StridedSlice.ProcessDim | tensorflow/core/util/strided_slice_op.cc:248-313 | a zero stride fails; an unknown dimension yields 1 when shrunk and -1 otherwise; a shrunk known dimension succeeds iff the stride is positive and the index is in [-dim, dim), giving the one-element range; otherwise the bounds are canonical and the size counts the slice; take-all means stride 1 over [0, dim) |
| StridedSlice.ProcessDims | tensorflow/core/util/strided_slice_op.cc:248-314 | a successful step 3 yields one processing size, begin, end and stride per dimension |
| StridedSlice.ProcessDimsPointwise | tensorflow/core/util/strided_slice_op.cc:248-314 | step 3 fails iff some dimension fails; otherwise each entry of the result is that dimension's outcome |
| StridedSlice.ProcessDimsFails | tensorflow/core/util/strided_slice_op.cc:253-255 | step 3 fails iff some dimension fails |
| StridedSlice.ProcessDimsValues | tensorflow/core/util/strided_slice_op.cc:305-313 | on success, each dimension's entries are that dimension's own outcome |
| StridedSlice.ProcessDimsFlags | tensorflow/core/util/strided_slice_op.cc:297-302 | `is_identity` holds iff every known dimension takes everything; `is_simple_slice` iff every known dimension has stride 1; `slice_dim0` iff every known dimension takes everything, except that dimension 0 may be any stride-1 range |
| StridedSlice.IdentityFlag | tensorflow/core/util/strided_slice_op.cc:299-301 | `is_identity` holds iff every known dimension takes everything |
| StridedSlice.SimpleSliceFlag | tensorflow/core/util/strided_slice_op.cc:298 | `is_simple_slice` holds iff every known dimension has stride 1 |
| StridedSlice.SliceDim0Flag | tensorflow/core/util/strided_slice_op.cc:302 | `slice_dim0` holds iff every known dimension is dimension 0 with stride 1 or takes everything |
| StridedSlice.FinalShape | tensorflow/core/util/strided_slice_op.cc:316-327 | the final shape has at most one entry per gather index; with no markers it is the processing shape read through the gather indices |
| StridedSlice.KeptPositions | tensorflow/core/util/strided_slice_op.cc:316-327 | the positions of the gather list that survive into the final shape: exactly the dense indices and new-axis markers, ascending |
| StridedSlice.FinalShapeSpec | tensorflow/core/util/strided_slice_op.cc:316-327 | the final shape has one entry per surviving gather position, in order: the processing size of that dense index, or 1 for a new axis; shrink markers are dropped |
| StridedSlice.ValidateStridedSlice | tensorflow/core/util/strided_slice_op.cc:159-329 | bad vector shapes, multiple ellipses and an index type other than int32 or int64 are errors; a success gives one processing size, begin, end and non-zero stride per input dimension, with non-negative sizes for known dimensions, and a final shape read from the dense spec's gather list |
| StridedSlice.ValidatedSliceInBounds | tensorflow/core/util/strided_slice_op.cc:248-314 | every element a successful slice reads along a known dimension lies inside that dimension |
| StridedSlice.IdentityKeepsShape | tensorflow/core/util/strided_slice_op.cc:297-313 | a successful identity slice over a fully known shape has the input shape as its processing shape |
| StridedSlice.PlainSliceFinalShape | tensorflow/core/util/strided_slice_op.cc:316-327 | with no masks and one entry per dimension, the final shape is the processing shape |
| TensorId.DigitRunStart | tensorflow/core/graph/tensor_id.cc:25-29 | the backward scan stops at the start of the trailing digit run, never consuming the first character |
| TensorId.ParseTensorName | tensorflow/core/graph/tensor_id.cc:13-39 | a name that splits as a non-empty node part, a colon and a non-empty digit run parses to that node part and the digits' value; any other name is output 0 of itself |
| TensorId.ParseTensorNameScan | tensorflow/core/graph/tensor_id.cc:21-38 | the backward digit scan with its growing power of ten computes exactly the parse above |
| TensorId.ParseFormatted | tensorflow/core/graph/tensor_id.cc:13-39 | parsing `node:index` gives back the node and the index for every non-empty node name |
| TensorId.SplitUnique | tensorflow/core/graph/tensor_id.cc:21-38 | a name splits into a node part, a colon and a trailing digit run at one position at most |
| ConvertNodes.TrtTypeSize | tensorflow/contrib/tensorrt/convert/convert_nodes.cc:54-65 | the TensorRT element size is unknown (-1) exactly for int32, the one type without a case |
| ConvertNodes.TfTypeSize | tensorflow/contrib/tensorrt/convert/convert_nodes.cc:67-80 | the TensorFlow element size is 1, 2 or 4 bytes for the four handled types and -1 for every other type |
| ConvertNodes.ConvertDtype | tensorflow/contrib/tensorrt/convert/convert_nodes.cc:82-98 | exactly float, int8 and half convert; the converted type has the same element size; any other type is "Unsupported data type" |
| ConvertNodes.Product | tensorflow/contrib/tensorrt/convert/convert_nodes.cc:109-116 | the element count of a shape with non-negative dims is non-negative |
| ConvertNodes.GetShapeSize | tensorflow/contrib/tensorrt/convert/convert_nodes.cc:109-116 | the running-product loop computes the element count of the shape |
| ConvertNodes.ProductConcat | tensorflow/contrib/tensorrt/convert/convert_nodes.cc:109-116 | the element count of concatenated shapes is the product of their counts |
| ConvertNodes.ProductZero | tensorflow/contrib/tensorrt/convert/convert_nodes.cc:109-116 | a shape of non-negative dims holds no element iff one of its dims is 0 |
| ConvertNodes.ProductOne | tensorflow/contrib/tensorrt/convert/convert_nodes.cc:109-116 | a shape of non-negative dims holds exactly one element only if every dim is 1 |
| ConvertNodes.PadAmount | tensorflow/contrib/tensorrt/convert/convert_nodes.cc:126-128 | the total SAME padding is never negative, and when positive it is what the last window starting inside the input needs beyond the input |
| ConvertNodes.SplitPad | tensorflow/contrib/tensorrt/convert/convert_nodes.cc:131-132 | the total padding is split into a non-negative left part and a right part that is equal or one larger |
| ConvertNodes.CreateSamePadding | tensorflow/contrib/tensorrt/convert/convert_nodes.cc:118-140 | the padding is computed iff the stride and input ranks agree (otherwise the CHECK aborts); then each input dim gets a (left, right) pair summing to its total padding, right-heavy by at most one |
| ConvertNodes.SamePaddingWindows | tensorflow/contrib/tensorrt/convert/convert_nodes.cc:118-140 | with positive sizes, a SAME-padded input gives exactly ceil(input / stride) window positions |
| ConvertNodes.BroadcastShape | tensorflow/contrib/tensorrt/convert/convert_nodes.cc:682-706 | ranks that differ are an "implicit broadcast" error; otherwise the output shape exists iff every dim pair is equal or has a 1, and each output dim is the larger of the two; else an "incompatible shape" error |
| ConvertNodes.BinaryCompute | tensorflow/contrib/tensorrt/convert/convert_nodes.cc:593-634 | a type differing from the output's aborts; the computation succeeds iff both operands are float and their counts are equal or one is 1; it writes the common count pointwise, or the other side's count when broadcasting a single element |
| ConvertNodes.ConstantFoldBinary | tensorflow/contrib/tensorrt/convert/convert_nodes.cc:672-738 | operands of different types abort; the fold succeeds iff the shapes broadcast, the op is Sub, Mul or Add, and the computation succeeds; the result has the node's type, the broadcast shape and the computed number of elements written |
| ConvertNodes.TransposedOperandsUnderfill | tensorflow/contrib/tensorrt/convert/convert_nodes.cc:692-706 | as written, adding shapes [1,3] and [3,1] gives a 9-element output of which only 3 elements are computed |
| ConvertNodes.EmptyDimBroadcastUnderfill | tensorflow/contrib/tensorrt/convert/convert_nodes.cc:695-698 | as written, a single element against an empty dim gives a one-element output and computes none of it |
| ConvertNodes.BroadcastShapeFixed | tensorflow/contrib/tensorrt/convert/convert_nodes.cc:682-706 | the intended rule: the shapes broadcast iff each dim pair is equal or has a 1, and a dim of 1 takes the other side's size |
| ConvertNodes.ConstantFoldBinaryFixed | tensorflow/contrib/tensorrt/convert/convert_nodes.cc:672-738 | a successful intended fold has a supported op and float operands of the node's type, and its operands have equal shapes or one of them a single element |
| ConvertNodes.FixedFoldFillsOutput | tensorflow/contrib/tensorrt/convert/convert_nodes.cc:608-625 | with the intended rules every element of the folded constant is computed |
| ConvertNodes.GetInputs | tensorflow/contrib/tensorrt/convert/convert_nodes.cc:379-387 | the inputs are found iff every input name is in the tensor table, and then they are the table's entries in input order |
| ConvertNodes.OutputNamesDistinct | tensorflow/contrib/tensorrt/convert/convert_nodes.cc:420-421 | the output names of one node are pairwise distinct |
| ConvertNodes.OutputNameParses | tensorflow/contrib/tensorrt/convert/convert_nodes.cc:420-421 | the name of output i > 0 parses back, as a tensor name, to the node and i |
| ConvertNodes.InsertOutputsSpec | tensorflow/contrib/tensorrt/convert/convert_nodes.cc:417-430 | the insertion loop passes iff none of the remaining output names is taken; it then adds exactly those names with their outputs; on failure it reports "already exists"; old entries are never changed |
| ConvertNodes.InsertOutputsStatus | tensorflow/contrib/tensorrt/convert/convert_nodes.cc:417-430 | the insertion loop fails, with the "already exists" error, iff one of the remaining output names is taken, and every existing entry is kept |
| ConvertNodes.InsertOutputsTable | tensorflow/contrib/tensorrt/convert/convert_nodes.cc:417-430 | a successful insertion adds exactly the remaining output names, each bound to its output |
| ConvertNodes.InsertOutputsKeys | tensorflow/contrib/tensorrt/convert/convert_nodes.cc:417-430 | after a successful insertion the table's keys are the old keys plus the remaining output names |
| ConvertNodes.InsertOutputsValues | tensorflow/contrib/tensorrt/convert/convert_nodes.cc:417-430 | after a successful insertion each remaining output name is bound to its output |
| ConvertNodes.ConvertNodeSpec | tensorflow/contrib/tensorrt/convert/convert_nodes.cc:407-432 | a conversion succeeds iff the inputs are present, the op is registered, its converter succeeds and no output name is taken; a missing input is the `at` exception, an unregistered op "no converter registered"; the table gains exactly the output names and keeps its old entries |
| ConvertNodes.ReduceIndices | tensorflow/contrib/tensorrt/convert/convert_nodes.cc:1245-1268 | the converter reads as many reduction indices as the index weights count |
| ConvertNodes.PermutedAxis | tensorflow/contrib/tensorrt/convert/convert_nodes.cc:1272-1278 | the axis swapped with the channel is 2 iff 2 is reduced, 3 only when 3 is reduced and 2 is not, and otherwise the channel axis itself |
| ConvertNodes.SwapWithChannel | tensorflow/contrib/tensorrt/convert/convert_nodes.cc:1279-1282 | the permutation exchanges axis 1 and the chosen axis and fixes the others |
| ConvertNodes.SwapWithChannelInvolution | tensorflow/contrib/tensorrt/convert/convert_nodes.cc:1304-1307 | the permutation undoes itself, so the transpose after pooling restores the axis order |
| ConvertNodes.ConvertReduce | tensorflow/contrib/tensorrt/convert/convert_nodes.cc:1219-1310 | the Mean conversion succeeds iff the inputs are a tensor and weights, the index type is int32, the tensor is 4-d, at most two axes are reduced and none is 0, and the op is Mean; it transposes iff axis 1 is reduced; the pooling kernel takes dims of the reduced spatial axes; as written it reports no output |
| ConvertNodes.ReducePlanFor | tensorflow/contrib/tensorrt/convert/convert_nodes.cc:1223-1308 | the shared checks and layer plan produce exactly one pooled output |
| ConvertNodes.ReduceOutputLost | tensorflow/contrib/tensorrt/convert/convert_nodes.cc:1293-1309 | as written, converting a Mean node succeeds but records nothing under the node's name, so a consumer's input lookup fails |
| ConvertNodes.ConvertReduceFixed | tensorflow/contrib/tensorrt/convert/convert_nodes.cc:1219-1310 | the intended Mean converter succeeds exactly when the one as written does, and reports one tensor output |
| ConvertNodes.FixedReduceRecordsOutput | tensorflow/contrib/tensorrt/convert/convert_nodes.cc:1219-1310 | with the intended converter, a successful Mean conversion makes the node's name resolvable |
| ConvertNodes.PaddedDims | tensorflow/contrib/tensorrt/convert/convert_nodes.cc:1346-1350 | the padded dims are ascending dims below the rank, and a dim is listed iff a non-zero amount is requested for it |
| ConvertNodes.PadChecks | tensorflow/contrib/tensorrt/convert/convert_nodes.cc:1316-1366 | passing the checks needs a tensor and weights; no padded dim means the identity; otherwise one or two padded dims, none of them the batch dim; the rank check adds a 4-d tensor |
| ConvertNodes.ConvertPad | tensorflow/contrib/tensorrt/convert/convert_nodes.cc:1312-1407 | a successful conversion is the identity iff nothing is padded; otherwise one or two non-batch dims are padded, the layer is transposed iff the first padded dim is 1, its height takes dim 2's amounts, and its width takes dim 3's, or else dim 1's when transposed |
| ConvertNodes.PadLayerAmounts | tensorflow/contrib/tensorrt/convert/convert_nodes.cc:1378-1395 | for one or two ascending padded dims, the height slot receives dim 2's amounts and the width slot dim 3's, or else dim 1's when the channel axis is transposed to the width |
| ConvertNodes.PadOneAndThreeMisplaced | tensorflow/contrib/tensorrt/convert/convert_nodes.cc:1368-1395 | as written, padding dims 1 and 3 of a 4-d tensor is accepted, dim 1 receives dim 3's padding and dim 3 receives none |
| ConvertNodes.PadBeyondWidthDropped | tensorflow/contrib/tensorrt/convert/convert_nodes.cc:1335-1395 | as written, padding on dim 4 of a 5-d tensor is accepted and silently dropped |
| ConvertNodes.ConvertPadFixed | tensorflow/contrib/tensorrt/convert/convert_nodes.cc:1312-1407 | the intended Pad converter accepts only a 4-d tensor with weights |
| ConvertNodes.FixedPadApplied | tensorflow/contrib/tensorrt/convert/convert_nodes.cc:1386-1403 | with the intended checks, every dim receives exactly the padding requested for it |
| PackOp.InsertDim | tensorflow/compiler/tf2xla/kernels/pack_op.cc:74-75 | inserting a dim puts the given size at the axis, keeps the dims before it and shifts the rest one place up |
| PackOp.RemoveInserted | tensorflow/compiler/tf2xla/kernels/pack_op.cc:74-80 | removing the inserted dim gives the original shape back, so each reshape keeps the input's elements |
| PackOp.FirstMismatch | tensorflow/compiler/tf2xla/kernels/pack_op.cc:54-61 | the shape loop either finds every input shaped like input 0, or stops at the first input that is not |
| PackOp.Pack | tensorflow/compiler/tf2xla/kernels/pack_op.cc:45-84 | packing succeeds iff all shapes equal input 0's and the axis lies in [-(r+1), r+1); a shape error names the first mismatching input; an axis error reports the axis and the range; the output is input 0's shape with a dim of the input count at the normalized axis |
| PackOp.PackedSlicesAreInputs | tensorflow/compiler/tf2xla/kernels/pack_op.cc:72-83 | the packed output has one more dim than the inputs; that dim counts the inputs, and removing it gives every input's shape |
| RemoveTrivialBinary.AreAllBufferElementsEqualTo | tensorflow/contrib/lite/toco/graph_transformations/remove_trivial_binary.cc:31-40 | the early-exit scan returns true iff every buffer element equals the value (an empty buffer included) |
| RemoveTrivialBinary.IsTrivialAsWritten | tensorflow/contrib/lite/toco/graph_transformations/remove_trivial_binary.cc:91-102 | as written, Mul, Sub and Div count as trivial iff the constant is all zeros, and Add iff the constant is the right operand and all zeros; the tests for 1 are never reached |
| RemoveTrivialBinary.TrivialIsIdentity | tensorflow/contrib/lite/toco/graph_transformations/remove_trivial_binary.cc:43-48 | under the intended test, applying the operator with any element of the constant leaves the variable operand unchanged |
| RemoveTrivialBinary.MulByZeroRemovedAsWritten | tensorflow/contrib/lite/toco/graph_transformations/remove_trivial_binary.cc:92-93 | as written, `x * 0` counts as trivial although it is not the identity on `x` |
| RemoveTrivialBinary.MulByOneKeptAsWritten | tensorflow/contrib/lite/toco/graph_transformations/remove_trivial_binary.cc:97-98 | as written, `x * 1` is not recognised, although the intended test accepts it |
| RemoveTrivialBinary.RunWith | tensorflow/contrib/lite/toco/graph_transformations/remove_trivial_binary.cc:49-111 | an operator other than Add, Mul, Sub or Div is left alone; a number of inputs other than 2 aborts; two constant or two variable inputs are left alone; the operator is removed iff exactly one input is constant, the constant is float, and the triviality test holds |
| RemoveTrivialBinary.RemovedOperatorIsIdentity | tensorflow/contrib/lite/toco/graph_transformations/remove_trivial_binary.cc:43-111 | with the intended test, every operator handed to pass-through removal computes the identity on its variable input |
| LshProjection.Resize | tensorflow/contrib/lite/kernels/lsh_projection.cc:74-108 | resizing succeeds iff there are 2 or 3 inputs and one output, the hash tensor is 2-d with at most 32 bits, the input has a dim, an optional weight is 1-d and matches the input's first dim, and the type is known; the output has one entry per hash function (sparse) or per bit (dense) |
| LshProjection.SignBit | tensorflow/contrib/lite/kernels/lsh_projection.cc:115-141 | the running sign bit is 1 iff the score for the seed is positive, else 0 |
| LshProjection.SeedBit | tensorflow/contrib/lite/kernels/lsh_projection.cc:149-151 | each seed read row-major from the hash tensor yields a bit |
| LshProjection.PackBitsRange | tensorflow/contrib/lite/kernels/lsh_projection.cc:148-153 | a signature packed from n bits lies in [0, 2^n) |
| LshProjection.UnpackPack | tensorflow/contrib/lite/kernels/lsh_projection.cc:148-153 | the packed signature determines its bits: unpacking it gives them back, first bit most significant |
| LshProjection.RowBits | tensorflow/contrib/lite/kernels/lsh_projection.cc:149-151 | a hash function's row holds one bit per output bit, the sign bit of its seed |
| LshProjection.SparseProjection | tensorflow/contrib/lite/kernels/lsh_projection.cc:143-156 | the sparse output has one signature per hash function: its row's bits packed by shift-and-or, plus the offset i * 2^numBits |
| LshProjection.SparseSignatureRange | tensorflow/contrib/lite/kernels/lsh_projection.cc:34-48 | when numHash * 2^numBits fits in 2^31, signature i lies in slot [i * 2^numBits, (i+1) * 2^numBits), so distinct hash functions never collide and every signature fits an int32 |
| LshProjection.DenseRows | tensorflow/contrib/lite/kernels/lsh_projection.cc:158-169 | the dense output for n hash functions has n * numBits entries |
| LshProjection.DenseRowsIndex | tensorflow/contrib/lite/kernels/lsh_projection.cc:158-169 | entry i * numBits + j of the dense output is the bit of seed (i, j) |
| LshProjection.DenseProjection | tensorflow/contrib/lite/kernels/lsh_projection.cc:158-169 | the loop emits exactly numHash * numBits bits, the bit of seed (i, j) at position i * numBits + j |
| LshProjection.RowMajorIndex | tensorflow/contrib/lite/kernels/lsh_projection.cc:150 | the row-major position of (i, j) is in range and recovers i and j by division and remainder |
| LshProjection.Eval | tensorflow/contrib/lite/kernels/lsh_projection.cc:171-193 | evaluation fails iff the projection type is unknown; a sparse or dense evaluation produces the outputs described above |
| TfliteMul.Prepare | tensorflow/contrib/lite/kernels/mul.cc:40-59 | preparation succeeds iff there are two inputs and one output, the inputs have identical dims, and both inputs have the output's type; the output then takes the inputs' common dims |
| TfliteMul.Eval | tensorflow/contrib/lite/kernels/mul.cc:117-135 | a float32 output runs the float multiplication, a uint8 output the quantized one, and any other type is the reported error |
| TfliteMul.PreparedInputsShareKernel | tensorflow/contrib/lite/kernels/mul.cc:40-135 | after a successful preparation both inputs share one type; evaluation runs the float kernel iff that type is float32, and fails only when that type is unsupported |
| Checkpointable.ScanRestSpec | tensorflow/contrib/eager/python/checkpointable.py:46 | the scan after the first character accepts iff every remaining character is a name character, or all but a final newline are |
| Checkpointable.MatchLocalNameSpec | tensorflow/contrib/eager/python/checkpointable.py:46 | the left-to-right matcher accepts exactly the names the pattern describes: a leading letter, digit or dot, then letters, digits, `_`, `.` or `-`, optionally followed by one final newline |
| Checkpointable.ValidNameHasNoSlash | tensorflow/contrib/eager/python/checkpointable.py:43-46 | a valid local name is non-empty and holds no `/` |
| Checkpointable.TrailingNewlineAccepted | tensorflow/contrib/eager/python/checkpointable.py:46 | the pattern accepts a name followed by one newline, but not two newlines and not the empty string |
| Checkpointable.Init | tensorflow/contrib/eager/python/checkpointable.py:70-78 | a fresh object owns no variables and declares no dependencies, and its bookkeeping is consistent |
| Checkpointable.AddVariable | tensorflow/contrib/eager/python/checkpointable.py:80-122 | a name already owned is the ValueError with its message; otherwise the new variable is appended under its name and nothing else changes |
| Checkpointable.TrackCheckpointable | tensorflow/contrib/eager/python/checkpointable.py:124-182 | declaring fails iff a name is given that is invalid or already declared; otherwise the reference is appended with its declaration index as local uid, the name is recorded, the variables are untouched and the argument is returned |
| Checkpointable.AddVariableConsistent | tensorflow/contrib/eager/python/checkpointable.py:102-121 | adding a variable keeps the owned names unique and in step with the list |
| Checkpointable.TrackConsistent | tensorflow/contrib/eager/python/checkpointable.py:163-181 | declaring a dependency keeps the names unique, valid and in step with the list, and each local uid its index |
| Checkpointable.AllRefs | tensorflow/contrib/eager/python/checkpointable.py:190-206 | the references a traversal can meet: the root and, recursively, every dependency |
| Checkpointable.AddChildReached | tensorflow/contrib/eager/python/checkpointable.py:202-205 | recording an unreached dependency with its parent's path plus itself keeps the traversal's bookkeeping |
| Checkpointable.AddChildRelaxed | tensorflow/contrib/eager/python/checkpointable.py:202-205 | recording a new reference keeps the expanded references relaxed and the level bound |
| Checkpointable.InitReached | tensorflow/contrib/eager/python/checkpointable.py:192-196 | the root reference with the empty path is a valid starting state |
| Checkpointable.ReachedIsTraversal | tensorflow/contrib/eager/python/checkpointable.py:197-206 | once every reference in the order is expanded, the order and paths form a breadth-first traversal |
| Checkpointable.EnterExpand | tensorflow/contrib/eager/python/checkpointable.py:197-199 | starting to expand the next reference keeps the bookkeeping, with its level bounding every level |
| Checkpointable.LeaveExpand | tensorflow/contrib/eager/python/checkpointable.py:200-205 | after the loop over a reference's dependencies, each of them has a path at most one step longer |
| Checkpointable.Visit | tensorflow/contrib/eager/python/checkpointable.py:200-205 | visiting one dependency appends it iff it had no path, gives it a path at most one step longer than the current one, and never changes an existing path |
| Checkpointable.VisitFrom | tensorflow/contrib/eager/python/checkpointable.py:200-205 | visiting the remaining dependencies leaves each of them reached with a path at most one step longer |
| Checkpointable.Expand | tensorflow/contrib/eager/python/checkpointable.py:197-205 | expanding one reference appends each new dependency with a path one step longer and keeps the traversal invariants |
| Checkpointable.BreadthFirst | tensorflow/contrib/eager/python/checkpointable.py:190-206 | the traversal returns each reachable reference once, the root first with the empty path, every other one with a path extending an earlier reference's path by itself, every dependency reached at most one step further, and path lengths non-decreasing; the order is the FIFO queue order, and each path extends the path of the first reference whose dependencies list it |
| Checkpointable.PositionIn | tensorflow/contrib/eager/python/checkpointable.py:200-201 | the first place of a reference in a dependency list, or the list's length when absent |
| Checkpointable.DiscovererFrom | tensorflow/contrib/eager/python/checkpointable.py:197-205 | the first reference from a position on whose dependencies list a given reference |
| Checkpointable.AddChildQueued | tensorflow/contrib/eager/python/checkpointable.py:200-205 | appending the next unreached dependency of the head keeps each reference's first discoverer and first slot, and keeps the queue ordered by discoverer, then slot |
| Checkpointable.QueuedLinkKept | tensorflow/contrib/eager/python/checkpointable.py:200-205 | a reference's first discoverer and slot stay the same as the order grows |
| Checkpointable.QueuedLinkNew | tensorflow/contrib/eager/python/checkpointable.py:200-205 | a dependency reached for the first time has the current head as its first discoverer and the current position as its first slot |
| Checkpointable.QueuedNextHead | tensorflow/contrib/eager/python/checkpointable.py:197-205 | once the head's dependencies are all visited, every queued reference was discovered before the next head |
| Checkpointable.DiscovererIs | tensorflow/contrib/eager/python/checkpointable.py:200-205 | a reference whose dependencies list a given reference, with no earlier one doing so, is its discoverer |
| Checkpointable.PositionInIs | tensorflow/contrib/eager/python/checkpointable.py:200-201 | the first place of a reference in a list is the position where it appears with no earlier occurrence |
| Checkpointable.QueuedIsQueueOrder | tensorflow/contrib/eager/python/checkpointable.py:190-206 | once every reference is expanded, the queue bookkeeping is the queue order: first discoverers and slots, increasing along the order |
| Checkpointable.AddChildExpanding | tensorflow/contrib/eager/python/checkpointable.py:202-205 | recording a new dependency of the head keeps the expansion state and reaches one more reference |
| Checkpointable.AddChildScanned | tensorflow/contrib/eager/python/checkpointable.py:200-205 | recording the next dependency of the head extends the scanned prefix of its dependency list by one |
| Checkpointable.TraversalPathIsChain | tensorflow/contrib/eager/python/checkpointable.py:190-206 | each recorded path is a chain of dependency edges from the root ending at its reference |
| Checkpointable.ChainExtend | tensorflow/contrib/eager/python/checkpointable.py:200-204 | a chain followed by a dependency of its end is a chain |
| Checkpointable.TraversalPathIsShortest | tensorflow/contrib/eager/python/checkpointable.py:191 | no chain of dependency edges from the root is shorter than the path recorded for its end |
| Checkpointable.DependencyNameValid | tensorflow/contrib/eager/python/checkpointable.py:163-168 | in a world built by the tracking calls, every named dependency's name is valid |
| Checkpointable.ComponentName | tensorflow/contrib/eager/python/checkpointable.py:252-254 | a path component is never empty: the local name, or the local uid in decimal when there is no name |
| Checkpointable.ComponentNames | tensorflow/contrib/eager/python/checkpointable.py:252-254 | the components of a path, one per reference |
| Checkpointable.NameFromPathNonEmpty | tensorflow/contrib/eager/python/checkpointable.py:252-254 | a non-empty path gives a non-empty prefix |
| Checkpointable.NameFromPathSplits | tensorflow/contrib/eager/python/checkpointable.py:252-254 | when every named component is valid, splitting the prefix at `/` gives the components back |
| Checkpointable.TraversalPrefixSplits | tensorflow/contrib/eager/python/checkpointable.py:252-257 | in a world built by the tracking calls, the prefix of every traversed reference but the root splits back into its path's components |
| Checkpointable.ToMap | tensorflow/contrib/eager/python/checkpointable.py:250-269 | the dictionary holds exactly the keys written |
| Checkpointable.ToMapLastWins | tensorflow/contrib/eager/python/checkpointable.py:269 | the value under a key is the one its last write gave |
| Checkpointable.ToMapIsLastWrite | tensorflow/contrib/eager/python/checkpointable.py:269 | every key of the dictionary holds the value of its last write |
| Checkpointable.LastWriteExtend | tensorflow/contrib/eager/python/checkpointable.py:269 | writing another key leaves the last write of a key in place |
| Checkpointable.FirstPassWritesSpec | tensorflow/contrib/eager/python/checkpointable.py:256-269 | the first pass writes exactly the owned variables of the traversed references, each under its owner's prefix and local name |
| Checkpointable.FirstPassWritesSound | tensorflow/contrib/eager/python/checkpointable.py:256-269 | every key the first pass writes names a variable of a traversed reference |
| Checkpointable.FirstPassWritesComplete | tensorflow/contrib/eager/python/checkpointable.py:256-269 | every owned variable of a traversed reference is written under its key |
| Checkpointable.IndexOfKey | tensorflow/contrib/eager/python/checkpointable.py:279 | the position of a key in an item list, if it is there |
| Checkpointable.DistinctToMap | tensorflow/contrib/eager/python/checkpointable.py:279 | in an item list without repeated keys, each key maps to its own item's value |
| Checkpointable.KeysOf | tensorflow/contrib/eager/python/checkpointable.py:279 | the keys of the writes, in order |
| Checkpointable.ToMapKeys | tensorflow/contrib/eager/python/checkpointable.py:250-269 | the dictionary's keys are the keys written |
| Checkpointable.PutExistingKeys | tensorflow/contrib/eager/python/checkpointable.py:269 | overwriting an existing key keeps the set of keys |
| Checkpointable.PutExisting | tensorflow/contrib/eager/python/checkpointable.py:269 | overwriting an existing key changes that key's value only |
| Checkpointable.PutExistingValue | tensorflow/contrib/eager/python/checkpointable.py:269 | pointwise, the overwritten item list and the updated dictionary agree |
| Checkpointable.PutSpec | tensorflow/contrib/eager/python/checkpointable.py:269 | writing into the insertion-ordered item list is writing into the dictionary, and keeps keys unique |
| Checkpointable.ItemsSpec | tensorflow/contrib/eager/python/checkpointable.py:279 | `items()` lists each key once and describes the same dictionary as the writes |
| Checkpointable.SlotVarWrites | tensorflow/contrib/eager/python/checkpointable.py:298-302 | for one slot name, a write happens exactly for each non-slot variable the optimizer has that slot for, under the variable's key, the suffix and the slot variable |
| Checkpointable.OptimizerWrites | tensorflow/contrib/eager/python/checkpointable.py:282-302 | an optimizer's slot names fail iff one is invalid, naming the optimizer and an invalid slot name; otherwise every key written is a non-slot key, `/`, and the suffix of one of its slot names |
| Checkpointable.SlotPassWrites | tensorflow/contrib/eager/python/checkpointable.py:279-302 | the slot pass fails iff some traversed optimizer has an invalid slot name, and then names one; otherwise every key written is a non-slot key followed by the slot suffix of a traversed optimizer's slot name |
| Checkpointable.NameWrites | tensorflow/contrib/eager/python/checkpointable.py:256-302 | the dictionary assignments of both passes in order, starting with exactly the first pass |
| Checkpointable.NameWritesAfterFirstPass | tensorflow/contrib/eager/python/checkpointable.py:279-302 | every assignment after the first pass is to a slot key |
| Checkpointable.NamedFromCovers | tensorflow/contrib/eager/python/checkpointable.py:256-302 | after both passes, every owned variable of a traversed reference is keyed |
| Checkpointable.FirstPassKeysKept | tensorflow/contrib/eager/python/checkpointable.py:279-302 | the slot writes never remove a first-pass key |
| Checkpointable.NamedFromOrigins | tensorflow/contrib/eager/python/checkpointable.py:256-302 | every key of the result is a variable key or a slot key |
| Checkpointable.FirstPassKeyIsVariableKey | tensorflow/contrib/eager/python/checkpointable.py:256-269 | each first-pass write has a variable key |
| Checkpointable.NonSlotKeyIsVariableKey | tensorflow/contrib/eager/python/checkpointable.py:279 | each item of the non-slot list has a variable key |
| Checkpointable.SlotNameValid | tensorflow/contrib/eager/python/checkpointable.py:283-293 | a slot name the pass went past without failing is valid |
| Checkpointable.NameVariables | tensorflow/contrib/eager/python/checkpointable.py:218-303 | naming fails iff some traversed optimizer has an invalid slot name; otherwise every owned variable of a traversed reference is keyed by its owner's shortest path and its name (the root's variables by the bare name), and every key is a variable key or a slot key; each key holds the variable of the last assignment to it, in the order of the first pass and then the slot pass |
| MetaGraphTransform.OpName | tensorflow/contrib/meta_graph_transform/meta_graph_transform.py:38-46 | the op name fails on the empty name (the index error) and on more than one `:` (the unpacking error); otherwise it holds no `:` and is the name without its control mark, or that name's part before `:` |
| MetaGraphTransform.OpNameOfPort | tensorflow/contrib/meta_graph_transform/meta_graph_transform.py:43-45 | the op of `op:port` is `op` |
| MetaGraphTransform.OpNameOfControlInput | tensorflow/contrib/meta_graph_transform/meta_graph_transform.py:41-42 | the op of the control input `^op` is `op` |
| MetaGraphTransform.IsRemoved | tensorflow/contrib/meta_graph_transform/meta_graph_transform.py:412-417 | the loop answers true iff the name starts with some removed op name |
| MetaGraphTransform.IsRemovedMentioned | tensorflow/contrib/meta_graph_transform/meta_graph_transform.py:420-438 | the loop answers true iff some removed op name occurs in the text |
| MetaGraphTransform.CheckTensorNotRemoved | tensorflow/contrib/meta_graph_transform/meta_graph_transform.py:441-455 | the check fails iff the name is empty or removed, with the empty-name error first and otherwise the error naming the tensor |
| MetaGraphTransform.RemovedOpNames | tensorflow/contrib/meta_graph_transform/meta_graph_transform.py:496-500 | the removed names are exactly the base graph's node names that the transformed graph does not retain |
| MetaGraphTransform.RetainedPrefixTreatedAsRemoved | tensorflow/contrib/meta_graph_transform/meta_graph_transform.py:412-417 | with ops `a` and `ab` of which only `ab` is retained, `ab` and `ab:0` test as removed: the node list entry is dropped and the saver check fails |
| MetaGraphTransform.ColonAfterPrefix | tensorflow/contrib/meta_graph_transform/meta_graph_transform.py:412-417 | a name holding no `:` does not start with `r:` |
| MetaGraphTransform.FirstColon | tensorflow/contrib/meta_graph_transform/meta_graph_transform.py:412-417 | in `op:port`, a prefix `r:` with no `:` in `r` has `r` equal to `op` |
| MetaGraphTransform.FixedRemovalKeepsRetained | tensorflow/contrib/meta_graph_transform/meta_graph_transform.py:412-417 | with the intended test (the op part equals a removed name), a retained op and its outputs are never removed, and a removed op and its outputs always are |
| MetaGraphTransform.Keep | tensorflow/contrib/meta_graph_transform/meta_graph_transform.py:260-267 | the filtered list keeps exactly the entries the test accepts, and nothing else |
| MetaGraphTransform.PrunedCollection | tensorflow/contrib/meta_graph_transform/meta_graph_transform.py:247-269 | bytes and node lists keep their kind even when emptied, and an any list keeps its kind only while some entry survives, becoming unset otherwise (entries are only ever added to it one by one); node lists keep exactly the entries that are not removed, any and bytes lists exactly those not mentioning a removed op, and any other collection is copied |
| MetaGraphTransform.PrunedCollections | tensorflow/contrib/meta_graph_transform/meta_graph_transform.py:509-513 | every collection of the base graph is pruned, under its own key |
| MetaGraphTransform.SingleNodeName | tensorflow/contrib/meta_graph_transform/meta_graph_transform.py:366-379 | an absent key gives None; a collection with no node list entries and one with more than one are the two ValueErrors; a result is the only node list entry |
| MetaGraphTransform.AllNodeNames | tensorflow/contrib/meta_graph_transform/meta_graph_transform.py:382-391 | an absent key gives None; no node list entries is the ValueError; otherwise the whole non-empty node list |
| MetaGraphTransform.ControlInputs | tensorflow/contrib/meta_graph_transform/meta_graph_transform.py:130 | each name gets the control mark `^`, one input per name |
| MetaGraphTransform.ConnectToSharedInitOp | tensorflow/contrib/meta_graph_transform/meta_graph_transform.py:115-130 | with nodes to connect, exactly one NoOp with the shared name is appended with a control input per node; with none the graph is unchanged |
| MetaGraphTransform.SharedInitInputsNameNodes | tensorflow/contrib/meta_graph_transform/meta_graph_transform.py:115-130 | the appended node's inputs, read back as op names, are the connected nodes, and the earlier nodes are unchanged |
| MetaGraphTransform.Lookup | tensorflow/contrib/meta_graph_transform/meta_graph_transform.py:97-99 | a key is found iff the dictionary has an entry for it |
| MetaGraphTransform.IndexOf | tensorflow/contrib/meta_graph_transform/meta_graph_transform.py:79 | `list.index`: absent iff the name is not in the list, otherwise its first position |
| MetaGraphTransform.OpNames | tensorflow/contrib/meta_graph_transform/meta_graph_transform.py:95 | the list of op names succeeds iff every name's op name does, and is then those op names in order |
| MetaGraphTransform.PlanTransformsConcat | tensorflow/contrib/meta_graph_transform/meta_graph_transform.py:89-112 | the transforms a plan carries out distribute over joining plans |
| MetaGraphTransform.FreezePlan | tensorflow/contrib/meta_graph_transform/meta_graph_transform.py:89-112 | phase one, the freeze and phase two together carry out the whole transform list, and no tool run includes freezing |
| MetaGraphTransform.FreezePlanTransforms | tensorflow/contrib/meta_graph_transform/meta_graph_transform.py:89-90 | the transforms before the freeze, the freeze and those after it make up the list |
| MetaGraphTransform.FreezePlanSteps | tensorflow/contrib/meta_graph_transform/meta_graph_transform.py:89-112 | joining two plans without freezing tool runs around the freeze step leaves no freezing tool run |
| MetaGraphTransform.FreezeStep | tensorflow/contrib/meta_graph_transform/meta_graph_transform.py:95-109 | the freeze fails on a bad output name or a missing table initializer entry; otherwise it keeps the output ops and the tables, connects the tables to the first legacy init op, and passes both entries on only when there are tables |
| MetaGraphTransform.DoTransforms | tensorflow/contrib/meta_graph_transform/meta_graph_transform.py:49-112 | no transforms is a copy; no freeze is one tool run on all transforms whose outputs are the outputs followed by the sorted initializer names; any plan carries out exactly the transform list and runs no freezing through the tool |
| MetaGraphTransform.SecondFreezeWithoutTablesFails | tensorflow/contrib/meta_graph_transform/meta_graph_transform.py:100-109 | after a freeze with no tables the entry is dropped, so a second freeze fails with the KeyError for it |
| MetaGraphTransform.PrunedSaver | tensorflow/contrib/meta_graph_transform/meta_graph_transform.py:272-327 | the saver is copied unchanged iff its filename, save and restore names all pass the removal check, checked in that order |
| MetaGraphTransform.Transform | tensorflow/contrib/meta_graph_transform/meta_graph_transform.py:458-521 | the plan is the one the transforms give, and its failure fails the call; once it succeeds, the call succeeds iff the graph is frozen, there is no saver, or the saver check passes, and otherwise fails with that check's error; the removed names are the base nodes not retained; the saver is dropped when freezing and checked otherwise; every collection is pruned; a signature is kept iff none of its tensors fails the check |
| RunConfig.Init | tensorflow/python/estimator/run_config.py:35-36 | a fresh configuration holds only the model directory attribute, set to None |
| RunConfig.InitDefaults | tensorflow/python/estimator/run_config.py:25-100 | a fresh configuration reports no model directory, the worker task type, one worker, no parameter servers, chief status, five kept checkpoints, a checkpoint every 600 seconds and no step-based checkpoints |
| RunConfig.ReplaceWith | tensorflow/python/estimator/run_config.py:120-151 | replacing succeeds iff every keyword is in the allowed list (an absent list allowing none); a failure is the ValueError naming the first keyword that is not, together with the allowed list |
| RunConfig.ReplaceStep | tensorflow/python/estimator/run_config.py:142-145 | an allowed first keyword is stored on the copy before the rest are handled |
| RunConfig.ReplaceWithKeys | tensorflow/python/estimator/run_config.py:138-151 | the copy holds the receiver's attributes and one attribute per keyword, and no others |
| RunConfig.ReplaceWithKeepsOthers | tensorflow/python/estimator/run_config.py:138-151 | an attribute no keyword names keeps its value in the copy |
| RunConfig.ReplaceWithLastWins | tensorflow/python/estimator/run_config.py:142-145 | a keyword's value, at its last occurrence, is the one the copy holds |
| RunConfig.ReplaceModelDir | tensorflow/python/estimator/run_config.py:102-118 | `replace(model_dir=v)` succeeds, the copy's model directory is `v`, and every other property reads as before |
| RunConfig.ReplaceOtherFails | tensorflow/python/estimator/run_config.py:102-118 | `replace` with any other keyword is refused with the error naming it and the list holding only `model_dir` |
| RunConfig.NoAllowedListRefusesAll | tensorflow/python/estimator/run_config.py:140-147 | with no allowed list, replacing succeeds only with no keywords |
| RunConfig.UnnamedPropertiesUnchanged | tensorflow/python/estimator/run_config.py:38-100 | every property whose name no keyword uses reads the same on the copy |
| RunConfig.ReplaceTwice | tensorflow/python/estimator/run_config.py:120-151 | replacing twice is replacing once with both keyword lists, the later values winning |
| TrainingUtils.SecondPiece | tensorflow/python/keras/_impl/keras/utils/training_utils.py:31 | the piece at index 1 of the split lies between the first `device:` and the next one or the end, and holds no `device:` |
| TrainingUtils.NormalizeDeviceName | tensorflow/python/keras/_impl/keras/utils/training_utils.py:30-32 | normalising fails iff the lower-cased name holds no `device:` (the IndexError); otherwise it is `/` followed by the lower-cased text between the first `device:` and the next one or the end |
| TrainingUtils.MarkerNotBefore | tensorflow/python/keras/_impl/keras/utils/training_utils.py:31 | in `p + "device:" + t` with no `device:` in `p`, the first marker is the one after `p` |
| TrainingUtils.NoMarkerInTypeAndIndex | tensorflow/python/keras/_impl/keras/utils/training_utils.py:31 | a device type shorter than `device` followed by `:` and an index holds no `device:` |
| TrainingUtils.SplitAtOnlyMarker | tensorflow/python/keras/_impl/keras/utils/training_utils.py:31 | splitting a name with exactly one `device:` at it gives the two sides |
| TrainingUtils.LowerDeviceName | tensorflow/python/keras/_impl/keras/utils/training_utils.py:31 | lower-casing a full device name lower-cases the prefix and the type and keeps the marker, the colon and the digits |
| TrainingUtils.LowerKeepsColonOut | tensorflow/python/keras/_impl/keras/utils/training_utils.py:31 | lower-casing adds no `:` |
| TrainingUtils.NormalizeCanonical | tensorflow/python/keras/_impl/keras/utils/training_utils.py:30-32 | a full local device name normalises to `/`, the lower-cased type, `:` and the index |
| TrainingUtils.TargetDevices | tensorflow/python/keras/_impl/keras/utils/training_utils.py:114 | the targets are `/cpu:0` followed by `/gpu:0` up to the last GPU index, one per GPU |
| TrainingUtils.TargetDevicesDistinct | tensorflow/python/keras/_impl/keras/utils/training_utils.py:114 | no target device is listed twice |
| TrainingUtils.NormalizeAll | tensorflow/python/keras/_impl/keras/utils/training_utils.py:115-118 | normalising the available names succeeds iff each name normalises, and then gives each one's normal form in order; a failure is one of the names' failures |
| TrainingUtils.CheckDevices | tensorflow/python/keras/_impl/keras/utils/training_utils.py:109-125 | the call fails with the `gpus >= 2` error iff gpus is at most 1, and passes iff additionally every available name normalises and every target device is among the normalised names; it then yields the targets |
| TrainingUtils.ShortCpuName | tensorflow/python/keras/_impl/keras/utils/training_utils.py:31 | the CPU's normal form is `/cpu:0` |
| TrainingUtils.ShortGpuName | tensorflow/python/keras/_impl/keras/utils/training_utils.py:31 | GPU `k`'s normal form is `/gpu:k` |
| TrainingUtils.CpuNormalized | tensorflow/python/keras/_impl/keras/utils/training_utils.py:30-32 | the local CPU's full name normalises to `/cpu:0` |
| TrainingUtils.GpuNormalized | tensorflow/python/keras/_impl/keras/utils/training_utils.py:30-32 | local GPU `k`'s full name normalises to `/gpu:k` |
| TrainingUtils.Machine | tensorflow/python/keras/_impl/keras/utils/training_utils.py:25-27 | a machine's listing holds its CPU and one entry per GPU |
| TrainingUtils.MachineNormalized | tensorflow/python/keras/_impl/keras/utils/training_utils.py:115-118 | each entry of a machine's listing normalises to its short name |
| TrainingUtils.MachineCoversTargets | tensorflow/python/keras/_impl/keras/utils/training_utils.py:119-125 | every target device is the normal form of some entry of a machine listing its CPU and at least as many GPUs |
| TrainingUtils.CanonicalMachineAccepted | tensorflow/python/keras/_impl/keras/utils/training_utils.py:109-125 | a machine listing its CPU and at least as many GPUs as asked for, at least two, passes the checks |
| TrainingUtils.SlicesTile | tensorflow/python/keras/_impl/keras/utils/training_utils.py:127-149 | the slices of a batch start at row 0, each ends where the next starts, the last ends at the batch size, and no size is negative |
| TrainingUtils.QuotientBounds | tensorflow/python/keras/_impl/keras/utils/training_utils.py:141 | a row lies between its floor-divided multiple of the step and the next one |
| TrainingUtils.OwnerHoldsRow | tensorflow/python/keras/_impl/keras/utils/training_utils.py:127-149 | every row of the batch lies in the slice of some replica |
| TrainingUtils.OnlyOwnerHoldsRow | tensorflow/python/keras/_impl/keras/utils/training_utils.py:127-149 | a row lies in the slice of one replica only |
| TrainingUtils.SlicesPartition | tensorflow/python/keras/_impl/keras/utils/training_utils.py:127-149 | the replicas' slices partition the batch: each row lies in exactly one slice |
| GenerateExamples.DimStrings | tensorflow/contrib/lite/testing/generate_examples.py:121 | one decimal rendering per dimension, in order |
| GenerateExamples.ShapeStrings | tensorflow/contrib/lite/testing/generate_examples.py:121 | one comma-joined rendering per shape, in order |
| GenerateExamples.InferenceType | tensorflow/contrib/lite/testing/generate_examples.py:122-126 | the inference type is quantized iff the first input type is, and FLOAT otherwise |
| GenerateExamples.TocoOptions | tensorflow/contrib/lite/testing/generate_examples.py:104-135 | building the options fails iff there are no data types, the IndexError on the first one |
| GenerateExamples.SpaceEachIsJoin | tensorflow/contrib/lite/testing/generate_examples.py:127-134 | prefixing every flag with a space is joining an empty piece and the flags with spaces |
| GenerateExamples.FlagsLackSpace | tensorflow/contrib/lite/testing/generate_examples.py:127-134 | when no type or array name holds a space, no flag does |
| GenerateExamples.SpaceEachSplit | tensorflow/contrib/lite/testing/generate_examples.py:127-134 | splitting the space-prefixed flags at spaces gives an empty piece followed by the flags |
| GenerateExamples.OptionsSplitIntoFlags | tensorflow/contrib/lite/testing/generate_examples.py:104-135 | the command line splits at spaces into exactly the expected flags, in order, when no type or array name holds a space |
| GenerateExamples.ShapeStringRoundTrip | tensorflow/contrib/lite/testing/generate_examples.py:121 | splitting the shapes string at `:` and each piece at `,` gives back every shape's rendered dimensions |
| GenerateExamples.BuildReport | tensorflow/contrib/lite/testing/generate_examples.py:384-418 | TensorFlow succeeds iff the graph and its test inputs were built, and fails otherwise; TOCO is not run iff TensorFlow failed, and succeeds iff it also produced a model |
| GenerateExamples.CountErrorsIsCardinality | tensorflow/contrib/lite/testing/generate_examples.py:447-457 | the error count is the number of results that count as TOCO errors |
| GenerateExamples.TocoErrors | tensorflow/contrib/lite/testing/generate_examples.py:358-457 | the loop over the results counts exactly the conversion failures not excused by a known-bug pattern, or every failure when known bugs are errors |
| GenerateExamples.ErrorsAtMostTfSuccesses | tensorflow/contrib/lite/testing/generate_examples.py:447-471 | there are never more TOCO errors than graphs TensorFlow evaluated |
| GenerateExamples.KnownBugsOnlyExcuse | tensorflow/contrib/lite/testing/generate_examples.py:447-455 | consulting the known bugs can only lower the count, and changes nothing when no label matches a pattern |
| GenerateExamples.FinalCheck | tensorflow/contrib/lite/testing/generate_examples.py:479-481 | the run fails iff errors are not ignored and there is at least one, and the error carries the count |
| GenerateExamples.RunFailsIffCountedError | tensorflow/contrib/lite/testing/generate_examples.py:447-481 | the run fails iff errors are not ignored and some result counts as a TOCO error |
| StringOrder.Sort | tensorflow/contrib/meta_graph_transform/meta_graph_transform.py:82-83 | `sorted` yields an ascending arrangement of the same names |
| StringOrder.SortPermutationInvariant | tensorflow/contrib/meta_graph_transform/meta_graph_transform.py:82-83 | the sorted list does not depend on the order in which the dictionary yields its values |
| Strings.Split | tensorflow/contrib/meta_graph_transform/meta_graph_transform.py:43-44 | `str.split`: one piece iff the separator does not occur, and the first piece is the text before its first occurrence |
| Strings.Lower | tensorflow/python/keras/_impl/keras/utils/training_utils.py:31 | `str.lower` on each character, the length kept |
| Decimal.IntToString | tensorflow/contrib/lite/testing/generate_examples.py:121 | `str` of an integer: its decimal digits, after `-` when negative |
| Decimal.ValueOfNatToString | tensorflow/python/keras/_impl/keras/utils/training_utils.py:114 | the `%d` rendering of a number reads back as that number |
| Decimal.NatToStringInjective | tensorflow/python/keras/_impl/keras/utils/training_utils.py:114 | different numbers render differently |

## Left out

### Constant folding
- The CPU device, the thread pool, `FetchOutputs`, executor creation and the run's status are inputs to `ConstantFolding.DoConstantFolding`, given as an `Env` value. The asynchronous run and its notification are concurrency and are not modelled.
- The status that is read before the wait is racy in the source. The model takes it as a given flag.
- The sends that the extracted graph performs are an input. Kernel execution is not modelled.
- `Rendezvous::ParseKey` is a parameter, reduced to the edge name it yields.
- The reverse depth-first leave order over the graph is a parameter of discovery: any node order that `InGraph` accepts.
- The fetch order comes from iterating an `unordered_map`. The model uses ascending copy ids, one admissible iteration order.
- `LOG(FATAL)` and `CHECK` failures become error results, not process aborts. The driver's abort on extraction's CHECKs is `DoConstantFolding`'s `Err`.
- A `guardConsts` flag selects the discovery in `ConstantFolding.DoConstantFolding` and the members around it. `false` is the pass as written. `true` is the corrected discovery. `GuardOnlyPreventsAborts` proves that the two agree wherever the pass as written does not abort.

### Integer widths
- `TensorId.ParseTensorName`: the index is an unbounded integer. The 32-bit overflow of the source's accumulator for very long digit runs is not modelled.
- `ConvertNodes.GetShapeSize`: the product is unbounded. The source's `int` overflow is not modelled.
- `LshProjection.SparseProjection`: the signature is an unbounded integer, where the source computes `hash_signature + i * (1 << num_bits)` in `int32` (lsh_projection.cc:154). The kernel's header bound (lsh_projection.cc:34) allows `numHash * 2^numBits` up to `2^32`, and `Resize` accepts `numBits` up to 32 (lsh_projection.cc:83). `SparseSignatureRange` assumes the stricter `numHash * 2^numBits <= 2^31`, one bit below the header's bound, and only under that bound does the source's arithmetic stay inside `int32` and agree with the model. Between `2^31` and `2^32` the source's sum overflows `int32` (for example `numBits = 31`, `numHash = 2`), and at `numBits = 32` the shift `1 << 32` is undefined; the model keeps computing the unbounded value in both cases.
- `StridedSlice.ValidateStridedSlice`: the 64-bit arithmetic is unbounded. The sparse spec's masks are 32-bit bit-vectors, as are the source's `int32` masks. The dense spec's begin, end and shrink masks are sequences of booleans, one per dimension. The source's dense masks are `int32` (strided_slice_op.cc:75-76, :91) and are set with `1 << full_index` (strided_slice_op.cc:126-127, :139), which is undefined once a dense index reaches 32, so the source goes wrong on any input of rank 33 or more; the model's boolean masks handle every rank, so it does not reproduce that failure.
- `StridedSlice.ValidateStridedSlice` runs the corrected dense step, `BuildDenseSpec`, which rejects more real entries than input dimensions. The step as written, `BuildDenseSpecAsWritten`, writes past the dense arrays in that case (see Findings). `CheckedAgreesInRange` proves that the two agree whenever the step as written stays in bounds.

### Undefined behaviour, floats and foreign calls
- Reading past the end of a weights buffer is undefined behaviour in the source; the model reads 0 there (`ConvertNodes.At`, the pads and reduction indices). `LshProjection.SeedBit` does the same for seeds.
- Floating-point values are reals, so NaN and signed zero are outside the model. This affects `RemoveTrivialBinary` buffers and the LSH score.
- The FarmHash fingerprint and the score it feeds are one abstract score function.
- The element values of float weights are not modelled: the unary and binary lambdas and the `rsqrt` transform.
- Every TensorRT network-building call is foreign; `transposeTensor` and pooling are among them. A converted tensor is its dimensions. The reduce converter's pooled dimensions use stride 1 as a stand-in for TensorRT's rule.
- `NodeDef` carries a single type attribute, standing for `T`, `Tidx` or `Tpaddings` as each converter reads it.
- The float and quantized arithmetic of the Mul kernel is not modelled: `TfliteMul.Eval` models the type dispatch only.
- `PackOp.Pack` requires at least one input. The source's arity guard only checks `num >= 0` and then reads input 0's shape.

### Python helpers
- `Checkpointable.AddVariable`: the variable comes from `get_variable` with a getter, which is modelled as a fresh identifier.
- `Checkpointable.SlotVarWrites`: `get_slot` is a lookup parameter.
- Optimizer identity (`isinstance`) is modelled as membership of a reference in the optimizers' slot table.
- Error-message formatting and object `repr` are left out.
- `MetaGraphTransform.Transform`:
  - Protocol buffers, `TransformGraph` and `convert_variables_to_constants` are foreign. They appear as the steps of a plan, with the retained node names as input.
  - `_find_all_mandatory_retain_ops` becomes the initializer-names input.
  - An any-list value is modelled by its text.
  - The copy of `meta_info_def` and its tags is left out.
  - `_get_all_protos_from_collection` and `_find_op` are not used by the modelled code.
- `RunConfig.ReplaceWith`: `copy.deepcopy` is a value copy, and attributes are keyed without their leading underscore. Python keyword arguments cannot repeat; the model allows repeats, with the later value winning.
- `TrainingUtils.CheckDevices`: listing the session's devices is the `available` input. Building the replicated model (`Lambda`, `concatenate`, `Model`) is left out.
- `TrainingUtils.SlicesTile`: `get_slice` is only stated for `parts > 0`, because the source divides by `parts`.
- `Strings.Lower`: lower-cases ASCII letters only. Python's `str.lower` also maps non-ASCII letters.
- `GenerateExamples.TocoErrors`:
  - Graph building, `toco_convert`, the zip archive and the HTML report are left out; they appear only as each result's report.
  - `re.search` over the known-bug patterns is the `knownBug` predicate on the label.
  - The logged success percentage is floating point and is left out.

## Findings

| source | as written | input that shows it | evidently intended | confidence | as-written member | corrected member |
|---|---|---|---|---|---|---|
| tensorflow/core/common_runtime/constant_folding.cc:59-112 | discovery admits every `Const` node whatever its inputs; extraction then CHECKs that each in-edge of an admitted node comes from an admitted node or the source | a constant `c` with a control input from a stateful variable `x`, feeding a foldable node | a constant is admitted only when each of its in-nodes is a sentinel or already admitted; then extraction's CHECKs hold, and nothing changes where they held already | not executed | ConstantFolding.UnguardedExtractionAborts | ConstantFolding.GuardedExtractionSucceeds |
| tensorflow/core/util/strided_slice_op.cc:132-153 | `BuildDenseSpec` writes one dense entry per real sparse entry with no bound check against the input rank | `foo[0:1, 0:1]` on a rank-1 input: dense entry 1 of a 1-entry array is written | more real entries than input dimensions is an error | not executed | StridedSlice.DenseOverrunAsWritten | StridedSlice.DenseOverrunRejected |
| tensorflow/contrib/tensorrt/convert/convert_nodes.cc:608-625, 692-706 | the output shape is broadcast per dimension, but `BinaryCompute` only walks elementwise when the counts are equal, or one count is 1 | shapes [1,3] and [3,1]: a 9-element output, 3 elements computed; also [1] against [0] | each output element is computed from its broadcast operands | not executed | ConvertNodes.TransposedOperandsUnderfill | ConvertNodes.FixedFoldFillsOutput |
| tensorflow/contrib/tensorrt/convert/convert_nodes.cc:1293-1309 | `ConvertReduce` builds its layer but never pushes an output, so the node's name is never recorded | any Mean node that converts | the output tensor is recorded under the node's name | not executed | ConvertNodes.ReduceOutputLost | ConvertNodes.FixedReduceRecordsOutput |
| tensorflow/contrib/tensorrt/convert/convert_nodes.cc:1364-1395 | padding on dim 0 is already refused at 1364, so the guard `pad_index[0] == 0 && pad_index[1] == 3` at 1370 can never fire | pads on dims 1 and 3 of a 4-d tensor are accepted, and dim 1 receives dim 3's padding | the guard tests `pad_index[0] == 1`, refusing that case | not executed | ConvertNodes.PadOneAndThreeMisplaced | ConvertNodes.FixedPadApplied |
| tensorflow/contrib/tensorrt/convert/convert_nodes.cc:1335-1395 | the message says only 4-d tensors are supported, but the rank is never checked | a 5-d tensor padded on dim 4: accepted, and the padding is dropped | tensors that are not 4-d are refused | not executed | ConvertNodes.PadBeyondWidthDropped | ConvertNodes.FixedPadApplied |
| tensorflow/contrib/lite/toco/graph_transformations/remove_trivial_binary.cc:92-102 | the operator tests use `!=`, so the first branch is taken by every operator except Add | `x * 0` is removed as trivial; `x * 1` is kept | `x + 0`, `0 + x`, `x - 0`, `x * 1`, `1 * x` and `x / 1` are removed, as the comment at 43-48 says | not executed | RemoveTrivialBinary.MulByZeroRemovedAsWritten | RemoveTrivialBinary.RemovedOperatorIsIdentity |
| tensorflow/contrib/meta_graph_transform/meta_graph_transform.py:412-417 | `_is_removed` tests `startswith` against each removed op name | ops `a` and `ab`, only `ab` retained: `ab:0` counts as removed, and the saver check fails | a tensor is removed when its op part equals a removed name | not executed | MetaGraphTransform.RetainedPrefixTreatedAsRemoved | MetaGraphTransform.FixedRemovalKeepsRetained |
