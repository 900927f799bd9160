# Contig graph adjacency, modelled in Dafny

IDBA's `ContigGraph` is a compacted de Bruijn graph: each vertex holds one
contig (a base sequence) and two 4-bit edge masks. Bit `x` of the out mask
says that the contig continues with base `x`. In this model, bit `x` of the
in mask says that it is entered after base `x`. Vertices are always read and
written through an adaptor, a handle made of a vertex index and a strand. The
reverse strand is never stored. Its contig is the reverse complement of the
stored one, and in this model its out (in) mask is the stored in (out) mask
with bit `b` moved to bit `3 - b`. The graph reads in masks only by their
degree and emptiness. A hash index maps the canonical form of every begin k-mer to a
vertex. This project models that adjacency layer:

- `nucleotides.dfy` (`Nucleotides`): bases 0..3 with complement `3 - b`,
  reverse complement, begin and end k-mers, the one-base shift of a k-mer,
  and the strand-independent canonical form of a k-mer.
- `bit_edges.dfy` (`BitEdges`): the 4-bit masks, with setting and clearing a
  bit, degree (`Size`), the set bits in base order, the index of a one-bit
  mask, and the strand mirror.
- `adaptors.dfy` (`Adaptors`): the vertex record, the adaptor, and the
  strand views the graph reads and writes through.
- `contig_graph.dfy` (`ContigGraphs`):
  - index lookup and neighbour resolution;
  - edge insertion and removal, as functions on the vertex store, together
    with their bit-level, symmetry and round-trip lemmas;
  - the chain-link and loop tests;
  - the unique source and sink search;
  - the `ContigGraph` class, whose fields are the index, the vertex store,
    the edge count, the k-mer size and the in-k-mer count table. Its methods
    change those fields in place.

The vertex store is a `seq<Vertex>`, and adaptors name positions in it. The
index is a `map<Kmer, nat>`. The neighbour output deque of `GetNeighbors` is
the method's out-parameter.

`RemoveEdge` is meant to undo `AddEdge` exactly, clearing the two bits
`AddEdge` sets. The code at `src/idba/contig_graph.h:60` does not always:
when current's contig is longer than k and its first base differs from its
base at position len - k, it clears a different bit on the neighbour's
reverse strand (see Findings). The model keeps the code as written in
`WithoutEdgeAsWritten`. The class's `RemoveEdge` uses the corrected
`WithoutEdge`.

## Model

| member | source | states |
|---|---|---|
| Nucleotides.UniqueFormatStrandIndependent | src/idba/contig_graph.h:167 | a k-mer and its reverse complement have the same index key, and the key is never larger than either |
| BitEdges.Add | src/idba/contig_graph.h:48 | setting a bit sets exactly that bit and keeps the other three |
| BitEdges.Remove | src/idba/contig_graph.h:57 | clearing a bit clears exactly that bit and keeps the other three |
| BitEdges.Size | src/idba/contig_graph.h:152 | the degree is at most 4, and it is 0 exactly when the mask is empty |
| BitEdges.SetBits | src/idba/contig_graph.h:94-97 | the set bits of a mask, strictly increasing, as many as its degree, holding x exactly when bit x is set |
| BitEdges.BitToIndex | src/idba/contig_graph.h:155 | a one-bit mask is exactly the bit of the returned base, and no other bit is set |
| BitEdges.Mirror | src/idba/contig_graph.h:49-52 | the other strand's view of a mask: bit b is set exactly when bit 3 - b was, with the same degree |
| Adaptors.ReverseComplementInvolution | src/idba/contig_graph.h:49-50 | flipping an adaptor twice gives it back, and a flip keeps the vertex and changes the strand |
| Adaptors.ViewsOfReverse | src/idba/contig_graph.h:49-52 | the other strand has the reverse-complement contig, its out mask is the mirrored in mask, and its in mask is the mirrored out mask |
| Adaptors.SetOut | src/idba/contig_graph.h:48 | writing an adaptor's out mask changes that mask and the other strand's in mask, and no other adaptor's masks or any contig |
| Adaptors.StoreExtensional | src/idba/contig_graph.h:224 | two stores with the same contigs and the same out mask on every adaptor are equal |
| ContigGraphs.FindVertexAdaptorByBeginKmer | src/idba/contig_graph.h:165-181 | a found adaptor is the indexed vertex and begins with the query. Null comes back exactly when the key is absent or neither strand begins with the query. The forward strand wins whenever it matches |
| ContigGraphs.FindsIndexedStrand | src/idba/contig_graph.h:165-181 | every indexed strand is found by its begin k-mer: the lookup lands on its vertex, and on the strand itself unless both strands begin alike |
| ContigGraphs.IndexedReverseByEndKmer | src/idba/contig_graph.h:167-172 | the reverse strand is indexed exactly when the canonical end k-mer of the forward strand maps to the vertex |
| ContigGraphs.GetNeighbor | src/idba/contig_graph.h:84-89 | a resolved neighbour is a live vertex that begins with current's end k-mer shifted by one base with x appended, so its k-th base is x |
| ContigGraphs.NeighborIgnoresMasks | src/idba/contig_graph.h:84-89 | the neighbour depends only on the contigs and the index, never on edge masks |
| ContigGraphs.NeighborBackward | src/idba/contig_graph.h:84-89 | from a neighbour's reverse strand, the k-th base of current's reverse strand leads back to current's vertex. It lands on current's reverse strand unless both strands of current begin alike |
| ContigGraphs.WithEdge | src/idba/contig_graph.h:46-53 | adding an edge keeps every contig and leaves every vertex other than the two endpoints unchanged |
| ContigGraphs.AddEdgeBits | src/idba/contig_graph.h:46-53 | afterwards an out bit is set exactly when it was set before, or it is from's bit for to's k-th base, or it is the reverse of to's bit for the k-th base of the reverse of from |
| ContigGraphs.AddEdgeKeepsSymmetry | src/idba/contig_graph.h:46-53 | when both named edges lead where AddEdge says, every resolved edge of the store still has its mirror edge on the other strand afterwards |
| ContigGraphs.AddEdgeKeepsSymmetryAt | src/idba/contig_graph.h:46-53 | one edge a --z--> n present after AddEdge has its mirror bit set afterwards |
| ContigGraphs.MirroredAtTransfer | src/idba/contig_graph.h:84-89 | whether one edge has its mirror depends on the masks only through the two bits involved |
| ContigGraphs.WithoutEdge | src/idba/contig_graph.h:55-61 | removing an edge keeps every contig and leaves every vertex other than current and its neighbour unchanged |
| ContigGraphs.WithoutEdgeSteps | src/idba/contig_graph.h:57-60 | the removal is its two steps: clear current's bit, then clear the bit on the neighbour's reverse strand that the first step left resolvable |
| ContigGraphs.RemoveEdgeBits | src/idba/contig_graph.h:55-61 | afterwards an out bit is set exactly when it was set before and it is neither current's bit x nor the mirror bit on the neighbour's reverse strand |
| ContigGraphs.RemoveEdgeUndoesAddEdge | src/idba/contig_graph.h:46-61 | adding an absent edge and removing it again through the same base gives back the store exactly |
| ContigGraphs.RemoveEdgeKeepsSymmetry | src/idba/contig_graph.h:55-61 | in a symmetric store whose edge mirrors lead back, removing a resolved edge keeps every remaining edge's mirror |
| ContigGraphs.ClearingMirrorPairKeepsSymmetry | src/idba/contig_graph.h:55-61 | clearing one edge together with its mirror, and no other bit, keeps the symmetry of such a store |
| ContigGraphs.MirrorsReturn | src/idba/contig_graph.h:84-89 | where neighbours lead back, another edge's mirror is the removed edge or its mirror only when that edge is the removed mirror or the removed edge itself |
| ContigGraphs.RemoveEdgeKeepsSymmetryAt | src/idba/contig_graph.h:55-61 | one edge left by the removal keeps its mirror bit, because a cleared mirror would mean the edge was cleared too |
| ContigGraphs.WithoutEdgeAsWritten | src/idba/contig_graph.h:55-61 | the removal as the code writes it keeps every contig and leaves every vertex other than current and its neighbour unchanged |
| ContigGraphs.RemoveEdgeAsWrittenBits | src/idba/contig_graph.h:55-61 | afterwards an out bit is set exactly when it was set before and it is neither current's bit x nor the bit for the complement of current's first base on the neighbour's reverse strand |
| ContigGraphs.RemovalsAgreeOnOneKmerContig | src/idba/contig_graph.h:57-60 | on a contig of exactly k bases the removal as written and the corrected removal give the same store |
| ContigGraphs.RemoveEdgeAsWrittenLeavesOneSide | src/idba/contig_graph.h:60 | where the bit cleared on the neighbour's reverse strand is not the mirror bit, the mirror edge survives while the edge it mirrors is gone |
| ContigGraphs.RemoveEdgeAsWrittenBreaksSymmetry | src/idba/contig_graph.h:60 | in a symmetric store, after adding an edge whose mirror leads back, the removal as written leaves an edge without its mirror whenever the complement of from's first base is not the k-th base of from's reverse strand |
| ContigGraphs.TwoContigsBreakSymmetry | src/idba/contig_graph.h:60 | the store of contigs ACG and GA with k = 2 meets every hypothesis of RemoveEdgeAsWrittenBreaksSymmetry for the edge ACG --> GA |
| ContigGraphs.RemoveEdgeAsWrittenKeepsMirrorBit | src/idba/contig_graph.h:60 | on a two-contig store, the removal as written leaves the mirror bit that AddEdge set, while the corrected removal restores the store |
| ContigGraphs.GetNextVertexAdaptor | src/idba/contig_graph.h:150-157 | with out-degree other than 1, the answer is false and next is unchanged. Otherwise next is the neighbour through the one set bit, and the answer is true exactly when next has in-degree 1 and is not a one-k-mer palindrome |
| ContigGraphs.IsLoop | src/idba/contig_graph.h:159-160 | true exactly when next is the path's first adaptor or its other strand |
| ContigGraphs.IsPalindromeLoop | src/idba/contig_graph.h:162-163 | true exactly when next is the path's last adaptor or its other strand |
| ContigGraphs.CompareContigLengthIsStrictOrder | src/idba/contig_graph.h:134-135 | the comparator puts x before y exactly when x's contig is longer, and that order is irreflexive, asymmetric and transitive, with ties of equal length: the strict weak order a sort needs |
| ContigGraphs.CountBareUnique | src/idba/contig_graph.h:186-195 | when exactly one member has an empty mask at the tested end, any two such positions coincide |
| ContigGraphs.ContigGraph.constructor | src/idba/contig_graph.h:34-36 | a new graph has the given k-mer size (0 when none is given), no edges, no vertices and empty tables |
| ContigGraphs.ContigGraph.KmerSize | src/idba/contig_graph.h:116 | the graph's k-mer size; in a well-formed graph every contig holds at least that many bases |
| ContigGraphs.ContigGraph.NumVertices | src/idba/contig_graph.h:119 | the number of stored vertices; in a well-formed graph every index entry is below it |
| ContigGraphs.ContigGraph.NumEdges | src/idba/contig_graph.h:120 | the stored edge count |
| ContigGraphs.ContigGraph.SetKmerSize | src/idba/contig_graph.h:117 | the k-mer size becomes the given one, and nothing else changes |
| ContigGraphs.ContigGraph.AddEdge | src/idba/contig_graph.h:46-53 | the store becomes WithEdge of the old store, and the graph stays well formed |
| ContigGraphs.ContigGraph.RemoveEdge | src/idba/contig_graph.h:55-61 | the store becomes the corrected WithoutEdge of the old store, and the graph stays well formed |
| ContigGraphs.ContigGraph.GetNeighbors | src/idba/contig_graph.h:91-99 | one neighbour per set out bit, in increasing base order, so the length is the out-degree, with no earlier contents kept |
| ContigGraphs.ContigGraph.GetBeginVertexAdaptor | src/idba/contig_graph.h:183-197 | non-null exactly when one member has an empty in mask, and then that member |
| ContigGraphs.ContigGraph.GetEndVertexAdaptor | src/idba/contig_graph.h:199-213 | non-null exactly when one member has an empty out mask, and then that member |
| ContigGraphs.ContigGraph.FindBare | src/idba/contig_graph.h:186-196 | the shared scan: non-null exactly when the count of members with an empty tested mask is one, and then a member with that mask empty |
| ContigGraphs.ContigGraph.Clear | src/idba/contig_graph.h:122-128 | no edges, no vertices, and both k-mer tables empty |
| ContigGraphs.ContigGraph.Swap | src/idba/contig_graph.h:108-114 | the index, the store, the edge count and the k-mer size are exchanged, and the in-k-mer count tables stay where they were |
| ContigGraphs.SwapTwice | src/idba/contig_graph.h:108-114 | swapping two graphs twice restores both |

## Left out

- The operations the header declares without a body: `Initialize`, the `Refresh` methods, `ClearStatus`, `MergeSimplePaths`, `Trim`, `RemoveDeadEnd`, `RemoveBubble`, `IterateCoverage`, the low-coverage removals, `LocalCoverage`, `Assemble`, `IsConverged`, `SplitBranches`, `GetComponents`, `IsValid`, `CycleDetect`, `FindLongestPath`, `TopSort`, `GetDepth`, `FindSimilarPath`, `BuildBeginIdbaKmerMap`. Their behaviour is not in the header.
- `CompareContigCoverage` and `GetSimilarity`: these compare or compute floating-point coverage and similarity, and the similarity body is not in the header.
- The collaborator types (`Sequence`, `IdbaKmer`, `HashMap`, `BitEdges`, `bit_operation::BitToIndex`, `ContigGraphVertex`, `ContigGraphVertexAdaptor`, `ContigInfo`) are not part of this model. They are given concrete meanings here: lexicographic canonical order, complement `3 - b`, and the mirrored mask view of the reverse strand.
- Vertex coverage, contig info and vertex status flags are not modelled, because no modelled operation reads them.
- Integer widths: the `uint32_t` k-mer size and index values, and the `uint64_t` counts, are unbounded `nat`.
- ContigGraphs.GetNeighbor: it requires a k-mer size of at least 1, as do `WithEdge`, `WithoutEdge` and the class's edge methods. With size 0, AddEdge's `kmer_size_ - 1` (`src/idba/contig_graph.h:48`, `:52`) wraps around, and GetNeighbor would shift an empty k-mer (`src/idba/contig_graph.h:86-87`), whose behaviour belongs to the k-mer type, which is not part of this model.
- The destructor, which only calls `clear`; the private copy constructor and assignment; and the `vertices()` reference accessors. These are C++ ownership plumbing, so aliasing through the returned reference is not modelled.
- ContigGraphs.ContigGraph.RemoveEdge: the source dereferences the neighbour it resolves, so the model requires that neighbour to exist. With an unresolved neighbour the source's behaviour is undefined.
- ContigGraphs.GetNextVertexAdaptor: it requires the neighbour through the one out bit to resolve, because the source reads that neighbour's in mask.
- ContigGraphs.IsLoop and ContigGraphs.IsPalindromeLoop: they require a non-empty path whose end adaptor and `next` are not null. Otherwise the source calls `front()` or `back()` on an empty deque or reads the id of a null adaptor, which is undefined.
- Well-formedness asks every stored contig to hold at least k bases (`ContigsHoldKmer`). The source assumes this silently, since `contig()[kmer_size_ - 1]` and the begin and end k-mers read that far.
- ContigGraphs.RemoveEdgeKeepsSymmetry: besides symmetry it requires that every resolved edge's mirror leads back to the edge's start (`NeighborsReturn`). `NeighborBackward` gives this wherever the reverse strand of the edge's start is indexed and the two strands of that start begin with different k-mers; a store where that fails is not covered.
- The in-k-mer count table is only emptied by `Clear` and kept by `Swap`. Its contents are never read by the modelled operations.

## Findings

| source | as written | input that shows it | evidently intended | confidence | as-written member | corrected member |
|---|---|---|---|---|---|---|
| src/idba/contig_graph.h:60 | `RemoveEdge` clears bit `3 - current.contig()[0]` on the reverse strand of the neighbour | k = 2, contigs ACG (vertex 0) and GA (vertex 1), index GA -> 1 and CG -> 0. `AddEdge(ACG, GA)` sets bit G on GA's reverse strand. `RemoveEdge(ACG, A)` then clears bit T there, so bit G stays: GA's reverse strand keeps an edge into ACG's reverse strand whose mirror is gone | clear the bit `AddEdge` set, the k-th base of current's reverse strand (`3 - current.contig()[len - k]`), so that removal undoes insertion | medium, not executed | ContigGraphs.RemoveEdgeAsWrittenKeepsMirrorBit | ContigGraphs.RemoveEdgeUndoesAddEdge |
