/**
 * The vertex store and the strand adaptor through which the contig graph
 * reads and writes it.
 *
 * A vertex holds one contig and two edge masks that always describe the
 * forward strand. An adaptor is a (vertex index, is-reverse) handle; the
 * reverse strand is never stored, only seen through the adaptor: its contig
 * is the reverse complement, and its out (in) mask is the vertex's in (out)
 * mask with every bit b moved to 3 - b. The adaptor class of the assembler
 * (contig_graph_vertex.h) is not part of this model; this model fixes the
 * mirrored view described here for the reverse strand.
 */
module Adaptors {
  import opened Nucleotides
  import opened BitEdges

  /** One stored contig with the edge masks of its forward strand. */
  datatype Vertex = Vertex(contig: seq<Base>, inEdges: Mask, outEdges: Mask)

  /** A strand of a stored vertex, or the null adaptor ("no such vertex"). */
  datatype Adaptor = Null | A(id: nat, isReverse: bool)
  {
    /** The same vertex seen from the other strand; no data moves. */
    function ReverseComplement(): Adaptor
    {
      match this
      case Null => Null
      case A(i, r) => A(i, !r)
    }
  }

  /** The adaptor names a vertex of the store. */
  predicate Live(vs: seq<Vertex>, a: Adaptor)
  {
    a.A? && a.id < |vs|
  }

  /** The adaptor's contig: the stored one, or its reverse complement. */
  function Contig(vs: seq<Vertex>, a: Adaptor): seq<Base>
    requires Live(vs, a)
  {
    if a.isReverse then ReverseComplement(vs[a.id].contig) else vs[a.id].contig
  }

  /** The adaptor's out mask. */
  function Out(vs: seq<Vertex>, a: Adaptor): Mask
    requires Live(vs, a)
  {
    if a.isReverse then Mirror(vs[a.id].inEdges) else vs[a.id].outEdges
  }

  /** The adaptor's in mask. */
  function In(vs: seq<Vertex>, a: Adaptor): Mask
    requires Live(vs, a)
  {
    if a.isReverse then Mirror(vs[a.id].outEdges) else vs[a.id].inEdges
  }

  /** Flipping an adaptor twice gives it back. */
  lemma ReverseComplementInvolution(a: Adaptor)
    ensures a.ReverseComplement().ReverseComplement() == a
    ensures a.A? ==> a.ReverseComplement() != a && a.ReverseComplement().id == a.id
  {
  }

  /**
   * The other strand's views: its contig is the reverse complement, its out
   * mask is the mirrored in mask and its in mask the mirrored out mask.
   */
  lemma {:induction false} ViewsOfReverse(vs: seq<Vertex>, a: Adaptor)
    requires Live(vs, a)
    ensures Live(vs, a.ReverseComplement())
    ensures Contig(vs, a.ReverseComplement()) == ReverseComplement(Contig(vs, a))
    ensures Out(vs, a.ReverseComplement()) == Mirror(In(vs, a))
    ensures In(vs, a.ReverseComplement()) == Mirror(Out(vs, a))
    ensures |Contig(vs, a.ReverseComplement())| == |Contig(vs, a)|
  {
    Nucleotides.ReverseComplementInvolution(vs[a.id].contig);
    MirrorInvolution(vs[a.id].inEdges);
    MirrorInvolution(vs[a.id].outEdges);
  }

  /** Two stores holding the same contigs in the same slots. */
  predicate SameContigs(vs: seq<Vertex>, ws: seq<Vertex>)
  {
    |vs| == |ws| && forall i :: 0 <= i < |vs| ==> vs[i].contig == ws[i].contig
  }

  /**
   * Writes mask m as the adaptor's out mask: into the vertex's out mask for
   * the forward strand, mirrored into its in mask for the reverse strand.
   * Every other adaptor's out mask, and every in mask except the one of the
   * other strand, stay as they were.
   */
  function SetOut(vs: seq<Vertex>, a: Adaptor, m: Mask): (r: seq<Vertex>)
    requires Live(vs, a)
    ensures SameContigs(vs, r)
    ensures forall i :: 0 <= i < |vs| && i != a.id ==> r[i] == vs[i]
    ensures Out(r, a) == m
    ensures In(r, a.ReverseComplement()) == Mirror(m)
    ensures forall b :: Live(vs, b) && b != a ==> Out(r, b) == Out(vs, b)
    ensures forall b :: Live(vs, b) && b != a.ReverseComplement() ==> In(r, b) == In(vs, b)
  {
    var v := vs[a.id];
    MirrorInvolution(m);
    if a.isReverse then vs[a.id := v.(inEdges := Mirror(m))] else vs[a.id := v.(outEdges := m)]
  }

  /**
   * The out masks of all adaptors determine the store: the forward strand
   * shows each vertex's out mask and the reverse strand its in mask.
   */
  lemma StoreExtensional(vs: seq<Vertex>, ws: seq<Vertex>)
    requires SameContigs(vs, ws)
    requires forall a :: Live(vs, a) ==> Out(vs, a) == Out(ws, a)
    ensures vs == ws
  {
    forall i | 0 <= i < |vs|
      ensures vs[i] == ws[i]
    {
      assert Out(vs, A(i, false)) == Out(ws, A(i, false));
      assert Out(vs, A(i, true)) == Out(ws, A(i, true));
      MirrorInvolution(vs[i].inEdges);
      MirrorInvolution(ws[i].inEdges);
    }
  }
}
