/**
 * The strand-aware adjacency layer of the contig graph: the begin-k-mer
 * index, neighbour resolution and enumeration, edge insertion and removal
 * with their mirrored update on the other strand, the chain-link and loop
 * tests, the unique source/sink search, and the graph object's lifecycle.
 *
 * The store is a sequence of vertices; the begin-k-mer index maps the
 * canonical form of a begin k-mer to a vertex position.
 */
module ContigGraphs {
  import opened Nucleotides
  import opened BitEdges
  import opened Adaptors

  /** The begin-k-mer index: canonical begin k-mer to vertex position. */
  type KmerIndex = map<Kmer, nat>

  /** Every stored contig holds at least one k-mer. */
  predicate ContigsHoldKmer(vs: seq<Vertex>, k: nat)
  {
    forall i :: 0 <= i < |vs| ==> |vs[i].contig| >= k
  }

  /** The store and index can be read: contigs hold a k-mer, index entries name stored vertices. */
  predicate WellFormed(vs: seq<Vertex>, index: KmerIndex, k: nat)
  {
    ContigsHoldKmer(vs, k) && forall key :: key in index ==> index[key] < |vs|
  }

  // ---------------------------------------------------------------------------
  // Index lookup and neighbours

  /**
   * Looks the canonical form of q up in the index and returns the strand of
   * the vertex found there whose begin k-mer is q, the forward strand first;
   * the null adaptor when the key is absent or neither strand begins with q.
   */
  function FindVertexAdaptorByBeginKmer(vs: seq<Vertex>, index: KmerIndex, k: nat, q: Kmer): (r: Adaptor)
    requires WellFormed(vs, index, k)
    ensures r.A? ==> Live(vs, r) && BeginKmer(Contig(vs, r), k) == q
    ensures r.A? ==> UniqueFormat(q) in index && r.id == index[UniqueFormat(q)]
    ensures r == Null <==>
      || UniqueFormat(q) !in index
      || (&& BeginKmer(vs[index[UniqueFormat(q)]].contig, k) != q
          && BeginKmer(ReverseComplement(vs[index[UniqueFormat(q)]].contig), k) != q)
    ensures UniqueFormat(q) in index && BeginKmer(vs[index[UniqueFormat(q)]].contig, k) == q ==>
      r == A(index[UniqueFormat(q)], false)
  {
    var key := UniqueFormat(q);
    if key in index then
      var current := A(index[key], false);
      if BeginKmer(Contig(vs, current), k) == q then current
      else if BeginKmer(Contig(vs, current.ReverseComplement()), k) == q then current.ReverseComplement()
      else Null
    else Null
  }

  /** The index holds the adaptor's begin k-mer, under its canonical form, at the adaptor's vertex. */
  predicate Indexed(vs: seq<Vertex>, index: KmerIndex, k: nat, a: Adaptor)
    requires WellFormed(vs, index, k) && Live(vs, a)
  {
    var key := UniqueFormat(BeginKmer(Contig(vs, a), k));
    key in index && index[key] == a.id
  }

  /**
   * Every indexed strand is found by its begin k-mer: the lookup lands on its
   * vertex with that begin k-mer, and on the strand itself unless both strands
   * begin with the same k-mer.
   */
  lemma {:induction false} FindsIndexedStrand(vs: seq<Vertex>, index: KmerIndex, k: nat, a: Adaptor)
    requires WellFormed(vs, index, k) && Live(vs, a) && Indexed(vs, index, k, a)
    ensures var q := BeginKmer(Contig(vs, a), k);
      var r := FindVertexAdaptorByBeginKmer(vs, index, k, q);
      && r.A? && r.id == a.id && BeginKmer(Contig(vs, r), k) == q
      && (BeginKmer(Contig(vs, a), k) != BeginKmer(Contig(vs, a.ReverseComplement()), k) ==> r == a)
  {
    ViewsOfReverse(vs, a);
    Nucleotides.ReverseComplementInvolution(vs[a.id].contig);
  }

  /**
   * The index needs one entry per contig end, whatever the orientation: the
   * reverse strand is indexed exactly when the canonical form of the forward
   * end k-mer maps to the vertex.
   */
  lemma {:induction false} IndexedReverseByEndKmer(vs: seq<Vertex>, index: KmerIndex, k: nat, a: Adaptor)
    requires WellFormed(vs, index, k) && Live(vs, a)
    ensures Live(vs, a.ReverseComplement())
    ensures Indexed(vs, index, k, a.ReverseComplement()) <==>
      (var key := UniqueFormat(EndKmer(Contig(vs, a), k)); key in index && index[key] == a.id)
  {
    ViewsOfReverse(vs, a);
    var s := Contig(vs, a);
    BeginKmerOfReverse(s, k);
    UniqueFormatStrandIndependent(EndKmer(s, k));
  }

  /**
   * The neighbour of current through base x: current's end k-mer shifted by
   * one base with x appended, resolved through the index.
   */
  function GetNeighbor(vs: seq<Vertex>, index: KmerIndex, k: nat, current: Adaptor, x: Base): (r: Adaptor)
    requires WellFormed(vs, index, k) && k >= 1 && Live(vs, current)
    ensures r.A? ==> Live(vs, r) && |Contig(vs, r)| >= k
    ensures r.A? ==> BeginKmer(Contig(vs, r), k) == ShiftAppend(EndKmer(Contig(vs, current), k), x)
    ensures r.A? ==> Contig(vs, r)[k - 1] == x
  {
    var kmer := ShiftAppend(EndKmer(Contig(vs, current), k), x);
    var r := FindVertexAdaptorByBeginKmer(vs, index, k, kmer);
    assert r.A? ==> Contig(vs, r)[k - 1] == BeginKmer(Contig(vs, r), k)[k - 1];
    r
  }

  /** Neighbours depend on the contigs and the index only, never on the edge masks. */
  lemma NeighborIgnoresMasks(vs: seq<Vertex>, ws: seq<Vertex>, index: KmerIndex, k: nat, current: Adaptor, x: Base)
    requires WellFormed(vs, index, k) && WellFormed(ws, index, k) && k >= 1 && Live(vs, current)
    requires SameContigs(vs, ws)
    ensures GetNeighbor(vs, index, k, current, x) == GetNeighbor(ws, index, k, current, x)
  {
  }

  /** The same contigs with the same index make the same well-formed store. */
  lemma SameContigsWellFormed(vs: seq<Vertex>, ws: seq<Vertex>, index: KmerIndex, k: nat)
    requires WellFormed(vs, index, k) && SameContigs(vs, ws)
    ensures WellFormed(ws, index, k)
  {
  }

  /**
   * Stepping back: from the reverse strand of a neighbour of current, the
   * extension by the k-th base of current's reverse strand reaches current's
   * vertex again, with the begin k-mer of current's reverse strand; it is
   * exactly current's reverse strand unless both strands of current begin
   * with the same k-mer.
   */
  lemma {:induction false} NeighborBackward(vs: seq<Vertex>, index: KmerIndex, k: nat, current: Adaptor, x: Base)
    requires WellFormed(vs, index, k) && k >= 1 && Live(vs, current)
    requires GetNeighbor(vs, index, k, current, x).A?
    requires Indexed(vs, index, k, current.ReverseComplement())
    ensures var back := current.ReverseComplement();
      var b := GetNeighbor(vs, index, k, GetNeighbor(vs, index, k, current, x).ReverseComplement(), Contig(vs, back)[k - 1]);
      && b.A? && b.id == current.id
      && BeginKmer(Contig(vs, b), k) == BeginKmer(Contig(vs, back), k)
      && (BeginKmer(Contig(vs, current), k) != BeginKmer(Contig(vs, back), k) ==> b == back)
  {
    var n := GetNeighbor(vs, index, k, current, x);
    var back := current.ReverseComplement();
    ViewsOfReverse(vs, current);
    ViewsOfReverse(vs, n);
    ShiftAppendBack(Contig(vs, current), Contig(vs, n), k, x);
    FindsIndexedStrand(vs, index, k, back);
    Adaptors.ReverseComplementInvolution(current);
  }

  // ---------------------------------------------------------------------------
  // Edge updates

  /** One out-mask write, seen bit by bit from any adaptor. */
  lemma SetOutHas(vs: seq<Vertex>, a: Adaptor, m: Mask, b: Adaptor, z: Base)
    requires Live(vs, a) && Live(vs, b)
    ensures Has(Out(SetOut(vs, a, m), b), z) <==> if b == a then Has(m, z) else Has(Out(vs, b), z)
  {
  }

  /**
   * The store after AddEdge(from, to): from's out mask gains the base that
   * extends into to (to's k-th base), then to's reverse strand gains the base
   * that extends into from's reverse strand (that strand's k-th base).
   */
  function WithEdge(vs: seq<Vertex>, k: nat, from: Adaptor, to: Adaptor): (r: seq<Vertex>)
    requires k >= 1 && ContigsHoldKmer(vs, k) && Live(vs, from) && Live(vs, to)
    ensures SameContigs(vs, r)
    ensures forall i :: 0 <= i < |vs| && i != from.id && i != to.id ==> r[i] == vs[i]
  {
    var x := Contig(vs, to)[k - 1];
    var vs1 := SetOut(vs, from, Add(Out(vs, from), x));
    var from', to' := to.ReverseComplement(), from.ReverseComplement();
    var y := Contig(vs1, to')[k - 1];
    SetOut(vs1, from', Add(Out(vs1, from'), y))
  }

  /**
   * AddEdge only sets bits, and exactly two: for every adaptor a and base z,
   * bit z of a's out mask is set afterwards iff it was set before, or (a, z)
   * is (from, k-th base of to), or (reverse of to, k-th base of reverse of
   * from).
   */
  lemma {:induction false} AddEdgeBits(vs: seq<Vertex>, k: nat, from: Adaptor, to: Adaptor, a: Adaptor, z: Base)
    requires k >= 1 && ContigsHoldKmer(vs, k) && Live(vs, from) && Live(vs, to) && Live(vs, a)
    ensures Has(Out(WithEdge(vs, k, from, to), a), z) <==>
      || Has(Out(vs, a), z)
      || (a == from && z == Contig(vs, to)[k - 1])
      || (a == to.ReverseComplement() && z == Contig(vs, from.ReverseComplement())[k - 1])
  {
    var x := Contig(vs, to)[k - 1];
    var vs1 := SetOut(vs, from, Add(Out(vs, from), x));
    var from', to' := to.ReverseComplement(), from.ReverseComplement();
    var y := Contig(vs1, to')[k - 1];
    SetOutHas(vs, from, Add(Out(vs, from), x), a, z);
    SetOutHas(vs, from, Add(Out(vs, from), x), from', z);
    SetOutHas(vs1, from', Add(Out(vs1, from'), y), a, z);
  }

  /**
   * The store after RemoveEdge(current, x): current's out mask loses bit x,
   * then the neighbour's reverse strand loses the base that extends into
   * current's reverse strand (that strand's k-th base).
   */
  function WithoutEdge(vs: seq<Vertex>, index: KmerIndex, k: nat, current: Adaptor, x: Base): (r: seq<Vertex>)
    requires WellFormed(vs, index, k) && k >= 1 && Live(vs, current)
    requires GetNeighbor(vs, index, k, current, x).A?
    ensures SameContigs(vs, r)
    ensures forall i :: 0 <= i < |vs| && i != current.id && i != GetNeighbor(vs, index, k, current, x).id ==> r[i] == vs[i]
  {
    var vs1 := SetOut(vs, current, Remove(Out(vs, current), x));
    SameContigsWellFormed(vs, vs1, index, k);
    NeighborIgnoresMasks(vs, vs1, index, k, current, x);
    var next := GetNeighbor(vs1, index, k, current, x).ReverseComplement();
    var y := Contig(vs1, current.ReverseComplement())[k - 1];
    SetOut(vs1, next, Remove(Out(vs1, next), y))
  }

  /** WithoutEdge as its two steps, given the store after the first one. */
  lemma WithoutEdgeSteps(vs: seq<Vertex>, index: KmerIndex, k: nat, current: Adaptor, x: Base, vs1: seq<Vertex>)
    requires WellFormed(vs, index, k) && k >= 1 && Live(vs, current)
    requires GetNeighbor(vs, index, k, current, x).A?
    requires vs1 == SetOut(vs, current, Remove(Out(vs, current), x))
    ensures WellFormed(vs1, index, k)
    ensures GetNeighbor(vs1, index, k, current, x) == GetNeighbor(vs, index, k, current, x)
    ensures var next := GetNeighbor(vs1, index, k, current, x).ReverseComplement();
      WithoutEdge(vs, index, k, current, x) ==
        SetOut(vs1, next, Remove(Out(vs1, next), Contig(vs1, current.ReverseComplement())[k - 1]))
  {
    SameContigsWellFormed(vs, vs1, index, k);
    NeighborIgnoresMasks(vs, vs1, index, k, current, x);
  }

  /**
   * RemoveEdge only clears bits, and exactly two: bit x of current's out
   * mask, and the bit of the neighbour's reverse strand for the k-th base of
   * current's reverse strand.
   */
  lemma {:induction false} RemoveEdgeBits(vs: seq<Vertex>, index: KmerIndex, k: nat, current: Adaptor, x: Base, a: Adaptor, z: Base)
    requires WellFormed(vs, index, k) && k >= 1 && Live(vs, current) && Live(vs, a)
    requires GetNeighbor(vs, index, k, current, x).A?
    ensures Has(Out(WithoutEdge(vs, index, k, current, x), a), z) <==>
      && Has(Out(vs, a), z)
      && !(a == current && z == x)
      && !(a == GetNeighbor(vs, index, k, current, x).ReverseComplement() && z == Contig(vs, current.ReverseComplement())[k - 1])
  {
    var vs1 := SetOut(vs, current, Remove(Out(vs, current), x));
    SameContigsWellFormed(vs, vs1, index, k);
    NeighborIgnoresMasks(vs, vs1, index, k, current, x);
    var next := GetNeighbor(vs1, index, k, current, x).ReverseComplement();
    var y := Contig(vs1, current.ReverseComplement())[k - 1];
    SetOutHas(vs, current, Remove(Out(vs, current), x), a, z);
    SetOutHas(vs, current, Remove(Out(vs, current), x), next, z);
    SetOutHas(vs1, next, Remove(Out(vs1, next), y), a, z);
  }

  /**
   * RemoveEdge as the source writes it: the mirrored bit it clears is the
   * complement of current's first base, where AddEdge set the complement of
   * the base k positions before current's end.
   */
  function WithoutEdgeAsWritten(vs: seq<Vertex>, index: KmerIndex, k: nat, current: Adaptor, x: Base): (r: seq<Vertex>)
    requires WellFormed(vs, index, k) && k >= 1 && Live(vs, current)
    requires GetNeighbor(vs, index, k, current, x).A?
    ensures SameContigs(vs, r)
    ensures forall i :: 0 <= i < |vs| && i != current.id && i != GetNeighbor(vs, index, k, current, x).id ==> r[i] == vs[i]
  {
    var vs1 := SetOut(vs, current, Remove(Out(vs, current), x));
    SameContigsWellFormed(vs, vs1, index, k);
    NeighborIgnoresMasks(vs, vs1, index, k, current, x);
    var next := GetNeighbor(vs1, index, k, current, x).ReverseComplement();
    var y := 3 - Contig(vs1, current)[0];
    SetOut(vs1, next, Remove(Out(vs1, next), y))
  }
  /**
   * RemoveEdge as written clears exactly two bits: bit x of current's out
   * mask, and the bit for the complement of current's first base on the
   * neighbour's reverse strand.
   */
  lemma {:induction false} RemoveEdgeAsWrittenBits(vs: seq<Vertex>, index: KmerIndex, k: nat, current: Adaptor, x: Base, a: Adaptor, z: Base)
    requires WellFormed(vs, index, k) && k >= 1 && Live(vs, current) && Live(vs, a)
    requires GetNeighbor(vs, index, k, current, x).A?
    ensures Has(Out(WithoutEdgeAsWritten(vs, index, k, current, x), a), z) <==>
      && Has(Out(vs, a), z)
      && !(a == current && z == x)
      && !(a == GetNeighbor(vs, index, k, current, x).ReverseComplement() && z == 3 - Contig(vs, current)[0])
  {
    var vs1 := SetOut(vs, current, Remove(Out(vs, current), x));
    SameContigsWellFormed(vs, vs1, index, k);
    NeighborIgnoresMasks(vs, vs1, index, k, current, x);
    var next := GetNeighbor(vs1, index, k, current, x).ReverseComplement();
    var y := 3 - Contig(vs1, current)[0];
    SetOutHas(vs, current, Remove(Out(vs, current), x), a, z);
    SetOutHas(vs, current, Remove(Out(vs, current), x), next, z);
    SetOutHas(vs1, next, Remove(Out(vs1, next), y), a, z);
  }

  /**
   * On a contig of exactly k bases the two removals agree: the complement
   * of the first base is then the k-th base of the reverse strand.
   */
  lemma {:induction false} RemovalsAgreeOnOneKmerContig(vs: seq<Vertex>, index: KmerIndex, k: nat, current: Adaptor, x: Base)
    requires WellFormed(vs, index, k) && k >= 1 && Live(vs, current)
    requires GetNeighbor(vs, index, k, current, x).A?
    requires |Contig(vs, current)| == k
    ensures WithoutEdgeAsWritten(vs, index, k, current, x) == WithoutEdge(vs, index, k, current, x)
  {
    var vs1 := SetOut(vs, current, Remove(Out(vs, current), x));
    ViewsOfReverse(vs1, current);
    assert Contig(vs1, current.ReverseComplement())[k - 1] == 3 - Contig(vs1, current)[0];
    WithoutEdgeSteps(vs, index, k, current, x, vs1);
  }


  /**
   * Double-stranded symmetry: every edge current --x--> n whose neighbour
   * resolves is seen from n's reverse strand as an edge into current's
   * reverse strand.
   */
  ghost predicate EdgeSymmetric(vs: seq<Vertex>, index: KmerIndex, k: nat)
    requires WellFormed(vs, index, k) && k >= 1
  {
    forall a, x :: MirroredAt(vs, index, k, a, x)
  }

  /** The edge of a through base x, if present and resolved, has its mirror. */
  ghost predicate MirroredAt(vs: seq<Vertex>, index: KmerIndex, k: nat, a: Adaptor, x: Base)
    requires WellFormed(vs, index, k) && k >= 1
  {
    Live(vs, a) && Has(Out(vs, a), x) && GetNeighbor(vs, index, k, a, x).A? ==>
      Has(Out(vs, GetNeighbor(vs, index, k, a, x).ReverseComplement()), Contig(vs, a.ReverseComplement())[k - 1])
  }

  /**
   * AddEdge keeps the double-stranded symmetry when to is the neighbour it
   * names and from's reverse strand is the neighbour of to's reverse strand.
   */
  lemma {:induction false} AddEdgeKeepsSymmetry(vs: seq<Vertex>, index: KmerIndex, k: nat, from: Adaptor, to: Adaptor)
    requires WellFormed(vs, index, k) && k >= 1 && Live(vs, from) && Live(vs, to)
    requires EdgeSymmetric(vs, index, k)
    requires GetNeighbor(vs, index, k, from, Contig(vs, to)[k - 1]) == to
    requires GetNeighbor(vs, index, k, to.ReverseComplement(), Contig(vs, from.ReverseComplement())[k - 1]) == from.ReverseComplement()
    ensures var r := WithEdge(vs, k, from, to); WellFormed(r, index, k) && EdgeSymmetric(r, index, k)
  {
    var r := WithEdge(vs, k, from, to);
    SameContigsWellFormed(vs, r, index, k);
    forall a, z
      ensures MirroredAt(r, index, k, a, z)
    {
      if Live(vs, a) {
        var n := GetNeighbor(vs, index, k, a, z);
        assert MirroredAt(vs, index, k, a, z);
        if n.A? {
          AddEdgeKeepsSymmetryAt(vs, k, from, to, a, z, n);
        }
        MirroredAtTransfer(vs, r, index, k, a, z, n);
      }
    }
  }

  /**
   * The mirror of the edge of a through base z depends on the masks only
   * through the two bits it names: the neighbour n resolves the same way in
   * any store with the same contigs.
   */
  lemma MirroredAtTransfer(vs: seq<Vertex>, ws: seq<Vertex>, index: KmerIndex, k: nat, a: Adaptor, z: Base, n: Adaptor)
    requires WellFormed(vs, index, k) && k >= 1 && SameContigs(vs, ws) && Live(vs, a)
    requires n == GetNeighbor(vs, index, k, a, z)
    requires n.A? && Has(Out(ws, a), z) ==> Has(Out(ws, n.ReverseComplement()), Contig(vs, a.ReverseComplement())[k - 1])
    ensures WellFormed(ws, index, k) && MirroredAt(ws, index, k, a, z)
  {
    NeighborIgnoresMasks(vs, ws, index, k, a, z);
  }

  /**
   * One edge a --z--> n of the store after AddEdge has its mirror, given
   * that the edges AddEdge names lead where it says and that an edge already
   * present had its mirror.
   */
  lemma {:induction false} AddEdgeKeepsSymmetryAt(vs: seq<Vertex>, k: nat, from: Adaptor, to: Adaptor, a: Adaptor, z: Base, n: Adaptor)
    requires k >= 1 && ContigsHoldKmer(vs, k) && Live(vs, from) && Live(vs, to) && Live(vs, a) && Live(vs, n)
    requires a == from && z == Contig(vs, to)[k - 1] ==> n == to
    requires a == to.ReverseComplement() && z == Contig(vs, from.ReverseComplement())[k - 1] ==> n == from.ReverseComplement()
    requires Has(Out(vs, a), z) ==> Has(Out(vs, n.ReverseComplement()), Contig(vs, a.ReverseComplement())[k - 1])
    ensures Has(Out(WithEdge(vs, k, from, to), a), z) ==>
      Has(Out(WithEdge(vs, k, from, to), n.ReverseComplement()), Contig(vs, a.ReverseComplement())[k - 1])
  {
    var x := Contig(vs, to)[k - 1];
    var y := Contig(vs, from.ReverseComplement())[k - 1];
    ViewsOfReverse(vs, a);
    ViewsOfReverse(vs, n);
    var w := Contig(vs, a.ReverseComplement())[k - 1];
    AddEdgeBits(vs, k, from, to, a, z);
    AddEdgeBits(vs, k, from, to, n.ReverseComplement(), w);
    if Has(Out(WithEdge(vs, k, from, to), a), z) && !Has(Out(vs, a), z) {
      if a == from && z == x {
        assert n == to;
      } else {
        assert a == to.ReverseComplement() && z == y;
        Adaptors.ReverseComplementInvolution(to);
        Adaptors.ReverseComplementInvolution(from);
        assert n.ReverseComplement() == from;
        assert a.ReverseComplement() == to;
      }
    }
  }

  /**
   * Every resolved edge's mirror leads back: from the neighbour's reverse
   * strand, the k-th base of a's reverse strand resolves to a's reverse
   * strand. NeighborBackward gives this wherever the reverse strand is
   * indexed and the two strands of a begin with different k-mers.
   */
  ghost predicate NeighborsReturn(vs: seq<Vertex>, index: KmerIndex, k: nat)
    requires WellFormed(vs, index, k) && k >= 1
  {
    forall a, x :: ReturnsAt(vs, index, k, a, x)
  }

  /** The mirror of the edge of a through base x, if that edge resolves, leads back to a's reverse strand. */
  ghost predicate ReturnsAt(vs: seq<Vertex>, index: KmerIndex, k: nat, a: Adaptor, x: Base)
    requires WellFormed(vs, index, k) && k >= 1
  {
    Live(vs, a) && GetNeighbor(vs, index, k, a, x).A? ==>
      GetNeighbor(vs, index, k, GetNeighbor(vs, index, k, a, x).ReverseComplement(), Contig(vs, a.ReverseComplement())[k - 1])
        == a.ReverseComplement()
  }

  /**
   * The corrected RemoveEdge keeps the double-stranded symmetry in a store
   * whose edge mirrors lead back: the two bits it clears are each other's
   * mirrors, so no remaining edge loses its mirror.
   */
  lemma {:induction false} RemoveEdgeKeepsSymmetry(vs: seq<Vertex>, index: KmerIndex, k: nat, current: Adaptor, x: Base)
    requires WellFormed(vs, index, k) && k >= 1 && Live(vs, current)
    requires GetNeighbor(vs, index, k, current, x).A?
    requires EdgeSymmetric(vs, index, k) && NeighborsReturn(vs, index, k)
    ensures var r := WithoutEdge(vs, index, k, current, x); WellFormed(r, index, k) && EdgeSymmetric(r, index, k)
  {
    var r := WithoutEdge(vs, index, k, current, x);
    var n := GetNeighbor(vs, index, k, current, x);
    var y := Contig(vs, current.ReverseComplement())[k - 1];
    SameContigsWellFormed(vs, r, index, k);
    forall b, z | Live(vs, b)
      ensures Has(Out(r, b), z) <==> Has(Out(vs, b), z) && !(b == current && z == x) && !(b == n.ReverseComplement() && z == y)
    {
      RemoveEdgeBits(vs, index, k, current, x, b, z);
    }
    ClearingMirrorPairKeepsSymmetry(vs, r, index, k, current, x, n);
  }

  /**
   * Clearing an edge current --x--> n together with its mirror, and nothing
   * else, keeps the symmetry of a store whose edge mirrors lead back.
   */
  lemma ClearingMirrorPairKeepsSymmetry(vs: seq<Vertex>, r: seq<Vertex>, index: KmerIndex, k: nat, current: Adaptor, x: Base, n: Adaptor)
    requires WellFormed(vs, index, k) && k >= 1 && Live(vs, current) && SameContigs(vs, r)
    requires n == GetNeighbor(vs, index, k, current, x) && n.A?
    requires EdgeSymmetric(vs, index, k) && NeighborsReturn(vs, index, k)
    requires forall b, z | Live(vs, b) :: Has(Out(r, b), z) <==>
      && Has(Out(vs, b), z)
      && !(b == current && z == x)
      && !(b == n.ReverseComplement() && z == Contig(vs, current.ReverseComplement())[k - 1])
    ensures WellFormed(r, index, k) && EdgeSymmetric(r, index, k)
  {
    SameContigsWellFormed(vs, r, index, k);
    forall a, z
      ensures MirroredAt(r, index, k, a, z)
    {
      if Live(vs, a) {
        var m := GetNeighbor(vs, index, k, a, z);
        assert MirroredAt(vs, index, k, a, z);
        if m.A? {
          assert ReturnsAt(vs, index, k, a, z) && ReturnsAt(vs, index, k, current, x);
          MirrorsReturn(vs, index, k, current, x, n, a, z, m);
          RemoveEdgeKeepsSymmetryAt(vs, r, k, current, x, n, a, z, m);
        }
        MirroredAtTransfer(vs, r, index, k, a, z, m);
      }
    }
  }

  /**
   * In a store whose edge mirrors lead back, the mirror of a --z--> m
   * coincides with an edge of current --x--> n, or with that edge's mirror,
   * only where the edges themselves correspond.
   */
  lemma MirrorsReturn(vs: seq<Vertex>, index: KmerIndex, k: nat, current: Adaptor, x: Base, n: Adaptor, a: Adaptor, z: Base, m: Adaptor)
    requires WellFormed(vs, index, k) && k >= 1 && Live(vs, current) && Live(vs, a)
    requires ReturnsAt(vs, index, k, a, z) && ReturnsAt(vs, index, k, current, x)
    requires n == GetNeighbor(vs, index, k, current, x) && n.A?
    requires m == GetNeighbor(vs, index, k, a, z) && m.A?
    ensures m.ReverseComplement() == current && Contig(vs, a.ReverseComplement())[k - 1] == x ==> n == a.ReverseComplement()
    ensures m == n && Contig(vs, a.ReverseComplement())[k - 1] == Contig(vs, current.ReverseComplement())[k - 1] ==> a == current
  {
    Adaptors.ReverseComplementInvolution(a);
    Adaptors.ReverseComplementInvolution(current);
  }

  /**
   * One edge a --z--> m left by the removal of current --x--> n keeps its
   * mirror: were the mirror one of the two cleared bits, the edge itself
   * would be the other one.
   */
  lemma {:induction false} RemoveEdgeKeepsSymmetryAt(vs: seq<Vertex>, r: seq<Vertex>, k: nat, current: Adaptor, x: Base, n: Adaptor, a: Adaptor, z: Base, m: Adaptor)
    requires k >= 1 && ContigsHoldKmer(vs, k) && |r| == |vs|
    requires Live(vs, current) && Live(vs, n) && Live(vs, a) && Live(vs, m)
    requires Contig(vs, n)[k - 1] == x && Contig(vs, m)[k - 1] == z
    requires m.ReverseComplement() == current && Contig(vs, a.ReverseComplement())[k - 1] == x ==> n == a.ReverseComplement()
    requires m == n && Contig(vs, a.ReverseComplement())[k - 1] == Contig(vs, current.ReverseComplement())[k - 1] ==> a == current
    requires Has(Out(vs, a), z) ==> Has(Out(vs, m.ReverseComplement()), Contig(vs, a.ReverseComplement())[k - 1])
    requires Has(Out(r, a), z) <==>
      && Has(Out(vs, a), z)
      && !(a == current && z == x)
      && !(a == n.ReverseComplement() && z == Contig(vs, current.ReverseComplement())[k - 1])
    requires var w := Contig(vs, a.ReverseComplement())[k - 1];
      Has(Out(r, m.ReverseComplement()), w) <==>
      && Has(Out(vs, m.ReverseComplement()), w)
      && !(m.ReverseComplement() == current && w == x)
      && !(m.ReverseComplement() == n.ReverseComplement() && w == Contig(vs, current.ReverseComplement())[k - 1])
    ensures Has(Out(r, a), z) ==> Has(Out(r, m.ReverseComplement()), Contig(vs, a.ReverseComplement())[k - 1])
  {
    Adaptors.ReverseComplementInvolution(a);
    Adaptors.ReverseComplementInvolution(m);
    Adaptors.ReverseComplementInvolution(n);
    Adaptors.ReverseComplementInvolution(current);
  }

  /**
   * RemoveEdge undoes AddEdge exactly: adding an absent edge from --x--> to
   * (with its mirror absent too) and removing it again through x gives back
   * the store unchanged.
   */
  lemma {:induction false} RemoveEdgeUndoesAddEdge(vs: seq<Vertex>, index: KmerIndex, k: nat, from: Adaptor, to: Adaptor)
    requires WellFormed(vs, index, k) && k >= 1 && Live(vs, from) && Live(vs, to)
    requires GetNeighbor(vs, index, k, from, Contig(vs, to)[k - 1]) == to
    requires !Has(Out(vs, from), Contig(vs, to)[k - 1])
    requires !Has(Out(vs, to.ReverseComplement()), Contig(vs, from.ReverseComplement())[k - 1])
    ensures var r := WithEdge(vs, k, from, to);
      && WellFormed(r, index, k)
      && GetNeighbor(r, index, k, from, Contig(vs, to)[k - 1]).A?
      && WithoutEdge(r, index, k, from, Contig(vs, to)[k - 1]) == vs
  {
    var x := Contig(vs, to)[k - 1];
    var r := WithEdge(vs, k, from, to);
    SameContigsWellFormed(vs, r, index, k);
    NeighborIgnoresMasks(vs, r, index, k, from, x);
    var w := WithoutEdge(r, index, k, from, x);
    forall a | Live(vs, a)
      ensures Out(vs, a) == Out(w, a)
    {
      forall z: Base
        ensures Has(Out(vs, a), z) <==> Has(Out(w, a), z)
      {
        AddEdgeBits(vs, k, from, to, a, z);
        RemoveEdgeBits(r, index, k, from, x, a, z);
      }
      MaskExtensional(Out(vs, a), Out(w, a));
    }
    StoreExtensional(vs, w);
  }

  /** Two contigs, ACG and GA, for k = 2; no edges yet. */
  function TwoContigs(): seq<Vertex>
  {
    [Vertex([0, 1, 2], 0, 0), Vertex([2, 0], 0, 0)]
  }

  /**
   * The index of TwoContigs: GA's begin k-mer, and CG, the begin k-mer of
   * ACG's reverse strand CGT (CG is its own reverse complement).
   */
  function TwoContigsIndex(): KmerIndex
  {
    map[[2, 0] := 1, [1, 2] := 0]
  }

  /** The reverse strands of TwoContigs' contigs, and the index keys of GA and CG. */
  lemma TwoContigsStrands()
    ensures ReverseComplement([2, 0]) == [3, 1]
    ensures ReverseComplement([0, 1, 2]) == [1, 2, 3]
    ensures UniqueFormat([2, 0]) == [2, 0]
    ensures UniqueFormat([1, 2]) == [1, 2]
  {
    var ga, acg, cg := ReverseComplement([2, 0]), ReverseComplement([0, 1, 2]), ReverseComplement([1, 2]);
    assert ga[0] == 3 && ga[1] == 1;
    assert acg[0] == 1 && acg[1] == 2 && acg[2] == 3;
    assert cg[0] == 1 && cg[1] == 2;
    assert !LexLess([3, 1], [2, 0]);
    assert [1, 2][1..] == [2] && [2][1..] == [];
    assert !LexLess([1, 2], [1, 2]);
  }

  /** In TwoContigs, ACG extends through base A into GA. */
  lemma TwoContigsNeighbor()
    ensures WellFormed(TwoContigs(), TwoContigsIndex(), 2)
    ensures GetNeighbor(TwoContigs(), TwoContigsIndex(), 2, A(0, false), 0) == A(1, false)
    ensures Contig(TwoContigs(), A(1, false))[1] == 0
    ensures Contig(TwoContigs(), A(0, true))[1] == 2
  {
    var vs, index := TwoContigs(), TwoContigsIndex();
    TwoContigsStrands();
    assert EndKmer(Contig(vs, A(0, false)), 2) == [1, 2];
    assert ShiftAppend([1, 2], 0) == [2, 0];
    assert FindVertexAdaptorByBeginKmer(vs, index, 2, [2, 0]) == A(1, false);
  }

  /**
   * The neighbour through x is b whenever the shifted k-mer's canonical form
   * indexes b's vertex, b begins with that k-mer, and b is the forward strand
   * or the forward strand does not begin with it.
   */
  lemma NeighborFromKmers(vs: seq<Vertex>, index: KmerIndex, k: nat, a: Adaptor, x: Base, b: Adaptor, q: Kmer)
    requires WellFormed(vs, index, k) && k >= 1 && Live(vs, a) && Live(vs, b)
    requires q == ShiftAppend(EndKmer(Contig(vs, a), k), x)
    requires UniqueFormat(q) in index && index[UniqueFormat(q)] == b.id
    requires BeginKmer(Contig(vs, b), k) == q
    requires b.isReverse ==> BeginKmer(vs[b.id].contig, k) != q
    ensures GetNeighbor(vs, index, k, a, x) == b
  {
  }

  /** In TwoContigs, GA's reverse strand TC extends through base G into ACG's reverse strand. */
  lemma TwoContigsBackNeighbor()
    ensures WellFormed(TwoContigs(), TwoContigsIndex(), 2)
    ensures GetNeighbor(TwoContigs(), TwoContigsIndex(), 2, A(1, true), 2) == A(0, true)
  {
    TwoContigsNeighbor();
    TwoContigsBackShift();
    TwoContigsBackKmers();
    NeighborFromKmers(TwoContigs(), TwoContigsIndex(), 2, A(1, true), 2, A(0, true), [1, 2]);
  }

  /** TC, shifted through G, gives CG. */
  lemma TwoContigsBackShift()
    ensures ShiftAppend(EndKmer(Contig(TwoContigs(), A(1, true)), 2), 2) == [1, 2]
  {
    TwoContigsStrands();
    var tc := Contig(TwoContigs(), A(1, true));
    assert tc == [3, 1];
    assert EndKmer(tc, 2) == tc;
    assert tc[1..] == [1];
  }

  /** CGT begins with CG and ACG does not; CG is indexed at ACG's vertex. */
  lemma TwoContigsBackKmers()
    ensures BeginKmer(Contig(TwoContigs(), A(0, true)), 2) == [1, 2]
    ensures BeginKmer(TwoContigs()[0].contig, 2) != [1, 2]
    ensures UniqueFormat([1, 2]) in TwoContigsIndex() && TwoContigsIndex()[UniqueFormat([1, 2])] == 0
  {
    TwoContigsStrands();
    var cgt := Contig(TwoContigs(), A(0, true));
    assert cgt == [1, 2, 3];
    assert BeginKmer(cgt, 2) == [1, 2];
    assert BeginKmer(TwoContigs()[0].contig, 2)[0] == 0;
    assert [1, 2] in TwoContigsIndex() && TwoContigsIndex()[[1, 2]] == 0;
  }

  /** A store without edges is symmetric. */
  lemma NoEdgesSymmetric(vs: seq<Vertex>, index: KmerIndex, k: nat)
    requires WellFormed(vs, index, k) && k >= 1
    requires forall i :: 0 <= i < |vs| ==> vs[i].inEdges == 0 && vs[i].outEdges == 0
    ensures EdgeSymmetric(vs, index, k)
  {
    forall a, z
      ensures MirroredAt(vs, index, k, a, z)
    {
      if Live(vs, a) {
        assert Out(vs, a) == 0;
      }
    }
  }

  /**
   * Wherever the bit RemoveEdge as written clears on the neighbour's reverse
   * strand is not the mirror bit, an edge with its mirror in place loses
   * only one side: the mirror edge stays, and the edge it mirrors is gone.
   */
  lemma RemoveEdgeAsWrittenLeavesOneSide(vs: seq<Vertex>, index: KmerIndex, k: nat, current: Adaptor, x: Base)
    requires WellFormed(vs, index, k) && k >= 1 && Live(vs, current)
    requires GetNeighbor(vs, index, k, current, x).A?
    requires var n, y := GetNeighbor(vs, index, k, current, x), Contig(vs, current.ReverseComplement())[k - 1];
      && Has(Out(vs, n.ReverseComplement()), y)
      && GetNeighbor(vs, index, k, n.ReverseComplement(), y) == current.ReverseComplement()
      && 3 - Contig(vs, current)[0] != y
      && !(n.ReverseComplement() == current && y == x)
    ensures var n := GetNeighbor(vs, index, k, current, x);
      && WellFormed(WithoutEdgeAsWritten(vs, index, k, current, x), index, k)
      && !MirroredAt(WithoutEdgeAsWritten(vs, index, k, current, x), index, k, n.ReverseComplement(), Contig(vs, current.ReverseComplement())[k - 1])
  {
    var n, y := GetNeighbor(vs, index, k, current, x), Contig(vs, current.ReverseComplement())[k - 1];
    var w := WithoutEdgeAsWritten(vs, index, k, current, x);
    SameContigsWellFormed(vs, w, index, k);
    RemoveEdgeAsWrittenBits(vs, index, k, current, x, n.ReverseComplement(), y);
    RemoveEdgeAsWrittenBits(vs, index, k, current, x, current, x);
    NeighborIgnoresMasks(vs, w, index, k, n.ReverseComplement(), y);
    Adaptors.ReverseComplementInvolution(current);
    Adaptors.ReverseComplementInvolution(n);
    assert Contig(w, n)[k - 1] == x;
  }

  /**
   * RemoveEdge as written breaks the double-stranded symmetry that AddEdge
   * keeps: in a symmetric store, add from --> to where both named edges
   * resolve, and remove it again; when the complement of from's first base
   * is not the k-th base of from's reverse strand, to's reverse strand keeps
   * its edge into from's reverse strand while the mirror edge from --> to is
   * gone.
   */
  lemma {:induction false} RemoveEdgeAsWrittenBreaksSymmetry(vs: seq<Vertex>, index: KmerIndex, k: nat, from: Adaptor, to: Adaptor)
    requires WellFormed(vs, index, k) && k >= 1 && Live(vs, from) && Live(vs, to) && to.ReverseComplement() != from
    requires EdgeSymmetric(vs, index, k)
    requires GetNeighbor(vs, index, k, from, Contig(vs, to)[k - 1]) == to
    requires GetNeighbor(vs, index, k, to.ReverseComplement(), Contig(vs, from.ReverseComplement())[k - 1]) == from.ReverseComplement()
    requires 3 - Contig(vs, from)[0] != Contig(vs, from.ReverseComplement())[k - 1]
    ensures var r, x := WithEdge(vs, k, from, to), Contig(vs, to)[k - 1];
      && WellFormed(r, index, k)
      && EdgeSymmetric(r, index, k)
      && GetNeighbor(r, index, k, from, x) == to
      && var w := WithoutEdgeAsWritten(r, index, k, from, x);
        WellFormed(w, index, k) && !MirroredAt(w, index, k, to.ReverseComplement(), Contig(vs, from.ReverseComplement())[k - 1])
  {
    var r := WithEdge(vs, k, from, to);
    var x, y := Contig(vs, to)[k - 1], Contig(vs, from.ReverseComplement())[k - 1];
    AddEdgeKeepsSymmetry(vs, index, k, from, to);
    AddEdgeBits(vs, k, from, to, to.ReverseComplement(), y);
    EdgePairResolvesIn(vs, r, index, k, from, to);
    RemoveEdgeAsWrittenLeavesOneSide(r, index, k, from, x);
  }

  /**
   * An edge from --> to whose mirror leads back resolves the same way in any
   * store with the same contigs, such as the one AddEdge leaves.
   */
  lemma EdgePairResolvesIn(vs: seq<Vertex>, r: seq<Vertex>, index: KmerIndex, k: nat, from: Adaptor, to: Adaptor)
    requires WellFormed(vs, index, k) && k >= 1 && Live(vs, from) && Live(vs, to) && SameContigs(vs, r)
    requires GetNeighbor(vs, index, k, from, Contig(vs, to)[k - 1]) == to
    requires GetNeighbor(vs, index, k, to.ReverseComplement(), Contig(vs, from.ReverseComplement())[k - 1]) == from.ReverseComplement()
    ensures var x, y := Contig(vs, to)[k - 1], Contig(vs, from.ReverseComplement())[k - 1];
      && WellFormed(r, index, k)
      && GetNeighbor(r, index, k, from, x) == to
      && GetNeighbor(r, index, k, to.ReverseComplement(), y) == from.ReverseComplement()
      && Contig(r, from)[0] == Contig(vs, from)[0]
      && Contig(r, from.ReverseComplement())[k - 1] == y
  {
    SameContigsWellFormed(vs, r, index, k);
    ViewsOfReverse(vs, from);
    ViewsOfReverse(r, from);
    NeighborIgnoresMasks(vs, r, index, k, from, Contig(vs, to)[k - 1]);
    NeighborIgnoresMasks(vs, r, index, k, to.ReverseComplement(), Contig(vs, from.ReverseComplement())[k - 1]);
  }

  /**
   * TwoContigs meets every hypothesis of RemoveEdgeAsWrittenBreaksSymmetry
   * for the edge ACG --> GA: it has no edges, both named edges resolve, and
   * the complement of ACG's first base (T) differs from the k-th base of
   * CGT (G).
   */
  lemma TwoContigsBreakSymmetry()
    ensures var vs, index := TwoContigs(), TwoContigsIndex();
      var from, to := A(0, false), A(1, false);
      && WellFormed(vs, index, 2) && Live(vs, from) && Live(vs, to) && to.ReverseComplement() != from
      && EdgeSymmetric(vs, index, 2)
      && GetNeighbor(vs, index, 2, from, Contig(vs, to)[1]) == to
      && GetNeighbor(vs, index, 2, to.ReverseComplement(), Contig(vs, from.ReverseComplement())[1]) == from.ReverseComplement()
      && 3 - Contig(vs, from)[0] != Contig(vs, from.ReverseComplement())[1]
  {
    TwoContigsNeighbor();
    TwoContigsBackNeighbor();
    TwoContigsSymmetric();
  }

  /** TwoContigs has no edges, so it is symmetric. */
  lemma TwoContigsSymmetric()
    ensures WellFormed(TwoContigs(), TwoContigsIndex(), 2)
    ensures EdgeSymmetric(TwoContigs(), TwoContigsIndex(), 2)
  {
    TwoContigsNeighbor();
    NoEdgesSymmetric(TwoContigs(), TwoContigsIndex(), 2);
  }

  /**
   * RemoveEdge as written does not undo AddEdge on TwoContigs: AddEdge from
   * ACG to GA sets bit G (the complement of the C two bases before ACG's
   * end) on GA's reverse strand; RemoveEdge as written clears bit T (the
   * complement of ACG's first base) there, so bit G stays. The corrected
   * removal gives the store back.
   */
  lemma RemoveEdgeAsWrittenKeepsMirrorBit()
    ensures var vs, index := TwoContigs(), TwoContigsIndex();
      var r := WithEdge(vs, 2, A(0, false), A(1, false));
      && WellFormed(vs, index, 2)
      && WellFormed(r, index, 2)
      && GetNeighbor(r, index, 2, A(0, false), 0) == A(1, false)
      && !Has(Out(vs, A(1, true)), 2)
      && Has(Out(WithoutEdgeAsWritten(r, index, 2, A(0, false), 0), A(1, true)), 2)
      && WithoutEdge(r, index, 2, A(0, false), 0) == vs
  {
    var vs, index := TwoContigs(), TwoContigsIndex();
    var from, to := A(0, false), A(1, false);
    TwoContigsNeighbor();
    var r := WithEdge(vs, 2, from, to);
    SameContigsWellFormed(vs, r, index, 2);
    NeighborIgnoresMasks(vs, r, index, 2, from, 0);
    AddEdgeBits(vs, 2, from, to, A(1, true), 2);
    var w := WithoutEdgeAsWritten(r, index, 2, from, 0);
    assert Contig(r, from)[0] == 0;
    assert Has(Out(w, A(1, true)), 2);
    RemoveEdgeUndoesAddEdge(vs, index, 2, from, to);
  }

  // ---------------------------------------------------------------------------
  // Chain links and loops

  /**
   * GetNextVertexAdaptor: when current has exactly one out-edge, next becomes
   * the neighbour through it, and current and next form an internal chain
   * link when next has exactly one in-edge and is not a single-k-mer
   * palindrome. With any other out-degree the answer is false and next keeps
   * the value it had.
   */
  function GetNextVertexAdaptor(vs: seq<Vertex>, index: KmerIndex, k: nat, current: Adaptor, next: Adaptor): (r: (bool, Adaptor))
    requires WellFormed(vs, index, k) && k >= 1 && Live(vs, current)
    requires Size(Out(vs, current)) == 1 ==> GetNeighbor(vs, index, k, current, BitToIndex(Out(vs, current))).A?
    ensures Size(Out(vs, current)) != 1 ==> r == (false, next)
    ensures Size(Out(vs, current)) == 1 ==>
      && Live(vs, r.1) && |Contig(vs, r.1)| >= k
      && Has(Out(vs, current), Contig(vs, r.1)[k - 1])
      && r.1 == GetNeighbor(vs, index, k, current, Contig(vs, r.1)[k - 1])
    ensures r.0 <==>
      && Size(Out(vs, current)) == 1
      && Size(In(vs, r.1)) == 1
      && !(|Contig(vs, r.1)| == k && IsPalindrome(Contig(vs, r.1)))
  {
    if Size(Out(vs, current)) != 1 then (false, next)
    else
      var n := GetNeighbor(vs, index, k, current, BitToIndex(Out(vs, current)));
      (Size(In(vs, n)) == 1 && !(|Contig(vs, n)| == k && IsPalindrome(Contig(vs, n))), n)
  }

  /** The walk came back to the vertex it started from, on either strand. */
  function IsLoop(path: seq<Adaptor>, next: Adaptor): (r: bool)
    requires |path| > 0 && path[0].A? && next.A?
    ensures r <==> path[0] == next || path[0] == next.ReverseComplement()
  {
    path[0].id == next.id
  }

  /** The walk reached its own last vertex again, on either strand. */
  function IsPalindromeLoop(path: seq<Adaptor>, next: Adaptor): (r: bool)
    requires |path| > 0 && path[|path| - 1].A? && next.A?
    ensures r <==> path[|path| - 1] == next || path[|path| - 1] == next.ReverseComplement()
  {
    path[|path| - 1].id == next.id
  }

  /** Orders vertices by decreasing contig length. */
  function CompareContigLength(x: Vertex, y: Vertex): (r: bool)
    ensures r <==> |y.contig| < |x.contig|
  {
    |x.contig| > |y.contig|
  }

  /** CompareContigLength is a strict weak order, as sorting needs. */
  lemma CompareContigLengthIsStrictOrder(x: Vertex, y: Vertex, z: Vertex)
    ensures CompareContigLength(x, y) <==> |x.contig| > |y.contig|
    ensures !CompareContigLength(x, x)
    ensures CompareContigLength(x, y) ==> !CompareContigLength(y, x)
    ensures CompareContigLength(x, y) && CompareContigLength(y, z) ==> CompareContigLength(x, z)
    ensures !CompareContigLength(x, y) && !CompareContigLength(y, x) ==> |x.contig| == |y.contig|
  {
  }

  // ---------------------------------------------------------------------------
  // Sources and sinks of a component

  /** The mask the source test reads (in mask) or the sink test reads (out mask). */
  function EndMask(vs: seq<Vertex>, a: Adaptor, sink: bool): Mask
    requires Live(vs, a)
  {
    if sink then Out(vs, a) else In(vs, a)
  }

  /** How many members of s have no edge at the tested end. */
  function CountBare(vs: seq<Vertex>, s: seq<Adaptor>, sink: bool): (n: nat)
    requires forall j :: 0 <= j < |s| ==> Live(vs, s[j])
    ensures n <= |s|
  {
    if s == [] then 0
    else CountBare(vs, s[..|s| - 1], sink) + (if EndMask(vs, s[|s| - 1], sink) == 0 then 1 else 0)
  }

  /** A prefix never has more bare members than the whole. */
  lemma {:induction false} CountBarePrefix(vs: seq<Vertex>, s: seq<Adaptor>, sink: bool, i: nat)
    requires forall j :: 0 <= j < |s| ==> Live(vs, s[j])
    requires i <= |s|
    ensures CountBare(vs, s[..i], sink) <= CountBare(vs, s, sink)
    decreases |s|
  {
    if i < |s| {
      assert s[..|s| - 1][..i] == s[..i];
      CountBarePrefix(vs, s[..|s| - 1], sink, i);
    } else {
      assert s[..i] == s;
    }
  }

  /** Two different bare positions make the count at least two. */
  lemma {:induction false} CountBareTwo(vs: seq<Vertex>, s: seq<Adaptor>, sink: bool, j: nat, j': nat)
    requires forall i :: 0 <= i < |s| ==> Live(vs, s[i])
    requires j < j' < |s|
    requires EndMask(vs, s[j], sink) == 0 && EndMask(vs, s[j'], sink) == 0
    ensures CountBare(vs, s, sink) >= 2
    decreases |s|
  {
    var init := s[..|s| - 1];
    if j' < |s| - 1 {
      assert init[j] == s[j] && init[j'] == s[j'];
      CountBareTwo(vs, init, sink, j, j');
    } else {
      assert init[j] == s[j];
      CountBareOne(vs, init, sink, j);
    }
  }

  /** A bare position makes the count at least one. */
  lemma {:induction false} CountBareOne(vs: seq<Vertex>, s: seq<Adaptor>, sink: bool, j: nat)
    requires forall i :: 0 <= i < |s| ==> Live(vs, s[i])
    requires j < |s| && EndMask(vs, s[j], sink) == 0
    ensures CountBare(vs, s, sink) >= 1
    decreases |s|
  {
    if j < |s| - 1 {
      assert s[..|s| - 1][j] == s[j];
      CountBareOne(vs, s[..|s| - 1], sink, j);
    }
  }

  /** A count of one means one position: any two bare positions coincide. */
  lemma CountBareUnique(vs: seq<Vertex>, s: seq<Adaptor>, sink: bool, j: nat, j': nat)
    requires forall i :: 0 <= i < |s| ==> Live(vs, s[i])
    requires CountBare(vs, s, sink) == 1
    requires j < |s| && j' < |s| && EndMask(vs, s[j], sink) == 0 && EndMask(vs, s[j'], sink) == 0
    ensures j == j'
  {
    if j < j' {
      CountBareTwo(vs, s, sink, j, j');
    } else if j' < j {
      CountBareTwo(vs, s, sink, j', j);
    }
  }

  // ---------------------------------------------------------------------------
  // The graph object

  class ContigGraph {
    var beginKmerMap: KmerIndex
    var vertices: seq<Vertex>
    var numEdges: nat
    var kmerSize: nat
    var inKmerCountTable: map<Kmer, nat>

    ghost predicate Valid()
      reads this
    {
      WellFormed(vertices, beginKmerMap, kmerSize)
    }

    /** An empty graph for k-mers of the given size. */
    constructor (kmerSize: nat := 0)
      ensures Valid()
      ensures this.kmerSize == kmerSize && numEdges == 0
      ensures vertices == [] && beginKmerMap == map[] && inKmerCountTable == map[]
    {
      this.kmerSize := kmerSize;
      numEdges := 0;
      vertices := [];
      beginKmerMap := map[];
      inKmerCountTable := map[];
    }

    /** The k-mer size; in a valid graph every contig holds at least one k-mer. */
    function KmerSize(): (k: nat)
      reads this
      ensures k == kmerSize
      ensures Valid() ==> forall i :: 0 <= i < |vertices| ==> |vertices[i].contig| >= k
    {
      kmerSize
    }

    /** The number of vertices; in a valid graph every index entry names one of them. */
    function NumVertices(): (n: nat)
      reads this
      ensures n == |vertices|
      ensures Valid() ==> forall key :: key in beginKmerMap ==> beginKmerMap[key] < n
    {
      |vertices|
    }

    /** The edge counter; AddEdge and RemoveEdge do not update it. */
    function NumEdges(): (e: nat)
      reads this
      ensures e == numEdges
    {
      numEdges
    }

    method SetKmerSize(k: nat)
      modifies this`kmerSize
      ensures KmerSize() == k
    {
      kmerSize := k;
    }

    /** Adds the edge from --> to and its mirror on the other strand. */
    method AddEdge(from: Adaptor, to: Adaptor)
      requires Valid() && kmerSize >= 1 && Live(vertices, from) && Live(vertices, to)
      modifies this`vertices
      ensures Valid()
      ensures vertices == WithEdge(old(vertices), kmerSize, from, to)
    {
      ghost var vs := vertices;
      var x := Contig(vertices, to)[kmerSize - 1];
      vertices := SetOut(vertices, from, Add(Out(vertices, from), x));
      var from', to' := to.ReverseComplement(), from.ReverseComplement();
      var y := Contig(vertices, to')[kmerSize - 1];
      vertices := SetOut(vertices, from', Add(Out(vertices, from'), y));
      SameContigsWellFormed(vs, vertices, beginKmerMap, kmerSize);
    }

    /**
     * Removes current's out-edge through base x and its mirror; the neighbour
     * through x must resolve, since its reverse strand is updated.
     */
    method RemoveEdge(current: Adaptor, x: Base)
      requires Valid() && kmerSize >= 1 && Live(vertices, current)
      requires GetNeighbor(vertices, beginKmerMap, kmerSize, current, x).A?
      modifies this`vertices
      ensures Valid()
      ensures vertices == WithoutEdge(old(vertices), beginKmerMap, kmerSize, current, x)
    {
      var k, index := kmerSize, beginKmerMap;
      var vs := SetOut(vertices, current, Remove(Out(vertices, current), x));
      WithoutEdgeSteps(vertices, index, k, current, x, vs);
      var next := GetNeighbor(vs, index, k, current, x).ReverseComplement();
      var y := Contig(vs, current.ReverseComplement())[k - 1];
      vs := SetOut(vs, next, Remove(Out(vs, next), y));
      SameContigsWellFormed(vertices, vs, index, k);
      vertices := vs;
    }

    /**
     * The neighbours of current, one per set bit of its out mask, in
     * increasing base order; earlier contents of the output are discarded.
     */
    method GetNeighbors(current: Adaptor) returns (neighbors: seq<Adaptor>)
      requires Valid() && kmerSize >= 1 && Live(vertices, current)
      ensures |neighbors| == Size(Out(vertices, current))
      ensures forall j :: 0 <= j < |neighbors| ==>
        neighbors[j] == GetNeighbor(vertices, beginKmerMap, kmerSize, current, SetBits(Out(vertices, current))[j])
    {
      neighbors := [];
      var edges := Out(vertices, current);
      for x := 0 to 4
        invariant |neighbors| == |SetBitsBelow(edges, x)|
        invariant forall j :: 0 <= j < |neighbors| ==>
          neighbors[j] == GetNeighbor(vertices, beginKmerMap, kmerSize, current, SetBitsBelow(edges, x)[j])
      {
        if Has(edges, x) {
          neighbors := neighbors + [GetNeighbor(vertices, beginKmerMap, kmerSize, current, x)];
        }
      }
      assert SetBits(edges) == SetBitsBelow(edges, 4);
    }

    /** The only member of the component with no in-edge, or null when there is none or several. */
    method GetBeginVertexAdaptor(component: seq<Adaptor>) returns (begin: Adaptor)
      requires forall j :: 0 <= j < |component| ==> Live(vertices, component[j])
      ensures begin != Null <==> CountBare(vertices, component, false) == 1
      ensures begin != Null ==> begin in component && Live(vertices, begin) && In(vertices, begin) == 0
    {
      begin := FindBare(component, false);
    }

    /** The only member of the component with no out-edge, or null when there is none or several. */
    method GetEndVertexAdaptor(component: seq<Adaptor>) returns (end: Adaptor)
      requires forall j :: 0 <= j < |component| ==> Live(vertices, component[j])
      ensures end != Null <==> CountBare(vertices, component, true) == 1
      ensures end != Null ==> end in component && Live(vertices, end) && Out(vertices, end) == 0
    {
      end := FindBare(component, true);
    }

    /** The loop shared by the source and sink searches. */
    method FindBare(component: seq<Adaptor>, sink: bool) returns (found: Adaptor)
      requires forall j :: 0 <= j < |component| ==> Live(vertices, component[j])
      ensures found != Null <==> CountBare(vertices, component, sink) == 1
      ensures found != Null ==> found in component && Live(vertices, found) && EndMask(vertices, found, sink) == 0
    {
      found := Null;
      ghost var at := 0;
      var i := 0;
      while i < |component|
        invariant 0 <= i <= |component|
        invariant found == Null <==> CountBare(vertices, component[..i], sink) == 0
        invariant found != Null ==>
          && CountBare(vertices, component[..i], sink) == 1
          && at < i && component[at] == found && EndMask(vertices, found, sink) == 0
      {
        assert component[..i + 1][..i] == component[..i];
        if EndMask(vertices, component[i], sink) == 0 {
          if found == Null {
            found, at := component[i], i;
          } else {
            CountBarePrefix(vertices, component, sink, i + 1);
            return Null;
          }
        }
        i := i + 1;
      }
      assert component[..i] == component;
    }

    /** Empties the graph: no vertices, no edges, both k-mer tables empty. */
    method Clear()
      modifies this`numEdges, this`vertices, this`beginKmerMap, this`inKmerCountTable
      ensures Valid()
      ensures NumEdges() == 0 && NumVertices() == 0
      ensures beginKmerMap == map[] && inKmerCountTable == map[]
    {
      numEdges := 0;
      vertices := [];
      beginKmerMap := map[];
      inKmerCountTable := map[];
    }

    /**
     * Exchanges the index, the vertices, the edge count and the k-mer size
     * with another graph; the in-k-mer count tables stay where they are.
     */
    method Swap(other: ContigGraph)
      modifies this`beginKmerMap, this`vertices, this`numEdges, this`kmerSize
      modifies other`beginKmerMap, other`vertices, other`numEdges, other`kmerSize
      ensures beginKmerMap == old(other.beginKmerMap) && other.beginKmerMap == old(beginKmerMap)
      ensures vertices == old(other.vertices) && other.vertices == old(vertices)
      ensures numEdges == old(other.numEdges) && other.numEdges == old(numEdges)
      ensures kmerSize == old(other.kmerSize) && other.kmerSize == old(kmerSize)
      ensures inKmerCountTable == old(inKmerCountTable) && other.inKmerCountTable == old(other.inKmerCountTable)
    {
      beginKmerMap, other.beginKmerMap := other.beginKmerMap, beginKmerMap;
      vertices, other.vertices := other.vertices, vertices;
      numEdges, other.numEdges := other.numEdges, numEdges;
      kmerSize, other.kmerSize := other.kmerSize, kmerSize;
    }
  }

  /** Swapping two graphs twice gives both back as they were. */
  method SwapTwice(g: ContigGraph, h: ContigGraph)
    modifies g, h
    ensures g.beginKmerMap == old(g.beginKmerMap) && h.beginKmerMap == old(h.beginKmerMap)
    ensures g.vertices == old(g.vertices) && h.vertices == old(h.vertices)
    ensures g.numEdges == old(g.numEdges) && h.numEdges == old(h.numEdges)
    ensures g.kmerSize == old(g.kmerSize) && h.kmerSize == old(h.kmerSize)
    ensures g.inKmerCountTable == old(g.inKmerCountTable) && h.inKmerCountTable == old(h.inKmerCountTable)
  {
    g.Swap(h);
    g.Swap(h);
  }
}
