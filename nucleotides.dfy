/**
 * Nucleotide sequences and k-mers, as the contig graph sees them.
 *
 * The sequence and k-mer types of the assembler (sequence.h, kmer.h) are not
 * part of this model; this module gives them the meaning the graph relies
 * on: bases coded 0..3 with complement 3 - b, reverse complement, the first
 * and last k bases of a contig, the one-base shift of a k-mer and the
 * strand-independent ("unique") form of a k-mer.
 */
module Nucleotides {

  /** A base: 0 = A, 1 = C, 2 = G, 3 = T; the complement of b is 3 - b. */
  type Base = b: int | 0 <= b < 4

  type Kmer = seq<Base>

  /** The reverse complement: reversed, and every base complemented. */
  function ReverseComplement(s: seq<Base>): (r: seq<Base>)
    ensures |r| == |s|
    ensures forall i :: 0 <= i < |s| ==> r[i] == 3 - s[|s| - 1 - i]
  {
    if s == [] then [] else ReverseComplement(s[1..]) + [3 - s[0]]
  }

  /** A sequence equal to its own reverse complement. */
  predicate IsPalindrome(s: seq<Base>)
  {
    ReverseComplement(s) == s
  }

  /** The first k bases of a contig. */
  function BeginKmer(s: seq<Base>, k: nat): (r: Kmer)
    requires k <= |s|
  {
    s[..k]
  }

  /** The last k bases of a contig. */
  function EndKmer(s: seq<Base>, k: nat): (r: Kmer)
    requires k <= |s|
  {
    s[|s| - k..]
  }

  /** Drops the first base of a k-mer and appends x at its end. */
  function ShiftAppend(q: Kmer, x: Base): (r: Kmer)
    requires |q| >= 1
    ensures |r| == |q| && r[|r| - 1] == x
    ensures forall i :: 0 <= i < |q| - 1 ==> r[i] == q[i + 1]
  {
    q[1..] + [x]
  }

  /** Lexicographic order on base sequences. */
  predicate LexLess(a: seq<Base>, b: seq<Base>)
  {
    if a == [] then b != []
    else if b == [] then false
    else if a[0] != b[0] then a[0] < b[0]
    else LexLess(a[1..], b[1..])
  }

  /** The canonical form of a k-mer: the smaller of it and its reverse complement. */
  function UniqueFormat(q: Kmer): (r: Kmer)
    ensures r == q || r == ReverseComplement(q)
  {
    var rc := ReverseComplement(q);
    if LexLess(rc, q) then rc else q
  }

  lemma ReverseComplementInvolution(s: seq<Base>)
    ensures ReverseComplement(ReverseComplement(s)) == s
  {
    var r := ReverseComplement(ReverseComplement(s));
    assert forall i :: 0 <= i < |s| ==> r[i] == s[i];
  }

  /** The reverse complement of a concatenation swaps and reverses the parts. */
  lemma ReverseComplementConcat(a: seq<Base>, b: seq<Base>)
    ensures ReverseComplement(a + b) == ReverseComplement(b) + ReverseComplement(a)
  {
    var l := ReverseComplement(a + b);
    var r := ReverseComplement(b) + ReverseComplement(a);
    assert |l| == |r|;
    forall i | 0 <= i < |l|
      ensures l[i] == r[i]
    {
      if i < |b| {
        assert (a + b)[|a + b| - 1 - i] == b[|b| - 1 - i];
      } else {
        assert (a + b)[|a + b| - 1 - i] == a[|a| - 1 - (i - |b|)];
      }
    }
  }

  /** The begin k-mer of the reverse strand is the reverse complement of the end k-mer. */
  lemma {:induction false} BeginKmerOfReverse(s: seq<Base>, k: nat)
    requires k <= |s|
    ensures BeginKmer(ReverseComplement(s), k) == ReverseComplement(EndKmer(s, k))
  {
    var rs := ReverseComplement(s);
    var e := EndKmer(s, k);
    var l := BeginKmer(rs, k);
    var r := ReverseComplement(e);
    forall i | 0 <= i < k
      ensures l[i] == r[i]
    {
      assert l[i] == rs[i] == 3 - s[|s| - 1 - i];
      assert r[i] == 3 - e[k - 1 - i];
      assert e[k - 1 - i] == s[|s| - 1 - i];
    }
  }

  /** The end k-mer of the reverse strand is the reverse complement of the begin k-mer. */
  lemma {:induction false} EndKmerOfReverse(s: seq<Base>, k: nat)
    requires k <= |s|
    ensures EndKmer(ReverseComplement(s), k) == ReverseComplement(BeginKmer(s, k))
  {
    var rs := ReverseComplement(s);
    var b := BeginKmer(s, k);
    var l := EndKmer(rs, k);
    var r := ReverseComplement(b);
    forall i | 0 <= i < k
      ensures l[i] == r[i]
    {
      assert l[i] == rs[|s| - k + i] == 3 - s[k - 1 - i];
      assert r[i] == 3 - b[k - 1 - i];
    }
  }

  /** LexLess is irreflexive and asymmetric. */
  lemma {:induction false} LexLessAsymmetric(a: seq<Base>, b: seq<Base>)
    ensures !(LexLess(a, b) && LexLess(b, a))
  {
    if a != [] && b != [] && a[0] == b[0] {
      LexLessAsymmetric(a[1..], b[1..]);
    }
  }

  /** Two different k-mers of the same length are ordered one way or the other. */
  lemma {:induction false} LexLessTotal(a: seq<Base>, b: seq<Base>)
    requires |a| == |b| && a != b
    ensures LexLess(a, b) || LexLess(b, a)
  {
    assert a != [] && b != [];
    if a[0] == b[0] {
      assert a == [a[0]] + a[1..] && b == [b[0]] + b[1..];
      LexLessTotal(a[1..], b[1..]);
    }
  }

  /**
   * The canonical form is strand independent: a k-mer and its reverse
   * complement share one index key, and the key is never larger than either.
   */
  lemma UniqueFormatStrandIndependent(q: Kmer)
    ensures UniqueFormat(ReverseComplement(q)) == UniqueFormat(q)
    ensures !LexLess(q, UniqueFormat(q)) && !LexLess(ReverseComplement(q), UniqueFormat(q))
  {
    var rc := ReverseComplement(q);
    ReverseComplementInvolution(q);
    LexLessAsymmetric(q, rc);
    LexLessAsymmetric(q, q);
    LexLessAsymmetric(rc, rc);
    if rc != q {
      LexLessTotal(q, rc);
    }
  }

  /**
   * Extending back: when m begins with c's end k-mer shifted by base x, the
   * reverse complement of m, extended by the k-th base of c's reverse
   * complement, gives the begin k-mer of c's reverse complement.
   */
  lemma {:induction false} ShiftAppendBack(c: seq<Base>, m: seq<Base>, k: nat, x: Base)
    requires 1 <= k <= |c| && k <= |m|
    requires BeginKmer(m, k) == ShiftAppend(EndKmer(c, k), x)
    ensures ShiftAppend(EndKmer(ReverseComplement(m), k), ReverseComplement(c)[k - 1])
      == BeginKmer(ReverseComplement(c), k)
  {
    var e := EndKmer(c, k);
    EndKmerOfReverse(m, k);
    ReverseComplementConcat(e[1..], [x]);
    BeginKmerOfReverse(c, k);
    assert e == [e[0]] + e[1..];
    ReverseComplementConcat([e[0]], e[1..]);
  }
}
