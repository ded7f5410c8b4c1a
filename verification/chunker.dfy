/** Document chunker of the Markdown viewer (`splitIntoChunks` in src/App.tsx).

A document is cut into consecutive pieces so that a virtualized list can render
them one at a time. Starting from the current offset `ci`, a chunk ends at
 - the first paragraph break ("\n\n") at or after `ci + size`, or the end of the
   text when there is none, provided the chunk stays within 1.5 * `size`;
 - otherwise at the last '\n' strictly after `ci` and at or before `ci + size`;
 - otherwise exactly at `ci + size` (a hard cut).

Strings are modelled as `seq<char>`, and every index below stands for a
UTF-16 code-unit index, as in JavaScript. This holds by convention only: a
Dafny `char` is a Unicode scalar value, so a character outside the Basic
Multilingual Plane is written as two `char`s, neither of them a '\n'.
 */
module Chunker {

  /** Target chunk length used by the application. */
  const ChunkSize: nat := 5000

  /** A paragraph break ("\n\n") starts at index `i` of `s`. */
  predicate IsParaAt(s: string, i: int) {
    0 <= i && i + 1 < |s| && s[i] == '\n' && s[i + 1] == '\n'
  }

  /** `s` holds a line feed at index `i`. */
  predicate IsNlAt(s: string, i: int) {
    0 <= i < |s| && s[i] == '\n'
  }

  /** No paragraph break starts in the index range [lo, hi). */
  ghost predicate NoParaIn(s: string, lo: int, hi: int) {
    forall i :: lo <= i < hi ==> !IsParaAt(s, i)
  }

  /** No line feed in the index range [lo, hi). */
  ghost predicate NoNlIn(s: string, lo: int, hi: int) {
    forall i :: lo <= i < hi ==> !IsNlAt(s, i)
  }

  /** The concatenation of a sequence of chunks, in order. */
  function Concat(cs: seq<string>): string {
    if |cs| == 0 then [] else cs[0] + Concat(cs[1..])
  }

  // ---------------------------------------------------------------------------
  // The two JavaScript string searches the chunker relies on.
  // ---------------------------------------------------------------------------

  /** `s.indexOf("\n\n", from)`: the least index `>= from` where a paragraph
      break starts, or -1. A `from` past the end finds nothing. */
  function IndexOfPara(s: string, from: nat): (r: int)
    ensures r == -1 <==> NoParaIn(s, from, |s|)
    ensures r != -1 ==> from <= r && IsParaAt(s, r) && NoParaIn(s, from, r)
    decreases |s| - from
  {
    if from + 1 >= |s| then -1
    else if s[from] == '\n' && s[from + 1] == '\n' then
      assert IsParaAt(s, from);
      from
    else IndexOfPara(s, from + 1)
  }

  /** The greatest index below `end` that holds a line feed, or -1. */
  function LastNlBefore(s: string, end: nat): (r: int)
    requires end <= |s|
    ensures -1 <= r < end
    ensures r == -1 ==> NoNlIn(s, 0, end)
    ensures r != -1 ==> IsNlAt(s, r) && NoNlIn(s, r + 1, end)
    decreases end
  {
    if end == 0 then -1
    else if s[end - 1] == '\n' then end - 1
    else LastNlBefore(s, end - 1)
  }

  /** `s.lastIndexOf('\n', from)` for a non-negative `from`: the greatest
      index `<= from` (and inside `s`) that holds a line feed, or -1. */
  function LastIndexOfNl(s: string, from: nat): (r: int)
    ensures r == -1 || (r <= from && IsNlAt(s, r))
    ensures r == -1 ==> NoNlIn(s, 0, from + 1)
    ensures r != -1 ==> NoNlIn(s, r + 1, from + 1)
  {
    LastNlBefore(s, if from + 1 < |s| then from + 1 else |s|)
  }

  // ---------------------------------------------------------------------------
  // The boundary policy, stated declaratively.
  // ---------------------------------------------------------------------------

  /** The chunk [ci, nb) ends at the first paragraph break at or after
      `ci + size` and is at most 1.5 * `size` long. */
  ghost predicate EndsAtParagraph(s: string, ci: nat, size: nat, nb: int) {
    && ci + size <= nb
    && IsParaAt(s, nb)
    && NoParaIn(s, ci + size, nb)
    && 2 * (nb - ci) <= 3 * size
  }

  /** The chunk [ci, nb) is the rest of the text: no paragraph break starts
      at or after `ci + size` and the rest is at most 1.5 * `size` long. */
  ghost predicate EndsAtEnd(s: string, ci: nat, size: nat, nb: int) {
    && nb == |s|
    && NoParaIn(s, ci + size, |s|)
    && 2 * (nb - ci) <= 3 * size
  }

  /** Neither a paragraph break nor the end of the text lies within
      1.5 * `size` of `ci`, counting only breaks at or after `ci + size`. */
  ghost predicate TooFar(s: string, ci: nat, size: nat) {
    && (forall i :: ci + size <= i && 2 * (i - ci) <= 3 * size ==> !IsParaAt(s, i))
    && 2 * (|s| - ci) > 3 * size
  }

  /** The fallback cut of a chunk starting at `ci`: the last line feed
      strictly after `ci` and at or before `ci + size`, or else `ci + size`. */
  ghost predicate EndsAtFallback(s: string, ci: nat, size: nat, nb: int) {
    || (ci < nb <= ci + size && IsNlAt(s, nb) && NoNlIn(s, nb + 1, ci + size + 1))
    || (nb == ci + size && NoNlIn(s, ci + 1, ci + size + 1))
  }

  /** `nb` is where the policy ends the chunk that starts at `ci`. */
  ghost predicate IsBoundary(s: string, ci: nat, size: nat, nb: int) {
    || EndsAtParagraph(s, ci, size, nb)
    || EndsAtEnd(s, ci, size, nb)
    || (TooFar(s, ci, size) && EndsAtFallback(s, ci, size, nb))
  }

  /** The policy picks at most one boundary for a given offset. */
  lemma BoundaryUnique(s: string, ci: nat, size: nat, a: int, b: int)
    requires size >= 1
    requires IsBoundary(s, ci, size, a) && IsBoundary(s, ci, size, b)
    ensures a == b
  {
  }

  // ---------------------------------------------------------------------------
  // The chunker.
  // ---------------------------------------------------------------------------

  /** Where the chunk starting at `ci` would end by the paragraph rule: the
      first paragraph break at or after `ci + size`, or the end of the text. */
  function ParaCandidate(s: string, ci: nat, size: nat): (q: nat)
    requires size >= 1 && ci < |s|
    ensures ci < q <= |s|
    ensures q == |s| ==> NoParaIn(s, ci + size, |s|)
    ensures q < |s| ==> ci + size <= q && IsParaAt(s, q) && NoParaIn(s, ci + size, q)
  {
    var p := IndexOfPara(s, ci + size);
    if p == -1 then |s| else p
  }

  /** Where the chunk starting at `ci` ends by the line-feed rule: the last
      line feed strictly after `ci` and at or before `ci + size`, or else a
      hard cut at `ci + size`. */
  function FallbackBreak(s: string, ci: nat, size: nat): (nb: nat)
    requires size >= 1
    ensures ci < nb <= ci + size
    ensures EndsAtFallback(s, ci, size, nb)
  {
    var nl := LastIndexOfNl(s, ci + size);
    if nl <= ci then ci + size else nl
  }

  /** One pass of the loop body: where the chunk that starts at `ci` ends.
      The chunk is non-empty and at most 1.5 * `size` long; that the end is
      the one the policy prescribes is `NextBreakFollowsPolicy`. */
  function NextBreak(s: string, ci: nat, size: nat): (nb: nat)
    requires size >= 1 && ci < |s|
    ensures ci < nb <= |s|
    ensures 2 * (nb - ci) <= 3 * size
  {
    var q := ParaCandidate(s, ci, size);
    if 2 * (q - ci) > 3 * size then
      FallbackBreak(s, ci, size)
    else
      q
  }

  /** Each pass of the loop ends its chunk where the boundary policy says. */
  lemma NextBreakFollowsPolicy(s: string, ci: nat, size: nat)
    requires size >= 1 && ci < |s|
    ensures IsBoundary(s, ci, size, NextBreak(s, ci, size))
  {
    var q := ParaCandidate(s, ci, size);
    if 2 * (q - ci) > 3 * size {
      assert TooFar(s, ci, size) by {
        forall i | ci + size <= i && 2 * (i - ci) <= 3 * size
          ensures !IsParaAt(s, i)
        {
        }
      }
    }
  }

  lemma ConcatCons(c: string, rest: seq<string>)
    ensures Concat([c] + rest) == c + Concat(rest)
  {
    assert ([c] + rest)[1..] == rest;
  }

  /** The chunks of `s` from offset `ci` on: one loop pass, then the rest.
      What they add up to is `ChunksFromConcat` and `ChunksFromSizes`. */
  function ChunksFrom(s: string, ci: nat, size: nat): seq<string>
    requires size >= 1 && ci <= |s|
    decreases |s| - ci
  {
    if ci == |s| then
      []
    else
      var nb := NextBreak(s, ci, size);
      [s[ci..nb]] + ChunksFrom(s, nb, size)
  }

  /** One unfolding of `ChunksFrom`. */
  lemma ChunksFromStep(s: string, ci: nat, size: nat)
    requires size >= 1 && ci < |s|
    ensures ChunksFrom(s, ci, size)
            == [s[ci..NextBreak(s, ci, size)]] + ChunksFrom(s, NextBreak(s, ci, size), size)
  {
  }

  /** The chunks from an offset put back together give the rest of the text:
      nothing is dropped and nothing is repeated. */
  lemma {:induction false} ChunksFromConcat(s: string, ci: nat, size: nat)
    requires size >= 1 && ci <= |s|
    ensures Concat(ChunksFrom(s, ci, size)) == s[ci..]
    decreases |s| - ci
  {
    if ci < |s| {
      var nb := NextBreak(s, ci, size);
      ChunksFromStep(s, ci, size);
      ChunksFromConcat(s, nb, size);
      ConcatCons(s[ci..nb], ChunksFrom(s, nb, size));
      assert s[ci..nb] + s[nb..] == s[ci..];
    }
  }

  /** Every chunk from an offset is non-empty and at most 1.5 * `size` long. */
  lemma {:induction false} ChunksFromSizes(s: string, ci: nat, size: nat)
    requires size >= 1 && ci <= |s|
    ensures var cs := ChunksFrom(s, ci, size);
            forall k :: 0 <= k < |cs| ==> 0 < |cs[k]| && 2 * |cs[k]| <= 3 * size
    decreases |s| - ci
  {
    if ci < |s| {
      var nb := NextBreak(s, ci, size);
      ChunksFromStep(s, ci, size);
      ChunksFromSizes(s, nb, size);
      var cs := ChunksFrom(s, ci, size);
      var rest := ChunksFrom(s, nb, size);
      forall k | 0 <= k < |cs| ensures 0 < |cs[k]| && 2 * |cs[k]| <= 3 * size {
        if k > 0 {
          assert cs[k] == rest[k - 1];
        }
      }
    }
  }

  /** `splitIntoChunks` with the chunk size as a parameter. */
  function Split(s: string, size: nat): (cs: seq<string>)
    requires size >= 1
    ensures Concat(cs) == s
    ensures |cs| == 0 <==> |s| == 0
    ensures forall k :: 0 <= k < |cs| ==> 0 < |cs[k]| && 2 * |cs[k]| <= 3 * size
  {
    ChunksFromConcat(s, 0, size);
    ChunksFromSizes(s, 0, size);
    assert s[0..] == s;
    ChunksFrom(s, 0, size)
  }

  /** `splitIntoChunks` as the application calls it. */
  function SplitIntoChunks(s: string): (cs: seq<string>)
    ensures Concat(cs) == s
    ensures |cs| == 0 <==> |s| == 0
    ensures forall k :: 0 <= k < |cs| ==> 0 < |cs[k]| <= 7500
  {
    Split(s, ChunkSize)
  }

  /** The loop body of the source (the three assignments to `nextBreak`),
      written as statements: the end it picks is the boundary the policy
      prescribes, and it is the step the recursive chunker takes. */
  method FindBreak(content: string, currentIndex: nat, size: nat) returns (nextBreak: int)
    requires size >= 1 && currentIndex < |content|
    ensures IsBoundary(content, currentIndex, size, nextBreak)
    ensures nextBreak == NextBreak(content, currentIndex, size)
  {
    nextBreak := IndexOfPara(content, currentIndex + size);
    if nextBreak == -1 {
      nextBreak := |content|;
    }
    assert nextBreak == ParaCandidate(content, currentIndex, size);
    if 2 * (nextBreak - currentIndex) > 3 * size {
      nextBreak := LastIndexOfNl(content, currentIndex + size);
      if nextBreak <= currentIndex {
        nextBreak := currentIndex + size;
      }
    }
    NextBreakFollowsPolicy(content, currentIndex, size);
  }

  /** The `while` loop of the source, computing the same chunks. */
  method SplitLoop(content: string, size: nat) returns (chunks: seq<string>)
    requires size >= 1
    ensures chunks == Split(content, size)
    ensures Concat(chunks) == content
  {
    chunks := [];
    var currentIndex: nat := 0;
    while currentIndex < |content|
      invariant currentIndex <= |content|
      invariant chunks + ChunksFrom(content, currentIndex, size) == Split(content, size)
      decreases |content| - currentIndex
    {
      var nextBreak := FindBreak(content, currentIndex, size);
      LoopStep(content, currentIndex, size, chunks);
      chunks := chunks + [content[currentIndex..nextBreak]];
      currentIndex := nextBreak;
    }
  }

  /** One iteration of `SplitLoop` keeps its invariant. */
  lemma LoopStep(s: string, ci: nat, size: nat, chunks: seq<string>)
    requires size >= 1 && ci < |s|
    ensures chunks + ChunksFrom(s, ci, size)
            == (chunks + [s[ci..NextBreak(s, ci, size)]]) + ChunksFrom(s, NextBreak(s, ci, size), size)
  {
    ChunksFromStep(s, ci, size);
  }
}
