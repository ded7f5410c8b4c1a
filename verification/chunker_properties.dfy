/** Properties of the document chunker: it is the one and only way of cutting a
    text whose every boundary follows the policy, plus the size bounds and the
    special cases the viewer relies on. */
module ChunkerProperties {
  import opened Chunker

  /** `cs` cuts `s[ci..]` into consecutive non-empty pieces, each ending where
      the boundary policy says the chunk starting at its offset ends. */
  ghost predicate IsChunkingFrom(s: string, ci: nat, size: nat, cs: seq<string>)
    decreases |cs|
  {
    if |cs| == 0 then
      ci == |s|
    else
      && ci < |s|
      && ci + |cs[0]| <= |s|
      && cs[0] == s[ci..ci + |cs[0]|]
      && IsBoundary(s, ci, size, ci + |cs[0]|)
      && IsChunkingFrom(s, ci + |cs[0]|, size, cs[1..])
  }

  lemma ChunkingCons(s: string, ci: nat, size: nat, c: string, rest: seq<string>)
    requires ci < |s| && ci + |c| <= |s| && c == s[ci..ci + |c|]
    requires IsBoundary(s, ci, size, ci + |c|)
    requires IsChunkingFrom(s, ci + |c|, size, rest)
    ensures IsChunkingFrom(s, ci, size, [c] + rest)
  {
    assert ([c] + rest)[0] == c && ([c] + rest)[1..] == rest;
  }

  lemma {:induction false} ChunksFromIsChunking(s: string, ci: nat, size: nat)
    requires size >= 1 && ci <= |s|
    ensures IsChunkingFrom(s, ci, size, ChunksFrom(s, ci, size))
    decreases |s| - ci
  {
    if ci < |s| {
      var nb := NextBreak(s, ci, size);
      NextBreakFollowsPolicy(s, ci, size);
      ChunksFromIsChunking(s, nb, size);
      ChunkingCons(s, ci, size, s[ci..nb], ChunksFrom(s, nb, size));
      ChunksFromStep(s, ci, size);
    }
  }

  /** A policy-following chunking's first chunk ends where the loop's first
      pass ends. */
  lemma SameFirstBoundary(s: string, ci: nat, size: nat, cs: seq<string>)
    requires size >= 1 && |cs| > 0
    requires IsChunkingFrom(s, ci, size, cs)
    ensures ci < |s| && ci + |cs[0]| == NextBreak(s, ci, size)
    ensures cs[0] == s[ci..NextBreak(s, ci, size)]
    ensures IsChunkingFrom(s, NextBreak(s, ci, size), size, cs[1..])
  {
    var nb := NextBreak(s, ci, size);
    var end := ci + |cs[0]|;
    assert IsBoundary(s, ci, size, end);
    NextBreakFollowsPolicy(s, ci, size);
    BoundaryUnique(s, ci, size, end, nb);
  }

  lemma {:induction false} ChunkingIsChunksFrom(s: string, ci: nat, size: nat, cs: seq<string>)
    requires size >= 1 && ci <= |s|
    requires IsChunkingFrom(s, ci, size, cs)
    ensures cs == ChunksFrom(s, ci, size)
    decreases |cs|
  {
    if |cs| > 0 {
      var nb := NextBreak(s, ci, size);
      SameFirstBoundary(s, ci, size, cs);
      ChunkingIsChunksFrom(s, nb, size, cs[1..]);
      ChunksFromStep(s, ci, size);
      assert cs == [cs[0]] + cs[1..];
    }
  }

  /** The chunker's output is exactly the chunking that follows the boundary
      policy: it follows it, and nothing else does. */
  lemma SplitIsThePolicy(s: string, size: nat, cs: seq<string>)
    requires size >= 1
    ensures IsChunkingFrom(s, 0, size, cs) <==> cs == Split(s, size)
  {
    ChunksFromIsChunking(s, 0, size);
    if IsChunkingFrom(s, 0, size, cs) {
      ChunkingIsChunksFrom(s, 0, size, cs);
    }
  }

  /** A boundary before the end of the text is a paragraph break or the
      line-feed / hard-cut fallback, the latter at most `size` past `st`; a
      boundary at the end of the text is the end-of-text case. */
  lemma BoundaryKinds(s: string, st: nat, size: nat, nb: int)
    requires size >= 1 && nb <= |s|
    requires IsBoundary(s, st, size, nb)
    ensures nb < |s| ==>
              || EndsAtParagraph(s, st, size, nb)
              || (TooFar(s, st, size) && EndsAtFallback(s, st, size, nb) && nb - st <= size)
    ensures nb == |s| ==> EndsAtEnd(s, st, size, nb)
  {
    assert !IsParaAt(s, |s|);
  }

  /** In a chunking that follows the policy, chunk `k` starts where the chunks
      before it end, is that stretch of the text, ends where the policy says,
      and is the last chunk exactly when it reaches the end of the text. */
  lemma {:induction false} ChunkingBoundary(s: string, ci: nat, size: nat, cs: seq<string>, k: nat)
    requires size >= 1
    requires IsChunkingFrom(s, ci, size, cs)
    requires k < |cs|
    ensures var st := ci + |Concat(cs[..k])|;
            var nb := st + |cs[k]|;
            && nb <= |s|
            && cs[k] == s[st..nb]
            && IsBoundary(s, st, size, nb)
            && (k + 1 < |cs| <==> nb < |s|)
    decreases k
  {
    if k == 0 {
      assert cs[..0] == [];
    } else {
      ChunkingBoundary(s, ci + |cs[0]|, size, cs[1..], k - 1);
      assert cs[..k] == [cs[0]] + cs[1..][..k - 1];
      ConcatCons(cs[0], cs[1..][..k - 1]);
    }
  }

  /** Chunk `k` of a text starts where the chunks before it end and is that
      stretch of the text. A chunk that is not the last ends at the first
      paragraph break at or after `size` past its start (within 1.5 * `size`),
      or else at the last line feed after its start and at most `size` past
      it, or else exactly `size` past it; the last chunk is the rest of the
      text, at most 1.5 * `size` long with no paragraph break from `size` past
      its start on. */
  lemma ChunkBoundary(s: string, size: nat, k: nat)
    requires size >= 1
    requires k < |Split(s, size)|
    ensures var cs := Split(s, size);
            var st := |Concat(cs[..k])|;
            var nb := st + |cs[k]|;
            && nb <= |s|
            && cs[k] == s[st..nb]
            && (k + 1 < |cs| ==>
                  || EndsAtParagraph(s, st, size, nb)
                  || (TooFar(s, st, size) && EndsAtFallback(s, st, size, nb) && |cs[k]| <= size))
            && (k + 1 == |cs| ==> EndsAtEnd(s, st, size, nb))
  {
    var cs := Split(s, size);
    SplitIsThePolicy(s, size, cs);
    ChunkingBoundary(s, 0, size, cs, k);
    var st := |Concat(cs[..k])|;
    BoundaryKinds(s, st, size, st + |cs[k]|);
  }

  /** A non-empty text is a single chunk exactly when it is at most 1.5 * `size`
      long and no paragraph break starts at or after index `size`. */
  lemma OneChunkIff(s: string, size: nat)
    requires size >= 1 && |s| > 0
    ensures Split(s, size) == [s] <==> (2 * |s| <= 3 * size && NoParaIn(s, size, |s|))
  {
    var nb := NextBreak(s, 0, size);
    NextBreakFollowsPolicy(s, 0, size);
    ChunksFromStep(s, 0, size);
    assert s[0..|s|] == s;
    if 2 * |s| <= 3 * size && NoParaIn(s, size, |s|) {
      assert EndsAtEnd(s, 0, size, |s|);
      BoundaryUnique(s, 0, size, nb, |s|);
    }
    if Split(s, size) == [s] {
      assert !IsParaAt(s, |s|);
    }
  }

  /** A non-empty text no longer than the chunk size is a single chunk. */
  lemma ShortTextIsOneChunk(s: string, size: nat)
    requires size >= 1 && 0 < |s| <= size
    ensures Split(s, size) == [s]
  {
    OneChunkIff(s, size);
  }

  /** Being at most 1.5 * `size` long is not enough for a single chunk: a
      paragraph break at index `size` or later still starts a new chunk. */
  lemma ParagraphBreakAfterSizeSplits()
    ensures Split("abcd\n\n", 4) == ["abcd", "\n\n"]
  {
    var s := "abcd\n\n";
    var cs := ["abcd", "\n\n"];
    assert s[0..4] == cs[0] && s[4..6] == cs[1];
    assert IsParaAt(s, 4);
    assert EndsAtParagraph(s, 0, 4, 4);
    assert EndsAtEnd(s, 4, 4, 6);
    assert cs[1..][1..] == [];
    assert IsChunkingFrom(s, 4, 4, cs[1..]);
    SplitIsThePolicy(s, 4, cs);
  }

  /** `n * size`, spelled out as repeated addition. */
  ghost function Times(n: nat, size: nat): nat {
    if n == 0 then 0 else size + Times(n - 1, size)
  }

  lemma {:induction false} TimesIsProduct(n: nat, size: nat)
    ensures Times(n, size) == n * size
  {
    if n > 0 {
      TimesIsProduct(n - 1, size);
    }
  }

  /** In text without line feeds every chunk is the rest of the text when
      that is at most 1.5 * `size` long, and a hard cut of `size` otherwise. */
  lemma NoNewlineBreak(s: string, ci: nat, size: nat)
    requires size >= 1 && ci < |s|
    requires NoNlIn(s, 0, |s|)
    ensures NextBreak(s, ci, size) == if 2 * (|s| - ci) <= 3 * size then |s| else ci + size
  {
    var nb := NextBreak(s, ci, size);
    NextBreakFollowsPolicy(s, ci, size);
    assert NoParaIn(s, ci + size, |s|) by {
      forall i | ci + size <= i < |s| ensures !IsParaAt(s, i) {
        assert !IsNlAt(s, i);
      }
    }
    if 2 * (|s| - ci) <= 3 * size {
      assert EndsAtEnd(s, ci, size, |s|);
      BoundaryUnique(s, ci, size, nb, |s|);
    } else {
      assert EndsAtFallback(s, ci, size, ci + size);
      BoundaryUnique(s, ci, size, nb, ci + size);
    }
  }

  /** Text without line feeds whose length is `n` times the chunk size (from
      offset `ci` on) is cut into `n` chunks of exactly `size` characters. */
  lemma {:induction false} HardCutsFrom(s: string, ci: nat, size: nat, n: nat)
    requires size >= 1
    requires NoNlIn(s, 0, |s|)
    requires ci + Times(n, size) == |s|
    ensures var cs := ChunksFrom(s, ci, size);
            |cs| == n && forall k :: 0 <= k < n ==> |cs[k]| == size
    decreases n
  {
    if n > 0 {
      var next := NextBreak(s, ci, size);
      NoNewlineBreak(s, ci, size);
      ChunksFromStep(s, ci, size);
      if n > 1 {
        assert next == ci + size;
        HardCutsFrom(s, next, size, n - 1);
      }
    }
  }

  /** Text without line feeds of length `n * size` (n >= 1) is cut into exactly
      `n` chunks of `size` characters each. */
  lemma HardCuts(s: string, size: nat, n: nat)
    requires size >= 1 && n >= 1
    requires NoNlIn(s, 0, |s|)
    requires |s| == n * size
    ensures |Split(s, size)| == n
    ensures forall k :: 0 <= k < n ==> |Split(s, size)[k]| == size
  {
    TimesIsProduct(n, size);
    HardCutsFrom(s, 0, size, n);
  }

  /** "A\n\nB" with chunk size 1: a paragraph-break cut, a line-feed cut,
      a hard cut (the line feed at the offset itself is skipped), then the
      rest of the text. */
  lemma SmallSizeExample()
    ensures Split("A\n\nB", 1) == ["A", "\n", "\n", "B"]
  {
    var s := "A\n\nB";
    var cs := ["A", "\n", "\n", "B"];
    assert s[0..1] == cs[0] && s[1..2] == cs[1] && s[2..3] == cs[2] && s[3..4] == cs[3];
    assert IsParaAt(s, 1) && !IsParaAt(s, 2) && !IsNlAt(s, 3);
    assert EndsAtParagraph(s, 0, 1, 1);
    assert TooFar(s, 1, 1) && EndsAtFallback(s, 1, 1, 2);
    assert TooFar(s, 2, 1) && EndsAtFallback(s, 2, 1, 3);
    assert EndsAtEnd(s, 3, 1, 4);
    assert cs[1..][1..][1..][1..] == [];
    assert IsChunkingFrom(s, 3, 1, cs[1..][1..][1..]);
    assert IsChunkingFrom(s, 2, 1, cs[1..][1..]);
    assert IsChunkingFrom(s, 1, 1, cs[1..]);
    SplitIsThePolicy(s, 1, cs);
  }
}
