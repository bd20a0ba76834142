/**
 * The CPU embedding layer (src/backend/cpu/layer/embeding_layer.cpp) in its lookup mode: the
 * constructor arranges the weight as [vocab_dim, embd_dim], init shapes the output as
 * [B, L, embd_dim], and forward copies, for each token id, that row of the weight into the
 * output.
 *
 * The weight's elements are kept as values: its conversion to DT_32F does not change what a
 * lookup copies, and transpose (declared in include/minfer/basic_op.h, its body not part of
 * this model) is the matrix transpose of the last two dimensions.
 */
module Embeddings {
  import opened Wrappers
  import opened Define
  import opened Shape
  import opened CoreMat
  import MatGemm

  /** The one error the constructor raises: a weight shaped neither way round. */
  datatype EmbeddingError = UnsupportedWeightShape

  // ---------------------------------------------------------------- index arithmetic

  /** Row v of a weight with `vocab` rows of `embd` values lies inside it. */
  lemma RowFits(v: nat, vocab: nat, embd: nat)
    requires v < vocab
    ensures v * embd + embd <= vocab * embd
  {
    assert v * embd <= (vocab - 1) * embd;
  }

  /** n rows of e values are n - 1 rows and one more. */
  lemma OneRowMore(n: nat, e: nat)
    requires n > 0
    ensures n * e == (n - 1) * e + e
  {
  }

  // ---------------------------------------------------------------- the weight

  /**
   * The weight the constructor keeps, given the rank-2 weight's extents and elements: a
   * [vocab, embd] weight as it is, an [embd, vocab] weight transposed, any other an error.
   * A square weight takes the first branch.
   */
  function Arranged(vocab: int, embd: int, shape: seq<int>, data: seq<int>): Result<seq<int>, EmbeddingError>
    requires |shape| == 2 && shape[0] >= 0 && shape[1] >= 0 && |data| == shape[0] * shape[1]
  {
    if shape[0] == vocab && shape[1] == embd then Ok(data)
    else if shape[0] == embd && shape[1] == vocab then Ok(MatGemm.Transposed(MatGemm.View(data, 0, embd, vocab)).buf)
    else Err(UnsupportedWeightShape)
  }

  /** The constructor accepts exactly the two orientations, and keeps vocab_dim * embd_dim values. */
  lemma ArrangedAccepts(vocab: int, embd: int, shape: seq<int>, data: seq<int>)
    requires |shape| == 2 && shape[0] >= 0 && shape[1] >= 0 && |data| == shape[0] * shape[1]
    ensures Arranged(vocab, embd, shape, data).Ok? <==> shape == [vocab, embd] || shape == [embd, vocab]
    ensures Arranged(vocab, embd, shape, data).Ok? ==>
              vocab >= 0 && embd >= 0 && |Arranged(vocab, embd, shape, data).value| == vocab * embd
  {
    if Arranged(vocab, embd, shape, data).Ok? && !(shape[0] == vocab && shape[1] == embd) {
      var t := MatGemm.Transposed(MatGemm.View(data, 0, embd, vocab));
      assert |t.buf| >= vocab * embd;
      assert |t.buf| == embd * vocab;
    }
  }

  /**
   * What the constructor keeps is a [vocab_dim, embd_dim] matrix: its element (v, e) is the
   * weight's entry for word v and feature e, whichever way round the weight was stored.
   */
  lemma ArrangedAt(vocab: nat, embd: nat, shape: seq<int>, data: seq<int>, v: nat, e: nat)
    requires |shape| == 2 && shape[0] >= 0 && shape[1] >= 0 && |data| == shape[0] * shape[1]
    requires Arranged(vocab, embd, shape, data).Ok? && v < vocab && e < embd
    ensures v * embd + e < |Arranged(vocab, embd, shape, data).value|
    ensures shape == [vocab, embd] ==> Arranged(vocab, embd, shape, data).value[v * embd + e] == data[v * embd + e]
    ensures shape != [vocab, embd] ==>
              e * vocab + v < |data| && Arranged(vocab, embd, shape, data).value[v * embd + e] == data[e * vocab + v]
  {
    ArrangedAccepts(vocab, embd, shape, data);
    MatGemm.MixedRadixStep(v, vocab, embd, e);
    if shape != [vocab, embd] {
      var y := MatGemm.View(data, 0, embd, vocab);
      MatGemm.TransposedAt(y, v, e);
      MatGemm.MixedRadixStep(e, embd, vocab, v);
    }
  }

  // ---------------------------------------------------------------- the lookup

  /** Row v of a weight of `embd` values per row. */
  function Row(w: seq<int>, embd: nat, v: nat): seq<int>
    requires v * embd + embd <= |w|
  {
    w[v * embd .. v * embd + embd]
  }

  /** Every token id names a row of a [vocab, embd] weight. */
  predicate InVocabulary(ids: seq<int>, vocab: nat)
  {
    forall i :: 0 <= i < |ids| ==> 0 <= ids[i] < vocab
  }

  /**
   * The embedding of a token sequence: the rows of its ids, one after the other, so embd
   * values per token.
   */
  function Lookup(w: seq<int>, vocab: nat, embd: nat, ids: seq<int>): (r: seq<int>)
    requires |w| == vocab * embd && InVocabulary(ids, vocab)
    ensures |r| == |ids| * embd
  {
    if ids == [] then []
    else
      var v := ids[|ids| - 1];
      RowFits(v, vocab, embd);
      OneRowMore(|ids|, embd);
      Lookup(w, vocab, embd, ids[..|ids| - 1]) + Row(w, embd, v)
  }

  /**
   * Embedding a sequence is embedding its two parts one after the other: a prompt embedded
   * at once equals its tokens embedded in turn.
   */
  lemma {:induction false} LookupAppend(w: seq<int>, vocab: nat, embd: nat, xs: seq<int>, ys: seq<int>)
    requires |w| == vocab * embd && InVocabulary(xs, vocab) && InVocabulary(ys, vocab)
    ensures InVocabulary(xs + ys, vocab)
    ensures Lookup(w, vocab, embd, xs + ys) == Lookup(w, vocab, embd, xs) + Lookup(w, vocab, embd, ys)
  {
    if ys != [] {
      var zs := xs + ys;
      assert zs[..|zs| - 1] == xs + ys[..|ys| - 1];
      LookupAppend(w, vocab, embd, xs, ys[..|ys| - 1]);
    } else {
      assert xs + ys == xs;
    }
  }

  /** One more token adds its row: the embedding of the first i + 1 ids. */
  lemma LookupStep(w: seq<int>, vocab: nat, embd: nat, ids: seq<int>, i: nat)
    requires |w| == vocab * embd && InVocabulary(ids, vocab) && i < |ids|
    ensures InVocabulary(ids[..i], vocab) && InVocabulary(ids[..i + 1], vocab)
    ensures ids[i] * embd + embd <= |w|
    ensures Lookup(w, vocab, embd, ids[..i + 1]) == Lookup(w, vocab, embd, ids[..i]) + Row(w, embd, ids[i])
    ensures i + 1 <= |ids| && (i + 1) * embd == i * embd + embd && i * embd + embd <= |ids| * embd
  {
    RowFits(ids[i], vocab, embd);
    RowFits(i, |ids|, embd);
    assert ids[..i + 1][..i] == ids[..i];
  }

  /** Output row i is weight row ids[i]. */
  lemma {:induction false} LookupRow(w: seq<int>, vocab: nat, embd: nat, ids: seq<int>, i: nat)
    requires |w| == vocab * embd && InVocabulary(ids, vocab) && i < |ids|
    ensures i * embd + embd <= |ids| * embd && ids[i] * embd + embd <= |w|
    ensures |Lookup(w, vocab, embd, ids)| == |ids| * embd
    ensures Lookup(w, vocab, embd, ids)[i * embd .. i * embd + embd] == Row(w, embd, ids[i])
  {
    RowFits(i, |ids|, embd);
    RowFits(ids[i], vocab, embd);
    var front, last := ids[..|ids| - 1], ids[|ids| - 1];
    RowFits(last, vocab, embd);
    var head := Lookup(w, vocab, embd, front);
    var whole := Lookup(w, vocab, embd, ids);
    assert whole == head + Row(w, embd, last);
    if i < |ids| - 1 {
      LookupRow(w, vocab, embd, front, i);
      RowFits(i, |front|, embd);
      assert whole[i * embd .. i * embd + embd] == head[i * embd .. i * embd + embd];
    } else {
      assert i * embd == |head|;
    }
  }

  // ---------------------------------------------------------------- the layer

  class EmbeddingLayer {
    const vocabDim: nat
    const embdDim: nat
    /** w: the weight as [vocab_dim, embd_dim], by rows. */
    const w: seq<int>

    predicate Valid()
    {
      |w| == vocabDim * embdDim
    }

    constructor Arrange(vocab: nat, embd: nat, weight: seq<int>)
      requires |weight| == vocab * embd
      ensures vocabDim == vocab && embdDim == embd && w == weight && Valid()
    {
      vocabDim, embdDim, w := vocab, embd, weight;
    }

    /**
     * EmbeddingLayer::create(param): asserts a rank-2 weight, then keeps it arranged as
     * [vocab_dim, embd_dim], or raises the shape error.
     */
    static method Create(vocab: int, embd: int, shape: seq<int>, data: seq<int>)
      returns (r: Result<EmbeddingLayer, EmbeddingError>)
      requires |shape| == 2 && shape[0] >= 0 && shape[1] >= 0 && |data| == shape[0] * shape[1]
      ensures r.Ok? <==> Arranged(vocab, embd, shape, data).Ok?
      ensures r.Ok? ==> fresh(r.value) && r.value.Valid()
                        && r.value.vocabDim == vocab && r.value.embdDim == embd
                        && r.value.w == Arranged(vocab, embd, shape, data).value
    {
      var arranged := Arranged(vocab, embd, shape, data);
      if arranged.Err? {
        return Err(arranged.error);
      }
      ArrangedAccepts(vocab, embd, shape, data);
      var layer := new EmbeddingLayer.Arrange(vocab, embd, arranged.value);
      return Ok(layer);
    }

    /**
     * init(input, output): one rank-2 input [B, L] and one output, whose shape becomes
     * [B, L, embd_dim].
     */
    method Init(input: Mat, output: Mat)
      requires input.Valid() && input.dims == 2 && output.Valid()
      modifies output, output.u
      ensures output.Valid() && output.dims == 3 && output.matType == old(output.matType)
      ensures output.sizes == SetSizeExtents([old(input.sizes[0]), old(input.sizes[1]), embdDim], 3)
    {
      output.SetSize(3, [input.sizes[0], input.sizes[1], embdDim]);
    }

    /**
     * forward(input, output) on one batch of L token ids (DT_32S) into a DT_32F output of
     * shape [1, L, embd_dim]: output row i is weight row id[i].  The ids are not checked by
     * the layer; every one must name a row.
     */
    method Forward(input: Mat, output: Mat)
      requires Valid()
      requires input.Valid() && input.dims == 2 && input.sizes[0] == 1 && input.matType == DT_32S
      requires output.Valid() && output.matType == DT_32F
      requires output.sizes == [1, input.sizes[1], embdDim]
      requires input.u != null && output.u != null && input.u.cells != output.u.cells
      requires 0 <= input.sizes[1] <= input.u.cells.Length
      requires input.sizes[1] * embdDim <= output.u.cells.Length
      requires InVocabulary(input.u.cells[..input.sizes[1]], vocabDim)
      modifies output.u.cells
      ensures var n := input.sizes[1] * embdDim;
              && output.u.cells[..n] == Lookup(w, vocabDim, embdDim, input.u.cells[..input.sizes[1]])
              && output.u.cells[n..] == old(output.u.cells[n..])
    {
      Gather(input.u.cells, input.sizes[1], output.u.cells);
    }

    /** The buffer after one more row is copied: the done part grows by it, the rest is as at first. */
    static lemma RowWritten(first: seq<int>, before: seq<int>, after: seq<int>, base: nat, n: nat, row: seq<int>)
      requires |first| == |before| == |after| && base + n <= |after| && |row| == n
      requires before[base..] == first[base..]
      requires after[..base] == before[..base] && after[base .. base + n] == row
      requires after[base + n ..] == before[base + n ..]
      ensures after[..base + n] == before[..base] + row
      ensures after[base + n ..] == first[base + n ..]
    {
      assert after[..base + n] == after[..base] + after[base .. base + n];
      assert first[base..][n..] == first[base + n ..];
      assert before[base..][n..] == before[base + n ..];
    }

    /** One pass of Gather: writing the row of ids[i] at base extends the lookup by one token. */
    static lemma GatherStep(w: seq<int>, vocab: nat, embd: nat, ids: seq<int>, i: nat,
                            first: seq<int>, before: seq<int>, after: seq<int>, base: nat)
      requires |w| == vocab * embd && InVocabulary(ids, vocab) && i < |ids| && base == i * embd
      requires |first| == |before| == |after| && |ids| * embd <= |after|
      requires InVocabulary(ids[..i], vocab) && before[..base] == Lookup(w, vocab, embd, ids[..i])
      requires before[base..] == first[base..]
      requires ids[i] * embd + embd <= |w| && base + embd <= |after|
      requires after[..base] == before[..base] && after[base .. base + embd] == Row(w, embd, ids[i])
      requires after[base + embd ..] == before[base + embd ..]
      ensures InVocabulary(ids[..i + 1], vocab) && base + embd == (i + 1) * embd
      ensures after[..base + embd] == Lookup(w, vocab, embd, ids[..i + 1])
      ensures after[base + embd ..] == first[base + embd ..]
    {
      LookupStep(w, vocab, embd, ids, i);
      RowWritten(first, before, after, base, embd, Row(w, embd, ids[i]));
    }

    /** The loop of forward: row i of out becomes the weight row of index[i], for i < seqLen. */
    method Gather(index: array<int>, seqLen: nat, out: array<int>)
      requires Valid()
      requires index != out && seqLen <= index.Length && seqLen * embdDim <= out.Length
      requires InVocabulary(index[..seqLen], vocabDim)
      modifies out
      ensures out[..seqLen * embdDim] == Lookup(w, vocabDim, embdDim, index[..seqLen])
      ensures out[seqLen * embdDim ..] == old(out[seqLen * embdDim ..])
    {
      ghost var ids := index[..seqLen];
      var i := 0;
      var base := 0;
      assert ids[..0] == [];
      while i < seqLen
        invariant 0 <= i <= seqLen && base == i * embdDim && base <= seqLen * embdDim
        invariant InVocabulary(ids[..i], vocabDim)
        invariant out[..base] == Lookup(w, vocabDim, embdDim, ids[..i])
        invariant out[base..] == old(out[base..])
      {
        var wordId := index[i];
        assert wordId == ids[i];
        RowFits(wordId, vocabDim, embdDim);
        RowFits(i, seqLen, embdDim);
        var from := wordId * embdDim;
        ghost var before := out[..];
        CopyRow(out, base, from);
        GatherStep(w, vocabDim, embdDim, ids, i, old(out[..]), before, out[..], base);
        i, base := i + 1, base + embdDim;
      }
      assert ids[..i] == ids;
    }

    /** The memcpy of one row: embd_dim values of the weight from `from` into out at `base`. */
    method CopyRow(out: array<int>, base: nat, from: nat)
      requires Valid()
      requires base + embdDim <= out.Length && from + embdDim <= |w|
      modifies out
      ensures out[..base] == old(out[..base])
      ensures out[base .. base + embdDim] == w[from .. from + embdDim]
      ensures out[base + embdDim ..] == old(out[base + embdDim ..])
    {
      var j := 0;
      while j < embdDim
        invariant 0 <= j <= embdDim
        invariant out[..base] == old(out[..base])
        invariant out[base .. base + j] == w[from .. from + j]
        invariant out[base + j ..] == old(out[base + j ..])
      {
        out[base + j] := w[from + j];
        assert out[base + j + 1 ..] == old(out[base + j + 1 ..]) by {
          assert old(out[base + j ..])[1..] == old(out[base + j + 1 ..]);
        }
        j := j + 1;
      }
    }
  }
}
