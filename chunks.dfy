/**
 * `for (let i = 0; i < rows.length; i += size) rows.slice(i, i + size)`:
 * contiguous chunks of at most `size` rows that cover the list exactly once
 * in `ceil(n / size)` pieces.
 */
module Chunking {
  function Min(a: int, b: int): int {
    if a <= b then a else b
  }

  /** `Math.ceil(n / size)`, counted by whole chunks. */
  function CeilDiv(n: nat, size: nat): nat
    requires size > 0
    decreases n
  {
    if n == 0 then 0 else if n <= size then 1 else 1 + CeilDiv(n - size, size)
  }

  /** `CeilDiv` is the least number of `size`-chunks that holds `n` items. */
  lemma {:induction false} CeilDivIsCeiling(n: nat, size: nat)
    requires size > 0
    ensures CeilDiv(n, size) * size >= n
    ensures n > 0 ==> (CeilDiv(n, size) - 1) * size < n
    decreases n
  {
    if n > size {
      CeilDivIsCeiling(n - size, size);
      var c := CeilDiv(n - size, size);
      assert (c + 1) * size == c * size + size;
      assert c * size == (c - 1) * size + size;
    }
  }

  /** `rows.slice(i, i + size)`. */
  function ChunkAt<T>(rows: seq<T>, i: nat, size: nat): seq<T>
    requires i <= |rows|
  {
    rows[i..Min(i + size, |rows|)]
  }

  /** The chunks the loop visits from offset `i` on. */
  function ChunksFrom<T>(rows: seq<T>, i: nat, size: nat): seq<seq<T>>
    requires size > 0
    decreases |rows| - i
  {
    if i >= |rows| then [] else [ChunkAt(rows, i, size)] + ChunksFrom(rows, i + size, size)
  }

  function Flatten<T>(xss: seq<seq<T>>): seq<T> {
    if xss == [] then [] else xss[0] + Flatten(xss[1..])
  }

  /** Concatenating the chunks gives back the rows from `i` on, in order. */
  lemma {:induction false} ChunksCover<T>(rows: seq<T>, i: nat, size: nat)
    requires size > 0 && i <= |rows|
    ensures Flatten(ChunksFrom(rows, i, size)) == rows[i..]
    decreases |rows| - i
  {
    if i < |rows| {
      var cs := ChunksFrom(rows, i, size);
      var j := Min(i + size, |rows|);
      ChunksCover(rows, j, size);
      if j < i + size {
        assert ChunksFrom(rows, i + size, size) == [];
        assert ChunksFrom(rows, j, size) == [];
      }
      assert cs[1..] == ChunksFrom(rows, i + size, size);
      assert rows[i..] == rows[i..j] + rows[j..];
    }
  }

  /** There are `ceil((n - i) / size)` chunks, none empty and none larger than `size`. */
  lemma {:induction false} ChunkShape<T>(rows: seq<T>, i: nat, size: nat)
    requires size > 0 && i <= |rows|
    ensures |ChunksFrom(rows, i, size)| == CeilDiv(|rows| - i, size)
    ensures forall c :: c in ChunksFrom(rows, i, size) ==> 0 < |c| <= size
    decreases |rows| - i
  {
    if i < |rows| {
      if i + size <= |rows| {
        ChunkShape(rows, i + size, size);
      } else {
        assert ChunksFrom(rows, i + size, size) == [];
      }
    }
  }
}
