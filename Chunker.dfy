/** Splitting the generated rows into bulks of at most NUM_ROWS_BY_CALL rows. */
module Chunker {

  /** The bulks laid end to end, in order. */
  function Concat<T>(bulks: seq<seq<T>>): seq<T>
  {
    if bulks == [] then [] else bulks[0] + Concat(bulks[1..])
  }

  /** PHP's `array_chunk($s, $size)`: consecutive slices of `size` elements, the
      remainder last; an empty input gives no slices at all. */
  function ArrayChunk<T>(s: seq<T>, size: nat): (chunks: seq<seq<T>>)
    requires size > 0
    ensures Concat(chunks) == s
    ensures forall i :: 0 <= i < |chunks| ==> 0 < |chunks[i]| <= size
    ensures forall i :: 0 <= i < |chunks| - 1 ==> |chunks[i]| == size
    ensures s != [] ==> (|chunks| - 1) * size < |s| <= |chunks| * size
    ensures s == [] ==> chunks == []
    decreases |s|
  {
    if |s| <= size then
      if s == [] then [] else [s]
    else
      var rest := ArrayChunk(s[size..], size);
      assert Concat([s[..size]] + rest) == s[..size] + Concat(rest) by {
        assert ([s[..size]] + rest)[1..] == rest;
      }
      [s[..size]] + rest
  }

  /** `getBulksOfEntities`: one bulk holding everything when the limit is unset (0 here,
      `false` in the source) or already large enough, otherwise `array_chunk`. */
  function Chunk<T>(entities: seq<T>, maxSize: nat): (bulks: seq<seq<T>>)
    ensures maxSize == 0 || |entities| <= maxSize ==> bulks == [entities]
    ensures |bulks| >= 1
    ensures Concat(bulks) == entities
    ensures maxSize > 0 && |entities| > maxSize ==>
              && (|bulks| - 1) * maxSize < |entities| <= |bulks| * maxSize
              && (forall i :: 0 <= i < |bulks| - 1 ==> |bulks[i]| == maxSize)
              && 0 < |bulks[|bulks| - 1]| <= maxSize
  {
    if |entities| <= maxSize || maxSize == 0 then
      assert Concat([entities]) == entities + Concat([]);
      [entities]
    else
      ArrayChunk(entities, maxSize)
  }
}
