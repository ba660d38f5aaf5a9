/** lodash's `_chunk`: a sequence cut into consecutive rows of a fixed size. */
module Chunking {

  function Flatten<T>(rows: seq<seq<T>>): seq<T> {
    if rows == [] then [] else rows[0] + Flatten(rows[1..])
  }

  /** `_chunk(s, size)`: rows of `size` elements in order; only the last row
      may be shorter, and no row is empty. */
  function Chunk<T>(s: seq<T>, size: nat): (rows: seq<seq<T>>)
    requires size > 0
    ensures Flatten(rows) == s
    ensures forall r :: 0 <= r < |rows| ==> 0 < |rows[r]| <= size
    ensures forall r :: 0 <= r < |rows| - 1 ==> |rows[r]| == size
    decreases |s|
  {
    if |s| == 0 then []
    else if |s| <= size then
      assert Flatten([s]) == s + Flatten([]);
      [s]
    else
      var rest := Chunk(s[size..], size);
      assert ([s[..size]] + rest)[1..] == rest;
      [s[..size]] + rest
  }

  /** Seven times `k` elements cut by seven give `k` full rows in row-major
      order (the picker's weeks). */
  lemma {:induction false} ChunkWeeks<T>(s: seq<T>, k: nat)
    requires |s| == 7 * k
    ensures |Chunk(s, 7)| == k
    ensures forall r :: 0 <= r < k ==> |Chunk(s, 7)[r]| == 7
    ensures forall r, c :: 0 <= r < k && 0 <= c < 7 ==> Chunk(s, 7)[r][c] == s[7 * r + c]
    decreases k
  {
    if k == 0 {
      assert |s| == 0;
    } else if k == 1 {
      assert |s| == 7;
    } else {
      ChunkWeeks(s[7..], k - 1);
      var rows := Chunk(s, 7);
      var rest := Chunk(s[7..], 7);
      assert rows == [s[..7]] + rest;
      assert forall r :: 0 <= r < k ==> |rows[r]| == 7;
      forall r, c | 0 <= r < k && 0 <= c < 7
        ensures rows[r][c] == s[7 * r + c]
      {
        if r > 0 {
          assert rows[r] == rest[r - 1];
        }
      }
    }
  }
}
