/** The `flatten` helper on nested arrays: concatenation of the rows, in order. */
module Flattening {

  import Offsets

  function Flatten<T>(rows: seq<seq<T>>): seq<T>
  {
    if |rows| == 0 then [] else rows[0] + Flatten(rows[1..])
  }

  /** Every row has exactly `width` elements. */
  ghost predicate Uniform<T>(rows: seq<seq<T>>, width: nat)
  {
    forall k :: 0 <= k < |rows| ==> |rows[k]| == width
  }

  /** Flattening uniform rows lays row `i` out at offsets `i * width ..< (i + 1) * width`. */
  lemma {:induction false} FlattenAt<T>(rows: seq<seq<T>>, width: nat, i: int, j: int)
    requires Uniform(rows, width)
    requires 0 <= i < |rows| && 0 <= j < width
    ensures |Flatten(rows)| == |rows| * width
    ensures i * width + j < |Flatten(rows)|
    ensures Flatten(rows)[i * width + j] == rows[i][j]
  {
    FlattenLength(rows, width);
    Offsets.OffsetBounds(i, j, |rows|, width);
    if i > 0 {
      FlattenAt(rows[1..], width, i - 1, j);
      assert i * width + j == width + ((i - 1) * width + j);
    }
  }

  lemma {:induction false} FlattenLength<T>(rows: seq<seq<T>>, width: nat)
    requires Uniform(rows, width)
    ensures |Flatten(rows)| == |rows| * width
  {
    if |rows| > 0 {
      FlattenLength(rows[1..], width);
    }
  }

  /** Flattening distributes over concatenation of row sequences. */
  lemma {:induction false} FlattenAppend<T>(a: seq<seq<T>>, b: seq<seq<T>>)
    ensures Flatten(a + b) == Flatten(a) + Flatten(b)
  {
    if |a| > 0 {
      FlattenAppend(a[1..], b);
      assert (a + b)[1..] == a[1..] + b;
    } else {
      assert a + b == b;
    }
  }
}
