/**
 * The three NumPy operations the reader relies on, over opaque words:
 * `np.frombuffer(buf, "<f")`, `a.reshape((h, w, 2))` and `a[..., ::-1]`,
 * plus the row-major flattening that inverts the reshape.
 */
module Arrays {
  import opened Wrappers
  import opened Bytes

  /** An array of shape (h, w, 2), kept as h rows of w cells of 2 components. */
  type Grid = seq<seq<seq<u32>>>

  /** The ValueErrors NumPy raises in these operations. */
  datatype ArrayError =
    | BufferSizeNotMultiple(size: nat)
    | CannotReshape(count: nat, height: nat, width: nat)

  /** `g` has shape (h, w, 2). */
  predicate HasShape(g: Grid, h: nat, w: nat)
  {
    && |g| == h
    && forall r :: 0 <= r < h ==> |g[r]| == w && forall c :: 0 <= c < w ==> |g[r][c]| == 2
  }

  /** `np.frombuffer(buf, "<f")`: fails unless the buffer is a whole number of 4-byte elements. */
  function FromBuffer(buf: seq<byte>): (r: Result<seq<u32>, ArrayError>)
    ensures r.Ok? <==> |buf| % 4 == 0
    ensures r.Err? ==> r.error == BufferSizeNotMultiple(|buf|)
    ensures r.Ok? ==> 4 * |r.value| == |buf| && Unwords(r.value) == buf
  {
    if |buf| % 4 != 0 then Err(BufferSizeNotMultiple(|buf|))
    else
      UnwordsWords(buf);
      Ok(Words(buf))
  }

  /** Removing one row of m words leaves h - 1 rows. */
  lemma DropRow(h: nat, m: nat)
    requires h > 0
    ensures h * m == m + (h - 1) * m
    ensures (h - 1) * m >= 0
  {
  }

  /** The element count of an (h, w, 2) array, written in the orders used here. */
  lemma CountOrders(w: nat, h: nat)
    ensures 2 * w * h == h * (2 * w) == h * w * 2
    ensures 4 * 2 * w * h == 4 * (h * (2 * w))
  {
  }

  /** The first w cells of a row, two consecutive words each. */
  function Cells(data: seq<u32>, w: nat): seq<seq<u32>>
    requires |data| == 2 * w
  {
    if w == 0 then [] else [data[..2]] + Cells(data[2..], w - 1)
  }

  /** `data` regrouped row-major into h rows of w cells of 2 words. */
  function Rows(data: seq<u32>, h: nat, w: nat): Grid
    requires |data| == h * (2 * w)
  {
    if h == 0 then []
    else
      DropRow(h, 2 * w);
      [Cells(data[..2 * w], w)] + Rows(data[2 * w..], h - 1, w)
  }

  /** `data.reshape((h, w, 2))`: fails unless the element count is exactly h * w * 2. */
  function Reshape(data: seq<u32>, h: nat, w: nat): (r: Result<Grid, ArrayError>)
    ensures r.Ok? <==> |data| == h * w * 2
    ensures r.Err? ==> r.error == CannotReshape(|data|, h, w)
    ensures r.Ok? ==> HasShape(r.value, h, w)
  {
    if |data| != h * w * 2 then Err(CannotReshape(|data|, h, w))
    else
      assert |data| == h * (2 * w);
      RowsShape(data, h, w);
      Ok(Rows(data, h, w))
  }

  lemma {:induction false} CellsShape(data: seq<u32>, w: nat)
    requires |data| == 2 * w
    ensures |Cells(data, w)| == w
    ensures forall c :: 0 <= c < w ==> |Cells(data, w)[c]| == 2
  {
    if w > 0 {
      CellsShape(data[2..], w - 1);
    }
  }

  lemma {:induction false} RowsShape(data: seq<u32>, h: nat, w: nat)
    requires |data| == h * (2 * w)
    ensures HasShape(Rows(data, h, w), h, w)
  {
    if h > 0 {
      DropRow(h, 2 * w);
      CellsShape(data[..2 * w], w);
      RowsShape(data[2 * w..], h - 1, w);
    }
  }

  /** Cell c, component k of a row is word 2c + k. */
  lemma {:induction false} CellsAt(data: seq<u32>, w: nat, c: nat, k: nat)
    requires |data| == 2 * w && c < w && k < 2
    ensures |Cells(data, w)| == w && |Cells(data, w)[c]| == 2
    ensures Cells(data, w)[c][k] == data[2 * c + k]
  {
    CellsShape(data, w);
    if c > 0 {
      CellsAt(data[2..], w - 1, c - 1, k);
    }
  }

  /** The position of element (r, c, k) of an (h, w, 2) array in row-major order. */
  function FlatIndex(w: nat, r: nat, c: nat, k: nat): nat
  {
    2 * (r * w + c) + k
  }

  /** Row-major layout: element (r, c, k) of the regrouped array is word 2(r w + c) + k. */
  lemma {:induction false} RowsAt(data: seq<u32>, h: nat, w: nat, r: nat, c: nat, k: nat)
    requires |data| == h * (2 * w) && r < h && c < w && k < 2
    ensures r < |Rows(data, h, w)| && c < |Rows(data, h, w)[r]| && |Rows(data, h, w)[r][c]| == 2
    ensures FlatIndex(w, r, c, k) < |data|
    ensures Rows(data, h, w)[r][c][k] == data[FlatIndex(w, r, c, k)]
  {
    DropRow(h, 2 * w);
    if r == 0 {
      CellsAt(data[..2 * w], w, c, k);
    } else {
      RowsAt(data[2 * w..], h - 1, w, r - 1, c, k);
      DropRow(r, w);
      assert 2 * w + 2 * ((r - 1) * w + c) + k == 2 * (r * w + c) + k;
    }
  }

  /** `s[::-1]`. */
  function Reversed<T>(s: seq<T>): seq<T>
  {
    seq(|s|, i requires 0 <= i < |s| => s[|s| - 1 - i])
  }

  /** `g[..., ::-1]`: every cell's components in reverse order, the layout otherwise unchanged. */
  function ReverseLastAxis(g: Grid): (rg: Grid)
    ensures |rg| == |g|
    ensures forall r :: 0 <= r < |g| ==> |rg[r]| == |g[r]|
  {
    seq(|g|, r requires 0 <= r < |g| =>
      seq(|g[r]|, c requires 0 <= c < |g[r]| => Reversed(g[r][c])))
  }

  /** Reversing twice gives the cell back. */
  lemma ReversedReversed<T>(s: seq<T>)
    ensures Reversed(Reversed(s)) == s
  {
  }

  /** A reversed cell holds the same components. */
  lemma {:induction false} ReversedMultiset<T>(s: seq<T>)
    ensures multiset(Reversed(s)) == multiset(s)
  {
    if s != [] {
      ReversedMultiset(s[1..]);
      assert Reversed(s) == Reversed(s[1..]) + [s[0]];
      assert s == [s[0]] + s[1..];
    }
  }

  /** Reversing the last axis keeps the shape. */
  lemma ReverseLastAxisShape(g: Grid, h: nat, w: nat)
    requires HasShape(g, h, w)
    ensures HasShape(ReverseLastAxis(g), h, w)
  {
  }

  /** Reversing the last axis of an (h, w, 2) array swaps the two components of every cell. */
  lemma ReverseLastAxisAt(g: Grid, r: nat, c: nat, k: nat)
    requires r < |g| && c < |g[r]| && |g[r][c]| == 2 && k < 2
    ensures ReverseLastAxis(g)[r][c][k] == g[r][c][1 - k]
  {
  }

  /** Regrouping words into (h, w, 2) and reversing the last axis puts word 2 (r w + c) + (1 - k) at (r, c, k). */
  lemma ReversedRowsAt(data: seq<u32>, h: nat, w: nat, r: nat, c: nat, k: nat)
    requires |data| == h * (2 * w) && r < h && c < w && k < 2
    ensures r < |ReverseLastAxis(Rows(data, h, w))| && c < |ReverseLastAxis(Rows(data, h, w))[r]|
    ensures |ReverseLastAxis(Rows(data, h, w))[r][c]| == 2
    ensures FlatIndex(w, r, c, 1 - k) < |data|
    ensures ReverseLastAxis(Rows(data, h, w))[r][c][k] == data[FlatIndex(w, r, c, 1 - k)]
  {
    RowsAt(data, h, w, r, c, 1 - k);
    ReverseLastAxisAt(Rows(data, h, w), r, c, k);
  }

  /**
   * `g` is the (h, w, 2) array that `data` reshapes to with each cell reversed:
   * component 0 of cell (r, c) is word 2 (r w + c) + 1 and component 1 is word 2 (r w + c).
   */
  predicate SwappedLayout(g: Grid, data: seq<u32>, h: nat, w: nat)
  {
    && HasShape(g, h, w)
    && |data| == h * (2 * w)
    && forall r, c :: 0 <= r < h && 0 <= c < w ==>
         && FlatIndex(w, r, c, 1) < |data|
         && g[r][c][0] == data[FlatIndex(w, r, c, 1)]
         && g[r][c][1] == data[FlatIndex(w, r, c, 0)]
  }

  /** Reshaping to (h, w, 2) and reversing the last axis gives exactly that layout. */
  lemma ReversedRowsLayout(data: seq<u32>, h: nat, w: nat)
    requires |data| == h * (2 * w)
    ensures SwappedLayout(ReverseLastAxis(Rows(data, h, w)), data, h, w)
  {
    var g := ReverseLastAxis(Rows(data, h, w));
    RowsShape(data, h, w);
    ReverseLastAxisShape(Rows(data, h, w), h, w);
    forall r, c | 0 <= r < h && 0 <= c < w
      ensures FlatIndex(w, r, c, 1) < |data|
      ensures g[r][c][0] == data[FlatIndex(w, r, c, 1)]
      ensures g[r][c][1] == data[FlatIndex(w, r, c, 0)]
    {
      ReversedRowsAt(data, h, w, r, c, 0);
      ReversedRowsAt(data, h, w, r, c, 1);
    }
  }

  /** Reversing the last axis is its own inverse. */
  lemma ReverseLastAxisInvolution(g: Grid)
    ensures ReverseLastAxis(ReverseLastAxis(g)) == g
  {
    var rr := ReverseLastAxis(ReverseLastAxis(g));
    forall r | 0 <= r < |g|
      ensures rr[r] == g[r]
    {
      forall c | 0 <= c < |g[r]|
        ensures rr[r][c] == g[r][c]
      {
        ReversedReversed(g[r][c]);
      }
    }
  }

  /** The words of a row, cell after cell. */
  function FlattenRow(row: seq<seq<u32>>): seq<u32>
  {
    if row == [] then [] else row[0] + FlattenRow(row[1..])
  }

  /** The words of an array in row-major order (what `a.ravel()` and `a.tobytes()` follow). */
  function Flatten(g: Grid): seq<u32>
  {
    if g == [] then [] else FlattenRow(g[0]) + Flatten(g[1..])
  }

  lemma {:induction false} FlattenCells(data: seq<u32>, w: nat)
    requires |data| == 2 * w
    ensures FlattenRow(Cells(data, w)) == data
  {
    if w > 0 {
      FlattenCells(data[2..], w - 1);
      assert data == data[..2] + data[2..];
    }
  }

  /** Flattening the regrouped words gives the words back: the reshape loses and adds nothing. */
  lemma {:induction false} FlattenRows(data: seq<u32>, h: nat, w: nat)
    requires |data| == h * (2 * w)
    ensures Flatten(Rows(data, h, w)) == data
  {
    if h > 0 {
      DropRow(h, 2 * w);
      FlattenCells(data[..2 * w], w);
      FlattenRows(data[2 * w..], h - 1, w);
      assert data == data[..2 * w] + data[2 * w..];
    }
  }

  lemma {:induction false} CellsFlattenRow(row: seq<seq<u32>>, w: nat)
    requires |row| == w && forall c :: 0 <= c < w ==> |row[c]| == 2
    ensures |FlattenRow(row)| == 2 * w
    ensures Cells(FlattenRow(row), w) == row
  {
    if w > 0 {
      CellsFlattenRow(row[1..], w - 1);
      var flat := FlattenRow(row);
      assert flat[..2] == row[0];
      assert flat[2..] == FlattenRow(row[1..]);
      assert Cells(flat, w) == [row[0]] + row[1..];
    }
  }

  /** Regrouping the flattened words of an (h, w, 2) array gives the array back. */
  lemma {:induction false} RowsFlatten(g: Grid, h: nat, w: nat)
    requires HasShape(g, h, w)
    ensures |Flatten(g)| == h * (2 * w)
    ensures Rows(Flatten(g), h, w) == g
  {
    if h > 0 {
      CellsFlattenRow(g[0], w);
      assert HasShape(g[1..], h - 1, w);
      RowsFlatten(g[1..], h - 1, w);
      var flat := Flatten(g);
      assert |flat| == 2 * w + (h - 1) * (2 * w);
      assert flat[..2 * w] == FlattenRow(g[0]);
      assert flat[2 * w..] == Flatten(g[1..]);
      assert Rows(flat, h, w) == [g[0]] + g[1..];
    }
  }

  lemma {:induction false} FlattenRowReversedMultiset(row: seq<seq<u32>>)
    ensures multiset(FlattenRow(seq(|row|, c requires 0 <= c < |row| => Reversed(row[c]))))
         == multiset(FlattenRow(row))
  {
    if row != [] {
      var rev := seq(|row|, c requires 0 <= c < |row| => Reversed(row[c]));
      var tail := seq(|row| - 1, c requires 0 <= c < |row| - 1 => Reversed(row[1..][c]));
      assert rev[1..] == tail;
      ReversedMultiset(row[0]);
      FlattenRowReversedMultiset(row[1..]);
    }
  }

  /** Reversing the last axis only permutes the words: every word is kept, none is added. */
  lemma {:induction false} ReverseLastAxisMultiset(g: Grid)
    ensures multiset(Flatten(ReverseLastAxis(g))) == multiset(Flatten(g))
  {
    if g != [] {
      var rg := ReverseLastAxis(g);
      assert rg[0] == seq(|g[0]|, c requires 0 <= c < |g[0]| => Reversed(g[0][c]));
      assert rg[1..] == ReverseLastAxis(g[1..]);
      FlattenRowReversedMultiset(g[0]);
      ReverseLastAxisMultiset(g[1..]);
    }
  }
}
