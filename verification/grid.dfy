/** Arithmetic of the sampling grid: which offsets a loop stepping by `size`
    visits, how many there are, and the division facts the tile walkers
    need.  Used for rows and columns alike. */
module Grid {

  /** `x` is a multiple of the tile size. */
  predicate Aligned(x: int, size: int)
    requires size > 0
  {
    x % size == 0
  }

  /** Division by a positive `size` is determined by its bounds. */
  lemma DivUnique(a: int, size: int, q: int)
    requires size > 0
    requires q * size <= a < q * size + size
    ensures a / size == q
    ensures a % size == a - q * size
  {
    var d, m := a / size, a % size;
    assert a == d * size + m && 0 <= m < size;
    if d > q {
      MulMonotone(q + 1, d, size);
    } else if d < q {
      MulMonotone(d + 1, q, size);
    }
  }

  /** The quotient and remainder of a division by a positive `size`. */
  lemma DivBounds(a: int, size: int)
    requires size > 0
    ensures a == (a / size) * size + a % size && 0 <= a % size < size
    ensures 0 <= a ==> 0 <= a / size
  {
  }

  lemma MulMonotone(x: int, y: int, size: int)
    requires x <= y && size >= 0
    ensures x * size <= y * size
  {
    assert y * size - x * size == (y - x) * size;
  }

  /** The aligned offsets are exactly the products `i * size`. */
  lemma AlignedProduct(i: int, size: int)
    requires size > 0
    ensures Aligned(i * size, size) && (i * size) / size == i
  {
    DivUnique(i * size, size, i);
  }

  /** Stepping from an aligned offset `x` to `x + size` stays aligned and
      skips no aligned offset: every aligned offset below `x + size` is `x`
      or lies below `x`. */
  lemma NextAligned(x: int, size: int)
    requires size > 0 && Aligned(x, size)
    ensures Aligned(x + size, size)
    ensures forall r {:trigger Aligned(r, size)} :: Aligned(r, size) && r < x + size ==> r <= x
  {
    var q := x / size;
    assert x == q * size;
    AlignedProduct(q + 1, size);
    forall r | Aligned(r, size) && r < x + size
      ensures r <= x
    {
      var p := r / size;
      assert r == p * size;
      if p > q {
        MulMonotone(q + 1, p, size);
      }
      MulMonotone(p, q, size);
    }
  }

  /** Offsets below `n` that are multiples of `size`: what
      `for (x = 0; x < n; x += size)` visits. */
  function Multiples(n: int, size: int): set<int>
    requires size > 0
  {
    set r | 0 <= r < n && Aligned(r, size)
  }

  /** Offsets `x` with `x + size <= n` that are multiples of `size`: the
      tiles of edge `size` that fit whole into `n`. */
  function FullTiles(n: int, size: int): set<int>
    requires size > 0
  {
    set r | 0 <= r && r + size <= n && Aligned(r, size)
  }

  /** `ceil(n / size)`. */
  function CeilDiv(n: nat, size: int): nat
    requires size > 0
  {
    (n + size - 1) / size
  }

  lemma CeilDivStep(n: nat, size: int)
    requires size > 0
    ensures CeilDiv(n + 1, size) == CeilDiv(n, size) + (if Aligned(n, size) then 1 else 0)
  {
    var q, m := n / size, n % size;
    DivBounds(n, size);
    assert (q + 1) * size == q * size + size;
    assert (q + 2) * size == q * size + size + size;
    if m == 0 {
      DivUnique(n + size - 1, size, q);
      DivUnique(n + size, size, q + 1);
    } else {
      DivUnique(n + size - 1, size, q + 1);
      DivUnique(n + size, size, q + 1);
    }
  }

  /** Extending the range by one offset adds that offset when it is aligned. */
  lemma MultiplesStep(n: nat, size: int)
    requires size > 0
    ensures n !in Multiples(n, size)
    ensures Multiples(n + 1, size) ==
      if Aligned(n, size) then Multiples(n, size) + {n} else Multiples(n, size)
  {
  }

  /** One more offset keeps the count of visited offsets equal to
      ceil(n / size). */
  lemma MultiplesCountStep(n: nat, size: int)
    requires size > 0 && |Multiples(n, size)| == CeilDiv(n, size)
    ensures |Multiples(n + 1, size)| == CeilDiv(n + 1, size)
  {
    MultiplesStep(n, size);
    CeilDivStep(n, size);
  }

  /** A stepped loop over `[0, n)` visits ceil(n / size) offsets. */
  lemma {:induction false} MultiplesCount(n: nat, size: int)
    requires size > 0
    ensures |Multiples(n, size)| == CeilDiv(n, size)
  {
    if n == 0 {
      assert Multiples(n, size) == {};
    } else {
      MultiplesCount(n - 1, size);
      MultiplesCountStep(n - 1, size);
    }
  }

  /** There are exactly n / size whole tiles; a partial tile at the end is
      not one of them. */
  lemma FullTilesCount(n: nat, size: int)
    requires size > 0
    ensures |FullTiles(n, size)| == n / size
  {
    if n < size {
      DivUnique(n, size, 0);
      assert FullTiles(n, size) == {};
    } else {
      assert FullTiles(n, size) == Multiples(n - size + 1, size);
      MultiplesCount(n - size + 1, size);
    }
  }

  /** An aligned offset whose tile fits into `n` lies below
      (n / size) * size, the bound of `for (x = 0; x < n / size; x++)`
      scaled by `size`. */
  lemma FullTileBound(r: int, n: int, size: int)
    requires size > 0 && 0 <= n
    ensures Aligned(r, size) && 0 <= r && r + size <= n ==> r < (n / size) * size
  {
    var b := n / size;
    assert n == b * size + n % size;
    var p := r / size;
    assert r == p * size + r % size;
    if Aligned(r, size) && 0 <= r && r + size <= n {
      if p >= b {
        MulMonotone(b + 1, p + 1, size);
      }
    }
  }

  /** Conversely, every tile index below n / size gives a tile that fits
      whole into `n`. */
  lemma WholeTileIndex(p: int, n: int, size: int)
    requires size > 0 && 0 <= n
    ensures 0 <= p < n / size ==> p * size + size <= n
  {
    var b := n / size;
    assert n == b * size + n % size;
    if 0 <= p < b {
      MulMonotone(p + 1, b, size);
    }
  }

  /** The cells of a grid whose rows come from `rows` and columns from
      `cols`. */
  function Product(rows: set<int>, cols: set<int>): set<(int, int)>
  {
    set r, c | r in rows && c in cols :: (r, c)
  }

  function RowOf(r: int, cols: set<int>): set<(int, int)>
  {
    set c | c in cols :: (r, c)
  }

  /** Every element of `s` lies in `[0, n)`. */
  ghost predicate Within(s: set<int>, n: int)
  {
    forall x :: x in s ==> 0 <= x < n
  }

  lemma {:induction false} RowOfCount(r: int, cols: set<int>, m: nat)
    requires Within(cols, m)
    ensures |RowOf(r, cols)| == |cols|
  {
    if m == 0 {
      assert forall c :: c !in cols;
      assert RowOf(r, cols) == {};
    } else {
      var rest := cols - {m - 1};
      RowOfCount(r, rest, m - 1);
      if m - 1 in cols {
        assert RowOf(r, cols) == RowOf(r, rest) + {(r, m - 1)};
      } else {
        assert rest == cols;
      }
    }
  }

  /** Adding row `r` to a grid adds the cells of that row, none of which
      were there before. */
  lemma ProductStep(rows: set<int>, cols: set<int>, r: int)
    requires r !in rows
    ensures Product(rows + {r}, cols) == Product(rows, cols) + RowOf(r, cols)
    ensures Product(rows, cols) !! RowOf(r, cols)
  {
  }

  lemma SuccTimes(a: nat, b: nat)
    ensures (a + 1) * b == a * b + b
  {
  }

  /** The number of cells of a grid is the product of its dimensions. */
  lemma {:induction false} ProductCount(rows: set<int>, cols: set<int>, n: nat, m: nat)
    requires Within(rows, n) && Within(cols, m)
    ensures |Product(rows, cols)| == |rows| * |cols|
  {
    if n == 0 {
      assert forall r :: r !in rows;
      assert Product(rows, cols) == {};
    } else {
      var rest := rows - {n - 1};
      ProductCount(rest, cols, n - 1, m);
      if n - 1 in rows {
        RowOfCount(n - 1, cols, m);
        assert rows == rest + {n - 1};
        ProductStep(rest, cols, n - 1);
        SuccTimes(|rest|, |cols|);
      } else {
        assert rest == rows;
      }
    }
  }
}
