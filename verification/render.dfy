/**
  The render driver of 04_pathtrace.cpp: `pathtrace(scene, image, rngs,
  offset_row, skip_row, verbose)` renders the rows `offset_row,
  offset_row + skip_row, ...`; `pathtrace(scene, multithread)` starts one
  worker per hardware thread, worker `t` of `T` taking offset `t` and stride
  `T`, or renders every row itself.

  Workers are modelled by the cells they write, not by threads. A pixel cell
  and the random generator of that pixel are addressed by the same `(i, j)`,
  so `WorkerCells` is at once the set of image cells a worker writes and the
  set of generators it advances. The radiance of a sample is a parameter:
  it stands for the camera ray, the path integrator and the draws from the
  pixel's own generator, which only the pixel's owner touches.
 */
module Render {
  import opened Numeric
  import opened Colour

  // ---------------------------------------------------------------------------
  // Integer facts

  /** A non-zero multiple of a positive number is at least that number away from zero. */
  lemma MulSign(m: int, n: int)
    requires 1 <= n
    ensures m >= 1 ==> m * n >= n
    ensures m <= -1 ==> m * n <= -n
  {
    if m >= 1 {
      assert (m - 1) * n >= 0;
    }
    if m <= -1 {
      assert (-m - 1) * n >= 0;
    }
  }

  lemma MulStrict(a: int, b: int, n: int)
    requires a < b && 1 <= n
    ensures a * n < b * n
  {
    MulSign(b - a, n);
    assert (b - a) * n == b * n - a * n;
  }

  lemma MulMonotoneInt(a: int, b: int, n: int)
    requires 0 <= n
    ensures a <= b ==> a * n <= b * n
  {
    if a <= b {
      assert (b - a) * n >= 0;
    }
  }

  /** Quotient and remainder are the only such pair: `k * n + r` with `r` in
      `[0, n)` has quotient `k` and remainder `r`. */
  lemma DivModUnique(j: int, n: int, k: int, r: int)
    requires 1 <= n && 0 <= r < n && j == k * n + r
    ensures j / n == k && j % n == r
  {
    var q, r' := j / n, j % n;
    assert (k - q) * n == r' - r;
    MulSign(k - q, n);
  }

  // ---------------------------------------------------------------------------
  // Row partition

  /** The rows visited by `for (j = offset; j < height; j += stride)`, in the
      order they are visited: the `k`-th is `offset + k * stride`, each lies
      below `height`, and the next one after the last does not. */
  function StrideRows(offset: int, stride: int, height: int): (rows: seq<int>)
    requires 1 <= stride
    ensures forall k :: 0 <= k < |rows| ==> rows[k] == offset + k * stride
    ensures forall k :: 0 <= k < |rows| ==> rows[k] < height
    ensures offset + |rows| * stride >= height
    decreases height - offset
  {
    if offset >= height then []
    else [offset] + StrideRows(offset + stride, stride, height)
  }

  /** Row `j` of the image is visited by the worker of offset `t` exactly
      when `j` leaves remainder `t` modulo the stride. */
  lemma StrideRowsMembership(j: int, t: int, stride: int, height: int)
    requires 1 <= stride && 0 <= t < stride && 0 <= j < height
    ensures j in StrideRows(t, stride, height) <==> j % stride == t
  {
    var rows := StrideRows(t, stride, height);
    var q, r := j / stride, j % stride;
    if r == t {
      assert j == t + q * stride;
      MulMonotoneInt(|rows|, q, stride);
      assert rows[q] == j;
    }
    if j in rows {
      var k :| 0 <= k < |rows| && rows[k] == j;
      DivModUnique(j, stride, k, t);
    }
  }

  /** Worker `t` of `workers` visits only rows of remainder `t`, and each such
      row of the image; so every row belongs to exactly one worker, the one
      numbered by its remainder. */
  lemma {:induction false} RowOwnedByOneWorker(j: int, workers: int, height: int)
    requires 1 <= workers && 0 <= j < height
    ensures forall t :: 0 <= t < workers ==> (j in StrideRows(t, workers, height) <==> t == j % workers)
  {
    forall t | 0 <= t < workers
      ensures j in StrideRows(t, workers, height) <==> t == j % workers
    {
      StrideRowsMembership(j, t, workers, height);
    }
  }

  /** A worker visits only rows of the image, and no row twice. */
  lemma WorkerRowsInImage(t: int, workers: int, height: int)
    requires 0 <= t < workers
    ensures forall j :: j in StrideRows(t, workers, height) ==> 0 <= j < height && j % workers == t
    ensures forall a, b :: 0 <= a < b < |StrideRows(t, workers, height)| ==>
              StrideRows(t, workers, height)[a] < StrideRows(t, workers, height)[b]
  {
    StrideRowsRemainder(t, workers, height);
    StrideRowsIncreasing(t, workers, height);
  }

  lemma StrideRowsRemainder(t: int, workers: int, height: int)
    requires 0 <= t < workers
    ensures forall j :: j in StrideRows(t, workers, height) ==> 0 <= j < height && j % workers == t
  {
    var rows := StrideRows(t, workers, height);
    forall j | j in rows
      ensures 0 <= j < height && j % workers == t
    {
      var k :| 0 <= k < |rows| && rows[k] == j;
      MulMonotoneInt(0, k, workers);
      DivModUnique(j, workers, k, t);
    }
  }

  lemma StrideRowsIncreasing(offset: int, stride: int, height: int)
    requires 1 <= stride
    ensures forall a, b :: 0 <= a < b < |StrideRows(offset, stride, height)| ==>
              StrideRows(offset, stride, height)[a] < StrideRows(offset, stride, height)[b]
  {
    var rows := StrideRows(offset, stride, height);
    forall a, b | 0 <= a < b < |rows|
      ensures rows[a] < rows[b]
    {
      MulStrict(a, b, stride);
    }
  }

  /** Two different workers never share a row. */
  lemma {:induction false} WorkersShareNoRow(t1: int, t2: int, workers: int, height: int)
    requires 1 <= workers && 0 <= t1 < workers && 0 <= t2 < workers && t1 != t2
    ensures forall j :: j in StrideRows(t1, workers, height) ==> j !in StrideRows(t2, workers, height)
  {
    WorkerRowsInImage(t1, workers, height);
    WorkerRowsInImage(t2, workers, height);
  }

  /** The single-threaded call `pathtrace(scene, &image, &rngs, 0, 1, true)`
      visits every row once, in order. */
  lemma SingleWorkerVisitsEveryRow(height: nat)
    ensures StrideRows(0, 1, height) == seq(height, k => k)
  {
    var rows := StrideRows(0, 1, height);
    if |rows| > 0 {
      assert rows[|rows| - 1] == |rows| - 1;
    }
    assert |rows| == height;
  }

  // ---------------------------------------------------------------------------
  // Cells a worker writes

  datatype Cell = Cell(i: int, j: int)

  /** The pixel `c` lies in an image `width` by `height`. */
  predicate InImage(c: Cell, width: int, height: int) {
    0 <= c.i < width && 0 <= c.j < height
  }

  /** The cells of an image `width` by `height`. */
  function Cells(width: int, height: int): (cs: set<Cell>)
    ensures forall c :: c in cs <==> InImage(c, width, height)
  {
    var cs := set i, j | 0 <= i < width && 0 <= j < height :: Cell(i, j);
    assert forall c :: InImage(c, width, height) ==> Cell(c.i, c.j) in cs;
    cs
  }

  /** A sequence of cells with no cell twice: the first cell does not recur
      and the rest has no cell twice. */
  predicate Distinct(cs: seq<Cell>)
    decreases |cs|
  {
    |cs| == 0 || (cs[0] !in cs[1..] && Distinct(cs[1..]))
  }

  /** No cell twice means different positions hold different cells. */
  lemma {:induction false} DistinctPairwise(cs: seq<Cell>)
    ensures Distinct(cs) <==> forall a, b :: 0 <= a < b < |cs| ==> cs[a] != cs[b]
    decreases |cs|
  {
    if |cs| > 0 {
      var tail := cs[1..];
      DistinctPairwise(tail);
      assert forall k :: 0 <= k < |tail| ==> tail[k] == cs[k + 1];
      if forall a, b :: 0 <= a < b < |cs| ==> cs[a] != cs[b] {
        assert forall a, b :: 0 <= a < b < |tail| ==> tail[a] != tail[b] by {
          forall a, b | 0 <= a < b < |tail|
            ensures tail[a] != tail[b]
          {
            assert cs[a + 1] != cs[b + 1];
          }
        }
        assert cs[0] !in tail by {
          forall k | 0 <= k < |tail|
            ensures tail[k] != cs[0]
          {
            assert cs[0] != cs[k + 1];
          }
        }
      }
      if Distinct(cs) {
        forall a, b | 0 <= a < b < |cs|
          ensures cs[a] != cs[b]
        {
          if a == 0 {
            assert cs[b] == tail[b - 1];
          } else {
            assert cs[a] == tail[a - 1] && cs[b] == tail[b - 1];
          }
        }
      }
    }
  }

  /** The cells written for the given rows, row by row and column by column. */
  function CellsOfRows(rows: seq<int>, width: nat): (cs: seq<Cell>)
    ensures forall c :: c in cs <==> 0 <= c.i < width && c.j in rows
    ensures (forall a, b :: 0 <= a < b < |rows| ==> rows[a] != rows[b]) ==> Distinct(cs)
  {
    if |rows| == 0 then []
    else
      var row := seq(width, i => Cell(i, rows[0]));
      var rest := CellsOfRows(rows[1..], width);
      assert forall c :: c in row <==> 0 <= c.i < width && c.j == rows[0] by {
        forall c: Cell | 0 <= c.i < width && c.j == rows[0]
          ensures c in row
        {
          assert row[c.i] == c;
        }
      }
      assert forall j :: j in rows <==> j == rows[0] || j in rows[1..];
      if forall a, b :: 0 <= a < b < |rows| ==> rows[a] != rows[b] then
        assert forall a, b :: 0 <= a < b < |rows[1..]| ==> rows[1..][a] != rows[1..][b] by {
          forall a, b | 0 <= a < b < |rows[1..]|
            ensures rows[1..][a] != rows[1..][b]
          {
            assert rows[1..][a] == rows[a + 1] && rows[1..][b] == rows[b + 1];
          }
        }
        assert rows[0] !in rows[1..];
        DistinctPairwise(row);
        ConcatDistinct(row, rest);
        row + rest
      else
        row + rest
  }

  /** Concatenating two cell sequences without repeats and without a common
      cell gives a sequence without repeats. */
  lemma ConcatDistinct(a: seq<Cell>, b: seq<Cell>)
    requires Distinct(a) && Distinct(b)
    requires forall c :: c in a ==> c !in b
    ensures Distinct(a + b)
  {
    DistinctPairwise(a);
    DistinctPairwise(b);
    DistinctPairwise(a + b);
    forall x, y | 0 <= x < y < |a + b|
      ensures (a + b)[x] != (a + b)[y]
    {
      if y < |a| {
      } else if x >= |a| {
        assert (a + b)[x] == b[x - |a|] && (a + b)[y] == b[y - |a|];
      } else {
        assert (a + b)[x] in a && (a + b)[y] == b[y - |a|];
      }
    }
  }

  /** The cells worker `t` of `workers` writes in an image `width` by
      `height`, in the order it writes them; the same cells index the random
      generators it advances. */
  function WorkerCells(t: int, workers: int, width: nat, height: int): seq<Cell>
    requires 0 <= t && 1 <= workers
  {
    CellsOfRows(StrideRows(t, workers, height), width)
  }

  /** Single writer: every cell of the image is written (and its generator
      advanced) by exactly one worker, the one numbered by the cell's row
      remainder, and that worker visits it exactly once. */
  lemma {:induction false} CellHasOneWriter(c: Cell, workers: int, width: nat, height: int)
    requires 1 <= workers
    requires c in Cells(width, height)
    ensures forall t :: 0 <= t < workers ==> (c in WorkerCells(t, workers, width, height) <==> t == c.j % workers)
    ensures 0 <= c.j % workers < workers
    ensures Distinct(WorkerCells(c.j % workers, workers, width, height))
  {
    RowOwnedByOneWorker(c.j, workers, height);
    WorkerRowsInImage(c.j % workers, workers, height);
  }

  /** A worker writes only inside the image. */
  lemma WorkerStaysInImage(t: int, workers: int, width: nat, height: int)
    requires 0 <= t < workers
    ensures forall c :: c in WorkerCells(t, workers, width, height) ==> InImage(c, width, height)
  {
    WorkerRowsInImage(t, workers, height);
  }

  // ---------------------------------------------------------------------------
  // Assembling the image

  type Frame = map<Cell, Vec3>

  /** The state of one pixel's random generator, `rngs->at(i, j)`. Its
      internals are not modelled. */
  type Rng = int

  /** The body of the per-pixel loop of the row routine, run with the pixel's
      own generator: clear the pixel, accumulate its samples, divide by their
      number. It gives the pixel's colour and the generator's advanced state. */
  type PixelWork = (Cell, Rng) -> (Vec3, Rng)

  /** What the workers share: the image and the per-pixel generators. */
  datatype Canvas = Canvas(image: Frame, rngs: map<Cell, Rng>)

  /** A worker rendering `cells` in order. Each cell's colour and generator
      become the result of the pixel work on the generator's current state;
      every other cell keeps its colour and generator (`PaintOnce` says what a
      listed cell ends with). */
  function Paint(s: Canvas, cells: seq<Cell>, work: PixelWork): (r: Canvas)
    requires forall c :: c in cells ==> c in s.rngs
    ensures forall c {:trigger c in r.image} :: c in r.image <==> c in s.image || c in cells
    ensures forall c {:trigger c in r.rngs} :: c in r.rngs <==> c in s.rngs
    ensures forall c {:trigger r.image[c]} :: c in s.image && c !in cells ==> r.image[c] == s.image[c]
    ensures forall c {:trigger r.rngs[c]} :: c in s.rngs && c !in cells ==> r.rngs[c] == s.rngs[c]
    decreases |cells|
  {
    if |cells| == 0 then s
    else
      var c0 := cells[0];
      var out := work(c0, s.rngs[c0]);
      Paint(Canvas(s.image[c0 := out.0], s.rngs[c0 := out.1]), cells[1..], work)
  }

  /** A worker that lists no cell twice leaves each of its cells with the
      colour and generator that the pixel work gives on the state the cell's
      generator had before the worker ran. */
  lemma {:induction false} PaintOnce(s: Canvas, cells: seq<Cell>, work: PixelWork)
    requires forall c :: c in cells ==> c in s.rngs
    requires Distinct(cells)
    ensures forall c {:trigger Paint(s, cells, work).image[c]} ::
              c in cells ==> Paint(s, cells, work).image[c] == work(c, s.rngs[c]).0
    ensures forall c {:trigger Paint(s, cells, work).rngs[c]} ::
              c in cells ==> Paint(s, cells, work).rngs[c] == work(c, s.rngs[c]).1
    decreases |cells|
  {
    if |cells| > 0 {
      var c0 := cells[0];
      var out := work(c0, s.rngs[c0]);
      var next := Canvas(s.image[c0 := out.0], s.rngs[c0 := out.1]);
      PaintOnce(next, cells[1..], work);
      assert Paint(s, cells, work) == Paint(next, cells[1..], work);
      forall c | c in cells
        ensures Paint(s, cells, work).image[c] == work(c, s.rngs[c]).0
        ensures Paint(s, cells, work).rngs[c] == work(c, s.rngs[c]).1
      {
        if c != c0 {
          assert c in cells[1..];
          assert next.rngs[c] == s.rngs[c];
        }
      }
    }
  }

  /** A cell rendered twice is rendered the second time with its advanced
      generator: unless the pixel work happens to repeat its colour on that
      state, visiting a cell twice leaves a different colour from visiting it
      once. The image is determined because each pixel has one writer that
      visits it once (`CellHasOneWriter`). */
  lemma PaintTwiceDiffers(s: Canvas, c: Cell, work: PixelWork)
    requires c in s.rngs
    requires work(c, work(c, s.rngs[c]).1).0 != work(c, s.rngs[c]).0
    ensures Paint(s, [c, c], work).image[c] != Paint(s, [c], work).image[c]
  {
  }

  /** Two workers with disjoint cells, each visiting its cells once, one
      after the other: each cell of either holds the pixel work of its initial
      generator state, and every other cell is untouched. */
  lemma TwoWorkers(s: Canvas, a: seq<Cell>, b: seq<Cell>, work: PixelWork)
    requires forall c :: c in a ==> c in s.rngs
    requires forall c :: c in b ==> c in s.rngs
    requires Distinct(a) && Distinct(b)
    requires forall c :: c in a ==> c !in b
    ensures forall c {:trigger c in Paint(Paint(s, a, work), b, work).image} ::
              c in Paint(Paint(s, a, work), b, work).image <==> c in s.image || c in a || c in b
    ensures forall c {:trigger c in Paint(Paint(s, a, work), b, work).rngs} ::
              c in Paint(Paint(s, a, work), b, work).rngs <==> c in s.rngs
    ensures forall c {:trigger Paint(Paint(s, a, work), b, work).image[c]} ::
              c in Paint(Paint(s, a, work), b, work).image ==>
                Paint(Paint(s, a, work), b, work).image[c]
                == if c in a || c in b then work(c, s.rngs[c]).0 else s.image[c]
    ensures forall c {:trigger Paint(Paint(s, a, work), b, work).rngs[c]} ::
              c in Paint(Paint(s, a, work), b, work).rngs ==>
                Paint(Paint(s, a, work), b, work).rngs[c]
                == if c in a || c in b then work(c, s.rngs[c]).1 else s.rngs[c]
  {
    var sa := Paint(s, a, work);
    PaintOnce(s, a, work);
    PaintOnce(sa, b, work);
    forall c | c in a
      ensures Paint(sa, b, work).image[c] == work(c, s.rngs[c]).0
      ensures Paint(sa, b, work).rngs[c] == work(c, s.rngs[c]).1
    {
      assert c !in b;
    }
  }

  /** Two workers with disjoint cells, each visiting its cells once, give the
      same image and generators in either order. */
  lemma PaintOrderIrrelevant(s: Canvas, a: seq<Cell>, b: seq<Cell>, work: PixelWork)
    requires forall c :: c in a ==> c in s.rngs
    requires forall c :: c in b ==> c in s.rngs
    requires Distinct(a) && Distinct(b)
    requires forall c :: c in a ==> c !in b
    ensures Paint(Paint(s, a, work), b, work) == Paint(Paint(s, b, work), a, work)
  {
    var ab := Paint(Paint(s, a, work), b, work);
    var ba := Paint(Paint(s, b, work), a, work);
    TwoWorkers(s, a, b, work);
    TwoWorkers(s, b, a, work);
    assert ab.image == ba.image;
    assert ab.rngs == ba.rngs;
  }

  /** Painting pixels of the image onto a canvas over the image keeps it over the image. */
  lemma PaintWithin(s: Canvas, cells: seq<Cell>, work: PixelWork, width: int, height: int)
    requires forall c :: c in cells ==> c in s.rngs
    requires forall c :: c in s.image <==> InImage(c, width, height)
    requires forall c :: c in cells ==> InImage(c, width, height)
    ensures forall c :: c in Paint(s, cells, work).image <==> InImage(c, width, height)
  {
  }

  /** Which cells each worker writes, by worker number. */
  type Assignment = nat -> seq<Cell>

  /** The stride partition of `pathtrace(scene, multithread)`: worker `t` of
      `workers` takes the rows `t, t + workers, ...`. */
  function StrideAssignment(workers: int, width: nat, height: int): Assignment
    requires 1 <= workers
  {
    (t: nat) => WorkerCells(t, workers, width, height)
  }

  /** Workers `0 .. count - 1` of an assignment, run one after another. When
      their cells are disjoint and each visits its cells once, the order of two
      workers does not matter (`PaintOrderIrrelevant`), so sequential order
      stands for any schedule of whole workers; because a worker touches only
      its own pixels and generators, it stands for any interleaving too. */
  function RunWorkers(s: Canvas, count: nat, assign: Assignment, work: PixelWork): (r: Canvas)
    requires forall t: nat, c :: t < count && c in assign(t) ==> c in s.rngs
    ensures forall c {:trigger c in r.rngs} :: c in r.rngs <==> c in s.rngs
  {
    if count == 0 then s
    else Paint(RunWorkers(s, count - 1, assign, work), assign(count - 1), work)
  }

  /** A cell that none of workers `0 .. count - 1` lists keeps its colour
      and generator. */
  lemma {:induction false} RunWorkersKeeps(s: Canvas, count: nat, assign: Assignment, work: PixelWork, c: Cell)
    requires forall t: nat, c' :: t < count && c' in assign(t) ==> c' in s.rngs
    requires c in s.image && c in s.rngs
    requires forall t: nat :: t < count ==> c !in assign(t)
    ensures c in RunWorkers(s, count, assign, work).image
    ensures RunWorkers(s, count, assign, work).image[c] == s.image[c]
    ensures RunWorkers(s, count, assign, work).rngs[c] == s.rngs[c]
  {
    if count > 0 {
      RunWorkersKeeps(s, count - 1, assign, work, c);
    }
  }

  /** After workers `0 .. count - 1` ran, a cell whose owner (the only one of
      them listing it, listing it once) is among them holds the pixel work of
      its initial generator state, and its generator has advanced once. */
  lemma {:induction false} RunWorkersWrites(s: Canvas, count: nat, assign: Assignment, work: PixelWork,
                                           c: Cell, owner: nat)
    requires forall t: nat, c' :: t < count && c' in assign(t) ==> c' in s.rngs
    requires c in s.image && c in s.rngs
    requires owner < count && Distinct(assign(owner))
    requires forall t: nat :: t < count ==> (c in assign(t) <==> t == owner)
    ensures c in RunWorkers(s, count, assign, work).image
    ensures RunWorkers(s, count, assign, work).image[c] == work(c, s.rngs[c]).0
    ensures RunWorkers(s, count, assign, work).rngs[c] == work(c, s.rngs[c]).1
  {
    if owner == count - 1 {
      OwnerWrites(s, count, assign, work, c);
    } else {
      RunWorkersWrites(s, count - 1, assign, work, c, owner);
      var prev := RunWorkers(s, count - 1, assign, work);
      assert c !in assign(count - 1);
      assert c in prev.image && c in prev.rngs;
    }
  }

  /** The step of `RunWorkersWrites` where the owner is the last worker to run. */
  lemma OwnerWrites(s: Canvas, count: nat, assign: Assignment, work: PixelWork, c: Cell)
    requires 1 <= count
    requires forall t: nat, c' :: t < count && c' in assign(t) ==> c' in s.rngs
    requires c in s.image && c in s.rngs
    requires Distinct(assign(count - 1)) && c in assign(count - 1)
    requires forall t: nat :: t < count - 1 ==> c !in assign(t)
    ensures RunWorkers(s, count, assign, work).image[c] == work(c, s.rngs[c]).0
    ensures RunWorkers(s, count, assign, work).rngs[c] == work(c, s.rngs[c]).1
  {
    var prev := RunWorkers(s, count - 1, assign, work);
    RunWorkersKeeps(s, count - 1, assign, work, c);
    PaintOnce(prev, assign(count - 1), work);
  }

  /** Workers that write only pixels of the image leave an image with exactly its pixels. */
  lemma {:induction false} RunWorkersKeys(s: Canvas, count: nat, assign: Assignment, work: PixelWork,
                                         width: int, height: int)
    requires forall t: nat, c :: t < count && c in assign(t) ==> c in s.rngs
    requires forall c :: c in s.image <==> InImage(c, width, height)
    requires forall t: nat, c :: t < count && c in assign(t) ==> InImage(c, width, height)
    ensures forall c :: c in RunWorkers(s, count, assign, work).image <==> InImage(c, width, height)
  {
    if count > 0 {
      RunWorkersKeys(s, count - 1, assign, work, width, height);
      PaintWithin(RunWorkers(s, count - 1, assign, work), assign(count - 1), work, width, height);
    }
  }

  /** The stride partition over `workers` workers writes only inside the
      image; each worker visits each of its pixels once; and a pixel of the
      image is written by worker `t` exactly when `t` is its row modulo
      `workers`, which is one of the started workers. */
  lemma StrideAssignmentCovers(workers: int, width: nat, height: int)
    requires 1 <= workers
    ensures forall t: nat, c :: t < workers && c in StrideAssignment(workers, width, height)(t) ==> InImage(c, width, height)
    ensures forall t: nat :: t < workers ==> Distinct(StrideAssignment(workers, width, height)(t))
    ensures forall c :: InImage(c, width, height) ==> 0 <= c.j % workers < workers
    ensures forall c :: InImage(c, width, height) ==>
              forall t: nat :: t < workers ==> (c in StrideAssignment(workers, width, height)(t) <==> t == c.j % workers)
  {
    var assign := StrideAssignment(workers, width, height);
    forall t: nat, c | t < workers && c in assign(t)
      ensures InImage(c, width, height)
    {
      WorkerStaysInImage(t, workers, width, height);
    }
    forall t: nat | t < workers
      ensures Distinct(assign(t))
    {
      WorkerRowsInImage(t, workers, height);
    }
    forall c | InImage(c, width, height)
      ensures forall t: nat :: t < workers ==> (c in assign(t) <==> t == c.j % workers)
    {
      CellHasOneWriter(c, workers, width, height);
    }
  }

  /** The image as allocated: every cell zero. */
  function Blank(width: nat, height: int): Frame {
    map c | c in Cells(width, height) :: Zero
  }

  /** The image and the per-pixel generators as `pathtrace(scene, multithread)`
      allocates them; `seed(c)` is the initial state of pixel `c`'s generator. */
  function Start(width: nat, height: int, seed: Cell -> Rng): Canvas {
    Canvas(Blank(width, height), map c | c in Cells(width, height) :: seed(c))
  }

  /** `pathtrace(scene, multithread)` with `hardware` hardware threads: one
      worker per thread in the stride partition, or a single worker of stride
      one. With no hardware thread reported the multithreaded driver starts no
      worker and returns the image as allocated. */
  function Pathtrace(width: nat, height: int, multithread: bool, hardware: nat, work: PixelWork,
                     seed: Cell -> Rng): (r: Frame)
    ensures multithread && hardware == 0 ==> r == Blank(width, height)
    ensures !multithread || 1 <= hardware ==> forall c :: c in r <==> InImage(c, width, height)
  {
    var workers := if multithread then hardware else 1;
    if workers == 0 then Blank(width, height)
    else
      StrideAssignmentCovers(workers, width, height);
      var assign := StrideAssignment(workers, width, height);
      RunWorkersKeys(Start(width, height, seed), workers, assign, work, width, height);
      RunWorkers(Start(width, height, seed), workers, assign, work).image
  }

  /** The image every pixel of which is the pixel work of its own
      generator's initial state. */
  function Reference(width: nat, height: int, work: PixelWork, seed: Cell -> Rng): Frame {
    map c | c in Cells(width, height) :: work(c, seed(c)).0
  }

  /** Whenever at least one worker runs, a pixel of the image ends with the
      pixel work of its own generator's initial state. */
  lemma PathtracePixel(width: nat, height: int, multithread: bool, hardware: nat, work: PixelWork,
                       seed: Cell -> Rng, c: Cell)
    requires !multithread || 1 <= hardware
    requires InImage(c, width, height)
    ensures Pathtrace(width, height, multithread, hardware, work, seed)[c] == work(c, seed(c)).0
  {
    var workers := if multithread then hardware else 1;
    PathtraceRunsWorkers(width, height, multithread, hardware, work, seed);
    StridePixel(width, height, workers, work, seed, c);
  }

  /** With at least one worker, the driver's image is what the workers of
      the stride partition leave on the allocated canvas. */
  lemma PathtraceRunsWorkers(width: nat, height: int, multithread: bool, hardware: nat, work: PixelWork,
                             seed: Cell -> Rng)
    requires !multithread || 1 <= hardware
    ensures StrideCovers(width, height, if multithread then hardware else 1, seed)
    ensures Pathtrace(width, height, multithread, hardware, work, seed)
            == RunWorkers(Start(width, height, seed), if multithread then hardware else 1,
                          StrideAssignment(if multithread then hardware else 1, width, height), work).image
  {
    StrideAssignmentCovers(if multithread then hardware else 1, width, height);
  }

  /** Every cell the stride partition assigns has a generator on the allocated canvas. */
  predicate StrideCovers(width: nat, height: int, workers: nat, seed: Cell -> Rng)
    requires 1 <= workers
  {
    forall t: nat, c :: t < workers && c in StrideAssignment(workers, width, height)(t) ==> c in Start(width, height, seed).rngs
  }

  /** With `workers` workers of the stride partition, a pixel of the image
      ends with the pixel work of its own generator's initial state. */
  lemma StridePixel(width: nat, height: int, workers: nat, work: PixelWork, seed: Cell -> Rng, c: Cell)
    requires 1 <= workers && StrideCovers(width, height, workers, seed)
    requires InImage(c, width, height)
    ensures c in RunWorkers(Start(width, height, seed), workers, StrideAssignment(workers, width, height), work).image
    ensures RunWorkers(Start(width, height, seed), workers, StrideAssignment(workers, width, height), work).image[c]
            == work(c, seed(c)).0
  {
    var start := Start(width, height, seed);
    StrideAssignmentCovers(workers, width, height);
    assert c in start.image && start.rngs[c] == seed(c);
    RunWorkersWrites(start, workers, StrideAssignment(workers, width, height), work, c, c.j % workers);
  }

  /** Determinism of the driver: whenever at least one worker runs, the
      image is the reference image, whatever the number of threads. */
  lemma PathtraceRendersEveryPixel(width: nat, height: int, multithread: bool, hardware: nat, work: PixelWork,
                                   seed: Cell -> Rng)
    requires !multithread || 1 <= hardware
    ensures Pathtrace(width, height, multithread, hardware, work, seed) == Reference(width, height, work, seed)
  {
    var r := Pathtrace(width, height, multithread, hardware, work, seed);
    var reference := Reference(width, height, work, seed);
    forall c | c in Cells(width, height)
      ensures r[c] == reference[c]
    {
      PathtracePixel(width, height, multithread, hardware, work, seed, c);
    }
    assert r.Keys == reference.Keys;
  }

  /** The image does not depend on the thread count or on threading at all. */
  lemma PathtraceIndependentOfThreads(width: nat, height: int, h1: nat, h2: nat, work: PixelWork, seed: Cell -> Rng)
    requires 1 <= h1 && 1 <= h2
    ensures Pathtrace(width, height, true, h1, work, seed) == Pathtrace(width, height, true, h2, work, seed)
    ensures Pathtrace(width, height, true, h1, work, seed) == Pathtrace(width, height, false, 0, work, seed)
  {
    PathtraceRendersEveryPixel(width, height, true, h1, work, seed);
    PathtraceRendersEveryPixel(width, height, true, h2, work, seed);
    PathtraceRendersEveryPixel(width, height, false, 0, work, seed);
  }

  // ---------------------------------------------------------------------------
  // Samples within a pixel

  /** The camera coordinate of sub-sample `ii` of pixel column `i`,
      `(i + (ii + r) / samples) / width`, where `r` is the jitter drawn from
      the pixel's generator. It lies in the `ii`-th of `samples` equal strata
      of the pixel, so inside the pixel `[i / width, (i + 1) / width)`. The
      same function gives `v` from `j`, `jj` and the image height. */
  function SampleCoord(i: int, ii: int, r: real, samples: int, width: int): (u: real)
    requires 1 <= samples && 1 <= width && 0 <= ii < samples && 0.0 <= r < 1.0
    ensures (i as real + ii as real / samples as real) / width as real <= u
    ensures u < (i as real + (ii + 1) as real / samples as real) / width as real
    ensures i as real / width as real <= u < (i + 1) as real / width as real
  {
    var n, w := samples as real, width as real;
    var a := ii as real / n;
    var b := (ii as real + r) / n;
    var c := (ii + 1) as real / n;
    DivideMonotone(ii as real, ii as real + r, n);
    DivideStrict(ii as real + r, (ii + 1) as real, n);
    DivideMonotone(0.0, ii as real, n);
    DivideMonotone((ii + 1) as real, n, n);
    DivideMonotone(i as real + a, i as real + b, w);
    DivideStrict(i as real + b, i as real + c, w);
    DivideMonotone(i as real, i as real + a, w);
    DivideMonotone(i as real + c, (i + 1) as real, w);
    (i as real + b) / w
  }

  lemma DivideMonotone(x: real, y: real, d: real)
    requires x <= y && 0.0 < d
    ensures x / d <= y / d
  {
  }

  lemma DivideStrict(x: real, y: real, d: real)
    requires x < y && 0.0 < d
    ensures x / d < y / d
  {
  }

  /** The radiance samples of the first `rows` sub-pixel rows of one pixel,
      in the order the loops take them: row `jj` after row `jj - 1`, column
      `ii` within a row. */
  function SampleGrid(rows: nat, samples: nat, radiance: (int, int) -> Vec3): (g: seq<Vec3>)
    ensures |g| == rows * samples
  {
    if rows == 0 then [] else SampleGrid(rows - 1, samples, radiance) + SampleRow(rows - 1, samples, radiance)
  }

  function SampleRow(jj: int, samples: nat, radiance: (int, int) -> Vec3): seq<Vec3> {
    seq(samples, ii => radiance(ii, jj))
  }

  /** Every entry of the grid is the radiance of some sub-sample `(ii, jj)`
      with `ii < samples` and `jj < rows`: here, one that lies in `[lo, hi]`
      whenever all of those do. */
  lemma {:induction false} SampleGridWithin(rows: nat, samples: nat, radiance: (int, int) -> Vec3, lo: real, hi: real)
    requires forall ii, jj :: 0 <= ii < samples && 0 <= jj < rows ==> Within(radiance(ii, jj), lo, hi)
    ensures forall k :: 0 <= k < |SampleGrid(rows, samples, radiance)| ==> Within(SampleGrid(rows, samples, radiance)[k], lo, hi)
  {
    if rows > 0 {
      SampleGridWithin(rows - 1, samples, radiance, lo, hi);
      var prev, row := SampleGrid(rows - 1, samples, radiance), SampleRow(rows - 1, samples, radiance);
      forall k | 0 <= k < |prev + row|
        ensures Within((prev + row)[k], lo, hi)
      {
        if k >= |prev| {
          assert (prev + row)[k] == radiance(k - |prev|, rows - 1);
        }
      }
    }
  }

  /** Likewise for equality with one colour `c`. */
  lemma {:induction false} SampleGridConstant(rows: nat, samples: nat, radiance: (int, int) -> Vec3, c: Vec3)
    requires forall ii, jj :: 0 <= ii < samples && 0 <= jj < rows ==> radiance(ii, jj) == c
    ensures forall k :: 0 <= k < |SampleGrid(rows, samples, radiance)| ==> SampleGrid(rows, samples, radiance)[k] == c
  {
    if rows > 0 {
      SampleGridConstant(rows - 1, samples, radiance, c);
      var prev, row := SampleGrid(rows - 1, samples, radiance), SampleRow(rows - 1, samples, radiance);
      forall k | 0 <= k < |prev + row|
        ensures (prev + row)[k] == c
      {
        if k >= |prev| {
          assert (prev + row)[k] == radiance(k - |prev|, rows - 1);
        }
      }
    }
  }

  /** A pixel's value: the mean of its `samples * samples` radiance samples. */
  function PixelMean(samples: int, radiance: (int, int) -> Vec3): Vec3
    requires 1 <= samples
  {
    Scale(Sum(SampleGrid(samples, samples, radiance)), 1.0 / (samples * samples) as real)
  }

  /** One more sub-sample of row `jj` added to the running sum. */
  lemma RowStep(prev: seq<Vec3>, jj: int, ii: int, samples: nat, radiance: (int, int) -> Vec3)
    requires 0 <= ii < samples
    ensures Sum(prev + SampleRow(jj, samples, radiance)[..ii + 1])
            == Add(Sum(prev + SampleRow(jj, samples, radiance)[..ii]), radiance(ii, jj))
  {
    var row := SampleRow(jj, samples, radiance);
    assert prev + row[..ii + 1] == (prev + row[..ii]) + [radiance(ii, jj)];
    SumSnoc(prev + row[..ii], radiance(ii, jj));
  }

  /** The per-pixel loop body of the row routine: clear the cell, add the
      radiance of each of the `samples * samples` sub-samples, then divide by
      the sample count. The result is the mean of the samples. */
  method AccumulatePixel(samples: int, radiance: (int, int) -> Vec3) returns (c: Vec3)
    requires 1 <= samples
    ensures c == PixelMean(samples, radiance)
  {
    var count := samples * samples;
    assert count > 0 by { MulSign(samples, samples); }
    c := Zero;
    var jj := 0;
    while jj < samples
      invariant 0 <= jj <= samples
      invariant c == Sum(SampleGrid(jj, samples, radiance))
    {
      ghost var prev := SampleGrid(jj, samples, radiance);
      ghost var row := SampleRow(jj, samples, radiance);
      var ii := 0;
      assert prev + row[..0] == prev;
      while ii < samples
        invariant 0 <= ii <= samples
        invariant c == Sum(prev + row[..ii])
      {
        RowStep(prev, jj, ii, samples, radiance);
        c := Add(c, radiance(ii, jj));
        ii := ii + 1;
      }
      assert row[..ii] == row;
      jj := jj + 1;
    }
    c := Scale(c, 1.0 / count as real);
  }

  /** The mean of equal samples is that sample. */
  lemma PixelMeanOfConstant(samples: int, radiance: (int, int) -> Vec3, c: Vec3)
    requires 1 <= samples
    requires forall ii, jj :: 0 <= ii < samples && 0 <= jj < samples ==> radiance(ii, jj) == c
    ensures PixelMean(samples, radiance) == c
  {
    var grid := SampleGrid(samples, samples, radiance);
    var n := (samples * samples) as real;
    SampleGridConstant(samples, samples, radiance, c);
    SumConstant(grid, c);
    MulSign(samples, samples);
    ScaleBack(c.x, n);
    ScaleBack(c.y, n);
    ScaleBack(c.z, n);
  }

  lemma ScaleBack(x: real, n: real)
    requires n > 0.0
    ensures Product(Product(x, n), 1.0 / n) == x
  {
  }

  /** A pixel whose samples have components in `[lo, hi]` has its value in
      `[lo, hi]`: averaging neither brightens nor darkens past the samples. */
  lemma PixelMeanWithin(samples: int, radiance: (int, int) -> Vec3, lo: real, hi: real)
    requires 1 <= samples
    requires forall ii, jj :: 0 <= ii < samples && 0 <= jj < samples ==> Within(radiance(ii, jj), lo, hi)
    ensures Within(PixelMean(samples, radiance), lo, hi)
  {
    var grid := SampleGrid(samples, samples, radiance);
    var count := |grid|;
    var n := count as real;
    SampleGridWithin(samples, samples, radiance, lo, hi);
    SumBounds(grid, lo, hi);
    TimesIsProduct(count, lo);
    TimesIsProduct(count, hi);
    assert n > 0.0 by { MulSign(samples, samples); }
    var s := Sum(grid);
    MeanBound(s.x, n, lo, hi);
    MeanBound(s.y, n, lo, hi);
    MeanBound(s.z, n, lo, hi);
  }

  lemma MeanBound(total: real, n: real, lo: real, hi: real)
    requires n > 0.0
    requires Product(n, lo) <= total <= Product(n, hi)
    ensures lo <= Product(total, 1.0 / n) <= hi
  {
    MulMonotone(total, Product(n, lo), Product(n, hi), 1.0 / n);
    assert Product(Product(n, lo), 1.0 / n) == lo;
    assert Product(Product(n, hi), 1.0 / n) == hi;
  }
}
