/** The permutation-table file read by `load_permutations_3d` and
    `load_permutations`: a header of two "<l" items, the number of
    permutations and their length `c`, then `num_perms * c` "<l" items in
    row-major order.  The file's bytes are a parameter; the read cursor is a
    local variable of the loading methods. */
module Permutations {
  import opened Int32Codec

  /** Why a load fails: `struct.error` on a short header read,
      `struct.error` on the short read of body item `index`, or numpy's
      `ValueError` when the items do not fit the requested shape. */
  datatype LoadError =
    | HeaderStructError
    | BodyStructError(index: nat)
    | ReshapeError(numPerms: int, c: int)

  datatype Result<T> = Ok(value: T) | Err(error: LoadError)

  /** A two-dimensional numpy integer array: its shape and its rows. */
  datatype Matrix = Matrix(rows: nat, cols: nat, cells: seq<seq<int>>)

  /** What a load returns: the table and `num_perms` as read from the header. */
  datatype Loaded = Loaded(perms: Matrix, numPerms: int)

  const HEADER_SIZE: nat := 2 * INT32_SIZE

  // Byte offsets in contracts are written `4 * count` rather than
  // `INT32_SIZE * count`: the literal keeps the product linear for the solver.

  predicate WellShaped(m: Matrix) {
    |m.cells| == m.rows && forall i :: 0 <= i < |m.cells| ==> |m.cells[i]| == m.cols
  }

  predicate IsInt32Matrix(m: Matrix) {
    forall i, k :: 0 <= i < |m.cells| && 0 <= k < |m.cells[i]| ==> IsInt32(m.cells[i][k])
  }

  /** How many times `for _ in range(num_perms * c)` runs: never when the
      product is zero or negative. */
  function BodyCount(numPerms: int, c: int): nat {
    if numPerms * c > 0 then numPerms * c else 0
  }

  // ---------------------------------------------------------------------
  // Reading the body

  /** `count` consecutive "<l" items starting at byte offset `start`. */
  function ReadInt32s(file: seq<byte>, start: nat, count: nat): (xs: seq<int>)
    requires start + 4 * count <= |file|
    ensures |xs| == count
    ensures forall j :: 0 <= j < count ==> IsInt32(xs[j])
    decreases count
  {
    if count == 0 then []
    else [Int32At(file, start)] + ReadInt32s(file, start + INT32_SIZE, count - 1)
  }

  lemma {:induction false} ReadInt32sAt(file: seq<byte>, start: nat, count: nat, k: nat)
    requires start + 4 * count <= |file|
    requires k < count
    ensures ReadInt32s(file, start, count)[k] == Int32At(file, start + 4 * k)
    decreases count
  {
    if k > 0 {
      ReadInt32sAt(file, start + INT32_SIZE, count - 1, k - 1);
    }
  }

  /** Reading one more item appends it: the loop's step. */
  lemma {:induction false} ReadInt32sSnoc(file: seq<byte>, start: nat, count: nat)
    requires start + 4 * (count + 1) <= |file|
    ensures ReadInt32s(file, start, count + 1)
         == ReadInt32s(file, start, count) + [Int32At(file, start + 4 * count)]
    decreases count
  {
    if count > 0 {
      ReadInt32sSnoc(file, start + INT32_SIZE, count - 1);
    }
  }

  /** Items read from a prefix of the file do not depend on what follows it. */
  lemma {:induction false} ReadInt32sPrefix(file: seq<byte>, extra: seq<byte>, start: nat, count: nat)
    requires start + 4 * count <= |file|
    ensures ReadInt32s(file + extra, start, count) == ReadInt32s(file, start, count)
    decreases count
  {
    if count > 0 {
      assert (file + extra)[start..start + INT32_SIZE] == file[start..start + INT32_SIZE];
      ReadInt32sPrefix(file, extra, start + INT32_SIZE, count - 1);
    }
  }

  // ---------------------------------------------------------------------
  // np.reshape(perms, [num_perms, c])

  /** numpy's shape resolution for a flat array of `size` items: a negative
      dimension is the one left for numpy to infer, at most one may be
      negative, and it can be inferred only when the other dimension is
      positive and divides `size`. */
  function ResolveShape(size: nat, numPerms: int, c: int): (shape: Option<(nat, nat)>)
    ensures shape.Some? ==> shape.value.0 * shape.value.1 == size
    ensures shape.Some? && numPerms >= 0 ==> shape.value.0 == numPerms
    ensures shape.Some? && c >= 0 ==> shape.value.1 == c
    ensures numPerms >= 0 && c >= 0 ==> (shape.Some? <==> numPerms * c == size)
    ensures numPerms < 0 && c < 0 ==> shape.None?
    ensures numPerms < 0 && c >= 0 ==> (shape.Some? <==> c > 0 && size % c == 0)
    ensures numPerms >= 0 && c < 0 ==> (shape.Some? <==> numPerms > 0 && size % numPerms == 0)
  {
    if numPerms < 0 && c < 0 then None
    else if numPerms < 0 then
      if c == 0 || size % c != 0 then None else Some((size / c, c))
    else if c < 0 then
      if numPerms == 0 || size % numPerms != 0 then None else Some((numPerms, size / numPerms))
    else if numPerms * c == size then Some((numPerms, c))
    else None
  }

  /** Cuts a flat row-major sequence into `rows` rows of `cols` items. */
  function Chunks(flat: seq<int>, rows: nat, cols: nat): (cells: seq<seq<int>>)
    requires |flat| == rows * cols
    ensures |cells| == rows
    ensures forall i :: 0 <= i < rows ==> |cells[i]| == cols
    decreases rows
  {
    if rows == 0 then []
    else
      assert |flat[cols..]| == (rows - 1) * cols;
      [flat[..cols]] + Chunks(flat[cols..], rows - 1, cols)
  }

  lemma {:induction false} ChunksAt(flat: seq<int>, rows: nat, cols: nat, i: nat, k: nat)
    requires |flat| == rows * cols
    requires i < rows && k < cols
    ensures i * cols + k < |flat|
    ensures Chunks(flat, rows, cols)[i][k] == flat[i * cols + k]
    decreases rows
  {
    assert |flat[cols..]| == (rows - 1) * cols;
    if i > 0 {
      ChunksAt(flat[cols..], rows - 1, cols, i - 1, k);
      assert (i - 1) * cols + k + cols == i * cols + k;
    }
  }

  function Flatten(cells: seq<seq<int>>): seq<int> {
    if cells == [] then [] else cells[0] + Flatten(cells[1..])
  }

  lemma {:induction false} FlattenChunks(flat: seq<int>, rows: nat, cols: nat)
    requires |flat| == rows * cols
    ensures Flatten(Chunks(flat, rows, cols)) == flat
    decreases rows
  {
    if rows > 0 {
      assert |flat| == cols + (rows - 1) * cols;
      var first, tail := flat[..cols], flat[cols..];
      var rest := Chunks(tail, rows - 1, cols);
      assert Chunks(flat, rows, cols) == [first] + rest;
      FlattenChunks(tail, rows - 1, cols);
      calc {
        Flatten([first] + rest);
        { assert ([first] + rest)[0] == first && ([first] + rest)[1..] == rest; }
        first + Flatten(rest);
        first + tail;
        flat;
      }
    }
  }

  lemma {:induction false} ChunksFlatten(cells: seq<seq<int>>, rows: nat, cols: nat)
    requires WellShaped(Matrix(rows, cols, cells))
    ensures |Flatten(cells)| == rows * cols
    ensures Chunks(Flatten(cells), rows, cols) == cells
    decreases rows
  {
    if rows > 0 {
      var first, rest := cells[0], cells[1..];
      assert WellShaped(Matrix(rows - 1, cols, rest));
      ChunksFlatten(rest, rows - 1, cols);
      var tail := Flatten(rest);
      var flat := first + tail;
      assert Flatten(cells) == flat;
      assert |flat| == rows * cols by {
        assert |first| == cols;
        assert cols + (rows - 1) * cols == rows * cols;
      }
      assert flat[..cols] == first && flat[cols..] == tail;
      calc {
        Chunks(flat, rows, cols);
        [flat[..cols]] + Chunks(flat[cols..], rows - 1, cols);
        [first] + rest;
        cells;
      }
    }
  }

  lemma {:induction false} FlattenInt32(cells: seq<seq<int>>)
    requires IsInt32Matrix(Matrix(|cells|, 0, cells))
    ensures forall j :: 0 <= j < |Flatten(cells)| ==> IsInt32(Flatten(cells)[j])
  {
    if cells != [] {
      FlattenInt32(cells[1..]);
      assert Flatten(cells) == cells[0] + Flatten(cells[1..]);
    }
  }

  /** `np.reshape(perms, [num_perms, c])`. */
  function Reshape(flat: seq<int>, numPerms: int, c: int): (m: Option<Matrix>)
    ensures m.Some? <==> ResolveShape(|flat|, numPerms, c).Some?
    ensures m.Some? ==> WellShaped(m.value) && m.value.rows * m.value.cols == |flat|
    ensures m.Some? && numPerms >= 0 ==> m.value.rows == numPerms
    ensures m.Some? && c >= 0 ==> m.value.cols == c
  {
    match ResolveShape(|flat|, numPerms, c)
    case None => None
    case Some((rows, cols)) => Some(Matrix(rows, cols, Chunks(flat, rows, cols)))
  }

  /** Reshaping is row-major: entry [i][k] is flat item `i * cols + k`, and
      reading the rows back in order gives the flat sequence again. */
  lemma ReshapeRowMajor(flat: seq<int>, numPerms: int, c: int, i: nat, k: nat)
    requires Reshape(flat, numPerms, c).Some?
    requires i < Reshape(flat, numPerms, c).value.rows
    requires k < Reshape(flat, numPerms, c).value.cols
    ensures var m := Reshape(flat, numPerms, c).value;
      i * m.cols + k < |flat| && m.cells[i][k] == flat[i * m.cols + k] && Flatten(m.cells) == flat
  {
    var m := Reshape(flat, numPerms, c).value;
    ChunksAt(flat, m.rows, m.cols, i, k);
    FlattenChunks(flat, m.rows, m.cols);
  }

  lemma ReshapeInt32(flat: seq<int>, numPerms: int, c: int)
    requires forall j :: 0 <= j < |flat| ==> IsInt32(flat[j])
    ensures Reshape(flat, numPerms, c).Some? ==> IsInt32Matrix(Reshape(flat, numPerms, c).value)
  {
    if Reshape(flat, numPerms, c).Some? {
      var m := Reshape(flat, numPerms, c).value;
      forall i, k | 0 <= i < |m.cells| && 0 <= k < |m.cells[i]| ensures IsInt32(m.cells[i][k]) {
        ChunksAt(flat, m.rows, m.cols, i, k);
      }
    }
  }

  // ---------------------------------------------------------------------
  // perms - 1

  /** numpy's element-wise `perms - 1` (the array holds 64-bit integers, so
      no value read from an "<l" item can wrap). */
  function MinusOne(m: Matrix): (r: Matrix)
    ensures r.rows == m.rows && r.cols == m.cols && |r.cells| == |m.cells|
    ensures forall i :: 0 <= i < |m.cells| ==> |r.cells[i]| == |m.cells[i]|
    ensures forall i, k :: 0 <= i < |m.cells| && 0 <= k < |m.cells[i]| ==> r.cells[i][k] == m.cells[i][k] - 1
  {
    Matrix(m.rows, m.cols,
      seq(|m.cells|, i requires 0 <= i < |m.cells| =>
        seq(|m.cells[i]|, k requires 0 <= k < |m.cells[i]| => m.cells[i][k] - 1)))
  }

  /** Each row holds every index in [lo, lo + |row|) exactly once. */
  predicate IsIndexPermutation(row: seq<int>, lo: int) {
    (forall k :: 0 <= k < |row| ==> lo <= row[k] < lo + |row|) &&
    (forall a, b :: 0 <= a < b < |row| ==> row[a] != row[b])
  }

  /** A table of permutations of 1..c becomes a table of permutations of
      0..c-1. */
  lemma MinusOneRebases(m: Matrix, i: nat)
    requires i < |m.cells| && IsIndexPermutation(m.cells[i], 1)
    ensures IsIndexPermutation(MinusOne(m).cells[i], 0)
  {
  }

  // ---------------------------------------------------------------------
  // The loaders

  /** What `load_permutations_3d` returns for a file holding `file`. */
  function Decode3d(file: seq<byte>): (r: Result<Loaded>)
    ensures |file| < HEADER_SIZE <==> r == Err(HeaderStructError)
    ensures r.Ok? ==> |file| >= HEADER_SIZE && r.value.numPerms == Int32At(file, 0)
    ensures r.Ok? ==> WellShaped(r.value.perms) && IsInt32Matrix(r.value.perms)
    ensures r.Ok? && r.value.numPerms >= 0 ==> r.value.perms.rows == r.value.numPerms
    ensures r.Ok? && Int32At(file, INT32_SIZE) >= 0 ==> r.value.perms.cols == Int32At(file, INT32_SIZE)
  {
    if |file| < HEADER_SIZE then Err(HeaderStructError)
    else
      var numPerms, c := Int32At(file, 0), Int32At(file, INT32_SIZE);
      var count := BodyCount(numPerms, c);
      if |file| < HEADER_SIZE + 4 * count then
        Err(BodyStructError((|file| - HEADER_SIZE) / INT32_SIZE))
      else
        var flat := ReadInt32s(file, HEADER_SIZE, count);
        ReshapeInt32(flat, numPerms, c);
        match Reshape(flat, numPerms, c)
        case None => Err(ReshapeError(numPerms, c))
        case Some(m) => Ok(Loaded(m, numPerms))
  }

  /** What `load_permutations` returns: the same as `load_permutations_3d`,
      with every entry one less. */
  function Decode(file: seq<byte>): (r: Result<Loaded>)
    ensures r.Ok? <==> Decode3d(file).Ok?
    ensures r.Err? ==> r.error == Decode3d(file).error
    ensures r.Ok? ==> r.value.numPerms == Decode3d(file).value.numPerms
    ensures r.Ok? ==> r.value.perms == MinusOne(Decode3d(file).value.perms)
  {
    match Decode3d(file)
    case Err(e) => Err(e)
    case Ok(raw) => Ok(Loaded(MinusOne(raw.perms), raw.numPerms))
  }

  /** What a successful load consists of: a complete body and a reshape
      that fits it. */
  lemma Decode3dOk(file: seq<byte>)
    requires Decode3d(file).Ok?
    ensures |file| >= HEADER_SIZE
    ensures var count := BodyCount(Int32At(file, 0), Int32At(file, INT32_SIZE));
      HEADER_SIZE + 4 * count <= |file| &&
      Reshape(ReadInt32s(file, HEADER_SIZE, count), Int32At(file, 0), Int32At(file, INT32_SIZE))
        == Some(Decode3d(file).value.perms)
  {
  }

  /** The header comes first: two "<l" items, `num_perms` then `c`; a file
      too short for the body fails with `struct.error` at the first item
      that is cut off, never with a partial table. */
  lemma DecodeErrors(file: seq<byte>)
    requires |file| >= HEADER_SIZE
    ensures var count := BodyCount(Int32At(file, 0), Int32At(file, INT32_SIZE));
      (Decode3d(file).Err? && Decode3d(file).error.BodyStructError?)
        <==> |file| < HEADER_SIZE + 4 * count
    ensures Decode3d(file).Err? && Decode3d(file).error.BodyStructError? ==>
      var k := Decode3d(file).error.index;
      HEADER_SIZE + 4 * k <= |file| < HEADER_SIZE + 4 * (k + 1)
  {
  }

  /** Once the body is complete, the load fails exactly when numpy cannot
      resolve the shape, which happens exactly when one dimension is negative
      and the other is not positive. */
  lemma DecodeShapeErrors(file: seq<byte>)
    requires |file| >= HEADER_SIZE
    requires |file| >= HEADER_SIZE + 4 * BodyCount(Int32At(file, 0), Int32At(file, INT32_SIZE))
    ensures var numPerms, c := Int32At(file, 0), Int32At(file, INT32_SIZE);
      Decode3d(file).Ok? <==> ResolveShape(BodyCount(numPerms, c), numPerms, c).Some?
    ensures var numPerms, c := Int32At(file, 0), Int32At(file, INT32_SIZE);
      var shapeFails := Decode3d(file) == Err(ReshapeError(numPerms, c));
      shapeFails <==> (numPerms < 0 && c <= 0) || (numPerms <= 0 && c < 0)
  {
    var numPerms, c := Int32At(file, 0), Int32At(file, INT32_SIZE);
    var count := BodyCount(numPerms, c);
    if numPerms * c < 0 {
      assert count == 0;
    } else if numPerms >= 0 && c >= 0 {
      assert count == numPerms * c;
    }
  }

  /** A negative `num_perms` beside a positive width is inferred from the
      empty body: the load gives an empty table of that width and keeps the
      negative count. */
  lemma DecodeNegativeCount(file: seq<byte>)
    requires |file| >= HEADER_SIZE
    requires Int32At(file, 0) < 0 && Int32At(file, INT32_SIZE) > 0
    ensures Decode3d(file) == Ok(Loaded(Matrix(0, Int32At(file, INT32_SIZE), []), Int32At(file, 0)))
  {
    var numPerms, c := Int32At(file, 0), Int32At(file, INT32_SIZE);
    assert numPerms * c < 0;
    assert BodyCount(numPerms, c) == 0;
  }

  /** A negative width beside a positive `num_perms` is inferred as zero:
      the load gives `num_perms` empty rows. */
  lemma DecodeNegativeWidth(file: seq<byte>)
    requires |file| >= HEADER_SIZE
    requires Int32At(file, 0) > 0 && Int32At(file, INT32_SIZE) < 0
    ensures var numPerms := Int32At(file, 0);
      Decode3d(file).Ok? &&
      Decode3d(file).value.perms.rows == numPerms && Decode3d(file).value.perms.cols == 0 &&
      Decode3d(file).value.numPerms == numPerms
  {
  }

  /** A file that ends inside body item `i` fails on that item. */
  lemma Decode3dTruncated(file: seq<byte>, i: nat)
    requires |file| >= HEADER_SIZE
    requires i < BodyCount(Int32At(file, 0), Int32At(file, INT32_SIZE))
    requires HEADER_SIZE + 4 * i <= |file| < HEADER_SIZE + 4 * (i + 1)
    ensures Decode3d(file) == Err(BodyStructError(i))
  {
  }

  lemma ReshapedReadAt(file: seq<byte>, start: nat, count: nat, numPerms: int, c: int, m: Matrix, i: nat, k: nat)
    requires start + 4 * count <= |file|
    requires Reshape(ReadInt32s(file, start, count), numPerms, c) == Some(m)
    requires i < m.rows && k < m.cols
    ensures start + 4 * (i * m.cols + k) + INT32_SIZE <= |file|
    ensures m.cells[i][k] == Int32At(file, start + 4 * (i * m.cols + k))
  {
    var flat := ReadInt32s(file, start, count);
    var j := i * m.cols + k;
    ReshapeRowMajor(flat, numPerms, c, i, k);
    ReadInt32sAt(file, start, count, j);
  }

  /** Entry [i][k] of the table is body item `i * cols + k`, read from the
      four bytes at offset 8 + 4 * (i * cols + k). */
  lemma DecodeEntry(file: seq<byte>, d: Loaded, i: nat, k: nat)
    requires Decode3d(file) == Ok(d)
    requires i < d.perms.rows && k < d.perms.cols
    ensures HEADER_SIZE + 4 * (i * d.perms.cols + k) + INT32_SIZE <= |file|
    ensures d.perms.cells[i][k] == Int32At(file, HEADER_SIZE + 4 * (i * d.perms.cols + k))
  {
    Decode3dOk(file);
    var numPerms, c := Int32At(file, 0), Int32At(file, INT32_SIZE);
    ReshapedReadAt(file, HEADER_SIZE, BodyCount(numPerms, c), numPerms, c, d.perms, i, k);
  }

  /** Bytes after the last item the header asks for are never read. */
  lemma DecodeIgnoresTrailing(file: seq<byte>, extra: seq<byte>)
    requires Decode3d(file).Ok?
    ensures Decode3d(file + extra) == Decode3d(file)
  {
    var numPerms, c := Int32At(file, 0), Int32At(file, INT32_SIZE);
    assert (file + extra)[..HEADER_SIZE] == file[..HEADER_SIZE];
    assert (file + extra)[0..INT32_SIZE] == file[0..INT32_SIZE];
    assert (file + extra)[INT32_SIZE..HEADER_SIZE] == file[INT32_SIZE..HEADER_SIZE];
    ReadInt32sPrefix(file, extra, HEADER_SIZE, BodyCount(numPerms, c));
  }

  // ---------------------------------------------------------------------
  // The file layout, written out

  function EncodeInt32s(xs: seq<int>): (bytes: seq<byte>)
    requires forall j :: 0 <= j < |xs| ==> IsInt32(xs[j])
    ensures |bytes| == 4 * |xs|
  {
    if xs == [] then [] else Int32ToLE(xs[0]) + EncodeInt32s(xs[1..])
  }

  /** The file holding `numPerms`, the table's width and its entries in
      row-major order. */
  function Encode(numPerms: int, m: Matrix): (file: seq<byte>)
    requires IsInt32(numPerms) && IsInt32(m.cols) && IsInt32Matrix(m)
    ensures |file| == HEADER_SIZE + 4 * |Flatten(m.cells)|
  {
    FlattenInt32(m.cells);
    Int32ToLE(numPerms) + Int32ToLE(m.cols) + EncodeInt32s(Flatten(m.cells))
  }

  lemma {:induction false} ReadEncoded(pre: seq<byte>, xs: seq<int>)
    requires forall j :: 0 <= j < |xs| ==> IsInt32(xs[j])
    ensures ReadInt32s(pre + EncodeInt32s(xs), |pre|, |xs|) == xs
    decreases |xs|
  {
    if xs != [] {
      var head, tail := Int32ToLE(xs[0]), EncodeInt32s(xs[1..]);
      var file := (pre + head) + tail;
      assert pre + EncodeInt32s(xs) == file;
      assert Int32At(file, |pre|) == xs[0] by {
        assert file[|pre|..|pre| + INT32_SIZE] == head;
        DecodeEncodeInt32(xs[0]);
      }
      ReadEncoded(pre + head, xs[1..]);
      calc {
        ReadInt32s(file, |pre|, |xs|);
        [Int32At(file, |pre|)] + ReadInt32s(file, |pre| + INT32_SIZE, |xs| - 1);
        [xs[0]] + xs[1..];
        xs;
      }
    }
  }

  lemma {:induction false} EncodeRead(file: seq<byte>, start: nat, count: nat)
    requires start + 4 * count <= |file|
    ensures forall j :: 0 <= j < count ==> IsInt32(ReadInt32s(file, start, count)[j])
    ensures EncodeInt32s(ReadInt32s(file, start, count)) == file[start..start + 4 * count]
    decreases count
  {
    var xs := ReadInt32s(file, start, count);
    forall j | 0 <= j < count ensures IsInt32(xs[j]) {
      ReadInt32sAt(file, start, count, j);
    }
    if count > 0 {
      EncodeRead(file, start + INT32_SIZE, count - 1);
      EncodeDecodeInt32(file[start..start + INT32_SIZE]);
      assert xs[1..] == ReadInt32s(file, start + INT32_SIZE, count - 1);
      assert file[start..start + 4 * count]
          == file[start..start + INT32_SIZE] + file[start + INT32_SIZE..start + 4 * count];
    }
  }

  /** Writing a table of 32-bit values in the file layout and loading it with
      `load_permutations_3d` gives back the same table and count. */
  lemma DecodeEncode(numPerms: nat, c: nat, cells: seq<seq<int>>)
    requires IsInt32(numPerms) && IsInt32(c)
    requires WellShaped(Matrix(numPerms, c, cells)) && IsInt32Matrix(Matrix(numPerms, c, cells))
    ensures Decode3d(Encode(numPerms, Matrix(numPerms, c, cells)))
         == Ok(Loaded(Matrix(numPerms, c, cells), numPerms))
  {
    var m := Matrix(numPerms, c, cells);
    var file := Encode(numPerms, m);
    var flat := Flatten(cells);
    ChunksFlatten(cells, numPerms, c);
    FlattenInt32(cells);
    var header := Int32ToLE(numPerms) + Int32ToLE(c);
    assert file == header + EncodeInt32s(flat);
    assert file[0..INT32_SIZE] == Int32ToLE(numPerms);
    assert file[INT32_SIZE..HEADER_SIZE] == Int32ToLE(c);
    DecodeEncodeInt32(numPerms);
    DecodeEncodeInt32(c);
    assert BodyCount(numPerms, c) == |flat|;
    ReadEncoded(header, flat);
  }

  /** Loading with `load_permutations` gives back the written table with
      every entry one less. */
  lemma DecodeEncodeShifted(numPerms: nat, c: nat, cells: seq<seq<int>>)
    requires IsInt32(numPerms) && IsInt32(c)
    requires WellShaped(Matrix(numPerms, c, cells)) && IsInt32Matrix(Matrix(numPerms, c, cells))
    ensures Decode(Encode(numPerms, Matrix(numPerms, c, cells)))
         == Ok(Loaded(MinusOne(Matrix(numPerms, c, cells)), numPerms))
  {
    DecodeEncode(numPerms, c, cells);
  }

  /** A loaded file written out again reproduces the bytes that were read,
      whenever the header's width is not negative (a negative width is
      replaced by the one numpy inferred). */
  lemma EncodeDecode(file: seq<byte>)
    requires Decode3d(file).Ok? && Int32At(file, INT32_SIZE) >= 0
    ensures IsInt32(Decode3d(file).value.perms.cols)
    ensures var d := Decode3d(file).value;
      Encode(d.numPerms, d.perms)
        == file[..HEADER_SIZE + 4 * BodyCount(Int32At(file, 0), Int32At(file, INT32_SIZE))]
  {
    var numPerms, c := Int32At(file, 0), Int32At(file, INT32_SIZE);
    var count := BodyCount(numPerms, c);
    var flat := ReadInt32s(file, HEADER_SIZE, count);
    var d := Decode3d(file).value;
    Decode3dOk(file);
    FlattenChunks(flat, d.perms.rows, d.perms.cols);
    EncodeRead(file, HEADER_SIZE, count);
    EncodeDecodeInt32(file[0..INT32_SIZE]);
    EncodeDecodeInt32(file[INT32_SIZE..HEADER_SIZE]);
    assert file[..HEADER_SIZE + 4 * count]
        == file[0..INT32_SIZE] + file[INT32_SIZE..HEADER_SIZE] + file[HEADER_SIZE..HEADER_SIZE + 4 * count];
  }

  /** `load_permutations_3d`: unpack the header, read `num_perms * c` items
      one at a time from the cursor, reshape. */
  method LoadPermutations3d(file: seq<byte>) returns (r: Result<Loaded>)
    ensures r == Decode3d(file)
  {
    var pos: nat := 0;
    var s := ReadAt(file, pos, 2 * INT32_SIZE);
    pos := pos + |s|;
    var header := UnpackLL(s);
    if header.None? {
      return Err(HeaderStructError);
    }
    var (numPerms, c) := header.value;
    assert s == file[..HEADER_SIZE];
    assert numPerms == Int32At(file, 0) && c == Int32At(file, INT32_SIZE);
    var perms: seq<int> := [];
    var total := BodyCount(numPerms, c);
    var i: nat := 0;
    while i < total
      invariant i <= total
      invariant pos == HEADER_SIZE + 4 * i <= |file|
      invariant perms == ReadInt32s(file, HEADER_SIZE, i)
    {
      s := ReadAt(file, pos, INT32_SIZE);
      pos := pos + |s|;
      var x := UnpackL(s);
      if x.None? {
        Decode3dTruncated(file, i);
        return Err(BodyStructError(i));
      }
      ReadInt32sSnoc(file, HEADER_SIZE, i);
      perms := perms + [x.value];
      i := i + 1;
    }
    match Reshape(perms, numPerms, c)
    case None =>
      r := Err(ReshapeError(numPerms, c));
    case Some(m) =>
      r := Ok(Loaded(m, numPerms));
  }

  /** `load_permutations`: the same read, then `perms - 1` to turn the file's
      1-based indices into 0-based ones. */
  method LoadPermutations(file: seq<byte>) returns (r: Result<Loaded>)
    ensures r == Decode(file)
  {
    r := LoadPermutations3d(file);
    if r.Ok? {
      r := Ok(Loaded(MinusOne(r.value.perms), r.value.numPerms));
    }
  }
}
