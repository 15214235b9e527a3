# Permutation tables and output directories of self_supervised_3d_tasks

This project models the two pieces of plain logic in
`self_supervised_3d_tasks/keras_algorithms/custom_utils.py` that are not
neural-network assembly:

- **The permutation-table loaders** `load_permutations_3d` and
  `load_permutations`. They read a binary file with a header of two
  little-endian signed 32-bit integers, `num_perms` and `c`. Then come
  `num_perms * c` more such integers, read one at a time from the file cursor
  and reshaped row-major into a `num_perms × c` numpy array.
  `load_permutations` then subtracts 1 from every entry. The file's 1-based
  indices become 0-based. Both return the table and `num_perms`.
- **`get_writing_path`**, which picks a fresh output directory. It tries
  `working_dir`, then `working_dir_1`, `working_dir_2`, … and stops at the
  first name that does not exist. Each pass cuts the previous counter's digits
  off the name and appends the next counter.

Files:

- `int32_codec.dfy` (module `Int32Codec`) covers bytes, the "<l" layout of
  Python's `struct`, and `f.read`.
- `permutations.dfy` (module `Permutations`) covers both loaders.
  `LoadPermutations3d` is a method with the source's cursor-driven read loop,
  proved equal to the specification function `Decode3d`. The read block of
  `load_permutations` (custom_utils.py:286-295) repeats that of
  `load_permutations_3d` (custom_utils.py:266-275) line for line. So
  `LoadPermutations` calls `LoadPermutations3d` and then applies `perms - 1`;
  it is proved equal to `Decode`. The file also models numpy's reshape and
  `perms - 1`. None of the code modelled here writes these files, so `Encode`
  is this model's own statement of the layout. Round-trip lemmas relate it to
  the loaders in both directions.
- `writing_path.dfy` (module `WritingPath`) covers `get_writing_path`'s loop
  as a method. It is proved to return the first free candidate name.

The file's contents are a parameter (`seq<byte>`). The read cursor is a local
variable of the loading methods. Whether a path exists is membership in a
finite set of existing names.

Where numpy decides the outcome, the model follows what the code does.
`range(num_perms * c)` reads nothing when the product is zero or negative.
`np.reshape` treats a negative dimension as "infer this one". So a header
with `num_perms = -1, c = 5` loads an empty `0 × 5` table with count -1
(`DecodeNegativeCount`). A header with `num_perms = 3, c = -1` loads three
empty rows (`DecodeNegativeWidth`). When the file holds the `num_perms * c`
body items, headers with both dimensions negative, or with a negative one
beside a zero, fail with `ValueError`, and no other complete file fails
(`DecodeShapeErrors`). Both dimensions negative make the product positive, so
those items are read first: a file that stops short fails with
`struct.error` before the reshape. Bytes after the last item the header asks
for are ignored. The claim that a loaded file re-encodes to its own bytes
therefore holds only for the part that was read. It also needs a
non-negative width (`EncodeDecode`).

## Model

| member | source | states |
|---|---|---|
| Int32Codec.ReadAt | self_supervised_3d_tasks/keras_algorithms/custom_utils.py:268 | `f.read(n)` returns the next n bytes from the cursor, or every remaining byte when fewer than n remain |
| Int32Codec.UnpackL | self_supervised_3d_tasks/keras_algorithms/custom_utils.py:272-273 | `struct.unpack("<l", s)` succeeds exactly when s holds 4 bytes; the value is a signed 32-bit integer whose little-endian encoding is s |
| Int32Codec.UnpackLL | self_supervised_3d_tasks/keras_algorithms/custom_utils.py:268-269 | `struct.unpack("<ll", s)` succeeds exactly when s holds 8 bytes; it yields `num_perms` from bytes 0-3, then `c` from bytes 4-7, both in the int32 range |
| Int32Codec.Int32FromLE | self_supervised_3d_tasks/keras_algorithms/custom_utils.py:273 | four little-endian bytes read as two's complement give a value in [-2^31, 2^31-1], negative exactly when the top byte's high bit is set |
| Int32Codec.DecodeEncodeInt32 | self_supervised_3d_tasks/keras_algorithms/custom_utils.py:273 | reading back the "<l" bytes of any int32 value gives that value |
| Int32Codec.EncodeDecodeInt32 | self_supervised_3d_tasks/keras_algorithms/custom_utils.py:273 | re-encoding the value read from any 4 bytes gives those bytes |
| Permutations.ReadInt32sSnoc | self_supervised_3d_tasks/keras_algorithms/custom_utils.py:271-274 | one more pass of the read loop appends the item at the next 4-byte offset to `perms` |
| Permutations.ResolveShape | self_supervised_3d_tasks/keras_algorithms/custom_utils.py:275 | numpy's shape rule: the shape covers exactly the items read, non-negative dimensions are kept, and at most one negative dimension is inferred, only from a positive divisor |
| Permutations.Reshape | self_supervised_3d_tasks/keras_algorithms/custom_utils.py:275 | the reshape succeeds exactly when the shape resolves; it gives rows × cols well-shaped rows that keep `num_perms` and `c` when they are non-negative |
| Permutations.ReshapeRowMajor | self_supervised_3d_tasks/keras_algorithms/custom_utils.py:275 | entry [i][k] of the reshaped table is flat item i*cols+k, and the rows in order give back the flat list |
| Permutations.MinusOne | self_supervised_3d_tasks/keras_algorithms/custom_utils.py:298 | `perms - 1` keeps the shape and makes every entry exactly 1 less |
| Permutations.MinusOneRebases | self_supervised_3d_tasks/keras_algorithms/custom_utils.py:297-298 | a row that is a permutation of 1..c becomes a permutation of 0..c-1 |
| Permutations.Decode3d | self_supervised_3d_tasks/keras_algorithms/custom_utils.py:261-277 | a file shorter than 8 bytes fails on the header and nothing else fails that way; a successful load returns the header's `num_perms` as the count and a well-shaped int32 table whose row count is `num_perms` and whose width is `c` when they are not negative |
| Permutations.Decode | self_supervised_3d_tasks/keras_algorithms/custom_utils.py:280-299 | `load_permutations` fails exactly when `load_permutations_3d` does, with the same error; otherwise it returns the same count and the raw table with every entry 1 less |
| Permutations.DecodeErrors | self_supervised_3d_tasks/keras_algorithms/custom_utils.py:271-273 | a body read fails exactly when the file is shorter than 8 + 4*`num_perms`*`c` bytes; the failing read is the first item that is cut off, so no partial table is returned |
| Permutations.Decode3dTruncated | self_supervised_3d_tasks/keras_algorithms/custom_utils.py:271-273 | a file that ends inside body item i makes the load fail on read i with `struct.error` |
| Permutations.DecodeShapeErrors | self_supervised_3d_tasks/keras_algorithms/custom_utils.py:271-275 | once the file holds every body item, the load succeeds exactly when numpy resolves the shape, and fails with `ValueError` exactly when one dimension is negative and the other is not positive |
| Permutations.DecodeNegativeCount | self_supervised_3d_tasks/keras_algorithms/custom_utils.py:269-277 | a negative `num_perms` beside a positive `c` reads no body and loads an empty table of width `c`, returning the negative count |
| Permutations.DecodeNegativeWidth | self_supervised_3d_tasks/keras_algorithms/custom_utils.py:269-277 | a negative `c` beside a positive `num_perms` reads no body and loads `num_perms` empty rows |
| Permutations.DecodeEntry | self_supervised_3d_tasks/keras_algorithms/custom_utils.py:271-275 | entry [i][k] of the loaded table is the int32 at byte offset 8 + 4*(i*cols+k): body items are read in file order and reshaped row-major |
| Permutations.DecodeIgnoresTrailing | self_supervised_3d_tasks/keras_algorithms/custom_utils.py:271-274 | bytes after the last item the header asks for do not change a successful load |
| Permutations.DecodeEncode | self_supervised_3d_tasks/keras_algorithms/custom_utils.py:266-277 | writing any `num_perms` × `c` int32 table in the file layout and loading it with `load_permutations_3d` gives back the same table and count |
| Permutations.DecodeEncodeShifted | self_supervised_3d_tasks/keras_algorithms/custom_utils.py:286-299 | loading that file with `load_permutations` gives back the table with every entry 1 less, and the same count |
| Permutations.EncodeDecode | self_supervised_3d_tasks/keras_algorithms/custom_utils.py:266-277 | a successfully loaded file with a non-negative width re-encodes to exactly the bytes that were read |
| Permutations.LoadPermutations3d | self_supervised_3d_tasks/keras_algorithms/custom_utils.py:261-277 | the cursor-driven read loop, with its early exits on short reads and the reshape, returns exactly `Decode3d` of the file |
| Permutations.LoadPermutations | self_supervised_3d_tasks/keras_algorithms/custom_utils.py:280-299 | the 2D loader returns exactly `Decode` of the file |
| WritingPath.NatToString | self_supervised_3d_tasks/keras_algorithms/custom_utils.py:312 | `str(i)` is a non-empty string of decimal digits with no leading zero |
| WritingPath.DecimalValueOfString | self_supervised_3d_tasks/keras_algorithms/custom_utils.py:312 | the decimal string of n reads back as n |
| WritingPath.NatToStringInjective | self_supervised_3d_tasks/keras_algorithms/custom_utils.py:308-312 | different counters have different decimal strings |
| WritingPath.CandidateInjective | self_supervised_3d_tasks/keras_algorithms/custom_utils.py:306-312 | the names tried (`working_dir`, `working_dir_1`, …) are pairwise distinct |
| WritingPath.NextCandidate | self_supervised_3d_tasks/keras_algorithms/custom_utils.py:307-312 | the first pass appends "_1"; a later pass cuts exactly the digits of counter i-1 and appends i, which turns `working_dir_{i-1}` into `working_dir_i` |
| WritingPath.TriedBound | self_supervised_3d_tasks/keras_algorithms/custom_utils.py:306 | if the first n names all exist then at least n names exist, so the loop cannot run forever |
| WritingPath.FreeIndex | self_supervised_3d_tasks/keras_algorithms/custom_utils.py:305-313 | the stopping step is the first whose name does not exist (every earlier name exists), and it is at most the number of existing names |
| WritingPath.GetWritingPath | self_supervised_3d_tasks/keras_algorithms/custom_utils.py:302-319 | returns a name that does not exist: `working_dir` itself when that is free, otherwise the first free name in the order `working_dir`, `working_dir_1`, `working_dir_2`, … |

## Left out

- `init`: configuration loading, logging, GPU selection and stream redirection are process plumbing.
- The Keras model assembly functions (`get_prediction_model`, `apply_prediction_model`, `get_encoder_model`, `get_encoder_model_3d`, `apply_encoder_model`, `apply_encoder_model_3d`) build framework graphs whose behaviour lives in the framework.
- `self_supervised_3d_tasks/trainer.py`, `jigsaw.py` and `baseline.py` are training glue, floating-point schedules and data generators. The patch-shuffling preprocessing that uses the permutations is not part of this model.
- Opening the permutation file and the default file paths are I/O. The file's bytes are a parameter. `ReadAt` models a regular file, whose reads return short only at end of file.
- `get_writing_path`'s side effects are not modelled: `mkdir`, `shutil.copy2` of the configuration file, and the "writing to:" print. Its result is the name as a string, not a `Path`.
- Path semantics are not modelled. `Path(...).exists()` is membership of the exact string in a finite set, with no normalisation of slashes, `.` or symbolic links. The race between the existence check and `mkdir` is out of scope.
- `Reshape` follows the numpy 1.x rule that any negative dimension is the one to infer. Other numpy versions may reject negative dimensions other than -1; the model does not cover that.
- `MinusOne` computes on unbounded integers. This matches numpy's default 64-bit integer array, in which an entry read from an "<l" item cannot wrap. On a platform whose default integer is 32 bits, `-2^31 - 1` would wrap; that case is not modelled.
- The float64 dtype numpy gives an array built from an empty list is not modelled. An empty table has no values for the dtype to affect.
