# YUV comparator and GF(2) matrix, modelled in Dafny

This project models two small programs and proves properties about them.

**The YUV frame comparator** (`videoinfo`). It reads a reference and a test
file of raw planar YUV frames, each `width` x `height` pixels, in one of
three chroma layouts:

- 4:4:4: full U and V planes.
- 4:2:2: U and V of `frameSize / 2` bytes, one chroma row per luma row pair.
- 4:2:0: U and V of `frameSize / 4` bytes, read with a stride of `width`.

For every frame it adds up per-pixel error terms in three wrapping
`uint32_t` accumulators. Each accumulator is then divided by the pixel
count, and that integer is handed to `psnr`. The model covers:

- parsing the `J:a:b` argument and dispatching on it, with both error exits;
- the frame geometry: bytes per frame, frame offsets, and the offset of
  every row read, with the 32-bit arithmetic spelled out;
- how many frames each layout iterates over;
- the three row loops with their chroma expansion;
- the wrapped sums and the integer MSE.

The row loops are written as methods over row buffers. Each is proved to
compute a pixel-by-pixel reference definition (`Frames.FrameSums`).

**The GF(2) matrix** (`gf2_matrix_ops`). It is a square `dim` x `dim`
byte matrix stored column by column and addressed from 1. The model covers
`create`, `createIdentityMatrix`, `getValue` and `setValue`. `setValue`
ORs the low bit of its argument into the cell.

Files:

- `common.dfy`: bytes, 32-bit wrap-around, `Option`.
- `subsampling.dfy`: the subsampling argument.
- `layouts.dfy`: dispatch, geometry and frame counts.
- `frames.dfy`: pixels, error terms and per-frame sums.
- `scoring.dfy`: the row loops.
- `comparator.dfy`: the frame loop, the MSE and `main`.
- `runs.dfy`: properties of whole runs.
- `gf2.dfy`: the GF(2) matrix.

Where the comparator computes in `double`, the model uses exact integer
arithmetic:

- The `1.5`, `1.25` and `f * 1.5 * frameSize` offsets are multiples of 1/4.
  Below 2^53 they are exact in `double`, so truncating them to an integer is
  a floor division, and it is written that way.
- The 4:2:0 frame count compares the integer `f` with the rounded quotient
  `size / (1.5 * frameSize)`. The exact quotient is either an integer or at
  least `1 / (3 * frameSize)` away from one, which is far more than its
  rounding error for files below about 2^50 bytes. So the comparison is
  decided exactly as with rational arithmetic, and it is modelled that way.

The 32-bit `frameOffset` and the `frameOffset + offset` seek positions
are reduced mod 2^32, so streams past 4 GiB read earlier bytes again
(`Runs.FrameOffsetWraps`).

## Model

| member | source | states |
|---|---|---|
| Subsampling.Parse | videoinfo/src/main.cpp:652-666 | An argument is accepted exactly when the whole string matches `[0-9]:[0-9]:[0-9]`. J, a and b are then the values of its first, second and third digit. |
| Subsampling.ParseThenFormat | videoinfo/src/main.cpp:652-666 | Every accepted argument denotes a single-digit triple. Printing that triple gives back the same argument. |
| Layouts.Dispatch | videoinfo/src/main.cpp:670-685 | A triple selects a reader only when it equals that layout's J:a:b. Nothing runs exactly when J is not 4. The unsupported-mode error happens exactly when J is 4 and no layout matches. |
| Layouts.FrameOffsets | videoinfo/src/main.cpp:382-421 | A frame takes 3, 2 or 1.5 bytes per pixel. Frame `f` starts at `f * bytesPerFrame`, which is right where frame `f - 1` ends. This holds for the 4:2:0 double product too, given an even pixel count. |
| Layouts.FrameOffset | videoinfo/src/main.cpp:420-421 | Frame `f` starts `f * frameSize` pixels of 3, 2 or 1.5 bytes into the file, truncated to a whole byte: twice the offset is at most the exact half-byte count and less than it plus 2. |
| Layouts.UOffset | videoinfo/src/main.cpp:435-437 | The U row that a luma row reads lies past the Y plane. The exact placement within the U plane is in the Rows* lemmas below. |
| Layouts.VOffset | videoinfo/src/main.cpp:435-438 | The V row that a luma row reads lies past the start of the V plane, which lies past the Y plane. |
| Layouts.Rows444InPlanes | videoinfo/src/main.cpp:123-129 | In 4:4:4 the Y, U and V rows read for any row lie inside their own planes, so inside the frame. |
| Layouts.Rows422InPlanes | videoinfo/src/main.cpp:266-272 | In 4:2:2 every row's reads stay inside their planes if and only if the height is even. With an odd height the last U read runs into the V plane. |
| Layouts.Rows420LumaAndU | videoinfo/src/main.cpp:431-437 | In 4:2:0 with an even height, both luma rows of a row pair lie in the Y plane. The U read ends inside the frame. |
| Layouts.Rows420VOverrun | videoinfo/src/main.cpp:431-438 | In 4:2:0 with an even height, the last pair's V read, with its `width` stride, ends exactly `frameSize / 4` bytes past the frame. |
| Layouts.FramesToScore | videoinfo/src/main.cpp:404-413 | For 4:4:4 and 4:2:2, the count `n` is the floor quotient of the shorter file by `bytesPerFrame`: `n` frames fit and `n + 1` do not. For 4:2:0 it is the ceiling quotient of twice the shorter size by `3 * frameSize`. |
| Layouts.FrameCountWhole | videoinfo/src/main.cpp:96-105 | 4:4:4 and 4:2:2 iterate over frame `f` exactly when the whole frame lies in both files. Trailing bytes are ignored. |
| Layouts.FrameCount420 | videoinfo/src/main.cpp:404-420 | 4:2:0 iterates over frame `f` exactly when the frame starts inside both files. |
| Layouts.FrameCount420Partial | videoinfo/src/main.cpp:404-420 | The 4:2:0 loop covers the whole frames of the shorter file, plus one more exactly when a partial frame trails them. |
| Frames.ReadRow | videoinfo/src/main.cpp:140-145 | A row read succeeds exactly when its bytes lie in the file. The buffer then holds those bytes in order. |
| Frames.GroupReads | videoinfo/src/main.cpp:140-153 | One iteration of the row loop reads the luma row first, and every position it reads is a 32-bit seek position. 4:2:2 reads three rows on even rows and only the luma row on odd ones. 4:2:0 reads four rows, both luma rows of the pair first. |
| Frames.PixelAt | videoinfo/src/main.cpp:155-165 | The reference pixel: Y from its luma row at column `x`, U and V from the chroma rows the layout assigns to row `y`, at the layout's chroma index for `x`. Its properties are stated by Chroma422Duplication, Block420Shared and Scoring.ExpandedRowIsPixels. |
| Frames.Chroma422Duplication | videoinfo/src/main.cpp:290-329 | In 4:2:2 an odd column has the chroma of the column to its left. An odd row has the chroma of the row above. |
| Frames.Block420Shared | videoinfo/src/main.cpp:495-520 | In 4:2:0 all four pixels of a 2x2 block carry the U and V bytes at index `x / 2` of the pair's chroma rows. |
| Frames.Term | videoinfo/src/main.cpp:178-180 | Identical pixels add 0 on every channel. The Y and U terms are squares of byte differences, so they lie in [0, 255^2]. The V term `(r.v - t.v) * (r.y - t.v)` is kept as written; it is not a square and can be negative. |
| Frames.IdenticalFrameSums | videoinfo/src/main.cpp:178-180 | Comparing a file with itself leaves all three accumulators at 0. This includes the asymmetric V term. |
| Frames.SquaredSumsExact | videoinfo/src/main.cpp:178-179 | If 255^2 times the scanned positions fits in 32 bits, the Y and U accumulators never wrap. Each then equals the exact sum of squared differences. |
| Scoring.ExpandRow | videoinfo/src/main.cpp:309-329 | Chroma expansion of one row: one sample per column, with the luma byte passed through unchanged. The chroma of each column is stated by ExpandRowChroma. |
| Scoring.ExpandRowChroma | videoinfo/src/main.cpp:309-329 | The chroma of each column as each layout expands it: own column in 4:4:4; in 4:2:2, own column if even, left neighbour's if odd; column `x / 2` in 4:2:0. |
| Scoring.ExpandedRowIsPixels | videoinfo/src/main.cpp:155-165 | Expanding the Y, U and V buffers read for a row gives exactly that row's pixels. |
| Scoring.AccumulateRow | videoinfo/src/main.cpp:155-181 | After the column loop, each accumulator is its start value plus the exact sum of the row's terms, reduced mod 2^32. |
| Scoring.AccumulatePair | videoinfo/src/main.cpp:478-551 | The 2x2-block loop leaves each accumulator equal to its start value plus the exact sums of both rows' terms, mod 2^32. |
| Scoring.LoadRow | videoinfo/src/main.cpp:288-307 | A 4:4:4 or 4:2:2 row's reads fail exactly when one of them is short. Otherwise the buffers hold the Y, U and V rows for that luma row, including the chroma a 4:2:2 odd row keeps from the row above. |
| Scoring.LoadPair | videoinfo/src/main.cpp:431-475 | A 4:2:0 row pair's four reads fail exactly when one is short. Otherwise the buffers hold both luma rows and the pair's U and V rows. |
| Scoring.ScoreRows | videoinfo/src/main.cpp:266-347 | The 4:4:4 / 4:2:2 row loop yields the pixel-by-pixel frame sums, or no result on a short read. |
| Scoring.ScoreRowPairs | videoinfo/src/main.cpp:431-552 | The 4:2:0 row-pair loop yields the pixel-by-pixel frame sums, or no result on a short read. |
| Scoring.ScoreFrame | videoinfo/src/main.cpp:123-183 | A frame has a result exactly when every read in both files is full. The result is the wrapped pixel-by-pixel sums. |
| Comparator.Mse | videoinfo/src/main.cpp:191-193 | Each per-channel MSE is the integer quotient of its accumulator by the pixel count. |
| Comparator.ScoreFrames | videoinfo/src/main.cpp:112-205 | A run of `n` frames is scored exactly when every frame is readable. Otherwise it stops at an unreadable frame, and every earlier frame is readable. Both kinds of run hold one MSE per frame read so far, in order. |
| Comparator.CompareStreams | videoinfo/src/main.cpp:112-205 | The frame loop computes the run verdict over exactly the frames the layout's count allows. |
| Comparator.TruncationPoint | videoinfo/src/main.cpp:112-153 | A run stops at the first frame that cannot be read, however many frames it was meant to cover. The MSEs it keeps are those of the frames before it. |
| Comparator.IdenticalStreamsScoreZero | videoinfo/src/main.cpp:178-193 | Comparing a stream with itself gives zero MSE on every channel of every scored frame. This includes the frames a truncated run scores before it stops. |
| Comparator.ParseSpelling | videoinfo/src/main.cpp:652-678 | An argument parses to a layout's triple if and only if it is that layout's spelling. |
| Comparator.Execute | videoinfo/src/main.cpp:652-685 | Width and height are constrained only when the argument selects a reader. `main` reports an invalid format exactly when the pattern fails. It does nothing exactly when a matching argument has J other than 4. It runs the right reader on exactly the three supported spellings, and reports an unsupported mode on every other J = 4 argument. |
| Comparator.ExitStatusOfExecute | videoinfo/src/main.cpp:652-685 | `main` exits with -1 exactly when the argument is malformed or names an unsupported J = 4 mode, whatever the dimensions. It divides by zero in the integer `sum_fs / totalFrames` (main.cpp:210 and 374) exactly when 4:4:4 or 4:2:2 has no frame to score. |
| Runs.WholeFramesScored | videoinfo/src/main.cpp:96-153 | 4:4:4, and 4:2:2 of even height, score every whole frame of the shorter file, each with the MSE of its sums, for files of any size. Past 4 GiB the wrapped seeks read earlier bytes, but every read stays inside the file. |
| Runs.Overrun420Truncates | videoinfo/src/main.cpp:404-475 | Take two 4:2:0 files of even height that hold exactly `k` whole frames, with the file size plus `bytesPerFrame` at most 2^32. The last frame's V read runs past the end, so the run stops at frame `k - 1` after scoring the `k - 1` frames before it. For larger files the 32-bit wrap can move that read back inside the file. |
| Runs.FrameOffsetWraps | videoinfo/src/main.cpp:255-256 | In a 256x256 4:2:2 stream, frame 32768 starts at byte 2^32, which the 32-bit `frameOffset` holds as 0. Every pixel of that frame is read from frame 0's bytes. |
| Runs.SquaredMseBound | videoinfo/src/main.cpp:178-193 | When 255^2 per pixel cannot wrap, the Y and U MSE of a frame lie in [0, 255^2]. |
| Runs.LumaOffByTen | videoinfo/src/main.cpp:155-193 | Worked example: a 2x2 4:4:4 frame whose luma is off by 10 everywhere has luma MSE 100 and no chroma error. |
| Gf2Matrix.CellIndexRoundTrip | gf2_matrix_ops/src/gf2_matrix.c:37-42 | The column-major 1-based address of an in-bounds (row, column) pair lies in the storage, and the pair can be recovered from it. |
| Gf2Matrix.CellIndexOnto | gf2_matrix_ops/src/gf2_matrix.c:13-17 | Every storage byte is the address of some in-bounds (row, column) pair. |
| Gf2Matrix.CellIndexInjective | gf2_matrix_ops/src/gf2_matrix.c:44-51 | Two in-bounds pairs share a cell if and only if they are the same pair. |
| Gf2Matrix.GetValue | gf2_matrix_ops/include/gf2_matrix.h:34-41 | On a GF(2) matrix every element read is 0 or 1. |
| Gf2Matrix.SetValue | gf2_matrix_ops/src/gf2_matrix.c:44-51 | An even `e` changes nothing. An odd `e` sets bit 0 of the cell and keeps its other bits. Every other element is unchanged. On a GF(2) matrix the result is a GF(2) matrix whose element is 1 for odd `e` and unchanged otherwise. |
| Gf2Matrix.Create | gf2_matrix_ops/src/gf2_matrix.c:7-20 | Whatever the freshly allocated storage held, every element of the new `dim` x `dim` matrix is 0. |
| Gf2Matrix.CreateIdentityMatrix | gf2_matrix_ops/src/gf2_matrix.c:22-29 | The result is the identity: 1 on the diagonal and 0 elsewhere. |
| Gf2Matrix.SetValueIdempotent | gf2_matrix_ops/src/gf2_matrix.c:44-51 | Setting the same element twice has the effect of setting it once. |
| Gf2Matrix.SetValueCommutes | gf2_matrix_ops/src/gf2_matrix.c:44-51 | Two `setValue` calls give the same matrix in either order. |

## Left out

- Opening the files and the `exit(1)` on failure (main.cpp:78-88 and its twins). The files are byte sequences given as parameters.
- Command-line option parsing (boost `program_options`), `--help`, `printUsage`, and the exit statuses 1 and 2. The model starts from the parsed width, height and subsampling string.
- `psnr`, `log10` and every `double` score: `frameScore`, `sum_fs` and the sequence score. The model stops at the integer MSE handed to `psnr`. Only whether the final `sum_fs / totalFrames` divides an integer by zero is modelled (`Comparator.ExitStatus`).
- The `chrono` timing and the FPS line, and all DEBUG and FINE output.
- The RGB888 build variant and `yuv2rgb`.
- `Comparator.Execute`: when the argument selects a reader, requires `ValidDims`: positive dimensions with `3 * width * height < 2^32`. Then the `uint` `frameSize` and `bytesPerFrame` do not wrap. With a zero dimension the 4:4:4 and 4:2:2 readers divide an integer by a zero `bytesPerFrame` (main.cpp:96-97 and 239-240), and the 4:2:0 reader divides by a zero `frameSize` at main.cpp:560-562 once it scores a frame.
- `Comparator.Execute`: requires an even width for 4:2:0. With an odd width the block loop reads one byte past each row buffer, which is undefined behaviour.
- `Scoring.ScoreFrame`: a short read makes the frame result `None`, and the run stops there (`Comparator.TruncatedAt`). The source does not check its reads and goes on with indeterminate buffer contents, which cannot be modelled.
- `Scoring.LoadRow`: on an odd 4:2:2 row the U and V buffers are fresh variable-length arrays, formally indeterminate. They are modelled as still holding the bytes read on the row above, as the storage does in practice and as the source's comment intends.
- `Gf2Matrix.Create`: the contents of the `malloc`ed storage are taken as a parameter. A failed `malloc` (the NULL result) is not modelled.
- The `m + sizeof(m->dim)` pointer arithmetic in `create`, which places the cells beyond the allocation. The model gives the matrix its own `dim * dim` cells.
- `destroy` and `GF2_print`. They only free memory and print.
- The header's `rows`/`cols` struct and its two-argument `create` declaration. The model follows the square `dim` matrix of gf2_matrix.c.
- The `assert`s in `getValue` and `setValue` are preconditions (`InBounds`) rather than aborts.
- The demonstration program gf2_matrix_ops/src/main.c and cert_chain_parsing/sslcert/src/certinfo.c are not part of this model.
- The row and column counters `int y` and `int x` stay below the dimensions, which `ValidDims` keeps below 2^32 / 3. The frame counter `int f` is unbounded in the model. In the source it would overflow, which is undefined behaviour, past INT_MAX frames.
- `Frames.FrameBase`: the 4:2:0 `(uint32_t)(f * 1.5 * frameSize)` converts a `double` of 2^32 or more, which is undefined behaviour in C++. The model reduces it mod 2^32 like the unsigned products of 4:4:4 and 4:2:2.
- `Layouts.FrameCount420`: exact only for files below about 2^50 bytes. Beyond that the rounded `double` quotient could decide a comparison differently.
