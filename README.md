# Verified models of the statable algorithms in a collection of Rust article crates

The repository is a set of small crates accompanying blog articles. Most of
the code is Vulkan and GPU plumbing. Six self-contained algorithms are
modelled here, one Dafny module each:

- `MatrixRank` (matrix_rank.dfy): `matrix_rank`. It computes the rank over
  GF(2) of a bit matrix by Gaussian elimination, done in place on a slice of
  `u32` rows. The model is a method over an `array<bv32>`. Its loops are the
  pivot search (`FindPivot`) and the XOR elimination (`Eliminate`); the row
  swap is `SwapRows`. `FindPivot` runs once per column; `SwapRows` and
  `Eliminate` run only when it finds a pivot (`ReduceColumn`, `ComputeRank`).
  It is proved against a span-based definition of the rank: `Rank` is the
  number of lead columns of the row span.
- `Sandbox` (sandbox.dfy): `add`, and the `Pcg64Si` generator. `next_u64`
  is an LCG step with the MMIX constants, followed by the RXS-M-XS output
  permutation of the old state. All `u64` arithmetic is `bv64`, so it wraps
  modulo 2^64. The generator is a class with a `state` field.
- `Rasterization` (memory_type.dfy): `get_memory_type_index`. It is a
  bit-scan loop that returns the first memory type whose bit is set in
  `type_bits` and whose flags contain every requested flag. It returns 0
  when there is none.
- `CalcToken` (calc_token.dfy): the calculator's `lexer`. It is a parser
  combinator in the source and a hand-written scanner over `seq<char>` here.
  It recognises the keyword `with`, identifiers, `u32` numbers, eight
  punctuation characters and error characters, all padded by whitespace.
  The reference description is `Tiles`: the tokens' texts sit exactly at
  their spans, with only whitespace between them.
- `DateParser` (date_parser.dfy): the `yyyy/mm/dd` parser. A digit run of the
  wrong length emits an error but keeps its value, so a parse with recovery
  still yields the date. A run that does not fit in a `u32` stops the parse.
  The reference description is `Format`, the zero-padded text of a date.
- `RaytracingShader` (shader.dfy): the discrete skeleton of the ray-tracing
  shader. It covers the following, with coordinates and colours over `real`:
  - the payload constructors;
  - the bounce loop of `main_ray_generation`, as a method with its `break`s,
    proved against the path function `Walk`;
  - the accumulation write to the image, an `array2`;
  - the seed and index arithmetic;
  - the root filtering of `sphere_intersection`, and the cutout test of
    `triangle_any_hit`.

  `trace_ray`, the material's `scatter`, the camera and `sqrt` are
  parameters of the model.

`Wrappers` (wrappers.dfy) holds the `Option` type.

## Model

| member | source | states |
|---|---|---|
| MatrixRank.FindPivot | matrix_rank_gf2/src/lib.rs:31-37 | None exactly when no row from `rank` on has a one in column `bit`; otherwise the first such row at or after `rank` |
| MatrixRank.SwapRows | matrix_rank_gf2/src/lib.rs:39 | the rows are those before with rows `i` and `j` exchanged, and nothing else changes |
| MatrixRank.Eliminate | matrix_rank_gf2/src/lib.rs:40-44 | every row other than `rank` that has a one in column `bit` gets the pivot row XOR-ed in, the other rows are unchanged, and the row span is the same as before |
| MatrixRank.ElimPrefixSpan | matrix_rank_gf2/src/lib.rs:40-44 | each partial pass of the elimination loop keeps the row span |
| MatrixRank.ReduceColumn | matrix_rank_gf2/src/lib.rs:31-46 | the result is the first row from `rank` on with a one in column `bit`, and there is none exactly when no such row exists; the matrix is then unchanged; otherwise the new matrix is the old one with that row swapped up to `rank`, followed by the elimination of column `bit`; the echelon form then gains pivot column `bit`, rows from `rank + 1` on are zero below `bit + 1`, and the span is kept |
| MatrixRank.ComputeRank | matrix_rank_gf2/src/lib.rs:27-49 | the result is at most 32 and at most the number of rows; the matrix ends in reduced echelon form with one pivot row per unit of rank; rows from `rank` on are zero; the span is kept; and the result equals the rank of the input matrix |
| MatrixRank.RankSwap | matrix_rank_gf2/src/lib.rs:39 | swapping two rows keeps the rank |
| MatrixRank.RankXorRow | matrix_rank_gf2/src/lib.rs:42 | XOR-ing another row into a row keeps the rank |
| MatrixRank.EchelonLeadSet | matrix_rank_gf2/src/lib.rs:45-48 | in echelon form with zero rows below the pivot rows, the lead columns of the span are exactly the pivot columns, so the rank is the number of pivot rows |
| MatrixRank.RankOfIndependentRows | matrix_rank_gf2/src/lib.rs:56-57 | rows 1100, 1010, 1001 have rank 3 |
| MatrixRank.RankOfEqualRows | matrix_rank_gf2/src/lib.rs:58-59 | three rows 1100 have rank 1 |
| MatrixRank.RankOfZeroRows | matrix_rank_gf2/src/lib.rs:60-61 | three zero rows have rank 0 |
| Sandbox.Add | rust-verify/sandbox/src/main.rs:3-5 | when the sum fits in an `i32`, the result is the mathematical sum |
| Sandbox.Lcg | rust-verify/sandbox/src/main.rs:15-18 | the state update `state * 6364136223846793005 + 1442695040888963407` with wrapping `u64` arithmetic; specified by LcgRoundTrip and IterateBack |
| Sandbox.LcgRoundTrip | rust-verify/sandbox/src/main.rs:15-18 | the state update has a two-sided inverse, so it is a permutation of the 2^64 states |
| Sandbox.IterateBack | rust-verify/sandbox/src/main.rs:15-18 | `n + 1` steps are `n` steps followed by one more |
| Sandbox.Output | rust-verify/sandbox/src/main.rs:20-22 | the RXS-M-XS output permutation of the old state; specified by ShiftAmount, XorShiftKeepsTop, MixInvolution, UnmultiplyWord and OutputRecoversXorShift |
| Sandbox.ShiftAmount | rust-verify/sandbox/src/main.rs:21 | the data-dependent shift `(old >> 59) + 5` lies in `[5, 36]`, so it never reaches 64 |
| Sandbox.XorShiftKeepsTop | rust-verify/sandbox/src/main.rs:21 | the first xorshift keeps the top five bits, and with them the shift amount |
| Sandbox.MixInvolution | rust-verify/sandbox/src/main.rs:22 | the final xorshift `(w >> 43) ^ w` is its own inverse |
| Sandbox.UnmultiplyWord | rust-verify/sandbox/src/main.rs:20-21 | the output multiplier is invertible modulo 2^64, so the word determines the xorshifted state |
| Sandbox.OutputRecoversXorShift | rust-verify/sandbox/src/main.rs:20-22 | the output determines the xorshifted old state and the shift amount the old state chose |
| Sandbox.Outputs | rust-verify/sandbox/src/main.rs:13-23 | `n` calls from a state give exactly `n` outputs |
| Sandbox.OutputsLast | rust-verify/sandbox/src/main.rs:13-23 | call `n + 1` returns the output of the state after `n` calls, and moves the state one LCG step on |
| Sandbox.OutputsSplit | rust-verify/sandbox/src/main.rs:13-23 | `m + n` calls give the outputs of the first `m`, then those of `n` calls from the state after `m` steps, so outputs depend only on the state |
| Sandbox.Pcg64Si.constructor | rust-verify/sandbox/src/main.rs:7-10 | the generator's state is the given seed |
| Sandbox.Pcg64Si.NextU64 | rust-verify/sandbox/src/main.rs:13-23 | the new state is the LCG step of the old state, and the result is the output permutation of the old state, not of the new one; so for every `n`, the `n + 1` outputs from the old state are this result followed by the `n` outputs from the new state |
| Rasterization.ShiftedIsDiv | rasterization-example/src/main.rs:740 | shifting the mask right `n` times divides it by 2^n |
| Rasterization.ShiftedLowBit | rasterization-example/src/main.rs:733 | after `n` shifts the low bit of the mask is bit `n` of the original mask |
| Rasterization.GetMemoryTypeIndex | rasterization-example/src/main.rs:727-743 | the result is 0 or below `memory_type_count`; a suitable type exists exactly when the result is one, and the result is then the first one; the result is 0 when none is suitable |
| CalcToken.ScanToken | calc/src/token.rs:43-46 | one `choice` of the token parsers at a non-whitespace position; a scanned token ends after its start and within the input; specified by ScanKeywordFirst, ScanIdent, ScanNumber, ScanPunctuation, ScanError and ScanTokenText |
| CalcToken.ScanKeywordFirst | calc/src/token.rs:43-44 | a token is `With`, four characters long, exactly when the input there starts with `with`, even inside a longer word |
| CalcToken.ScanIdent | calc/src/token.rs:22-26 | a token is an identifier exactly when it starts with an ASCII letter and not with `with`; it is then a maximal run of letters |
| CalcToken.ScanNumber | calc/src/token.rs:27 | a number starts with a digit; `0` is a number on its own; otherwise the whole digit run is taken; the value overflows exactly when the digit run's value is at least 2^32 |
| CalcToken.DecimalOfDigits | calc/src/token.rs:27 | a digit run without leading zeros is the decimal text of its value |
| CalcToken.ScanPunctuation | calc/src/token.rs:28-35 | each punctuation character is scanned as its own one-character token |
| CalcToken.PunctuationInjective | calc/src/token.rs:28-35 | distinct punctuation characters give distinct tokens |
| CalcToken.ScanError | calc/src/token.rs:36-46 | a token is an error token exactly when its character is no letter, digit or punctuation; it then spans that one character |
| CalcToken.ScanTokenText | calc/src/token.rs:43-47 | the input text under a scanned token's span is the token's text |
| CalcToken.LexFrom | calc/src/token.rs:47-49 | the whitespace-padded token parser repeated from a position; specified by LexFromTiles, LexFromScans, TilesOrdered, TilesGaps and EmittedAllEmpty |
| CalcToken.LexFromScans | calc/src/token.rs:43-49 | each output token is exactly what the token choice reads at its span's start, ending at its span's end, so the keyword, identifier, number, punctuation and error rules hold for every token returned |
| CalcToken.LexScans | calc/src/token.rs:43-50 | with recovery, each token of the output is the token the choice reads at its span's start |
| CalcToken.LexFromTiles | calc/src/token.rs:47-49 | the repeated padded token parser's output tiles the input from the start position, and its errors are exactly those of the error tokens, in order |
| CalcToken.TilesOrdered | calc/src/token.rs:47-49 | spans lie in the input, are non-empty, and are strictly increasing without overlap |
| CalcToken.TilesGaps | calc/src/token.rs:48 | every character outside all spans is whitespace |
| CalcToken.EmittedAllEmpty | calc/src/token.rs:36-46 | no error is emitted exactly when no token is an error token |
| CalcToken.LexRecovery | calc/src/token.rs:47-50 | `lexer().parse_recovery(s)`, with `end()` after the repeated tokens; specified by LexRecoveryOutput and LexScans |
| CalcToken.Lex | calc/src/token.rs:47-50 | `lexer().parse(s)`: the tokens when recovery reported no error; specified by LexStrict |
| CalcToken.LexRecoveryOutput | calc/src/token.rs:47-50 | with recovery, the output is missing exactly for non-empty all-whitespace input, which gives the end-of-input error only; otherwise the tokens tile the input and the errors come from the error tokens |
| CalcToken.LexStrict | calc/src/token.rs:47-50 | a strict lex succeeds exactly when the input is not non-empty all-whitespace and no token is an error token; its tokens then tile the input |
| CalcToken.ScanDigit | calc/src/token.rs:27 | a single digit that is `0` or has no digit after it scans as that number, one character long |
| CalcToken.LexOneTwoThree | calc/src/token.rs:53-63 | `"1 2 3"` lexes to `Number(1)` at 0..1, `Number(2)` at 2..3 and `Number(3)` at 4..5 |
| CalcToken.LexLeadingZeros | calc/src/token.rs:27 | `"007"` lexes to three numbers 0, 0 and 7, one character each |
| CalcToken.LexOnlyWhitespace | calc/src/token.rs:48-50 | two spaces and nothing else yield only the end-of-input error |
| DateParser.Number | chumsky-basic/src/main.rs:6-21 | one `number(width)` field: a digit run, its length check and its `u32` conversion; a read field ends after its start and within the input; specified by NumberRecovers, NumberStops, NumberClean and NumberOfPadded |
| DateParser.LabelInjective | chumsky-basic/src/main.rs:23-28 | the five labels, the source's "betweel" spelling included, are pairwise distinct, so the label an unexpected-input error carries names the part being read |
| DateParser.NumberRecovers | chumsky-basic/src/main.rs:7-15 | a field read is a digit run whose value is kept; it emits nothing exactly when its length is the field width, and otherwise the one length error for that run |
| DateParser.NumberStops | chumsky-basic/src/main.rs:6-20 | a field stops the parse exactly when no digit is at its start or its value does not fit in a `u32`; with no digit, the one error is the unexpected-input error labelled with the part; otherwise the last error is the invalid-`u32` error for the run |
| DateParser.NumberClean | chumsky-basic/src/main.rs:6-15 | a field read without errors is exactly `width` digits, the zero-padded text of its value, not followed by a digit |
| DateParser.NumberOfPadded | chumsky-basic/src/main.rs:6-15 | the zero-padded text of a value below 10^width, not followed by a digit, reads back as that value with no error |
| DateParser.PaddedValue | chumsky-basic/src/main.rs:17 | the zero-padded text of a value below 10^width has that value |
| DateParser.PaddedOfDigits | chumsky-basic/src/main.rs:16-17 | a digit string is the zero-padded text of its value |
| DateParser.ParseRecovery | chumsky-basic/src/main.rs:23-29 | `yyyy_mm_dd().parse_recovery(s)`; specified by RecoveryShape, RecoveryKeepsValues and RecoveryExample |
| DateParser.Parse | chumsky-basic/src/main.rs:23-29 | `yyyy_mm_dd().parse(s)`; specified by ParseFormatted, ParseClean, FormattedParses, StrictFailsOnError and ParseExample |
| DateParser.ParseFormatted | chumsky-basic/src/main.rs:23-29 | a strict parse gives a date exactly when the input starts with that date's zero-padded `yyyy/mm/dd` text and no digit follows |
| DateParser.ParseClean | chumsky-basic/src/main.rs:23-29 | the date a strict parse gives has fields that fit their widths, and the input starts with its formatted text |
| DateParser.FormattedParses | chumsky-basic/src/main.rs:23-29 | formatted text not followed by a digit parses strictly to its date |
| DateParser.RecoveryShape | chumsky-basic/src/main.rs:23-29 | a recovered date means year, `/`, month, `/` and day were all read, in that order |
| DateParser.RecoveryKeepsValues | chumsky-basic/src/main.rs:7-29 | three `u32` digit runs separated by `/` give the date whatever their lengths, with the length errors year first |
| DateParser.StrictFailsOnError | chumsky-basic/src/main.rs:35 | a strict parse fails with the same errors whenever recovery reports any |
| DateParser.ParseExample | chumsky-basic/src/main.rs:34 | `"2020/03/19"` parses to 2020, 3, 19 |
| DateParser.RecoveryExample | chumsky-basic/src/main.rs:35-40 | `"20201/03/19"` recovers the date with year 20201 and one length error, and fails a strict parse |
| RaytracingShader.NewMiss | raytracing-example-plus/shader/src/lib.rs:43-49 | `RayPayload::new_miss`; specified by NewMissRoundTrip |
| RaytracingShader.NewHit | raytracing-example-plus/shader/src/lib.rs:51-71 | `RayPayload::new_hit`; specified by NewHitOrientation |
| RaytracingShader.NewMissRoundTrip | raytracing-example-plus/shader/src/lib.rs:43-49 | a miss payload has `is_miss` equal to 1, carries the colour in `position`, and keeps the defaults elsewhere |
| RaytracingShader.NewHitOrientation | raytracing-example-plus/shader/src/lib.rs:51-71 | a hit payload is no miss; it is front-facing exactly when `dot(direction, outward) < 0`; the normal is then the outward normal and otherwise its negation, so it always faces the ray |
| RaytracingShader.Walk | raytracing-example-plus/shader/src/lib.rs:124-158 | the path of at most 50 traces that the bounce loop follows; specified by WalkBounds, WalkStep and FirstMiss, and the reference definition for Bounce |
| RaytracingShader.WalkBounds | raytracing-example-plus/shader/src/lib.rs:124-158 | a path makes at least one and at most 50 traces; it is cut off only after 50 successful scatters, and a miss always adds its colour |
| RaytracingShader.WalkStep | raytracing-example-plus/shader/src/lib.rs:141-157 | a miss ends the path with the sky colour, a successful scatter adds its attenuation and continues from the scattered ray, and a failed scatter ends it |
| RaytracingShader.FirstMiss | raytracing-example-plus/shader/src/lib.rs:141-143 | a first-trace miss gives white times the sky colour |
| RaytracingShader.Bounce | raytracing-example-plus/shader/src/lib.rs:120-158 | the loop's colour is white multiplied by every factor of the ray's path, in order |
| RaytracingShader.PixelOf | raytracing-example-plus/shader/src/lib.rs:160 | the written pixel is in bounds for a launch inside the launch size |
| RaytracingShader.PixelOfInjective | raytracing-example-plus/shader/src/lib.rs:160 | distinct launches write distinct pixels, and the row flip is its own inverse |
| RaytracingShader.Accumulate | raytracing-example-plus/shader/src/lib.rs:160-165 | the pixel gains the colour with one more sample, and no other pixel changes |
| RaytracingShader.RayGeneration | raytracing-example-plus/shader/src/lib.rs:91-165 | one launch adds the colour of the camera ray's path to its pixel and touches no other pixel |
| RaytracingShader.RowMajor | raytracing-example-plus/shader/src/lib.rs:100 | the launch's row-major index `id.y * size.x + id.x` in wrapping `u32` arithmetic, so below 2^32; specified by RowMajorInRange and RowMajorInjective |
| RaytracingShader.PixelSeed | raytracing-example-plus/shader/src/lib.rs:100 | the row-major index XOR the push-constant seed; specified by PixelSeedUnmask and PixelSeedInjective |
| RaytracingShader.PixelSeedUnmask | raytracing-example-plus/shader/src/lib.rs:100 | XOR-ing the seed again gives back the launch's wrapping `u32` row-major index |
| RaytracingShader.PixelSeedInjective | raytracing-example-plus/shader/src/lib.rs:100 | in a launch of at most 2^32 pixels, two launches get the same seed exactly when they are the same launch |
| RaytracingShader.RowMajorInRange | raytracing-example-plus/shader/src/lib.rs:100 | in a launch of at most 2^32 pixels the wrapping row-major index does not wrap |
| RaytracingShader.RowMajorInjective | raytracing-example-plus/shader/src/lib.rs:100 | distinct launches inside the launch width have distinct row-major indices |
| RaytracingShader.TriangleIndices | raytracing-example-plus/shader/src/lib.rs:246-254 | the three vertex indices of a primitive, at slots `3p`, `3p + 1` and `3p + 2`; specified by TriangleInBounds and SlotRoundTrip |
| RaytracingShader.SlotRoundTrip | raytracing-example-plus/shader/src/lib.rs:246-254 | slot `3p + c` determines the primitive `p` and the corner `c`, so triangles never share slots |
| RaytracingShader.TriangleInBounds | raytracing-example-plus/shader/src/lib.rs:246-254 | with at least `3n` indices, every primitive below `n` meets the fetch's bounds, and its three vertex indices are those at slots `3p`, `3p + 1`, `3p + 2` |
| RaytracingShader.SphereHits | raytracing-example-plus/shader/src/lib.rs:175-200 | at most two roots are reported, each inside `[t_min, t_max]` |
| RaytracingShader.SphereMissesLine | raytracing-example-plus/shader/src/lib.rs:180-183 | a negative discriminant reports nothing |
| RaytracingShader.SphereHitsReported | raytracing-example-plus/shader/src/lib.rs:185-200 | when the line meets the sphere, a value is reported exactly when it is `root0` or `root1` and lies in `[t_min, t_max]`; an in-range `root0` is reported first; there are two reports, `root0` then `root1`, exactly when both are in range, so a double root is reported twice |
| RaytracingShader.SphereZeroDirection | raytracing-example-plus/shader/src/lib.rs:185-200 | a zero direction reports nothing, as its roots are NaN in the source |
| RaytracingShader.SphereHitsOrdered | raytracing-example-plus/shader/src/lib.rs:185-200 | with a non-negative square root, `root0` is reported before a larger or equal `root1` |
| RaytracingShader.SphereHitsAreRoots | raytracing-example-plus/shader/src/lib.rs:185-200 | every reported hit is one of the two roots, which only exist for a non-zero direction |
| RaytracingShader.SphereHitsOnSphere | raytracing-example-plus/shader/src/lib.rs:175-200 | with an exact square root, every reported hit is a point on the unit sphere |
| RaytracingShader.IgnoresHit | raytracing-example-plus/shader/src/lib.rs:284-288 | the cutout test `|pos|^2 < 0.2` of `triangle_any_hit`; specified by CutoutShrinks |
| RaytracingShader.CutoutShrinks | raytracing-example-plus/shader/src/lib.rs:284-288 | the ignored region `|pos|^2 < 0.2` is a ball about the object origin: scaling an ignored hit towards it keeps it ignored |

## Left out

- matrix_rank_gf2: `expected_rank_distribution` is left out because it is floating-point products. `plot.rs` draws with plotters, and `main.rs` reads stdin and prints a histogram.
- MatrixRank.ComputeRank: the row count is a `nat`, not a `usize`. The slice length is unchanged because the model uses an array, whose length is fixed.
- Sandbox.Add: models Rust's debug-build panic on overflow as a precondition, so the release build's wrap-around is not modelled.
- Sandbox: the first xorshift `(s >> k) ^ s` is not inverted, so the output alone is not proved to determine the state.
- Sandbox.Pcg64Si: the struct has no constructor in the source; the model's constructor only seeds the state.
- rasterization-example: only `get_memory_type_index` is modelled. Everything else in the file is Vulkan calls through `ash`, mapped-memory pointer walking, PNG writing and debug printing.
- Rasterization.GetMemoryTypeIndex: `type_bits` is a `u32` value, and `>>= 1` is halving. `memory_type_count <= memory_types.len()` is a precondition. It stands for Vulkan's guarantee that `memoryTypeCount <= VK_MAX_MEMORY_TYPES`, the table's 32 entries. Without it the source would index out of bounds and panic; that panic path is not modelled.
- CalcToken: chumsky's error internals are not modelled: the expected-token sets, labels and error merging. Only the errors' kinds, spans and order are kept.
- CalcToken.LexRecovery: the position carried by the end-of-input error for all-whitespace input is not modelled.
- CalcToken.ScanToken: a number that does not fit in a `u32` panics in the source (`unwrapped`). `Run.Panicked` models that as an outcome rather than a precondition.
- CalcToken.IsWhitespace: covers the Unicode `White_Space` code points. Character classes beyond that are not modelled.
- DateParser: `main`'s error reporting with ariadne and the message texts are not modelled; the error kinds carry the spans and the digit text instead.
- DateParser: what chumsky does after a stopping error is not modelled. The parse yields no date, and the errors collected up to that point are kept.
- RaytracingShader: `f32` arithmetic is modelled as `real`, so rounding, infinity and NaN are not modelled. The exception is the zero-direction case of `sphere_intersection`, whose NaN roots are read as "nothing reported".
- RaytracingShader: `trace_ray`, the material's `scatter`, the camera's `get_ray` and `sqrt` are function parameters. The `camera`, `material`, `math` and `rand` modules are not part of this model.
- RaytracingShader.RayGeneration: the generator arrives already seeded (`seeded`), and the camera is a parameter that also draws `u` and `v`. The seed computation is stated apart, as `PixelSeed`, and the generator's use of the seed is not modelled.
- RaytracingShader: `main_miss` is not modelled, because its sky gradient is floating-point `lerp`/`normalize`.
- RaytracingShader: `sphere_closest_hit` is not modelled, because its normal and hit position are floating-point transforms.
- RaytracingShader: the barycentric and transform arithmetic of `triangle_closest_hit` is not modelled. Only its index fetch is.
- RaytracingShader.TriangleIndices: states only the bounds that make the fetch safe. `index_unchecked` itself is not modelled.
- RaytracingShader: the payload's `material` and the launch coordinates are `nat` rather than `u32`. The row-major index wraps modulo 2^32 explicitly, and XOR is bitwise on naturals.
- The rasterization shader's constant vertex table is not modelled. Neither are the build scripts that invoke `spirv_builder`, or the ariadne sample, which only prints reports.
