# explode-generator: the frame pipeline in Dafny

explode-generator turns a still image into a short looping animation of the
image "exploding" out from its centre and writes it as one animated file.
This project models and proves the part of the program that decides what
ends up in that file:

- **`CStrings`** (`cstrings.dfy`): the string helpers behind the file-name
  logic.
  - `strtolwr` is the in-place ASCII lowercasing.
  - `string_ends_with` is the case-insensitive suffix test. It is modelled twice: as a reference predicate, and as the buffer-level computation (copies, `strtolwr`, `strncmp`) with the scratch copies terminated. That is the corrected form of src/util/string.c:25-31; the copies as the code builds them are under "## Findings".
  - `string_append_prefix` is the macro that builds `prefix ++ string` in a zeroed buffer.
- **`GifSave`** (`gif_save.dfy`): `gif_save` as a pure function. It takes the frame list, the output path and the codec's answers, and returns the sequence of library calls it makes together with its result. Lemmas state, as views of that trace:
  - the `APNG:` prefix rule;
  - the `.gif`-only frame delay;
  - the index order of imports and additions;
  - the early abort on the first failed import;
  - the "loop forever" option set before the write.
- **`Explode`** (`explode.dfy`): the radial transform `image_explode`, its copying wrapper `explode_image_and_copy`, and `resize_pixels`. It also models the 31-entry frame array of `image_to_explode_gif`. The lemmas cover:
  - bounds of every read;
  - reading only from the snapshot;
  - the fixed points (the centre, and everything outside the influence circle);
  - samples lying between the centre and the pixel;
  - frame order, frame count and uniform frame size.
- **`App`** (`app.dfy`): handling one dropped file in `main`. The output name is `<input>_out.png`, a load failure exits with status 1, and otherwise the image is exported. End to end, the exported file always goes through the `APNG:` branch and never gets a frame delay.

Images are values: `Image(width, height, data)` with `data` a row-major
`seq` of packed RGBA words. The float computation of the pull factor
(`sqrtf`, `powf`) is a parameter, `Curve`. The "inside the influence circle"
test is done exactly on integers, squared:
`4 * (dx² + dy²) < min(width, height)²`. The `(int)` cast is written out as
truncation toward zero, and the clamp as `max(0, min(v, hi))`.

## Model

| member | source | states |
|---|---|---|
| `CStrings.ToLower` | src/util/string.c:13 | `tolower` in the C locale moves exactly the capitals `A`–`Z`, each by 32, and maps no other character to or from NUL |
| `CStrings.Lower` | src/util/string.c:9-15 | lowercasing keeps the length, sends every character through `tolower`, and creates no NUL |
| `CStrings.LowerIdempotent` | src/util/string.c:9-15 | lowercasing twice is lowercasing once |
| `CStrings.StrToLwr` | src/util/string.c:9-15 | `strtolwr` on a buffer keeps its length, lowercases every byte before the first NUL and leaves every byte from the NUL on unchanged |
| `CStrings.ScratchAsWritten` | src/util/string.c:25-26 | the scratch copy as the code builds it: only the `len` bytes of the copy are written, and the byte at `len` and those after it hold whatever the stack held |
| `CStrings.ScratchAsWrittenKeepsCopy` | src/util/string.c:25-33 | whatever the stale stack bytes are, `strtolwr` on the unterminated copy lowercases every byte of the copied string, so the bytes `strncmp` compares are the same as with the terminator |
| `CStrings.ScratchAsWrittenOverruns` | src/util/string.c:25-27 | with the scratch copy left unterminated, the input "A" followed by stale bytes "BC" has `strlen` 3, past the 2 bytes allocated, and `strtolwr` rewrites byte 2 |
| `CStrings.ScratchStaysInBounds` | src/util/string.c:25-31 | once the copy is terminated, `strtolwr` yields exactly the lowercased string and its NUL, and every byte after them is untouched |
| `CStrings.StrNEqual` | src/util/string.c:33 | for two buffers with no NUL among their first `n` characters (the only kind `string_ends_with` passes), `strncmp(a, b, n) == 0` holds exactly when those `n` characters agree |
| `CStrings.StringEndsWith` | src/util/string.c:17-34 | the buffer-level computation returns false when the suffix is longer than the string and true for an empty suffix. In general it returns exactly the reference test `EndsWith`: the suffix is no longer than the string and matches its last characters position by position after `tolower`. The computation is the length check, terminated scratch copies, `strtolwr`, and `strncmp` on the tail |
| `CStrings.EndsWithIgnoresCase` | src/util/string.c:25-31 | changing the case of any letter of either argument does not change the answer |
| `CStrings.EndsWithConcat` | src/util/string.c:17-34 | a string that literally ends with `s` ends with `s` in the case-insensitive sense |
| `CStrings.EndsWithLowered` | src/util/string.c:25-33 | against an all-lowercase suffix such as `.png`, the case-insensitive test is a literal suffix test on the lowercased string |
| `CStrings.EndsWithUnderPrefix` | src/util/string.c:17-34 | putting anything in front of a string keeps every suffix it already had |
| `CStrings.UntilNul` | src/util/string.c:11 | `strlen` and every later C-string read see the bytes before the first NUL: a NUL-free prefix of the buffer that stops at the buffer's end or at a NUL |
| `CStrings.UntilNulPastPrefix` | src/util/string.c:11 | `strlen` of a buffer that starts with a NUL-free string is at least that string's length |
| `CStrings.Zeroed` | src/util/string.h:15 | `memset(buf, 0, n)` leaves `n` NUL bytes |
| `CStrings.CopyInto` | src/util/string.h:17-18 | `memcpy(buf + at, src, len)` puts `src` at `at` and leaves every byte outside the target range unchanged |
| `CStrings.PrefixBuffer` | src/util/string.h:13-18 | the macro's buffer has length `len + plen + 1`, the prefix at the front, the string right after it and a NUL as last byte |
| `CStrings.AppendPrefix` | src/util/string.h:8-21 | `string_append_prefix(s, p)` reads back as `p ++ s`, second argument first, of length `|s| + |p|`, and equals `s` when `p` is empty |
| `CStrings.AppendPrefixEndsWithString` | src/util/string.h:17-18 | the result of `string_append_prefix(s, p)` always ends with `s` |
| `GifSave.IsApngPath` | src/gif_save.c:12 | the output selects the animated PNG encoder exactly when, lowercased, it ends in `.apng` or `.png` |
| `GifSave.IsGifPath` | src/gif_save.c:40 | a path asks for frame delays exactly when, lowercased, it ends in `.gif` |
| `GifSave.Target` | src/gif_save.c:12-14 | a path ending in `.apng` or `.png` in any letter case is handed on as `APNG:` followed by the path; any other path is handed on unchanged |
| `GifSave.PngIsNotGif` | src/gif_save.c:40 | no path ends in both `.png` (or `.apng`) and `.gif`, whatever the letter case |
| `GifSave.ApngTargetIsNotGif` | src/gif_save.c:40-42 | a `.png`/`.apng` output, once prefixed, still ends in `.png`/`.apng` and so fails the `.gif` test that guards the delay |
| `GifSave.FrameLoop` | src/gif_save.c:21-48 | the frame loop runs to its end exactly when every frame's import succeeds |
| `GifSave.Run` | src/gif_save.c:16-65 | once the target and the delay decision are fixed, the run succeeds iff every import and the write succeed |
| `GifSave.Save` | src/gif_save.c:10-66 | `gif_save` returns true iff every frame's import succeeds and the write succeeds |
| `GifSave.FrameLoopView` | src/gif_save.c:21-48 | from frame `i` on, the loop imports `i`, `i+1`, … up to and including the first failed import, adds the frames before that import in order, and delays exactly the added ones when the path is a `.gif` |
| `GifSave.SaveFrameOrder` | src/gif_save.c:21-47 | over a whole save, imports are frames `0, 1, …` through the first failure, and the frames added to the animation are `0, 1, …` up to it |
| `GifSave.SaveDelays` | src/gif_save.c:39-42 | a frame gets a delay exactly when it is added and the prefixed path ends in `.gif` |
| `GifSave.SaveShape` | src/gif_save.c:23-29 | every import reads that frame's own buffer at the shared `width`×`height`, and every delay set is 4 |
| `GifSave.RunWrites` | src/gif_save.c:50-57 | every write goes to the target right after the loop option is set to "0"; a failed import leaves no option and no write in the trace, and a completed loop always writes |
| `GifSave.SaveAbortsOnRejectedImport` | src/gif_save.c:31-37 | one failed import makes the save return false with no loop option set and no write attempted |
| `GifSave.SaveWritesAfterLoopOption` | src/gif_save.c:50-52 | over a whole save, every write comes right after `loop = 0` and goes to the prefixed path; when every import succeeds the write is issued |
| `GifSave.ApngSaveHasNoDelays` | src/gif_save.c:39-42 | saving to a `.png` or `.apng` path sets no frame delay at all |
| `GifSave.SaveSucceeds` | src/gif_save.c:52-65 | when every import and the write succeed, the save returns true, all frames are added in index order, and the prefixed path is written |
| `Explode.InsideIsDistanceTest` | src/explode.c:58-61 | the squared integer test `4 * (dx² + dy²) < min(width, height)²` used by the model is exactly `distance < max_radius` for the exact distance `sqrt(dx² + dy²)` and `max_radius = min(width, height) / 2` |
| `Explode.Factor` | src/explode.c:60-64 | the factor is 1 outside the influence circle, and at a positive level lies in `[0, 1]` whenever the curve does inside the circle |
| `Explode.Trunc` | src/explode.c:66-67 | the `(int)` cast truncates toward zero: it lies within 1 of the real value on the side of zero |
| `Explode.Clamp` | src/explode.c:68-69 | `fmax(0, fmin(v, hi))` lies in `[0, hi]` and leaves an in-range value unchanged |
| `Explode.Sample` | src/explode.c:66-69 | a sample coordinate always lies in `[0, extent - 1]`, so the read at line 71 is in bounds |
| `Explode.RowMajor` | src/explode.c:71-72 | `y * width + x` is inside the buffer and determines `x` and `y` back |
| `Explode.Source` | src/explode.c:45-69 | the snapshot position read for pixel (x, y) lies inside the image |
| `Explode.Remapped` | src/explode.c:71-72 | the colour a pixel receives is a pixel of the snapshot |
| `Explode.Explode` | src/explode.c:40-77 | the transform keeps width, height and the `width*height` pixel count |
| `Explode.ImageExplode` | src/explode.c:40-77 | `image_explode` leaves the image unchanged when `level <= 0`; otherwise the row-by-row loops leave every pixel holding the snapshot colour at its source, as the value `Explode` says |
| `Explode.ExplodeRow` | src/explode.c:55-73 | the inner loop sets every pixel of row `y` from the snapshot and keeps the rows already written |
| `Explode.RemappedAt` | src/explode.c:71-72 | the write index and the read index of pixel (x, y) are both inside the buffer, and the pixel written is the snapshot pixel read |
| `Explode.ExplodeKeepsColours` | src/explode.c:51-72 | every pixel of the result is a pixel of the snapshot taken before any write |
| `Explode.ExplodeAt` | src/explode.c:71-72 | the exploded pixel (x, y) is the original pixel at its source position |
| `Explode.TruncScaled` | src/explode.c:66-67 | with a factor in `[0, 1]`, `(int)(d * factor)` lies between 0 and `d` |
| `Explode.SampleBetween` | src/explode.c:62-69 | with a factor in `[0, 1]` the sample lies between the centre and the pixel, so the clamp never changes it |
| `Explode.ExplodeSamplesTowardCentre` | src/explode.c:56-69 | at a positive level, with the curve in `[0, 1]` inside the circle, each pixel is read from inside the rectangle spanned by the centre and the pixel itself |
| `Explode.ExplodeFarFieldFixed` | src/explode.c:60-67 | a pixel outside the influence circle keeps its colour |
| `Explode.ExplodeCentreFixed` | src/explode.c:47-67 | the centre pixel (width/2, height/2) keeps its colour at every level and for every factor |
| `Explode.ExplodeLevelsEvenlySpaced` | src/explode.c:85-92 | the eight levels are `k/8` for `k = 1..8`, ending at full strength |
| `Explode.ExplodeCopy` | src/explode.c:31-38 | `explode_image_and_copy` appends one new buffer to the arena and returns it; the buffer holds the exploded image's `width*height` pixels |
| `Explode.ResizePixels` | src/explode.c:19-29 | `resize_pixels` appends one new buffer to the arena and returns it. The buffer's size, `width*height`, comes from the allocation, and its pixels are what the resize writes into it |
| `Explode.ExplodeFrames` | src/explode.c:85-92 | the exploded copies come one per level, in level order, each allocated in turn and all of the image's size |
| `Explode.ResizeFrames` | src/explode.c:93-158 | the decorative frames are resized to the image's size, in asset order, each allocated in turn |
| `Explode.BuildFrames` | src/explode.c:83-166 | the frame list has 31 frames of the image's size; frame 0 is the caller's own buffer, and the arena owns exactly the other 30, in frame order |
| `Explode.BuildFramesExploded` | src/explode.c:85-92 | frames 1..8 are the image exploded at 0.125, 0.250, …, 1.000, in that order |
| `Explode.BuildFramesDecorative` | src/explode.c:93-158 | frames 9..30 are decorative frames 00..21, in that order, each resized to the image's size |
| `Explode.ImageToExplodeGif` | src/explode.c:79-171 | 31 frames of the image's size go to `gif_save` with the output path: frame 0 is the image's own buffer, frames 1-8 are the image exploded at 0.125 to 1.000, frames 9-30 are the resized decorative frames; the arena owns exactly frames 1-30; the save succeeds exactly when all 31 imports and the write succeed, and the frames are added in order up to the first rejected import |
| `App.OutputPath` | src/main.c:129 | the output path is the input path with `_out.png` appended (8 characters longer) |
| `App.OutputIsApng` | src/main.c:129 | the output path ends in `.png` and so selects the animated PNG encoder |
| `App.OutputTarget` | src/main.c:129 | the library is handed `APNG:<input>_out.png`, which fails the `.gif` test |
| `App.DropFile` | src/main.c:128-136 | a failed load ends the program with status 1, and only a failed load does. Otherwise the image is exported to `<input>_out.png` with the original pixels as frame 0 and no frame delay |
| `App.DropFileSaves` | src/main.c:128-136 | when the codec accepts all frames and the write, the 31 frames are added in order and `APNG:<input>_out.png` is written |

## Left out

- Window, fonts, textures, drag-and-drop and playback timing in `src/main.c` are presentation only, so they are not modelled. Only the output name (line 129), the load failure (lines 131-135) and the export call (line 136) are kept.
- Loading the image (`load_image`, src/main.c:23-31, which calls `stbi_load` from stb_image) is not modelled. Its outcome is the `Loaded` parameter.
- The codec library (MagickWand) is not part of this model. Each of its calls becomes a trace event, and the only answers the code branches on are parameters: the import status per frame and the write status. Exception logging is a trace event, and the `printf` on success is the `ReportSaved` event.
- `image_resize` (`src/resize.c`) is a cubic resample inside the codec library. It is the `Resizer` parameter, which gives the pixel written at each index of the `new_width * new_height` buffer that `resize_pixels` allocates. Its unchecked status results are not modelled.
- Float rounding in `sqrtf`, `powf`, `fmin` and the float product `dx * factor` (src/explode.c:66-67) is not modelled; `Sample` computes that product exactly on reals. The factor is the `Curve` parameter, and the inside test is exact integer arithmetic. A float result that rounds across the circle boundary is therefore not represented.
- The arena allocator (`external/arena.h`) is not part of this model. An arena is the list of buffers it owns, in allocation order, and `arena_free` releases them all after `gif_save`.
- `malloc`/`arena_alloc` failure and `int` overflow of `width * height * 4` are not modelled. Sizes are unbounded integers, and allocation always succeeds.
- The order in which C evaluates the initializers of the frame array is unspecified. Allocation order in the arena is modelled left to right; only the frame order in the array is fixed by the code.
- `tolower` on a negative `char` (bytes above 127) is undefined behaviour in C. Characters are modelled as code points, and only `A`–`Z` change.
- The program has no reverse (implode) mode: `image_to_explode_gif` (src/explode.c:79-171) builds the frames in forward order only, and so does the model.
- `alloca` growth: every file dropped in the main loop leaves another output-path buffer on the stack until `main` returns. Stack use is not modelled.
- `gif_save`'s per-frame `MagickSetSize`/`MagickReadImage("xc:none")` are kept only as trace events. What the library does with them is not modelled.

## Findings

| source | as written | input that shows it | evidently intended | confidence | as-written member | corrected member |
|---|---|---|---|---|---|---|
| src/util/string.c:25-31 | `alloca(len + 1)` followed by `memcpy` of only `len` bytes leaves the last byte of each scratch copy unwritten, so `strtolwr`'s `strlen` reads stale stack bytes and can lowercase bytes past the allocation | `str = "A"` with stack bytes `"BC\0"` after the copy: `strlen` sees 3 bytes in a 2-byte buffer, and byte 2 is rewritten | write the terminator (`str_lower[len_str] = '\0'`, or copy `len + 1` bytes) so that `strtolwr` touches exactly the copy | not executed | `CStrings.ScratchAsWritten`, `CStrings.ScratchAsWrittenOverruns` | `CStrings.ScratchStaysInBounds`, `CStrings.StringEndsWith` |

The boolean returned by `string_ends_with` is unaffected, because only bytes
inside the copy are compared (`CStrings.ScratchAsWrittenKeepsCopy`). The defect is the out-of-bounds read and write.
`CStrings.StringEndsWith` models the corrected buffers.
