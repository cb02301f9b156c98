# Script loader of tinyJS-F360Post, in Dafny

This project models the script loader in `Script.cpp`. The loader reads a
JavaScript file line by line and hands it to the TinyJS engine (`js->execute`).
Before a line reaches the engine it goes through three steps:

- a block-comment filter: `/**` opens a comment and `*/` closes one;
- a brace/bracket accumulator: a line that contains `{` but no `}` (or `[` but
  no `]`) starts a block, and lines are collected into the growable buffer
  `struct block_s` until the shared counter `braces` is back at zero;
- a final execute of the line itself, which happens only outside a comment.

The script arrives as the sequence of `fgets` results, one element per
`fgets` call. The call is either at the loop head (Script.cpp:183) or inside
a block (Script.cpp:210, 226). Each element is at most `readBufSz - 1` = 2047
characters (Script.cpp:43) and normally ends with its line break. A longer
physical line arrives as several elements. Only elements read at the loop
head go through the comment filter and the block tests. Elements read inside
a block are only scanned and appended.

The project has five modules:

- `CStrings`: the C library primitives (`strlen` as the NUL-terminated view
  `CStr`, `strstr` as `Find`/`Contains`, character counting).
- `Block`: `struct block_s`, `block_append` and `block_clear`. The functional
  model stores the heap as a sequence of cells, where a cell is either
  `Indeterminate` or a written `Byte`. `AppendOnHeap` and `ClearOnHeap` are the
  same operations on heap arrays, proved equal to the functional ones. The text a consumer reads
  out of the buffer is its written prefix (`LiveText`).
- `Preprocess`: the comment filter, the block test and the per-line scan.
- `Script`: one iteration of the top-level `while`, the whole loop as the
  ordered list of `js->execute` calls it makes (`Schedule`), and the run
  against an engine that may throw (`Execute`, `EvalScript`).
- `Scenarios`: a concrete input that shows the copy-offset defect.

`block_append` copies the new text at `size - 1` once the buffer is non-empty.
So the first non-empty line of every block loses its last character (see
Findings). The model has both offsets, selected by `Variant`:

- `AsWritten` reproduces the source;
- `Corrected` copies at `size`.

The pipeline is proved under both. `Spliced` gives the as-written unit and
`Joined` the corrected one.

Four behaviours of the code are easy to misread. The model follows the
code in the last three. The first is a deviation, recorded under Left out:

- **End of input inside a block.** The source keeps re-appending its stale
  buffer, because the `fgets` result at lines 210/226 is ignored. The model
  reports this as an explicit `Unterminated` outcome instead; see Left out.
- **`*/` on a comment line.** A line that ends a comment is blanked whole
  (`buffer[0] = '\0'`, Script.cpp:198), so code after `*/` on that line
  never runs.
- **Text before `/**`.** The text a line keeps before a `/**` that opens a
  comment (Script.cpp:194-195) is never executed as a statement, because
  `block_comment` is already true at the guard on Script.cpp:233. Only a
  block that this text opens is run.
- **The line after a block.** The line read after a block's last line is
  discarded, and the loop resumes after it.

## Model

| member | source | states |
|---|---|---|
| Block.Append | Script.cpp:120-143 | A NULL string leaves the block unchanged. Otherwise `size` grows by exactly `strlen`, `size <= capacity` still holds, `capacity` never decreases, `last_cap` records the old capacity. On first use the capacity is `strlen + 1`; after that it is the result of the doubling-plus-one loop. |
| Block.AppendCells | Script.cpp:126-141 | The text lands at `size - 1` (at 0 on an empty block) and every written index is below the new capacity. Every other old cell is kept, which includes all of `[0, size-1)`. Cells beyond the old capacity are indeterminate. |
| Block.Uninit | Script.cpp:126-129 | `malloc` yields exactly the requested number of cells. `Block.UninitCells` states that every one of them is indeterminate. |
| Block.UninitCells | Script.cpp:126-129 | Every cell `malloc` yields is indeterminate. |
| Block.Realloc | Script.cpp:134-136 | `realloc` to a capacity at least the old one yields exactly that many cells. `Block.ReallocCells` states their contents. |
| Block.ReallocCells | Script.cpp:134-136 | `realloc` keeps every old cell and adds indeterminate ones up to the new capacity. |
| Block.Memcpy | Script.cpp:138-141 | `memcpy` into the storage keeps its length. `Block.MemcpyCells` states what it writes. |
| Block.MemcpyCells | Script.cpp:138-141 | `memcpy(&d[off], t, length)` writes the text at `off` and leaves every other cell alone. |
| Block.Zeroed | Script.cpp:150 | `memset(d, 0, n)` sets the first `n` cells to NUL, keeps every other cell, and keeps the length. |
| Block.LiveText | Script.cpp:212 | What `js->execute(block.data)` reads: NUL-free, written byte for byte at the start of the storage, and stopped by the first cell that is not a written non-NUL byte. |
| Block.Grow | Script.cpp:131-132 | The grown capacity reaches the needed size and never shrinks. If it grew, the value one step before it, `(r - 1) / 2`, was too small. Together with `Block.GrowShape`, which puts the result in the sequence c, 2c+1, …, this makes it the first value of that sequence that is large enough. |
| Block.GrowShape | Script.cpp:131-132 | Growth multiplies `capacity + 1` by a power of two, the number of loop rounds. |
| Block.GrowLoop | Script.cpp:131-132 | The imperative `while` loop computes exactly the value `Grow` describes. |
| Block.ReallocArray | Script.cpp:134-136 | `realloc` on a heap array keeps the old cells and adds indeterminate ones up to the new size. |
| Block.CopyInto | Script.cpp:138-141 | The cell-by-cell copy into a heap array produces the same storage as `Memcpy`. |
| Block.AppendOnHeap | Script.cpp:120-145 | The heap-array version (malloc on first use, growth loop, realloc, copy) yields exactly the functional `Append`. It reallocates exactly when capacity grew (`last_cap < capacity`). |
| Block.ClearOnHeap | Script.cpp:147-152 | The `memset` loop on a heap array followed by `size = 0` yields exactly the functional `Clear`. |
| Block.Clear | Script.cpp:147-152 | `size` becomes 0 and the first old-`size` cells become NUL. Capacity, `last_cap` and every cell from the old `size` on are unchanged. |
| Block.ClearIdempotent | Script.cpp:147-152 | Clearing an empty block changes nothing, so a second clear is a no-op. |
| Block.AppendLive | Script.cpp:138-143 | On an empty buffer the appended text becomes the whole readable content. An empty text changes nothing. Otherwise everything from index `size - 1` on is replaced by the text. The buffer stays in the reachable shape (`Tidy`). |
| Block.AppendAllSpliced | Script.cpp:138-143 | Appending a block's lines one by one to an empty as-written buffer yields `Spliced`: the concatenation with the last character of the first non-empty line removed. |
| Block.ContentOnto | Script.cpp:138-143 | Once the buffer is non-empty, later appends cut the old content at `size - 1`, and everything after follows contiguously. |
| Block.SplicedLosesOne | Script.cpp:138-139 | When the first line is non-empty and more text follows, the as-written unit is the concatenation with exactly one character removed (the first line's last), so the two differ. |
| Block.AppendFixed | Script.cpp:120-143 | The corrected append (copy at `size`) has the same sizes and capacities as `Append`. |
| Block.AppendFixedLive | Script.cpp:138-143 | A corrected append extends the readable content by exactly the appended text. |
| Block.AppendAllFixedJoined | Script.cpp:138-143 | With the corrected offset a block's unit is the plain concatenation of its lines' C strings. |
| Block.ClearTidy | Script.cpp:150-151 | After a clear the buffer reads as the empty string and is ready for the next block, under either offset. |
| CStrings.CStr | Script.cpp:123 | The `strlen` view of a buffer has no NUL, is no longer than the buffer, and ends at its first NUL. |
| CStrings.CStrPrefix | Script.cpp:123 | The `strlen` view is a prefix of the buffer. |
| CStrings.Find | Script.cpp:193 | `strstr` returns the first occurrence of the pattern at or after the start. When it returns NULL, no occurrence exists. |
| CStrings.ContainsIff | Script.cpp:193-196 | `strstr(s, p) != NULL` holds exactly when `p` occurs somewhere in `s`. |
| CStrings.ContainsChar | Script.cpp:201 | Searching for a one-character string is membership of that character, in both directions. |
| CStrings.CountIsMultiset | Script.cpp:203-205 | The character count used by the scan is the multiplicity of the character in the line. |
| Preprocess.FilterComment | Script.cpp:193-199 | Outside a comment, a line containing `/**` is cut just before its first occurrence and comment mode begins, even if `*/` follows. Inside a comment, a line containing `*/` becomes `""` and comment mode ends. Every other line and the flag pass unchanged. |
| Preprocess.FilterFlag | Script.cpp:193-199 | The flag after the filter is on exactly when `/**` started a comment, or a comment was on and no `*/` ended it. |
| Preprocess.FilterPrefix | Script.cpp:194-198 | The filter only ever keeps a prefix of the line. |
| Preprocess.FilterOutside | Script.cpp:193-199 | Whatever the filter leaves outside comment mode contains no `/**`. |
| Preprocess.OpensIff | Script.cpp:201 | A line opens a block exactly when it contains the opener and does not contain the closer. |
| Preprocess.ScanLine | Script.cpp:203-208 | The scan runs up to `strlen(buffer)`. It moves `braces` by the number of openers minus the number of closers in the C string, replaces each `\n`/`\r` there by a space, keeps every other character, and leaves the bytes from the first NUL on alone. The C string read back is the scanned one. |
| Preprocess.SpacedNoBreaks | Script.cpp:206-207 | A scanned line holds no line break. |
| Script.Gather | Script.cpp:202-211 | The `do`-`while` of a phase takes at least one and at most all of the available lines. `Script.GatherTexts`, `Script.GatherFirstZero`, `Script.GatherStuck` and `Script.GatherWhole` state which lines. |
| Script.GatherTexts | Script.cpp:202-211 | A gathered block is the current line followed by the lines read after it, each scanned. |
| Script.GatherFirstZero | Script.cpp:202-211 | The block ends at the first line boundary where the counter is back at zero. |
| Script.GatherStuck | Script.cpp:210-211 | Gathering fails exactly when the counter is never zero at any line boundary before the input ends. |
| Script.GatherWhole | Script.cpp:202-211 | If the counter first returns to zero after the last line, the block is every line, scanned. |
| Script.RunPhase | Script.cpp:201-231 | A line that opens no block passes through unchanged. The result is `Hung` exactly when the line opens a block and the input ends before the counter is back at zero. Otherwise a block that opens is executed as one unit free of line breaks, the buffer is cleared, the line left in `buffer` becomes `""`, `braces` is 0, and reading resumes past the dropped line. |
| Script.Flush | Script.cpp:209-213 | A block's unit is `Spliced` as written and the concatenation when corrected. It holds no line break, and the buffer is empty and ready afterwards. |
| Script.Iteration | Script.cpp:183-235 | After each top-level iteration `braces` is 0 again, the comment flag is the filter's, the buffer is ready, and at least one line was consumed. |
| Script.IterationStatement | Script.cpp:193-234 | The line itself is executed exactly when the iteration completes with comment mode off. After a block it is `""`. A line that opens nothing is executed as filtered, and only the flag changes. |
| Script.IterationBrace | Script.cpp:201-215 | A brace block is executed exactly when the filtered line opens one and it closes before the input ends, comment mode or not. Its unit is the block text, and the bracket check on that iteration does not fire. If the input ends inside it, nothing is executed. |
| Script.IterationBraceResumes | Script.cpp:210-214 | After a brace block the loop resumes past the line read after the block's last line, which is discarded. |
| Script.IterationBracket | Script.cpp:217-231 | A bracket block is executed exactly when the line opens no brace block, opens a bracket block, and the block closes before the input ends. Its unit is the block text, and the loop resumes past the discarded line. |
| Script.IterationWellFormed | Script.cpp:193-234 | In one iteration, every block unit is free of line breaks and every statement is free of `/**`. |
| Script.ScheduleWellFormed | Script.cpp:183-235 | The same holds for every call of a whole script. |
| Script.PlainSchedule | Script.cpp:183-235 | A script with no `{`, `[` or `/**` is executed line by line, each line's C string being one statement, under either offset. |
| Script.SingleBlockScript | Script.cpp:183-235 | A script that is one brace block, closed exactly on its last line, makes two calls: the block's unit, then the empty statement the block leaves behind. |
| Script.CutTextNeverRuns | Script.cpp:193-234 | Outside a comment, a line containing `/**` is never executed as a statement; the text kept before the marker can only reach the engine through a block it opens. |
| Script.Schedule | Script.cpp:183-235 | The top-level `while` as the calls it yields: at most three per line, since each iteration makes at most a brace block, a bracket block and a statement call and consumes at least one line. `Script.ScheduleWellFormed`, `Script.PlainSchedule` and `Script.SingleBlockScript` state which calls. |
| Script.EvalScript | Script.cpp:154-241 | `eval_script`: the log is a prefix of the script's calls and obeys the engine's answers. The run fails exactly when the engine throws on one of those calls. It finishes exactly when the engine accepts them all and the input did not end inside a block. |
| Script.Dispatch | Script.cpp:212-236 | Calls are issued in order. Either all are issued, or a non-empty prefix is, ending at the call the engine threw on. |
| Script.DispatchPassed | Script.cpp:236-240 | The engine accepted every issued call but the last one of a run that threw, and it threw on that one. |
| Script.Execute | Script.cpp:181-240 | The log is a prefix of the script's calls and obeys the engine's answers. The run finishes only if the script completes, and ends unterminated only if the input ended inside a block. |
| Script.ExecuteFails | Script.cpp:236-240 | A run fails exactly when the engine throws on one of the calls the script yields. |
| Scenarios.OffByOne | Script.cpp:138-139 | The lines `ab` and `cd` appended to a fresh buffer read `acd` as written and `abcd` when corrected. |
| Scenarios.CommentCutBlock | Script.cpp:193-215 | The two-line script `f = {/** c` / `}` makes one call. Its brace block reads `f = } ` as written, because the cut first line's `{` is overwritten, and `f = {} ` when corrected. The line itself is not executed, since comment mode is on. |

## Left out

- `main`, the REPL, `js_print`/`js_dump`, native-function registration and `fileOpen`/`fileClose` (Script.cpp:1-111): host plumbing around the loader.
- The TinyJS engine: it is an executor function from the calls made so far and the next text to whether it throws. What the engine does with a text is not part of this model.
- `fopen`, `fgets` and stdio: the script is given as its sequence of `fgets` results. The `fopen` failure (Script.cpp:156-158) and the status `printf` are left out.
- The 2047-character split: `fgets` splits a physical line longer than `readBufSz - 1` characters (Script.cpp:43, 183) into several reads. The model does not perform this split. It takes each element of the input to be one read already, and does not bound its length.
- The overlong-line check (Script.cpp:188-190) is unreachable. `fgets` always NUL-terminates within `readBufSz`, so `buffer[readBufSz-1]` is `'\0'` whenever the first condition holds. The `sprintf` also lacks its `%u` argument.
- The `line` counter (Script.cpp:178, 187): it is incremented but never read, because the `sprintf` at Script.cpp:189 is not given it.
- The diagnostics printed in the handler (Script.cpp:237-239): output only. The model ends the run with the log of calls made.
- Script.Gather: end of input inside a block is modelled as a failed gather, and the run ends with `Unterminated`. The source ignores the `fgets` result at lines 210/226 and keeps re-appending its stale buffer while `braces` is non-zero. That usually spins forever, but it can stop once the repeated line's net count brings the counter to zero; that continuation is not modelled.
- Block.LiveText: `js->execute(block.data)` reads whatever follows the written bytes, and nothing writes a terminator. The unit is modelled as the written prefix (up to the first cell that is indeterminate or NUL). Stray bytes a C reader might run into are not modelled.
- Block.Append: `malloc`/`realloc` failure and `size_t` overflow of `size`/`capacity` are not modelled. A NULL `block` argument is not modelled either, since the only caller passes a local.
- Preprocess.ScanLine: `braces` is an unbounded integer rather than `size_t`. Below zero the source's counter wraps, but it is zero at exactly the same points for any script a machine can hold.
- Exceptions other than `CScriptException*` from the engine: the single handler catches only that type. The executor's "throws" stands for that one.

## Findings

| source | as written | input that shows it | evidently intended | confidence | as-written member | corrected member |
|---|---|---|---|---|---|---|
| Script.cpp:138-139 | `block_append` copies new text to `&data[size-1]` once the block is non-empty, overwriting the last byte of the previous content | the script `f = {/** c` followed by `}` executes the block `f = } `; the appends `ab` then `cd` read `acd` | copy to `&data[size]`, so the block reads `f = {} ` and `abcd` | high (not executed) | Block.Append, Block.SplicedLosesOne, Scenarios.OffByOne, Scenarios.CommentCutBlock | Block.AppendFixed, Block.AppendAllFixedJoined |

The defect is usually masked. When a block's first line ends in a line
break, the scan has already turned that break into a space, and the space
is the byte that gets overwritten. It shows only when the first block line
is cut short: by the comment filter, by an embedded NUL, or by an `fgets`
read that stops at the end of the read buffer.
