# manual.cls patch — a Dafny model

The IPython documentation build (`doc/do_sphinx.py`) generates a LaTeX tree
with Sphinx and then edits the generated class file `manual.cls` in place,
so that chapters start on the current page instead of a new one. The edit is
a small string rewrite driven by one boolean flag, `unmodified`:

- the flag starts true;
- each line of the file is read once, in order;
- a line that contains `Support for module synopsis` (the *marker*) while
  the flag is true is emitted with the fixed macro block `chapter_cmds` in
  front of it;
- otherwise, a line that contains `makechapterhead` (the *sentinel*) turns
  the flag off;
- every line is then written back.

The block itself defines `\@makechapterhead`, so a file patched by an
earlier build turns the flag off before its marker line is reached, and the
patch is not applied twice.

This project models that rewrite as pure functions and proves its
properties:

- `lines.dfy` (module `Lines`): substring containment (`Contains`, Python's
  `in` on strings), splitting a file's text into lines that keep their
  trailing newline (`SplitLines`, as Python's file iteration yields them) and
  writing lines back (`Join`), with both round trips.
- `chapter_cmds.dfy` (module `ChapterCmds`): the marker, the sentinel and
  the macro block, character for character, and the facts about the block
  that the idempotence proof rests on: it starts and ends with a newline,
  read back as lines it holds the `\@makechapterhead` line, and none of its
  lines holds the marker. The block is assembled from its source lines in
  four parts (the preamble and the three macro definitions), each line a
  verbatim string literal; the two longest lines are written as several
  literals joined with `+`. The assembled text is identical to the Python
  raw string.
- `patch.dfy` (module `Patch`): the per-line rule (`Decide`), the flag
  threaded through a recursive function (`PatchFrom`, `FlagAfter`), the
  patch on lines (`PatchLines`) and on text (`PatchFile`), the original loop
  as a method (`PatchLoop`), and the per-line properties. The flag has a
  closed form, `UnmodifiedAt`: it is still on at line `i` exactly when no
  earlier line *clears* it, where a line clears it when it holds the
  sentinel but not the marker. (While the flag is on, a line with the marker
  takes the insertion branch, so it never reaches the sentinel test.)
- `idempotence.dfy` (module `Idempotence`): running the patch on its own
  output leaves the text unchanged, and the same statement on the line
  sequence alone is false.
- `examples.dfy` (module `Examples`): small files with one marker line, two
  marker lines, and a block that is already present.

Because inserting the block does not turn the flag off, every marker line
before the first clearing line is patched; `Examples.TwoMarkers` shows the
block inserted twice.

## Model

| member | source | states |
|---|---|---|
| Lines.Contains | doc/do_sphinx.py:48-50 | Python's `in` test on strings: the needle occurs at some offset of the line. It has no contract of its own. `ContainsWithin` shows that text added on either side keeps an occurrence, and `ContainsFirstChar` shows that an occurrence needs the needle's first character. |
| Lines.Join | doc/do_sphinx.py:53 | Writing lines back one after the other, exactly as they stand. It has no contract of its own. `SplitJoin` shows that splitting the written text gives back well-formed lines, and `JoinAppend` shows how it distributes over concatenation. |
| Lines.SplitLines | doc/do_sphinx.py:47 | Reading a file line by line and writing the lines back unchanged gives back the same text. Every line is non-empty, holds a newline only at its end, and every line but the last ends in one. Empty text gives no lines. |
| Lines.SplitJoin | doc/do_sphinx.py:47-53 | Lines of that shape that are written out and read back come back as the same lines. |
| Lines.SplitAppend | doc/do_sphinx.py:47-53 | Text that ends in a newline, followed by more text, is read back as its own lines followed by the lines of the rest. |
| Lines.JoinAppend | doc/do_sphinx.py:53 | Writing two runs of lines one after the other gives the first run's text followed by the second's. |
| ChapterCmds.Block | doc/do_sphinx.py:20-44 | The `chapter_cmds` text, written as its 24 source lines, each followed by a newline. It is a constant with no contract. `BlockSplitsIntoLines` shows that it reads back as exactly those lines, and the lemmas below state the facts the idempotence proof uses. |
| ChapterCmds.BlockStartsWithNewline | doc/do_sphinx.py:20 | The block opens with a newline, because the raw string starts on the line after its opening quotes. |
| ChapterCmds.BlockEndsWithNewline | doc/do_sphinx.py:43-44 | The block ends with a newline, so a line placed after it starts a new line. |
| ChapterCmds.BlockSplitsIntoLines | doc/do_sphinx.py:20-44 | Read back line by line, the block gives exactly its 24 source lines, each with its newline. |
| ChapterCmds.SentinelLineClears | doc/do_sphinx.py:28 | The block's `\def\@makechapterhead#1{` line holds the sentinel and not the marker, so reading it turns the flag off. |
| ChapterCmds.BlockHasSentinelLine | doc/do_sphinx.py:28 | That line is one of the lines the block gives when it is read back. |
| ChapterCmds.BlockHasNoMarkerLine | doc/do_sphinx.py:20-44 | No line of the block holds the marker. |
| Patch.Decide | doc/do_sphinx.py:48-52 | The per-line `if`/`elif` rule: the insertion is taken when the line holds the marker and the flag is on; otherwise a sentinel line turns the flag off; otherwise the line is kept. It has no contract of its own, and neither do `Emit` (the line written, :49 and :53) or `NextFlag` (the flag after the line, :52). `NextFlagClosedForm` shows that one step leaves the flag on exactly when it was on and the line does not clear it. |
| Patch.FlagAfter | doc/do_sphinx.py:46-52 | After a run of lines the flag is on exactly when it started on and no line of the run held the sentinel without the marker. It is never on at the end if it was off at the start. |
| Patch.PatchFrom | doc/do_sphinx.py:47-53 | One output line for each input line, in order. Line `i` gets the block in front exactly when the flag is on at the start, line `i` holds the marker, and no earlier line cleared the flag. Every other line is emitted unchanged. |
| Patch.PatchLines | doc/do_sphinx.py:46-53 | The same statement with the flag starting true: each output line equals the closed-form `Expected` line. |
| Patch.PatchLoop | doc/do_sphinx.py:46-53 | The loop with the flag as a local variable produces one output line per input line, each equal to the closed-form `Expected` line, and the same lines as `PatchLines`. |
| Patch.PatchFile | doc/do_sphinx.py:47-53 | A class file with no marker line is written back byte for byte. |
| Patch.FlagNeverReturns | doc/do_sphinx.py:46-52 | Once the loop's flag is off after some prefix of the file, it is off after every longer prefix. |
| Patch.FlagOffAtClearingLine | doc/do_sphinx.py:50-52 | While the flag is on, reading line `i` turns it off exactly when that line holds the sentinel and not the marker. |
| Patch.ChangedOnlyByInsertion | doc/do_sphinx.py:48-49 | An output line is either its input line, or the block followed by an input line that holds the marker. In both cases the input line is the end of the output line. |
| Patch.MarkerFreeLineUnchanged | doc/do_sphinx.py:48-53 | A line without the marker is emitted unchanged. |
| Patch.EveryMarkerBeforeClearIsPatched | doc/do_sphinx.py:48-52 | Every marker line with no clearing line before it gets the block, not only the first such line. |
| Patch.UnchangedIff | doc/do_sphinx.py:48-52 | The lines come out unchanged if and only if every marker line has a clearing line somewhere before it. |
| Patch.NoMarkerNoChange | doc/do_sphinx.py:48-53 | With no marker line, the output lines equal the input lines. |
| Patch.AlreadyAlteredUnchanged | doc/do_sphinx.py:50-52 | If a clearing line comes before every marker line, as in a file patched by an earlier run, nothing is changed. |
| Idempotence.ReadBackIsQuiet | doc/do_sphinx.py:20-53 | Take the lines of a file, patch them, write them out and read them back. Patching that result again changes nothing. |
| Idempotence.PatchFileIdempotent | doc/do_sphinx.py:20-53 | Patching the class file twice gives the same text as patching it once. This is the intent of the remark that an already altered file need not be altered again. |
| Idempotence.LinesNotIdempotent | doc/do_sphinx.py:48-49 | On the line sequence alone, without writing out and reading back, patching twice differs from patching once. A patched line still holds the marker, and the flag is still on. |
| Examples.SingleMarker | doc/do_sphinx.py:48-49 | In `intro`, marker line, `body`, only the marker line changes, and it gets the block in front. |
| Examples.TwoMarkers | doc/do_sphinx.py:48-52 | Two marker lines and no clearing line: both get the block. |
| Examples.AlreadyPatched | doc/do_sphinx.py:50-52 | The `\@makechapterhead` line followed by a marker line comes out unchanged. |

## Left out

- The external commands run through `os.system` (`sphinx-build`, `pdflatex`, `makeindex`, `cp`) are not modelled. They are opaque processes whose exit status the script discards.
- The directory changes and the `sys.platform` switch are not modelled. They are environment plumbing, not logic.
- The backup-and-replace mechanics of `fileinput.FileInput(..., inplace=1)` are not modelled, and neither are the errors it raises when `manual.cls` is missing or not writable. The model covers only the text written back.
- Python 2's `print line,` softspace handling is not modelled: each line is written exactly as it stands.
- Lines are split at `'\n'` only, as Python 2 file iteration in text mode does on POSIX systems. A `'\r'` stays part of its line. Characters are modelled as Dafny `char`, not as the bytes of a Python 2 `str`. The marker, the sentinel and the block are all ASCII, so containment is the same either way.
