# readln: a verified model of the raw-mode line editor

This project models the core of a small interactive line editor for a raw-mode terminal. The C
functions it models are in `src/input.c`:

- `readKey` and its static escape-sequence table `escSeqList` turn the terminal's bytes into keys.
  The keys are Enter, Backspace, a plain character, the left and right arrows, the ctrl-arrows
  (word jumps), and `Special` for anything unrecognised.
- `insertch` and `removech` shift the bytes of the caller's buffer to insert or remove one byte.
- `readln` holds the cursor `pos` and the length `str_len`, dispatches each key, and returns the
  length at Enter.

The project has three modules:

- `KeyDecoder` (`keys.dfy`) covers the table, the decoder as a function on a byte stream
  (`DecodeKey`), and the decoder as the source writes it (`ReadKey`, `ReadEscape`, `ScanTable`).
  Each method is proved equal to its function. Lemmas give the closed form of the escape
  resolution.
- `LineSpec` (`line_spec.dfy`) gives the editor's behaviour on values:
  - `Apply` is one key's effect on a `Line` (text and cursor).
  - `Run` applies a key sequence up to the first Enter.
  - `ReadLine` is readln over a byte stream.

  Its lemmas cover each key, runs of keys, and whole scenarios.
- `LineEditor` (`line_editor.dfy`) is imperative:
  - `InsertCh` and `RemoveCh` work in place on an `array<byte>`.
  - The class `Editor` has the fields `pos` and `strLen` over the caller's buffer. Its `Step`
    method is proved to perform `LineSpec.Apply`.
  - `ReadLn` is the read loop. It is proved to return what `LineSpec.ReadLine` specifies and to
    leave that text in the buffer.

`Apply`, `Run`, `ReadLine`, `Editor.Step` and `ReadLn` use the corrected insert guard described
under "## Findings": a character is inserted only while both the cursor and the length are below
`len - 1`. With that guard the text stays shorter than the buffer. readln as written does not keep
that bound; `LineSpec.ApplyAsWritten` models its guard.

The terminal is a finite byte sequence plus an index. A read past its end yields 0, as `read` does
at end of input when the byte it was given starts at 0. The buffer capacity is the `len` argument
of readln.

Three behaviours of the code that the model keeps as written:

- The word jump to the left stops on the space itself, not on the index just after it.
  - Source: `src/input.c:216-220`.
  - Lemmas: `LineSpec.WordJumps` and `LineSpec.WordJumpsFromSpace`.
- While resolving an escape sequence, only the byte at the current position is compared with the
  table. The earlier bytes never are. So ESC x C is the right arrow for every byte x.
  - Source: `src/input.c:97`.
  - Lemma: `KeyDecoder.OnlyLastByteCompared`.
- A sequence the table does not know is not pushed back. The decoder reads all five bytes after
  ESC, and those bytes are lost as keys.
  - Source: `src/input.c:87-105`.
  - Lemmas: `KeyDecoder.UnknownSequence` and `KeyDecoder.UnknownSequenceTakesFollowingBytes`.

## Model

| member | source | states |
|---|---|---|
| KeyDecoder.MatchFromNone | src/input.c:90-100 | one pass over the table finds nothing exactly when no entry is completed by the byte at this position |
| KeyDecoder.MatchFromFirst | src/input.c:90-100 | when the pass finds a key, it is the key of the first table entry, in table order, that the byte completes |
| KeyDecoder.ScanTable | src/input.c:90-100 | the table loop with its `continue` on `pos == len` returns exactly the key of that first completed entry, or none |
| KeyDecoder.MatchAt | src/input.c:28-33 | with the four entries and two zero slots of the table, a byte completes a sequence only at position 1 (C → right, D → left) or position 4 (C → ctrl-right, D → ctrl-left) |
| KeyDecoder.ZeroSlotsNeverMatch | src/input.c:28-33 | the two slots the initialiser leaves zeroed have length 0 and never match |
| KeyDecoder.ResolveEscape | src/input.c:86-105 | the escape resolution reads at least one more byte per unresolved position and at most five bytes after ESC |
| KeyDecoder.DecodeKey | src/input.c:71-106 | one key consumes between 1 and 6 bytes |
| KeyDecoder.ReadKey | src/input.c:71-106 | the decoder returns the key, the caller's byte slot and the bytes read, exactly as DecodeKey specifies |
| KeyDecoder.ReadEscape | src/input.c:86-105 | the escape loop returns the key and the count of bytes read after ESC, exactly as ResolveEscape specifies |
| KeyDecoder.EscapeDecoding | src/input.c:86-105 | after ESC, the byte at offset 2 decides a plain arrow (3 bytes in all); otherwise the byte at offset 5 decides a ctrl-arrow or Special (6 bytes in all) |
| KeyDecoder.SingleByteKeys | src/input.c:74-84 | a Char is decoded exactly for bytes other than ESC, newline and DEL; newline is exactly Enter and DEL exactly Backspace; only a Char overwrites `*ret`; a key not started by ESC takes one byte |
| KeyDecoder.OnlyLastByteCompared | src/input.c:97 | ESC x C is the right arrow for any x; ESC x y 0 0 D is an arrow when y is C or D and the ctrl-left arrow otherwise |
| KeyDecoder.UnknownSequenceTakesFollowingBytes | src/input.c:86-105 | ESC [ A followed by any x y z, with z neither C nor D, is Special and takes all six bytes |
| KeyDecoder.ArrowSequences | src/input.c:29-30 | ESC [ C is the right arrow and ESC [ D the left arrow, each after 3 bytes |
| KeyDecoder.CtrlArrowSequences | src/input.c:31-32 | ESC [ 1 ; 5 C is ctrl-right and ESC [ 1 ; 5 D is ctrl-left, each after 6 bytes |
| KeyDecoder.UnknownSequence | src/input.c:86-105 | ESC [ 9 9 is Special after the full lookahead of five bytes after ESC |
| LineSpec.Inserted | src/input.c:166-172 | the content after inserting at an index is one longer, holds the value there, and keeps the prefix before it and the rest after it |
| LineSpec.Removed | src/input.c:174-185 | the content after removing an index is one shorter, keeps the prefix and moves the suffix after the index down by one |
| LineSpec.RemoveUndoesInsert | src/input.c:166-185 | removing at the index just inserted at gives the original content back |
| LineSpec.PrevSpace | src/input.c:215-221 | the left word jump lands strictly left of a non-zero cursor, on a space or at 0, with no space strictly between the landing index and the cursor |
| LineSpec.NextSpace | src/input.c:222-228 | the first index from i on that holds a space, or the length; no space is skipped |
| LineSpec.WordRight | src/input.c:222-228 | the right word jump lands strictly right of a cursor before the end, on a space or at the length, with no space strictly between the cursor and the landing index |
| LineSpec.Apply | src/input.c:196-236 | with the corrected insert guard of ## Findings, every key keeps the cursor within the text and the text shorter than the capacity |
| LineSpec.ApplyAsWritten | src/input.c:231-235 | with the guard as written, a Char is admitted whenever the cursor is below `len - 1`, and is then inserted at the cursor with the cursor advancing, even on a full text; a refused Char changes nothing; every other key, and any Char while the text is not full, acts as in Apply |
| LineSpec.Run | src/input.c:193-242 | with the corrected insert guard, the loop over keys up to the first Enter keeps the cursor within the text and the text shorter than the capacity |
| LineSpec.Events | src/input.c:194 | decoding the input from index `at` yields no more keys than there are bytes left |
| LineSpec.ReadLine | src/input.c:187-245 | with the corrected insert guard, the returned length is at most `len - 1` and the cursor stays within the text |
| LineSpec.BackspaceEffect | src/input.c:200-204 | Backspace at cursor 0 changes nothing; otherwise it removes exactly the byte before the cursor and moves the cursor back by one |
| LineSpec.BackspaceUndoesChar | src/input.c:200-204 | Backspace right after an admitted Char restores the line |
| LineSpec.CharEffect | src/input.c:231-235 | an admitted Char is inserted at the cursor and the cursor advances; a refused one changes nothing |
| LineSpec.ArrowsRoundTrip | src/input.c:205-214 | the left arrow moves the cursor back by one when it is past 0 and the right arrow forward by one when it is before the end, neither touching the text; at 0 and at the length they do nothing, and left and right undo each other |
| LineSpec.WordJumps | src/input.c:215-228 | the word jumps change only the cursor, always moving it when it can move, and landing on the nearest space strictly in their direction or at the start or end |
| LineSpec.WordJumpsFromSpace | src/input.c:215-228 | from just after a space the left jump lands on that space; from a space the right jump goes to the next space |
| LineSpec.Typed | src/input.c:231-235 | typing a byte string gives one Char key per byte, in order |
| LineSpec.TypingAppends | src/input.c:231-235 | typing at the end of the line within capacity appends the bytes and leaves the cursor at the end |
| LineSpec.TypingIntoFullBuffer | src/input.c:231-235 | with the corrected insert guard, every byte typed into a text of length `len - 1` is dropped, wherever the cursor is |
| LineSpec.SpecialsChangeNothing | src/input.c:229-230 | unrecognised keys never change the line or the cursor |
| LineSpec.RunStopsAtFirstEnter | src/input.c:197-199 | the loop returns at the first Enter with the line the keys before it produced; later keys are never read |
| LineSpec.RunConcat | src/input.c:193-242 | running two Enter-free key sequences one after the other is running their concatenation |
| LineSpec.AsWrittenGuardOverflows | src/input.c:232 | with the guard as written, capacity 3 and the keys a b ← c ← fill all three slots while a further Char is still admitted |
| LineSpec.AsWrittenGuardFillsBuffer | src/input.c:231-235 | with the guard as written, a Char typed left of the end of a text of length `len - 1` is admitted, although the corrected guard refuses it, and the text reaches `len` bytes |
| LineSpec.CorrectedGuardDropsChar | src/input.c:231-235 | with the length check, the same keys leave the text at two bytes: the third Char is dropped |
| LineSpec.ScenarioTyping | src/input.c:187-245 | at capacity 8, typing any three bytes then Enter returns those three bytes, length 3 |
| LineSpec.ScenarioFull | src/input.c:187-245 | at capacity 4, typing a b c d then Enter returns "abc": the fourth byte is dropped |
| LineSpec.ScenarioInsertBeforeCursor | src/input.c:187-245 | the keys a b ← x Enter return "axb" |
| LineSpec.ScenarioErase | src/input.c:187-245 | the keys h i, then three Backspaces, then Enter return the empty line; the third Backspace is a no-op |
| LineSpec.ScenarioBytes | src/input.c:71-245 | the bytes a b ESC [ D x newline, read with capacity 256, return "axb" |
| LineEditor.InsertCh | src/input.c:166-172 | insertch makes the buffer's first len+1 bytes the old content with the value inserted at idx, and leaves the rest of the buffer alone |
| LineEditor.RemoveCh | src/input.c:174-185 | removech on length 0 changes nothing; otherwise the first len-1 bytes are the old content without index min(idx, len-1), the freed slot is 0, and the bytes from len on are unchanged |
| LineEditor.Editor.constructor | src/input.c:188-190 | the editor starts with an empty line, the cursor at 0, over the caller's buffer |
| LineEditor.Editor.Step | src/input.c:196-236 | one key changes the editor state exactly as Apply specifies, with the corrected insert guard; buffer bytes past the old length are untouched |
| LineEditor.Editor.DeleteBack | src/input.c:200-204 | Backspace on the buffer does what Apply specifies for it |
| LineEditor.Editor.InsertAtCursor | src/input.c:231-235 | a Char on the buffer, with the length check, does what Apply specifies for it |
| LineEditor.Editor.JumpWordLeft | src/input.c:215-221 | the left word-jump loop moves the cursor to PrevSpace and changes nothing else |
| LineEditor.Editor.JumpWordRight | src/input.c:222-228 | the right word-jump loop moves the cursor to WordRight and changes nothing else |
| LineEditor.ReadLn | src/input.c:187-245 | with the corrected insert guard, the read loop returns the length ReadLine specifies at Enter, and the buffer then starts with the returned line |

## Left out

- `getch` (src/input.c:39-69) is left out: it switches the terminal mode and reads one byte. The model takes the bytes as a sequence instead.
- The Windows branch (src/input.c:107-164) is left out. It is another platform's terminal layer and is not compiled on Unix.
- The echo after each key (src/input.c:238-241) is left out because it is terminal output. It prints `buf` as a C string, and `insertch` never writes a terminating NUL, so the echo relies on the caller's buffer being zeroed.
- `main.c` is not part of this model. It calls readln once and prints the count and the buffer.
- LineSpec.Apply, LineSpec.Run, LineSpec.ReadLine, LineSpec.TypingIntoFullBuffer, LineEditor.Editor.Step, LineEditor.ReadLn: these model readln with the corrected insert guard of ## Findings, not the guard as written at src/input.c:232. Their bound on the text length does not hold for the source, which inserts into a full text when the cursor is left of its end. `LineSpec.ApplyAsWritten` and `LineSpec.AsWrittenGuardFillsBuffer` state what the source does instead.
- LineEditor.ReadLn: when the input runs out before an Enter, the model returns `None`. The source would instead keep calling `read`, which yields 0 bytes forever.
- LineEditor.ReadLn: a buffer of capacity 0 is not modelled (`1 <= buf.Length`). In the source, `len - 1` would wrap around as an unsigned value.
- LineEditor.InsertCh requires `idx <= len < buf.Length`. The source does not check it. With the corrected insert guard, readln always meets it. readln as written breaks it: the second admitted Char on a full text calls `insertch` with `*len == len` (see ## Findings).
- Integer widths are not modelled: `usize` and `int` are unbounded here. With the corrected insert guard, every index involved is below the buffer's capacity. readln as written can index `buf[len]` (see ## Findings).
- An unmatched escape sequence is not pushed back: the bytes read while resolving it are lost as keys (src/input.c:87-105). The model keeps this behaviour.

## Findings

| source | as written | input that shows it | evidently intended | confidence | as-written member | corrected member |
|---|---|---|---|---|---|---|
| src/input.c:232 | the insert guard checks only `pos < len - 1`, so once the cursor has moved left of a text of length `len - 1`, a Char is still admitted; that first insertion fills the slot kept free after the text, so `str_len` becomes `len`; the next admitted Char makes `insertch` write `buf[len]`, past the buffer, and a ctrl-right jump on the full text can also read `buf[len]` | `len` 3, keys a, b, ←, c, ←, then any character | a Char is admitted only while the text also leaves room (`str_len < len - 1`), so the text stays below `len` | not executed | LineSpec.AsWrittenGuardOverflows | LineEditor.Editor.InsertAtCursor |
