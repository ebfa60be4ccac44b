# Blink-to-Morse decoder, modelled in Dafny

The program watches a face through a webcam. It decides on every frame whether
the eyes are closed, and turns blinks into Morse code. How long a blink lasts
makes a dot (under 0.25 s) or a dash. The pause between the end of one blink
and the start of the next closure decides when a letter ends. A pause over
1.5 s ends the letter, and a pause over 2.5 s also ends the word. A finished
letter is looked up in the letters of International Morse Code (ITU-R
Recommendation M.1677-1, section 1.1.1), with `?` for an unknown code, and
appended to the decoded text.

This project models the decoding core: the five state variables, the per-tick
update inside the main loop, the thresholds and the Morse table.

- `morse.dfy`, module `Morse`: the code-to-letter table, the lookup with its
  `?` default, and the inverse encoding of a letter. It proves that the table
  is a one-to-one map from 26 codes of one to four dots and dashes onto A–Z.
- `decoder.dfy`, module `BlinkDecoder`: the decoder state as a value (`State`),
  a tick (`Tick`: time, face found, eyes closed), and the per-tick transition
  `Next`. `Run` folds `Next` over a finite stream of ticks. The class
  `Decoder` holds the same five variables as fields. Its `Step` updates them in
  place, branch for branch as the program does, and is proved equal to `Next`.
  `Feed` is the main loop driven by a finite tick stream. Lemmas state each
  case of a tick, the invariant every reachable state keeps, and that the
  decoded text only grows.
- `session.dfy`, module `Session`: a sender who blinks a message. Each letter
  is sent with 0.1 s dots, 0.5 s dashes and 0.5 s pauses inside a letter. A
  2.0 s pause follows a letter and a 3.0 s pause ends a word, and one closing
  blink follows the message. The main theorem: for any message, the decoder's
  text is exactly the message. The closing dot stays pending.

Timestamps are Dafny `real`s, so the thresholds 0.25, 0.6, 1.5 and 2.5 are
exact. The clock reading and the closed/open decision are inputs of a tick.

Three behaviours of the code shape the model:

- The code never clears the closure start time after a blink. So the invariant
  is only that the closure start is known while the eyes are closed.
- The code has no end-of-session flush. The last letter stays pending until
  one more blink follows a long enough pause. `SessionDecodes` states this.
- `SHORT_GAP` (0.6 s) is declared but never read. It appears as the constant
  `ShortGap`, and no transition depends on it.

## Model

| member | source | states |
|---|---|---|
| `Morse.Lookup` | main.py:18-28 | the dictionary lookup never fails: it gives an upper-case letter or `?`, and `?` exactly when the code is not in the table |
| `Morse.Encode` | main.py:18-28 | every letter has a code of one to four symbols, each a dot or a dash |
| `Morse.LookupEncode` | main.py:18-28 | the code of every letter A–Z is in the table and looks up to that letter |
| `Morse.EncodeLookup` | main.py:18-28 | every code in the table is the encoding of its letter, so no two codes share a letter |
| `Morse.TableShape` | main.py:18-28 | the table covers all of A–Z, and every key is 1 to 4 dots and dashes |
| `Morse.UnknownCode` | main.py:114 | an over-long code (six dots) and the empty code both decode to `?` |
| `BlinkDecoder.SymbolFor` | main.py:105-106 | a blink always yields a dot or a dash |
| `BlinkDecoder.Emitted` | main.py:110-121 | a gap up to 1.5 s writes nothing; a gap in (1.5, 2.5] writes exactly the looked-up pending code; a gap over 2.5 s writes that letter and then a space |
| `BlinkDecoder.Next` | main.py:94-124 | one tick keeps the closure start known while the eyes are closed, and the old decoded text is a prefix of the new |
| `BlinkDecoder.Run` | main.py:67-124 | a stream of ticks keeps that well-formedness and only appends to the decoded text |
| `BlinkDecoder.NextKeepsValid` | main.py:94-124 | a tick preserves the state invariant: pending code of dots and dashes, output of letters, `?` and spaces, a pending code exactly after the first blink, and no output before it |
| `BlinkDecoder.NoFaceIsSkipped` | main.py:78 | a tick without a detected face leaves all five variables unchanged |
| `BlinkDecoder.ClosingStartsTiming` | main.py:95-99 | an open-to-closed tick sets the closed flag and the closure start to the tick's time, and changes nothing else |
| `BlinkDecoder.HoldingChangesNothing` | main.py:95-104 | a closed tick while closed, or an open tick while open, changes nothing |
| `BlinkDecoder.BlinkCompletes` | main.py:104-124 | a closed-to-open tick ends in the open state with the last blink time equal to the tick's time; the new symbol ends the pending code, and it is a dot exactly when the closure lasted under 0.25 s |
| `BlinkDecoder.FirstBlink` | main.py:107-110 | on the first blink the decoded text is unchanged and the pending code grows by exactly the new symbol |
| `BlinkDecoder.WordGap` | main.py:111-116 | a gap over 2.5 s appends the lookup of the old pending code (without the new symbol) and a space, and leaves only the new symbol pending |
| `BlinkDecoder.LetterGap` | main.py:118-121 | a gap in (1.5, 2.5] appends exactly the lookup of the old pending code, no space, and leaves only the new symbol pending |
| `BlinkDecoder.ShortGapContinues` | main.py:110-121 | a gap of at most 1.5 s, on either side of `SHORT_GAP`, appends nothing and extends the pending code by the new symbol |
| `BlinkDecoder.DotDashBoundary` | main.py:51 | durations 0.10 and 0.24 give dots; 0.25 and 0.30 give dashes |
| `BlinkDecoder.RunConcat` | main.py:67-124 | running two tick streams in turn equals running their concatenation |
| `BlinkDecoder.RunKeepsValid` | main.py:67-124 | every state reached from a valid state by any tick stream is valid |
| `BlinkDecoder.SessionInvariant` | main.py:58-124 | from the initial values, after any ticks, the output holds only letters, `?` and spaces, the pending code only dots and dashes, and later ticks only append to the output |
| `BlinkDecoder.Decoder.constructor` | main.py:58-63 | the decoder starts open, with no times recorded and both strings empty |
| `BlinkDecoder.Decoder.Step` | main.py:94-124 | the in-place update of the five fields gives exactly `Next` of the old state; it keeps the invariant and only appends to the decoded text |
| `BlinkDecoder.Decoder.Feed` | main.py:67-124 | looping `Step` over a tick stream gives exactly `Run` of the old state |
| `Session.BlinkStep` | main.py:94-124 | one closing and reopening from the open state writes what the gap resolves and leaves the new symbol pending, alone when the gap exceeds 1.5 s and after the old code otherwise |
| `Session.CodeStep` | main.py:104-124 | blinking a whole code writes only what the gap before it resolves, and leaves exactly that code pending; the pauses inside a code resolve nothing |
| `Session.SignalsAfterPause` | main.py:110-121 | after a resolving pause, a sequence of codes writes the resolved letter, then one letter per code, each followed by a space when its word ends |
| `Session.SignalsFromStart` | main.py:107-121 | from a state with no blink yet, a sequence of codes writes exactly one letter per code, with spaces at word ends |
| `Session.HeardEncoded` | main.py:18-28 | decoding the encoding of a message letter by letter gives the message back |
| `Session.SessionDecodes` | main.py:58-124 | from the initial values, a blinked message followed by one closing blink decodes to exactly the message, and the closing dot stays pending |
| `Session.SosDecodes` | main.py:58-124 | `... --- ...` with a word pause, then a closing blink, decodes to `SOS ` |

## Left out

- Webcam capture, the window, drawing and the key handling that ends the loop (main.py:40, 68-74, 126-149) are I/O. `Feed` runs over a finite tick stream instead.
- Face-mesh landmark detection and the pixel coordinates (main.py:32-36, 78-89) are a foreign library call. Whether a face was found is an input of a tick.
- The eye aspect ratio, its averaging and the 0.20 threshold (main.py:8-14, 49, 91, 95) are floating-point square roots and divisions, including an unguarded division by zero. The comparison's outcome is the tick's `closed` input.
- `time.time()` (main.py:92) is a clock. Its reading is the tick's `now` input, and any real value is allowed, including one that goes backwards.
- Floating-point rounding of timestamps and thresholds: the model uses exact reals.
- The `print` of the decoded text (main.py:115, 120) is output only.
- A flush of the pending code when the session ends: the code has none, so the last letter stays pending and none is modelled.
