# The dark forest: a verified model of its game logic

`src/adventure/story.py` is a small console game. It loads a list of event
phrases from `events.txt`, with a fixed fallback list for each way loading can
fail. Each turn it reads a direction and prints an outcome line that embeds a
randomly drawn event. It stops when the player types `exit`.

This project models that logic in Dafny and proves its properties:

- `text.dfy` (module `PyText`) covers the pieces of Python's `str` the game
  uses: `strip()`, `lower()`, and the splitting of a text file into lines.
- `story.dfy` (module `Story`) covers `load_events`, `step`, `left_path` and
  `right_path`.
- `game.dfy` (module `Game`) covers the `while True` loop of the main block.
  `Play` is a method with a loop that appends each printed line to an output
  sequence, and it is proved equal to the function `Transcript`.

The world outside the program becomes values:

- The events file is a `FileState`: `Missing`, `ReadFailure(reason)` or
  `Content(text)`.
- The lines typed at the console are a finite sequence.
- The indices that `random.choice` draws are a sequence with one index per turn.
- What the console shows is a sequence of strings. The markup tags
  (`[alert]`, `[event]`, ...) stay in them as plain characters.

## Model

| member | source | states |
|---|---|---|
| PyText.StripStart | src/adventure/story.py:36 | the left half of `strip()`; its contract is StripStartSpec |
| PyText.StripEnd | src/adventure/story.py:36 | the right half of `strip()`; its contract is StripEndSpec |
| PyText.Strip | src/adventure/story.py:36 | `str.strip()`; StripSpec, StripKeepsMiddle, StripOfStripped and StripIdempotent state what it returns |
| PyText.StripStartSpec | src/adventure/story.py:36 | the left half of `strip()` removes a whitespace-only prefix and leaves no whitespace in front |
| PyText.StripEndSpec | src/adventure/story.py:36 | the right half of `strip()` removes a whitespace-only suffix and leaves no whitespace at the end |
| PyText.StripSpec | src/adventure/story.py:36 | `line.strip()` has no whitespace at either end, and is empty exactly when the line was all whitespace (the filter of the comprehension) |
| PyText.StripKeepsMiddle | src/adventure/story.py:36 | what `strip()` keeps is a contiguous piece of the line with only whitespace around it |
| PyText.StripOfStripped | src/adventure/story.py:36 | `strip()` returns an already-stripped string unchanged |
| PyText.StripIdempotent | src/adventure/story.py:36 | stripping twice is stripping once |
| PyText.LowerChar | src/adventure/story.py:79 | `lower()` on one character: `A`-`Z` go to the matching `a`-`z`, every other character is unchanged |
| PyText.Lower | src/adventure/story.py:79 | `lower()` keeps the length and lowers each character in place; LowerKeepsSpaces and LowerIdempotent go with it |
| PyText.LowerKeepsSpaces | src/adventure/story.py:79 | `lower()` keeps stripped strings stripped and blank strings blank |
| PyText.LowerIdempotent | src/adventure/story.py:79 | lowering twice is lowering once |
| PyText.SplitLines | src/adventure/story.py:34-36 | splitting the file text gives at least one line and no line holds a line ending |
| PyText.JoinSplit | src/adventure/story.py:34-36 | splitting loses nothing: rejoining the lines with `"\n"` gives the text back with each line ending written as `"\n"` |
| PyText.SplitJoin | src/adventure/story.py:34-36 | lines without line endings, joined with `"\n"`, split back into exactly those lines |
| Story.NonBlankStripped | src/adventure/story.py:36 | the comprehension yields at most one event per line, and every event is non-empty with no surrounding whitespace |
| Story.NonBlankStrippedAppend | src/adventure/story.py:36 | the comprehension keeps file order: it maps a concatenation of line lists piece by piece |
| Story.NonBlankStrippedEmpty | src/adventure/story.py:36-38 | the comprehension is empty exactly when every line is blank after stripping |
| Story.NonBlankStrippedKeepsEvents | src/adventure/story.py:36 | lines that are already well-formed events pass through unchanged |
| Story.NonBlankStrippedMembers | src/adventure/story.py:36 | a string is an event exactly when it is non-empty and is the stripped form of some line (both directions) |
| Story.EventsOfText | src/adventure/story.py:34-36 | the comprehension over the file's lines; FileEventsAreItsLines, ReadBackLines and NonBlankStripped state what it yields |
| Story.LoadEvents | src/adventure/story.py:20-45 | whatever the file state, the list is non-empty and every event is non-empty and stripped |
| Story.LoadEventsTiers | src/adventure/story.py:29-45 | missing file gives exactly the three-event default; failed read gives exactly `["an unknown error occurs"]`; a file whose lines are all blank gives exactly `["nothing happens", "a leaf falls"]`; otherwise the file's own events |
| Story.FileEventsAreItsLines | src/adventure/story.py:33-42 | on a file with a usable line, a string is among the events exactly when it is non-empty and is the stripped form of some line of the file |
| Story.ReadBackLines | src/adventure/story.py:33-42 | a file written as given lines reads back as the stripped non-blank ones, in order |
| Story.LoadJoinedLines | src/adventure/story.py:33-42 | such a file, with at least one usable line, is what `load_events` returns |
| Story.TrailingBlankLineDropped | src/adventure/story.py:36-42 | a file of two events then an empty line loads as just the two events |
| Story.SampleFileLoads | src/adventure/story.py:36-42 | `a bird screeches loudly`, `you trip over a root`, then an empty line, loads as those two events |
| Story.LoadMessages | src/adventure/story.py:29-45 | the warning and error lines of lines 30, 39 and 44; LoadMessagesOnFallback states when each is printed |
| Story.LoadMessagesOnFallback | src/adventure/story.py:29-45 | `load_events` prints one warning or error line exactly when it falls back to a default list, and nothing when it returns the file's events |
| Story.LeftPath | src/adventure/story.py:60-61 | the outcome is the left-walk narration, then the event exactly, then the closing tag |
| Story.RightPath | src/adventure/story.py:63-64 | the outcome is the right-walk narration, then the event exactly, then the closing tag |
| Story.EmbeddedEventOfPaths | src/adventure/story.py:60-64 | the event can be read back out of either walking outcome unchanged |
| Story.Step | src/adventure/story.py:47-58 | one turn's outcome; StepWithoutEvents, StepWalks, StepStandsStill and StepBranchIsVisible state it for every choice |
| Story.StepWithoutEvents | src/adventure/story.py:47-49 | with an empty list every choice, `left` and `right` included, gets `[alert]No events available![/alert]` |
| Story.StepWalks | src/adventure/story.py:51-56 | `left` or `right` gives exactly the narration for that direction around the drawn event, and the embedded event is an element of the list |
| Story.StepStandsStill | src/adventure/story.py:57-58 | any other choice on a non-empty list gives the stand-still alert, whichever index was drawn |
| Story.StepBranchIsVisible | src/adventure/story.py:47-58 | the outcome shows which branch ran: it starts with the left/right narration exactly for `left`/`right`, is the stand-still alert exactly for other choices, and is never the no-events alert |
| Game.Normalize | src/adventure/story.py:79 | `choice.strip().lower()`; NormalizeSpec, NormalizeIdempotent and PaddedExit state what it returns |
| Game.PaddedExit | src/adventure/story.py:79-81 | `" EXIT\t"` normalises to `exit`, so padding and capitals still end the game |
| Game.NormalizeSpec | src/adventure/story.py:79 | a normalised choice has no surrounding whitespace and no upper-case ASCII letter |
| Game.NormalizeIdempotent | src/adventure/story.py:79 | normalising twice is normalising once |
| Game.ExitIndex | src/adventure/story.py:77-83 | the loop stops at the first input that normalises to `exit`: no earlier input does, and that one does |
| Game.Transcript | src/adventure/story.py:77-88 | the lines the loop prints; TranscriptTurns gives them in closed form and Play is proved equal to it |
| Game.TranscriptTurns | src/adventure/story.py:77-88 | the printed lines are one `step` result per input before the first `exit`, in order, each computed from the normalised input; then the farewell and then the goodbye line |
| Game.TranscriptIgnoresLaterInputs | src/adventure/story.py:81-83 | inputs after the first `exit` change nothing |
| Game.TranscriptSeesNormalized | src/adventure/story.py:79-85 | the loop sees only the normalised input: normalising every input beforehand gives the same output |
| Game.GameAlwaysHasEvents | src/adventure/story.py:69-86 | with the events from `load_events` no turn ever prints the no-events alert |
| Game.LeftThenExit | src/adventure/story.py:77-88 | inputs `left`, `exit` with events `["a leaf falls"]` print the left-walk line for `a leaf falls`, the farewell and the goodbye |
| Game.Play | src/adventure/story.py:77-88 | the loop prints exactly the transcript, and it ends on `exit` exactly when some input normalises to `exit` |
| Game.RunGame | src/adventure/story.py:67-88 | the program prints the loader's messages and then the loop's transcript over the loaded events |

## Left out
- Console styling: the `rich` theme, the `Console` object and the start-up banner panel are left out. Output lines keep their markup tags as plain text.
- Filesystem: locating the file next to the script, `exists()`, `open()` and UTF-8 decoding are left out. They collapse into the `FileState` value. The full path in the "not found" warning is the parameter `location`. Every exception, whatever its type, is one `ReadFailure`; its printed text is the parameter `reason`.
- Randomness: `random.choice` is replaced by a caller-supplied index per turn. The source also draws on the stand-still branch. That draw has no visible effect and is not modelled.
- Console input: the blocking `console.input` call and the prompt it prints before each read are left out. Input is a finite sequence.
- End of input: when the inputs run out before an `exit`, the real program stops with an `EOFError` traceback. The model stops printing, without a farewell or goodbye, and `Play` returns `exited == false`.
- PyText.LowerChar: lowercasing covers ASCII `A`-`Z` only, not Python's full Unicode `lower()`. The only thing that reads a lowered string is a comparison with `exit`, `left` or `right`, so this affects the game only through non-ASCII letters whose lower case is ASCII.
- PyText.IsSpace: whitespace is exactly the set of characters Python's `str.isspace()` accepts, listed out explicitly.
- PyText.SplitLines: text is split at `"\n"` and `"\r"`. A `"\r\n"` pair or a final line ending gives an extra empty piece, which Python's line iteration would not produce. Blank lines are dropped straight after, so the events come out the same.
- `step` is called with the normalised choice (line 85), so `Transcript` passes `Normalize(inputs[j])` to `Step`.
