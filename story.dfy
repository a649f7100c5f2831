/** The helper functions of the forest adventure: loading the event phrases with
    their fallbacks, and resolving one turn into an outcome line. Output strings
    keep the console markup tags (`[alert]`, `[event]`, ...) as plain characters. */
module Story {
  import opened PyText

  datatype Option<T> = None | Some(value: T)

  // ---------------------------------------------------------------- loading

  /** What opening and reading the events file yields. Every exception raised
      while opening, decoding or reading is one `ReadFailure`, carrying the text
      the exception prints as. */
  datatype FileState = Missing | ReadFailure(reason: string) | Content(text: string)

  /** The built-in events used when the file does not exist. */
  const MissingDefaults: seq<string> := ["a bird screeches loudly", "you trip over a root", "a cold wind blows"]
  /** The built-in events used when the file has no usable line. */
  const EmptyDefaults: seq<string> := ["nothing happens", "a leaf falls"]
  /** The built-in event used when reading the file fails. */
  const ErrorDefaults: seq<string> := ["an unknown error occurs"]

  /** An event as the loader hands it out: not empty, no surrounding whitespace. */
  predicate WellFormedEvent(e: string) {
    |e| > 0 && IsStripped(e)
  }

  /** `[line.strip() for line in lines if line.strip()]`. */
  function NonBlankStripped(lines: seq<string>): (events: seq<string>)
    ensures |events| <= |lines|
    ensures forall j :: 0 <= j < |events| ==> WellFormedEvent(events[j])
  {
    if |lines| == 0 then []
    else
      StripSpec(lines[0]);
      if |Strip(lines[0])| == 0 then NonBlankStripped(lines[1..])
      else [Strip(lines[0])] + NonBlankStripped(lines[1..])
  }

  /** The comprehension keeps file order: it maps a concatenation piecewise. */
  lemma {:induction false} NonBlankStrippedAppend(a: seq<string>, b: seq<string>)
    ensures NonBlankStripped(a + b) == NonBlankStripped(a) + NonBlankStripped(b)
  {
    if |a| == 0 {
      assert a + b == b;
    } else {
      assert (a + b)[0] == a[0];
      assert (a + b)[1..] == a[1..] + b;
      NonBlankStrippedAppend(a[1..], b);
      if |Strip(a[0])| > 0 {
        var x := [Strip(a[0])];
        assert x + (NonBlankStripped(a[1..]) + NonBlankStripped(b)) == (x + NonBlankStripped(a[1..])) + NonBlankStripped(b);
      }
    }
  }

  /** The comprehension yields nothing exactly when every line is blank. */
  lemma {:induction false} NonBlankStrippedEmpty(lines: seq<string>)
    ensures |NonBlankStripped(lines)| == 0 <==> forall line :: line in lines ==> |Strip(line)| == 0
  {
    if |lines| > 0 {
      NonBlankStrippedEmpty(lines[1..]);
      assert lines == [lines[0]] + lines[1..];
    }
  }

  /** Lines that are already well-formed events pass through unchanged. */
  lemma {:induction false} NonBlankStrippedKeepsEvents(lines: seq<string>)
    requires forall j :: 0 <= j < |lines| ==> WellFormedEvent(lines[j])
    ensures NonBlankStripped(lines) == lines
  {
    if |lines| > 0 {
      StripOfStripped(lines[0]);
      NonBlankStrippedKeepsEvents(lines[1..]);
    }
  }

  /** `[line.strip() for line in lines]`: every line stripped, blank ones kept. */
  function StripEach(lines: seq<string>): (r: seq<string>)
    ensures |r| == |lines|
    ensures forall j :: 0 <= j < |lines| ==> r[j] == Strip(lines[j])
  {
    if |lines| == 0 then [] else [Strip(lines[0])] + StripEach(lines[1..])
  }

  /** An event comes out of the comprehension exactly when it is the stripped
      form of some line and is not empty. */
  lemma {:induction false} NonBlankStrippedMembers(lines: seq<string>, e: string)
    ensures e in NonBlankStripped(lines) <==> |e| > 0 && e in StripEach(lines)
  {
    if |lines| > 0 {
      NonBlankStrippedMembers(lines[1..], e);
      assert StripEach(lines) == [Strip(lines[0])] + StripEach(lines[1..]);
    }
  }

  /** The events the text of a readable file provides, before any fallback. */
  function EventsOfText(text: string): seq<string> {
    NonBlankStripped(SplitLines(text))
  }

  /** `load_events`: the file's events, or the fallback list for its failure mode.
      Whatever the file state, the list is not empty and every event is well formed. */
  function LoadEvents(f: FileState): (events: seq<string>)
    ensures |events| > 0
    ensures forall j :: 0 <= j < |events| ==> WellFormedEvent(events[j])
  {
    match f
    case Missing => MissingDefaults
    case ReadFailure(_) => ErrorDefaults
    case Content(text) =>
      var events := EventsOfText(text);
      if |events| == 0 then EmptyDefaults else events
  }

  /** The four tiers of `load_events`: the three fallback lists and what they are
      chosen for, and the file's own events otherwise. */
  lemma LoadEventsTiers(f: FileState)
    ensures f == Missing ==> LoadEvents(f) == ["a bird screeches loudly", "you trip over a root", "a cold wind blows"]
    ensures f.ReadFailure? ==> LoadEvents(f) == ["an unknown error occurs"]
    ensures (f.Content? && forall line :: line in SplitLines(f.text) ==> |Strip(line)| == 0)
              ==> LoadEvents(f) == ["nothing happens", "a leaf falls"]
    ensures (f.Content? && exists line :: line in SplitLines(f.text) && |Strip(line)| > 0)
              ==> LoadEvents(f) == EventsOfText(f.text)
  {
    if f.Content? {
      NonBlankStrippedEmpty(SplitLines(f.text));
    }
  }

  /** On a file with a usable line, the events are exactly the stripped non-blank
      lines of the file. */
  lemma FileEventsAreItsLines(text: string, e: string)
    requires |EventsOfText(text)| > 0
    ensures e in LoadEvents(Content(text)) <==> |e| > 0 && e in StripEach(SplitLines(text))
  {
    assert LoadEvents(Content(text)) == EventsOfText(text);
    NonBlankStrippedMembers(SplitLines(text), e);
  }

  /** Lines that hold no line ending, written one per line, are read back as the
      stripped non-blank ones, in their order. */
  lemma {:induction false} ReadBackLines(lines: seq<string>)
    requires |lines| >= 1
    requires forall j :: 0 <= j < |lines| ==> NoLineBreak(lines[j])
    ensures EventsOfText(JoinLines(lines)) == NonBlankStripped(lines)
  {
    SplitJoin(lines);
  }

  /** Two lines followed by a line ending and an empty line. */
  lemma JoinTwoAndBlank(e0: string, e1: string)
    ensures JoinLines([e0, e1, "", ""]) == e0 + "\n" + e1 + "\n\n"
  {
    var lines := [e0, e1, "", ""];
    assert JoinLines(lines[2..]) == "\n";
    assert JoinLines(lines[1..]) == e1 + "\n" + "\n";
  }

  /** Well-formed events followed by blank lines come out as just the events. */
  lemma EventsThenBlanks(events: seq<string>, blanks: seq<string>)
    requires forall j :: 0 <= j < |events| ==> WellFormedEvent(events[j])
    requires forall line :: line in blanks ==> |Strip(line)| == 0
    ensures NonBlankStripped(events + blanks) == events
  {
    NonBlankStrippedAppend(events, blanks);
    NonBlankStrippedKeepsEvents(events);
    NonBlankStrippedEmpty(blanks);
  }

  /** A file written as the given lines, at least one of them usable, loads as
      the stripped non-blank lines. */
  lemma LoadJoinedLines(lines: seq<string>, text: string)
    requires |lines| >= 1 && JoinLines(lines) == text
    requires forall j :: 0 <= j < |lines| ==> NoLineBreak(lines[j])
    requires |NonBlankStripped(lines)| > 0
    ensures LoadEvents(Content(text)) == NonBlankStripped(lines)
  {
    ReadBackLines(lines);
  }

  /** A file of two events followed by an empty line yields just the two events. */
  lemma TrailingBlankLineDropped(e0: string, e1: string)
    requires WellFormedEvent(e0) && NoLineBreak(e0)
    requires WellFormedEvent(e1) && NoLineBreak(e1)
    ensures LoadEvents(Content(e0 + "\n" + e1 + "\n\n")) == [e0, e1]
  {
    var lines := [e0, e1, "", ""];
    JoinTwoAndBlank(e0, e1);
    SplitJoin(lines);
    TwoEventsAndBlank(e0, e1, e0 + "\n" + e1 + "\n\n");
  }

  /** The same, for a text already known to split into the four lines. */
  lemma TwoEventsAndBlank(e0: string, e1: string, text: string)
    requires WellFormedEvent(e0) && WellFormedEvent(e1)
    requires SplitLines(text) == [e0, e1, "", ""]
    ensures LoadEvents(Content(text)) == [e0, e1]
  {
    EventsThenBlanks([e0, e1], ["", ""]);
    assert [e0, e1] + ["", ""] == [e0, e1, "", ""];
  }

  /** A sample events file: two events, then an empty line. */
  const SampleFile: string := "a bird screeches loudly\nyou trip over a root\n\n"

  /** The sample file loads as its two events; the empty line is dropped. */
  lemma SampleFileLoads()
    ensures LoadEvents(Content(SampleFile)) == ["a bird screeches loudly", "you trip over a root"]
  {
    var e0, e1 := "a bird screeches loudly", "you trip over a root";
    assert SampleFile == e0 + "\n" + e1 + "\n\n";
    TrailingBlankLineDropped(e0, e1);
  }

  /** The line `load_events` prints before returning, if any: a warning for a
      missing or empty file, an error for a failed read. `location` is the full
      path the file was looked up at. */
  function LoadMessages(filename: string, location: string, f: FileState): (msgs: seq<string>)
  {
    match f
    case Missing =>
      ["[alert]Warning: '" + filename + "' not found at " + location + ". Using default events.[/alert]"]
    case ReadFailure(reason) => ["[alert]Error reading file: " + reason + "[/alert]"]
    case Content(text) =>
      if |EventsOfText(text)| == 0 then ["[alert]Warning: '" + filename + "' is empty. Using default events.[/alert]"]
      else []
  }

  /** Exactly one message is printed when a fallback list is used, and none when
      the events come from the file. */
  lemma LoadMessagesOnFallback(filename: string, location: string, f: FileState)
    ensures |LoadMessages(filename, location, f)| <= 1
    ensures |LoadMessages(filename, location, f)| == 0 <==> f.Content? && LoadEvents(f) == EventsOfText(f.text)
  {
    if f.Content? && |EventsOfText(f.text)| == 0 {
      assert LoadEvents(f) == EmptyDefaults;
      assert |EmptyDefaults| > 0;
    }
  }

  // ------------------------------------------------------------------ turns

  /** The markup tags around console alerts. */
  const AlertOpen: string := "[alert]"
  const AlertClose: string := "[/alert]"

  const NoEventsAlert: string := AlertOpen + "No events available!" + AlertClose
  const StandStill: string := AlertOpen + "You stand still, unsure what to do. The forest swallows you." + AlertClose
  const LeftOpen: string := "[narrative]You walk left.[/narrative] [event]"
  const RightOpen: string := "[narrative]You walk right.[/narrative] [event]"
  const EventClose: string := "[/event]"

  predicate StartsWith(s: string, p: string) {
    |p| <= |s| && s[..|p|] == p
  }

  predicate EndsWith(s: string, p: string) {
    |p| <= |s| && s[|s| - |p|..] == p
  }

  /** `left_path`: the event wrapped in the left-walk narration. */
  function LeftPath(event: string): (r: string)
    ensures |r| == |LeftOpen| + |event| + |EventClose|
    ensures StartsWith(r, LeftOpen) && EndsWith(r, EventClose)
    ensures r[|LeftOpen|..|r| - |EventClose|] == event
  {
    "[narrative]You walk left.[/narrative] [event]" + event + "[/event]"
  }

  /** `right_path`: the event wrapped in the right-walk narration. */
  function RightPath(event: string): (r: string)
    ensures |r| == |RightOpen| + |event| + |EventClose|
    ensures StartsWith(r, RightOpen) && EndsWith(r, EventClose)
    ensures r[|RightOpen|..|r| - |EventClose|] == event
  {
    "[narrative]You walk right.[/narrative] [event]" + event + "[/event]"
  }

  /** The event embedded in a walking outcome, read back out of it. */
  function EmbeddedEvent(outcome: string): (e: Option<string>)
  {
    if StartsWith(outcome, LeftOpen) && |outcome| >= |LeftOpen| + |EventClose| && EndsWith(outcome, EventClose)
    then Some(outcome[|LeftOpen|..|outcome| - |EventClose|])
    else if StartsWith(outcome, RightOpen) && |outcome| >= |RightOpen| + |EventClose| && EndsWith(outcome, EventClose)
    then Some(outcome[|RightOpen|..|outcome| - |EventClose|])
    else None
  }

  /** Reading the event back inverts both path functions, so neither loses or
      alters the event. */
  lemma EmbeddedEventOfPaths(event: string)
    ensures EmbeddedEvent(LeftPath(event)) == Some(event)
    ensures EmbeddedEvent(RightPath(event)) == Some(event)
  {
    var r := RightPath(event);
    assert r[20] == 'r' && LeftOpen[20] == 'l';
    DiffersAt(r, LeftOpen, 20);
  }

  /** A string that differs from `p` at position `k` does not start with `p`. */
  lemma DiffersAt(s: string, p: string, k: nat)
    requires k < |s| && k < |p| && s[k] != p[k]
    ensures !StartsWith(s, p)
  {
    if |p| <= |s| { assert s[..|p|][k] == s[k]; }
  }

  /** `step`; `pick` is the index `random.choice` drew, which only matters when
      the list is not empty. */
  function Step(choice: string, events: seq<string>, pick: nat): (outcome: string)
    requires |events| > 0 ==> pick < |events|
  {
    if |events| == 0 then NoEventsAlert
    else
      var event := events[pick];
      if choice == "left" then LeftPath(event)
      else if choice == "right" then RightPath(event)
      else StandStill
  }

  /** With no events every choice, `"left"` and `"right"` included, gets the alert. */
  lemma StepWithoutEvents(choice: string, pick: nat)
    ensures Step(choice, [], pick) == NoEventsAlert
  {
  }

  /** Walking left or right narrates the drawn event, which is one of the events. */
  lemma StepWalks(choice: string, events: seq<string>, pick: nat)
    requires |events| > 0 && pick < |events|
    ensures choice == "left" ==> Step(choice, events, pick) == LeftOpen + events[pick] + EventClose
    ensures choice == "right" ==> Step(choice, events, pick) == RightOpen + events[pick] + EventClose
    ensures choice == "left" || choice == "right" ==>
              EmbeddedEvent(Step(choice, events, pick)).Some? && EmbeddedEvent(Step(choice, events, pick)).value in events
  {
    EmbeddedEventOfPaths(events[pick]);
  }

  /** Any other choice stands still, whichever event was drawn. */
  lemma StepStandsStill(choice: string, events: seq<string>, pick: nat, other: nat)
    requires |events| > 0 && pick < |events| && other < |events|
    requires choice != "left" && choice != "right"
    ensures Step(choice, events, pick) == StandStill
    ensures Step(choice, events, pick) == Step(choice, events, other)
  {
  }

  /** The outcome tells which branch was taken: the three kinds of outcome on a
      non-empty list never coincide with each other or with the no-events alert. */
  lemma StepBranchIsVisible(choice: string, events: seq<string>, pick: nat)
    requires |events| > 0 && pick < |events|
    ensures StartsWith(Step(choice, events, pick), LeftOpen) <==> choice == "left"
    ensures StartsWith(Step(choice, events, pick), RightOpen) <==> choice == "right"
    ensures Step(choice, events, pick) == StandStill <==> choice != "left" && choice != "right"
    ensures Step(choice, events, pick) != NoEventsAlert
  {
    var r := Step(choice, events, pick);
    assert LeftOpen[1] == 'n' && LeftOpen[20] == 'l' && RightOpen[20] == 'r';
    assert StandStill[1] == 'a' && NoEventsAlert[1] == 'a';
    assert |StandStill| != |NoEventsAlert|;
    if choice == "left" {
      assert r[1] == 'n' && r[20] == 'l';
      DiffersAt(r, RightOpen, 20);
    } else if choice == "right" {
      assert r[1] == 'n' && r[20] == 'r';
      DiffersAt(r, LeftOpen, 20);
    } else {
      DiffersAt(r, LeftOpen, 1);
      DiffersAt(r, RightOpen, 1);
    }
  }
}
