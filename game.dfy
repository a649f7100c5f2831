/** The game's main block: load the events once, then read a direction per turn
    until the player types `exit`. Console input is a finite sequence of lines,
    console output a sequence of printed lines, and the draws of `random.choice`
    a sequence of indices, one per turn. */
module Game {
  import opened PyText
  import opened Story

  const Farewell: string := AlertOpen + "You flee the forest. Game Over." + AlertClose
  const Goodbye: string := "\n[bold magenta]\U{1F44B} Goodbye! Thanks for playing.[/bold magenta]"

  /** `choice.strip().lower()`. */
  function Normalize(raw: string): string {
    Lower(Strip(raw))
  }

  /** A normalised choice has no surrounding whitespace and no upper-case ASCII
      letter, and is as long as the stripped input. */
  lemma NormalizeSpec(raw: string)
    ensures IsStripped(Normalize(raw)) && |Normalize(raw)| == |Strip(raw)|
    ensures forall k :: 0 <= k < |Normalize(raw)| ==> !('A' <= Normalize(raw)[k] <= 'Z')
  {
    StripSpec(raw);
    LowerKeepsSpaces(Strip(raw));
  }

  /** Normalising twice is normalising once. */
  lemma NormalizeIdempotent(raw: string)
    ensures Normalize(Normalize(raw)) == Normalize(raw)
  {
    var c := Normalize(raw);
    NormalizeSpec(raw);
    StripOfStripped(c);
    LowerIdempotent(Strip(raw));
  }

  /** Padding and capitals do not hide an `exit`. */
  lemma PaddedExit()
    ensures Normalize(" EXIT\t") == "exit"
  {
  }

  /** The turn at which the loop stops: the first input that normalises to
      `"exit"`, or `|inputs|` when there is none. */
  function ExitIndex(inputs: seq<string>): (n: nat)
    ensures n <= |inputs|
    ensures forall j :: 0 <= j < n ==> Normalize(inputs[j]) != "exit"
    ensures n < |inputs| ==> Normalize(inputs[n]) == "exit"
  {
    if |inputs| == 0 then 0
    else if Normalize(inputs[0]) == "exit" then 0
    else 1 + ExitIndex(inputs[1..])
  }

  /** Every draw is a valid index into the events, when there are events to draw from. */
  predicate ValidPicks(events: seq<string>, picks: seq<nat>) {
    forall j :: 0 <= j < |picks| ==> |events| == 0 || picks[j] < |events|
  }

  /** The lines the loop prints for these inputs, turn by turn. When the inputs
      run out before an `exit` no further line is printed. */
  function Transcript(inputs: seq<string>, picks: seq<nat>, events: seq<string>): seq<string>
    requires |inputs| <= |picks| && ValidPicks(events, picks)
  {
    if |inputs| == 0 then []
    else
      var choice := Normalize(inputs[0]);
      if choice == "exit" then [Farewell, Goodbye]
      else [Step(choice, events, picks[0])] + Transcript(inputs[1..], picks[1..], events)
  }

  /** The loop stops at the first `exit`: before it, one `step` result per input,
      in order and computed from the normalised input; then the farewell and the
      goodbye line. */
  lemma {:induction false} TranscriptTurns(inputs: seq<string>, picks: seq<nat>, events: seq<string>)
    requires |inputs| <= |picks| && ValidPicks(events, picks)
    ensures var n := ExitIndex(inputs);
      && |Transcript(inputs, picks, events)| == n + (if n < |inputs| then 2 else 0)
      && (forall j :: 0 <= j < n ==> Transcript(inputs, picks, events)[j] == Step(Normalize(inputs[j]), events, picks[j]))
      && (n < |inputs| ==>
            Transcript(inputs, picks, events)[n] == Farewell && Transcript(inputs, picks, events)[n + 1] == Goodbye)
  {
    if |inputs| > 0 && Normalize(inputs[0]) != "exit" {
      var t := Transcript(inputs, picks, events);
      var rest := Transcript(inputs[1..], picks[1..], events);
      TranscriptTurns(inputs[1..], picks[1..], events);
      assert t == [Step(Normalize(inputs[0]), events, picks[0])] + rest;
      forall j | 1 <= j < ExitIndex(inputs)
        ensures t[j] == Step(Normalize(inputs[j]), events, picks[j])
      {
        assert inputs[1..][j - 1] == inputs[j] && picks[1..][j - 1] == picks[j];
      }
    }
  }

  /** Inputs after the first `exit` are never read. */
  lemma {:induction false} TranscriptIgnoresLaterInputs(inputs: seq<string>, picks: seq<nat>, events: seq<string>, more: seq<string>, morePicks: seq<nat>)
    requires |inputs| <= |picks| && ValidPicks(events, picks)
    requires |more| <= |morePicks| && ValidPicks(events, morePicks)
    requires ExitIndex(inputs) < |inputs|
    ensures ValidPicks(events, picks + morePicks)
    ensures Transcript(inputs + more, picks + morePicks, events) == Transcript(inputs, picks, events)
  {
    assert ValidPicks(events, picks + morePicks) by {
      forall j | 0 <= j < |picks + morePicks| ensures |events| == 0 || (picks + morePicks)[j] < |events| {
        if j >= |picks| { assert (picks + morePicks)[j] == morePicks[j - |picks|]; }
      }
    }
    assert (inputs + more)[0] == inputs[0];
    if Normalize(inputs[0]) != "exit" {
      assert (inputs + more)[1..] == inputs[1..] + more;
      assert (picks + morePicks)[1..] == picks[1..] + morePicks;
      TranscriptIgnoresLaterInputs(inputs[1..], picks[1..], events, more, morePicks);
    }
  }

  /** Every input normalised beforehand. */
  function NormalizeAll(inputs: seq<string>): (r: seq<string>)
    ensures |r| == |inputs|
    ensures forall j :: 0 <= j < |inputs| ==> r[j] == Normalize(inputs[j])
  {
    if |inputs| == 0 then [] else [Normalize(inputs[0])] + NormalizeAll(inputs[1..])
  }

  /** The loop sees only the normalised input: typing `" LEFT "` is typing `"left"`. */
  lemma {:induction false} TranscriptSeesNormalized(inputs: seq<string>, picks: seq<nat>, events: seq<string>)
    requires |inputs| <= |picks| && ValidPicks(events, picks)
    ensures Transcript(NormalizeAll(inputs), picks, events) == Transcript(inputs, picks, events)
  {
    if |inputs| > 0 {
      NormalizeIdempotent(inputs[0]);
      assert NormalizeAll(inputs)[1..] == NormalizeAll(inputs[1..]);
      TranscriptSeesNormalized(inputs[1..], picks[1..], events);
    }
  }

  /** In the game the events come from `load_events`, so no turn ever reports
      that no events are available. */
  lemma {:induction false} GameAlwaysHasEvents(f: FileState, inputs: seq<string>, picks: seq<nat>)
    requires |inputs| <= |picks| && ValidPicks(LoadEvents(f), picks)
    ensures NoEventsAlert !in Transcript(inputs, picks, LoadEvents(f))
  {
    var events := LoadEvents(f);
    if |inputs| > 0 {
      var choice := Normalize(inputs[0]);
      assert |Farewell| != |NoEventsAlert| && |Goodbye| != |NoEventsAlert|;
      if choice != "exit" {
        StepBranchIsVisible(choice, events, picks[0]);
        GameAlwaysHasEvents(f, inputs[1..], picks[1..]);
      }
    }
  }

  /** Going left once and then leaving, with the single event `a leaf falls`. */
  lemma LeftThenExit()
    ensures Transcript(["left", "exit"], [0, 0], ["a leaf falls"])
              == [LeftOpen + "a leaf falls" + EventClose, Farewell, Goodbye]
  {
    var inputs, picks, events := ["left", "exit"], [0, 0], ["a leaf falls"];
    assert Normalize("left") == "left" by { StripOfStripped("left"); }
    assert Normalize("exit") == "exit" by { StripOfStripped("exit"); }
    assert Transcript(inputs[1..], picks[1..], events) == [Farewell, Goodbye];
    StepWalks("left", events, 0);
  }

  /** Valid draws stay valid when the first ones are used up. */
  lemma ValidPicksSuffix(events: seq<string>, picks: seq<nat>, i: nat)
    requires ValidPicks(events, picks) && i <= |picks|
    ensures ValidPicks(events, picks[i..])
  {
    forall j | 0 <= j < |picks[i..]| ensures |events| == 0 || picks[i..][j] < |events| {
      assert picks[i..][j] == picks[i + j];
    }
  }

  /** The transcript from turn `i` on, unfolded by one turn. */
  lemma TranscriptFrom(inputs: seq<string>, picks: seq<nat>, events: seq<string>, i: nat)
    requires |inputs| <= |picks| && ValidPicks(events, picks) && i < |inputs|
    ensures ValidPicks(events, picks[i..]) && ValidPicks(events, picks[i + 1..])
    ensures Transcript(inputs[i..], picks[i..], events)
              == if Normalize(inputs[i]) == "exit" then [Farewell, Goodbye]
                 else [Step(Normalize(inputs[i]), events, picks[i])] + Transcript(inputs[i + 1..], picks[i + 1..], events)
  {
    ValidPicksSuffix(events, picks, i);
    ValidPicksSuffix(events, picks, i + 1);
    assert inputs[i..][0] == inputs[i] && picks[i..][0] == picks[i];
    assert inputs[i..][1..] == inputs[i + 1..] && picks[i..][1..] == picks[i + 1..];
  }

  /** The `while True` loop: read a line, normalise it, stop on `exit`, otherwise
      print the outcome of the turn; the goodbye line follows the loop. `exited`
      is false when the inputs ran out first, where the program would stop on
      end of input without printing anything more. */
  method Play(inputs: seq<string>, picks: seq<nat>, events: seq<string>) returns (console: seq<string>, exited: bool)
    requires |inputs| <= |picks| && ValidPicks(events, picks)
    ensures console == Transcript(inputs, picks, events)
    ensures exited <==> ExitIndex(inputs) < |inputs|
  {
    console := [];
    exited := false;
    var i := 0;
    ValidPicksSuffix(events, picks, 0);
    assert inputs[0..] == inputs && picks[0..] == picks;
    while i < |inputs|
      invariant 0 <= i <= |inputs|
      invariant forall j :: 0 <= j < i ==> Normalize(inputs[j]) != "exit"
      invariant ValidPicks(events, picks[i..])
      invariant console + Transcript(inputs[i..], picks[i..], events) == Transcript(inputs, picks, events)
    {
      TranscriptFrom(inputs, picks, events, i);
      var choice := Normalize(inputs[i]);
      if choice == "exit" {
        console := console + [Farewell];
        exited := true;
        break;
      }
      var result := Step(choice, events, picks[i]);
      ghost var later := Transcript(inputs[i + 1..], picks[i + 1..], events);
      assert (console + [result]) + later == console + ([result] + later);
      console := console + [result];
      i := i + 1;
    }
    if exited {
      console := console + [Goodbye];
    } else {
      assert inputs[i..] == [];
    }
  }

  /** The whole program, banner aside: load the events, print what loading
      reported, then run the loop over them. */
  method RunGame(filename: string, location: string, f: FileState, inputs: seq<string>, picks: seq<nat>)
    returns (console: seq<string>, exited: bool)
    requires |inputs| <= |picks| && ValidPicks(LoadEvents(f), picks)
    ensures console == LoadMessages(filename, location, f) + Transcript(inputs, picks, LoadEvents(f))
    ensures exited <==> ExitIndex(inputs) < |inputs|
  {
    var events := LoadEvents(f);
    var turns;
    turns, exited := Play(inputs, picks, events);
    console := LoadMessages(filename, location, f) + turns;
  }
}
