/**
 The blink-to-Morse decoder. Each tick on which a face is found brings a
 timestamp and whether the eyes are closed. A closed-to-open transition
 completes a blink: its duration makes a dot or a dash, and the gap between
 the end of the previous blink and the start of this closure decides whether
 the letter pending before this symbol is resolved through the Morse table
 (and, for a long gap, followed by a space).

 `Next` is the per-tick transition on a value of the decoder state and `Run`
 folds it over a finite stream of ticks; the class `Decoder` keeps the same
 five variables as fields and updates them in place, proved against `Next`.
 */
module BlinkDecoder {
  import opened Morse

  datatype Option<T> = None | Some(value: T)

  /** A blink shorter than this (seconds) is a dot, otherwise a dash. */
  const DotMaxDuration: real := 0.25
  /** Declared by the program as "same letter" but never consulted. */
  const ShortGap: real := 0.6
  /** A gap above this (seconds) resolves the pending letter. */
  const MediumGap: real := 1.5
  /** A gap above this (seconds) resolves the pending letter and adds a space. */
  const LongGap: real := 2.5

  /** One observation: the clock reading, whether a face was found, whether the eyes are closed. */
  datatype Tick = Tick(now: real, faceFound: bool, closed: bool)

  /** The five decoder variables. */
  datatype State = State(
    eyeClosed: bool,
    closeStartTime: Option<real>,
    lastBlinkTime: Option<real>,
    currentMorse: string,
    decodedText: string)

  /** The values the program starts with. */
  const Initial: State := State(false, None, None, "", "")

  /** A character the decoder can write to its output. */
  predicate IsOutputChar(c: char) {
    IsLetter(c) || c == '?' || c == ' '
  }

  /** While the eyes are closed, the time the closure began is known. */
  predicate WellFormed(s: State) {
    s.eyeClosed ==> s.closeStartTime.Some?
  }

  /** What holds of every state reachable from `Initial`. */
  predicate ValidState(s: State) {
    && WellFormed(s)
    && (forall i :: 0 <= i < |s.currentMorse| ==> IsSymbol(s.currentMorse[i]))
    && (forall i :: 0 <= i < |s.decodedText| ==> IsOutputChar(s.decodedText[i]))
    // a code is pending exactly when some blink has completed
    && (s.lastBlinkTime.None? <==> s.currentMorse == [])
    // nothing is decoded before the first blink
    && (s.lastBlinkTime.None? ==> s.decodedText == [])
  }

  /** The symbol for a blink of the given duration. */
  function SymbolFor(duration: real): (r: char)
    ensures IsSymbol(r)
  {
    if duration < DotMaxDuration then '.' else '-'
  }

  /** What a completed blink appends to the output, given the code pending before it and the gap. */
  function Emitted(pending: string, gap: real): (r: string)
    ensures gap <= MediumGap <==> r == []
    ensures r != [] ==> r[0] == Lookup(pending)
    ensures |r| == 2 <==> gap > LongGap
    ensures |r| == 2 ==> r[1] == ' '
    ensures MediumGap < gap <= LongGap ==> r == [Lookup(pending)]
  {
    if gap > LongGap then [Lookup(pending), ' ']
    else if gap > MediumGap then [Lookup(pending)]
    else []
  }

  /** The state after one tick. */
  function Next(s: State, t: Tick): (r: State)
    requires WellFormed(s)
    ensures WellFormed(r)
    ensures s.decodedText <= r.decodedText
  {
    if !t.faceFound then s
    else if t.closed then
      if s.eyeClosed then s
      else s.(eyeClosed := true, closeStartTime := Some(t.now))
    else if !s.eyeClosed then s
    else
      var start := s.closeStartTime.value;
      var symbol := SymbolFor(t.now - start);
      var morse := s.currentMorse + [symbol];
      var pending := morse[..|morse| - 1];
      var resolved :=
        if s.lastBlinkTime.None? then false
        else start - s.lastBlinkTime.value > MediumGap;
      var text :=
        if s.lastBlinkTime.None? then s.decodedText
        else s.decodedText + Emitted(pending, start - s.lastBlinkTime.value);
      s.(eyeClosed := false,
         lastBlinkTime := Some(t.now),
         currentMorse := if resolved then [symbol] else morse,
         decodedText := text)
  }

  /** The state after a finite stream of ticks. */
  function Run(s: State, ticks: seq<Tick>): (r: State)
    requires WellFormed(s)
    ensures WellFormed(r)
    ensures s.decodedText <= r.decodedText
    decreases |ticks|
  {
    if ticks == [] then s else Run(Next(s, ticks[0]), ticks[1..])
  }

  // ---------------------------------------------------------------- one tick

  /** One tick keeps the decoder's invariant. */
  lemma NextKeepsValid(s: State, t: Tick)
    requires ValidState(s)
    ensures ValidState(Next(s, t))
  {
  }

  /** A tick with no face in view changes none of the five variables. */
  lemma NoFaceIsSkipped(s: State, now: real, closed: bool)
    requires WellFormed(s)
    ensures Next(s, Tick(now, false, closed)) == s
  {
  }

  /** Closing the eyes records the closure's start and nothing else. */
  lemma ClosingStartsTiming(s: State, now: real)
    requires WellFormed(s) && !s.eyeClosed
    ensures Next(s, Tick(now, true, true)) == s.(eyeClosed := true, closeStartTime := Some(now))
  {
  }

  /** Staying closed, or staying open, changes nothing. */
  lemma HoldingChangesNothing(s: State, now: real, closed: bool)
    requires WellFormed(s) && s.eyeClosed == closed
    ensures Next(s, Tick(now, true, closed)) == s
  {
  }

  /**
   Opening the eyes completes a blink: its symbol is a dot exactly when the
   closure lasted less than DotMaxDuration, it ends the pending code, and the
   blink's end becomes the last blink time.
   */
  lemma BlinkCompletes(s: State, now: real)
    requires WellFormed(s) && s.eyeClosed
    ensures var r := Next(s, Tick(now, true, false));
      && !r.eyeClosed
      && r.lastBlinkTime == Some(now)
      && r.closeStartTime == s.closeStartTime
      && |r.currentMorse| > 0
      && IsSymbol(r.currentMorse[|r.currentMorse| - 1])
      && (r.currentMorse[|r.currentMorse| - 1] == '.' <==> now - s.closeStartTime.value < DotMaxDuration)
  {
  }

  /** The first blink of a session only starts the pending code. */
  lemma FirstBlink(s: State, now: real)
    requires WellFormed(s) && s.eyeClosed && s.lastBlinkTime.None?
    ensures var r := Next(s, Tick(now, true, false));
      && r.decodedText == s.decodedText
      && r.currentMorse == s.currentMorse + [SymbolFor(now - s.closeStartTime.value)]
  {
  }

  /** A gap above LongGap resolves the pending code, adds a space, and starts a new code. */
  lemma WordGap(s: State, now: real, lastBlink: real)
    requires WellFormed(s) && s.eyeClosed && s.lastBlinkTime == Some(lastBlink)
    requires s.closeStartTime.value - lastBlink > LongGap
    ensures var r := Next(s, Tick(now, true, false));
      && r.decodedText == s.decodedText + [Lookup(s.currentMorse), ' ']
      && r.currentMorse == [SymbolFor(now - s.closeStartTime.value)]
  {
  }

  /** A gap in (MediumGap, LongGap] resolves the pending code without a space. */
  lemma LetterGap(s: State, now: real, lastBlink: real)
    requires WellFormed(s) && s.eyeClosed && s.lastBlinkTime == Some(lastBlink)
    requires MediumGap < s.closeStartTime.value - lastBlink <= LongGap
    ensures var r := Next(s, Tick(now, true, false));
      && r.decodedText == s.decodedText + [Lookup(s.currentMorse)]
      && r.currentMorse == [SymbolFor(now - s.closeStartTime.value)]
  {
  }

  /**
   A gap of at most MediumGap, whether below or above ShortGap, resolves
   nothing: the symbol extends the pending code.
   */
  lemma ShortGapContinues(s: State, now: real, lastBlink: real)
    requires WellFormed(s) && s.eyeClosed && s.lastBlinkTime == Some(lastBlink)
    requires s.closeStartTime.value - lastBlink <= MediumGap
    ensures var r := Next(s, Tick(now, true, false));
      && r.decodedText == s.decodedText
      && r.currentMorse == s.currentMorse + [SymbolFor(now - s.closeStartTime.value)]
  {
  }

  /** The dot/dash boundary is strict: a closure of exactly DotMaxDuration is a dash. */
  lemma DotDashBoundary()
    ensures SymbolFor(0.10) == '.' && SymbolFor(0.24) == '.'
    ensures SymbolFor(0.25) == '-' && SymbolFor(0.30) == '-'
  {
  }

  // ---------------------------------------------------------- tick streams

  /** Running two streams one after the other is running their concatenation. */
  lemma {:induction false} RunConcat(s: State, a: seq<Tick>, b: seq<Tick>)
    requires WellFormed(s)
    ensures Run(s, a + b) == Run(Run(s, a), b)
    decreases |a|
  {
    if a == [] {
      assert a + b == b;
    } else {
      assert (a + b)[0] == a[0];
      assert (a + b)[1..] == a[1..] + b;
      RunConcat(Next(s, a[0]), a[1..], b);
    }
  }

  /** Every state reachable from a valid one is valid. */
  lemma {:induction false} RunKeepsValid(s: State, ticks: seq<Tick>)
    requires ValidState(s)
    ensures ValidState(Run(s, ticks))
    decreases |ticks|
  {
    if ticks != [] {
      NextKeepsValid(s, ticks[0]);
      RunKeepsValid(Next(s, ticks[0]), ticks[1..]);
    }
  }

  /**
   From the start of a session, whatever the ticks: the output only holds
   letters, '?' and spaces, the pending code only dots and dashes, and the
   output only ever grows.
   */
  lemma SessionInvariant(ticks: seq<Tick>, more: seq<Tick>)
    ensures ValidState(Run(Initial, ticks))
    ensures Run(Initial, ticks).decodedText <= Run(Initial, ticks + more).decodedText
  {
    RunKeepsValid(Initial, ticks);
    RunConcat(Initial, ticks, more);
  }

  // ------------------------------------------------------- the decoder object

  /** The decoder's variables, updated in place tick by tick. */
  class Decoder {
    var eyeClosed: bool
    var closeStartTime: Option<real>
    var lastBlinkTime: Option<real>
    var currentMorse: string
    var decodedText: string

    /** The current values of the five variables. */
    function Snapshot(): State
      reads this
    {
      State(eyeClosed, closeStartTime, lastBlinkTime, currentMorse, decodedText)
    }

    constructor ()
      ensures Snapshot() == Initial
    {
      eyeClosed := false;
      closeStartTime := None;
      lastBlinkTime := None;
      currentMorse := "";
      decodedText := "";
    }

    /** One pass of the main loop's decoding block. */
    method Step(now: real, faceFound: bool, closed: bool)
      requires WellFormed(Snapshot())
      modifies this
      ensures Snapshot() == Next(old(Snapshot()), Tick(now, faceFound, closed))
      ensures ValidState(old(Snapshot())) ==> ValidState(Snapshot())
      ensures old(decodedText) <= decodedText
    {
      ghost var before := Snapshot();
      if faceFound {
        if closed {
          if !eyeClosed {
            eyeClosed := true;
            closeStartTime := Some(now);
          }
        } else {
          if eyeClosed {
            var blinkDuration := now - closeStartTime.value;
            var symbol := if blinkDuration < DotMaxDuration then '.' else '-';
            currentMorse := currentMorse + [symbol];
            if lastBlinkTime.Some? {
              var gap := closeStartTime.value - lastBlinkTime.value;
              if gap > LongGap {
                decodedText := decodedText + [Lookup(currentMorse[..|currentMorse| - 1])] + " ";
                currentMorse := [symbol];
              } else if gap > MediumGap {
                decodedText := decodedText + [Lookup(currentMorse[..|currentMorse| - 1])];
                currentMorse := [symbol];
              }
            }
            lastBlinkTime := Some(now);
            eyeClosed := false;
          }
        }
      }
      assert Snapshot() == Next(before, Tick(now, faceFound, closed));
      if ValidState(before) {
        NextKeepsValid(before, Tick(now, faceFound, closed));
      }
    }

    /** The main loop, driven by a finite stream of ticks. */
    method Feed(ticks: seq<Tick>)
      requires WellFormed(Snapshot())
      modifies this
      ensures Snapshot() == Run(old(Snapshot()), ticks)
    {
      var i := 0;
      while i < |ticks|
        invariant 0 <= i <= |ticks|
        invariant WellFormed(Snapshot())
        invariant Run(Snapshot(), ticks[i..]) == Run(old(Snapshot()), ticks)
      {
        ghost var before := Snapshot();
        Step(ticks[i].now, ticks[i].faceFound, ticks[i].closed);
        assert ticks[i..][1..] == ticks[i + 1..];
        assert Run(before, ticks[i..]) == Run(Snapshot(), ticks[i + 1..]);
        i := i + 1;
      }
      assert ticks[i..] == [];
    }
  }
}
