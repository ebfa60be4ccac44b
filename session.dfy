/**
 What a user who blinks a message to the decoder gets back. A message is a
 sequence of keys, each a letter with a flag saying whether a word ends after
 it. The sender blinks each letter's code with short pauses between symbols,
 pauses longer between letters and longer still between words, and, because
 the decoder commits each letter only when the next blink begins, closes with
 one extra blink. The decoder's output is then exactly the message.
 */
module Session {
  import opened Morse
  import opened BlinkDecoder

  /** A letter of the message, and whether a space follows it. */
  datatype Key = Key(letter: char, endsWord: bool)

  /** A code to blink, and whether a word ends after it. */
  datatype Signal = Signal(code: string, endsWord: bool)

  /** How long the sender holds the eyes shut for a dot and for a dash (seconds). */
  const DotHold: real := 0.1
  const DashHold: real := 0.5
  /** Pauses between the end of one blink and the start of the next closure (seconds). */
  const SymbolPause: real := 0.5
  const LetterPause: real := 2.0
  const WordPause: real := 3.0

  predicate IsMessage(keys: seq<Key>) {
    forall i :: 0 <= i < |keys| ==> IsLetter(keys[i].letter)
  }

  predicate IsCode(code: string) {
    code != [] && forall i :: 0 <= i < |code| ==> IsSymbol(code[i])
  }

  predicate IsSignals(signals: seq<Signal>) {
    forall i :: 0 <= i < |signals| ==> IsCode(signals[i].code)
  }

  /** The text the message stands for. */
  function Render(keys: seq<Key>): string {
    if keys == [] then ""
    else [keys[0].letter] + (if keys[0].endsWord then " " else "") + Render(keys[1..])
  }

  /** The codes a sender blinks for a message. */
  function Encoded(keys: seq<Key>): (signals: seq<Signal>)
    requires IsMessage(keys)
    ensures |signals| == |keys| && IsSignals(signals)
  {
    if keys == [] then []
    else [Signal(Encode(keys[0].letter), keys[0].endsWord)] + Encoded(keys[1..])
  }

  /** What the decoder writes for each signal once the following pause resolves it. */
  function Heard(signals: seq<Signal>): string {
    if signals == [] then ""
    else [Lookup(signals[0].code)] + (if signals[0].endsWord then " " else "") + Heard(signals[1..])
  }

  function Hold(symbol: char): real {
    if symbol == '.' then DotHold else DashHold
  }

  function Pause(endsWord: bool): real {
    if endsWord then WordPause else LetterPause
  }

  /** The ticks of one closure at `t` and the reopening `hold` seconds later. */
  function Blink(t: real, hold: real): seq<Tick> {
    [Tick(t, true, true), Tick(t + hold, true, false)]
  }

  /** The ticks that blink `code`, the first closure starting at `t`. */
  function CodeTicks(code: string, t: real): seq<Tick>
    decreases |code|
  {
    if code == [] then []
    else Blink(t, Hold(code[0])) + CodeTicks(code[1..], t + Hold(code[0]) + SymbolPause)
  }

  /** When the last blink of `code`, started at `t`, ends. */
  function CodeEnd(code: string, t: real): real
    requires code != []
    decreases |code|
  {
    if |code| == 1 then t + Hold(code[0])
    else CodeEnd(code[1..], t + Hold(code[0]) + SymbolPause)
  }

  /** The ticks that blink `signals`, the first closure at `t`, followed by one closing dot. */
  function SendSignals(signals: seq<Signal>, t: real): seq<Tick>
    requires IsSignals(signals)
    decreases |signals|
  {
    if signals == [] then CodeTicks(".", t)
    else
      var code := signals[0].code;
      CodeTicks(code, t) + SendSignals(signals[1..], CodeEnd(code, t) + Pause(signals[0].endsWord))
  }

  /** The ticks that send a message, the first closure at `t`. */
  function Send(keys: seq<Key>, t: real): seq<Tick>
    requires IsMessage(keys)
  {
    SendSignals(Encoded(keys), t)
  }

  /**
   The time from the last blink of `s` to a closure at `t`; zero before the
   first blink, when the decoder measures no gap.
   */
  function GapTo(s: State, t: real): real {
    if s.lastBlinkTime.None? then 0.0 else t - s.lastBlinkTime.value
  }

  /** Appending the first element of a sequence and then the rest is appending the whole. */
  lemma AppendFirst<T>(prefix: seq<T>, s: seq<T>)
    requires s != []
    ensures prefix + [s[0]] + s[1..] == prefix + s
  {
    assert [s[0]] + s[1..] == s;
  }

  /** The pause after the first signal resolves it into the first part of what the signals stand for. */
  lemma HeardFirst(written: string, signals: seq<Signal>)
    requires signals != []
    ensures written + Emitted(signals[0].code, Pause(signals[0].endsWord)) + Heard(signals[1..])
      == written + Heard(signals)
  {
    assert Emitted(signals[0].code, Pause(signals[0].endsWord))
      == [Lookup(signals[0].code)] + (if signals[0].endsWord then " " else "");
  }

  /** The sender's hold times give the intended symbols. */
  lemma HoldGivesSymbol(symbol: char)
    requires IsSymbol(symbol)
    ensures SymbolFor(Hold(symbol)) == symbol
  {
  }

  /** One blink from an open state, taken through both of its ticks. */
  lemma {:induction false} BlinkStep(s: State, t: real, hold: real)
    requires WellFormed(s) && !s.eyeClosed
    ensures var r := Run(s, Blink(t, hold));
      && WellFormed(r)
      && !r.eyeClosed
      && r.lastBlinkTime == Some(t + hold)
      && r.decodedText == s.decodedText + Emitted(s.currentMorse, GapTo(s, t))
      && r.currentMorse == (if GapTo(s, t) > MediumGap then [] else s.currentMorse) + [SymbolFor(hold)]
  {
    var closed := Next(s, Tick(t, true, true));
    assert closed == s.(eyeClosed := true, closeStartTime := Some(t));
    var reopened := Next(closed, Tick(t + hold, true, false));
    assert (s.currentMorse + [SymbolFor(hold)])[..|s.currentMorse|] == s.currentMorse;
    var ticks := Blink(t, hold);
    assert ticks[1..] == [Tick(t + hold, true, false)];
    assert Run(s, ticks) == Run(closed, ticks[1..]);
    assert Run(closed, ticks[1..]) == Run(reopened, []);
  }

  /**
   Blinking a code from an open state: the gap before its first closure
   decides, as for a single blink, what is written and whether the pending
   code is dropped; the short pauses inside the code resolve nothing, so the
   whole code ends up pending.
   */
  lemma {:induction false} CodeStep(s: State, code: string, t: real)
    requires WellFormed(s) && !s.eyeClosed
    requires IsCode(code)
    ensures var r := Run(s, CodeTicks(code, t));
      && WellFormed(r) && !r.eyeClosed
      && r.lastBlinkTime == Some(CodeEnd(code, t))
      && r.decodedText == s.decodedText + Emitted(s.currentMorse, GapTo(s, t))
      && r.currentMorse == (if GapTo(s, t) > MediumGap then [] else s.currentMorse) + code
    decreases |code|
  {
    var hold := Hold(code[0]);
    var t' := t + hold + SymbolPause;
    var rest := CodeTicks(code[1..], t');
    var mid := Run(s, Blink(t, hold));
    var kept := if GapTo(s, t) > MediumGap then [] else s.currentMorse;
    assert Run(s, CodeTicks(code, t)) == Run(mid, rest) by {
      assert CodeTicks(code, t) == Blink(t, hold) + rest;
      RunConcat(s, Blink(t, hold), rest);
    }
    assert WellFormed(mid) && !mid.eyeClosed && mid.lastBlinkTime == Some(t + hold)
      && mid.decodedText == s.decodedText + Emitted(s.currentMorse, GapTo(s, t))
      && mid.currentMorse == kept + [code[0]] by {
      BlinkStep(s, t, hold);
      HoldGivesSymbol(code[0]);
    }
    if |code| == 1 {
      assert code == [code[0]];
      assert rest == [];
    } else {
      assert GapTo(mid, t') == SymbolPause;
      assert IsCode(code[1..]);
      CodeStep(mid, code[1..], t');
      AppendFirst(kept, code);
    }
  }

  /**
   Sending signals starts with blinking the first code; the rest follows after
   the pause for that code, which is long enough to resolve it.
   */
  lemma {:induction false} FirstSignal(s: State, signals: seq<Signal>, t: real)
    requires IsSignals(signals) && signals != []
    requires WellFormed(s) && !s.eyeClosed
    requires GapTo(s, t) > MediumGap || s.currentMorse == []
    ensures IsSignals(signals[1..])
    ensures Run(s, SendSignals(signals, t))
      == Run(Run(s, CodeTicks(signals[0].code, t)), SendSignals(signals[1..], CodeEnd(signals[0].code, t) + Pause(signals[0].endsWord)))
    ensures var mid := Run(s, CodeTicks(signals[0].code, t));
      && WellFormed(mid) && !mid.eyeClosed && mid.lastBlinkTime == Some(CodeEnd(signals[0].code, t))
      && mid.decodedText == s.decodedText + Emitted(s.currentMorse, GapTo(s, t))
      && mid.currentMorse == signals[0].code
  {
    var sig := signals[0];
    assert IsSignals(signals[1..]);
    RunConcat(s, CodeTicks(sig.code, t), SendSignals(signals[1..], CodeEnd(sig.code, t) + Pause(sig.endsWord)));
    var kept := if GapTo(s, t) > MediumGap then [] else s.currentMorse;
    assert kept + sig.code == sig.code;
    CodeStep(s, sig.code, t);
  }

  /**
   From an open state with a completed blink, sending `signals` after a pause
   that resolves the pending code writes what the pause resolves followed by
   what the signals stand for, and leaves only the closing dot pending.
   */
  lemma {:induction false} SignalsAfterPause(s: State, signals: seq<Signal>, t: real)
    requires IsSignals(signals)
    requires WellFormed(s) && !s.eyeClosed && s.lastBlinkTime.Some?
    requires GapTo(s, t) > MediumGap
    ensures var r := Run(s, SendSignals(signals, t));
      && r.decodedText == s.decodedText + Emitted(s.currentMorse, GapTo(s, t)) + Heard(signals)
      && r.currentMorse == "."
    decreases |signals|
  {
    var emitted := Emitted(s.currentMorse, GapTo(s, t));
    if signals == [] {
      CodeStep(s, ".", t);
    } else {
      var sig := signals[0];
      var t' := CodeEnd(sig.code, t) + Pause(sig.endsWord);
      var mid := Run(s, CodeTicks(sig.code, t));
      var rest := SendSignals(signals[1..], t');
      assert Run(s, SendSignals(signals, t)) == Run(mid, rest)
        && WellFormed(mid) && !mid.eyeClosed && mid.lastBlinkTime == Some(CodeEnd(sig.code, t))
        && mid.decodedText == s.decodedText + emitted && mid.currentMorse == sig.code by {
        FirstSignal(s, signals, t);
      }
      assert GapTo(mid, t') == Pause(sig.endsWord);
      assert Run(mid, rest).decodedText == mid.decodedText + Emitted(sig.code, Pause(sig.endsWord)) + Heard(signals[1..])
        && Run(mid, rest).currentMorse == "." by {
        SignalsAfterPause(mid, signals[1..], t');
      }
      HeardFirst(s.decodedText + emitted, signals);
    }
  }

  /**
   From a state where no blink has completed and nothing is pending, sending
   `signals` writes exactly what they stand for; the closing dot stays pending.
   */
  lemma {:induction false} SignalsFromStart(s: State, signals: seq<Signal>, t: real)
    requires IsSignals(signals)
    requires WellFormed(s) && !s.eyeClosed && s.lastBlinkTime.None? && s.currentMorse == []
    ensures var r := Run(s, SendSignals(signals, t));
      && r.decodedText == s.decodedText + Heard(signals)
      && r.currentMorse == "."
  {
    if signals == [] {
      CodeStep(s, ".", t);
      assert Emitted(s.currentMorse, GapTo(s, t)) == [];
    } else {
      var sig := signals[0];
      var t' := CodeEnd(sig.code, t) + Pause(sig.endsWord);
      var first := Run(s, CodeTicks(sig.code, t));
      var rest := SendSignals(signals[1..], t');
      assert Run(s, SendSignals(signals, t)) == Run(first, rest)
        && WellFormed(first) && !first.eyeClosed && first.lastBlinkTime == Some(CodeEnd(sig.code, t))
        && first.decodedText == s.decodedText && first.currentMorse == sig.code by {
        FirstSignal(s, signals, t);
        assert Emitted(s.currentMorse, GapTo(s, t)) == [];
      }
      assert GapTo(first, t') == Pause(sig.endsWord);
      assert Run(first, rest).decodedText == first.decodedText + Emitted(sig.code, Pause(sig.endsWord)) + Heard(signals[1..])
        && Run(first, rest).currentMorse == "." by {
        SignalsAfterPause(first, signals[1..], t');
      }
      HeardFirst(s.decodedText, signals);
    }
  }

  /** The decoder hears the encoding of a message as the message itself. */
  lemma {:induction false} HeardEncoded(keys: seq<Key>)
    requires IsMessage(keys)
    ensures Heard(Encoded(keys)) == Render(keys)
    decreases |keys|
  {
    if keys != [] {
      LookupEncode(keys[0].letter);
      HeardEncoded(keys[1..]);
      assert Encoded(keys)[1..] == Encoded(keys[1..]);
    }
  }

  /**
   A whole session: from the program's initial state, blinking a message
   followed by one closing blink decodes to exactly the message; the closing
   dot stays pending, since no flush ever resolves it.
   */
  lemma SessionDecodes(keys: seq<Key>)
    requires IsMessage(keys)
    ensures Run(Initial, Send(keys, 0.0)).decodedText == Render(keys)
    ensures Run(Initial, Send(keys, 0.0)).currentMorse == "."
  {
    SignalsFromStart(Initial, Encoded(keys), 0.0);
    HeardEncoded(keys);
  }

  /** "SOS" with a word gap after it, then the closing blink, decodes to "SOS ". */
  lemma SosDecodes()
    ensures Run(Initial, Send([Key('S', false), Key('O', false), Key('S', true)], 0.0)).decodedText == "SOS "
  {
    SessionDecodes([Key('S', false), Key('O', false), Key('S', true)]);
    RenderSos();
  }

  lemma RenderSos()
    ensures Render([Key('S', false), Key('O', false), Key('S', true)]) == "SOS "
  {
    var keys := [Key('S', false), Key('O', false), Key('S', true)];
    assert keys[1..] == [Key('O', false), Key('S', true)];
    assert keys[1..][1..] == [Key('S', true)];
  }
}
