/**
 * The countdown badge of src/components/ui/Countdown.tsx. Its state is the two
 * values it last read from the gate; each one-second tick replaces both with a
 * fresh reading. The timer itself is not modelled: a tick is a step taken at a
 * given clock value.
 */
module Countdown {
  import opened Cutoff
  import opened Text

  datatype CountdownState = CountdownState(timeLeft: Remaining, isPassed: bool)

  /** The badge's text once the cutoff has passed. */
  const ClosedText: string := "Selection Closed"

  /**
   * The state both `useState` initialisers and every tick produce. The source
   * reads the clock twice: once in `getTimeUntilCutoff` (`timeRead`) and then in
   * `isCutoffPassed` (`gateRead`). When the clock does not run backwards the two
   * fields never disagree: an open gate comes with the exact floor
   * decomposition, and a closed one with (0, 0, 0) as long as the two reads are
   * less than a second apart.
   */
  function Read(timeRead: MsOfDay, gateRead: MsOfDay): (st: CountdownState)
    ensures st.isPassed <==> IsCutoffPassed(gateRead)
    ensures timeRead <= gateRead && !st.isPassed ==>
              IsFloorDecomposition(st.timeLeft, CutoffTime() - timeRead)
    ensures timeRead <= gateRead < timeRead + MsPerSecond && st.isPassed ==>
              st.timeLeft == Remaining(0, 0, 0)
  {
    var st := CountdownState(TimeUntilCutoff(timeRead), IsCutoffPassed(gateRead));
    if timeRead <= gateRead < timeRead + MsPerSecond && st.isPassed && !IsCutoffPassed(timeRead) then
      SplitUnique(CutoffTime() - timeRead, Remaining(0, 0, 0));
      st
    else st
  }

  /** The `useState` initial values: `isPassed` from the gate, `timeLeft` from the countdown. */
  function Init(timeRead: MsOfDay, gateRead: MsOfDay): (st: CountdownState)
    ensures st.timeLeft == TimeUntilCutoff(timeRead)
    ensures st.isPassed <==> IsCutoffPassed(gateRead)
  {
    Read(timeRead, gateRead)
  }

  /** A tick replaces both fields with fresh readings and keeps nothing of the old state. */
  function Tick(st: CountdownState, timeRead: MsOfDay, gateRead: MsOfDay): (next: CountdownState)
    ensures next.timeLeft == TimeUntilCutoff(timeRead)
    ensures next.isPassed <==> IsCutoffPassed(gateRead)
  {
    Read(timeRead, gateRead)
  }

  /**
   * Hours, minutes and seconds, each `padStart(2, '0')`, joined by colons. For
   * any values the model's text splits at its two colons into three digit
   * fields that read back as the hours, minutes and seconds; it agrees with the
   * source's text for values below 10^21, which includes every countdown.
   */
  function FormatTime(t: Remaining): (text: string)
    ensures |text| == |PadStart2(t.hours)| + |PadStart2(t.minutes)| + 2 + |PadStart2(t.seconds)|
    ensures text[|PadStart2(t.hours)|] == ':'
    ensures text[|PadStart2(t.hours)| + 1 + |PadStart2(t.minutes)|] == ':'
    ensures ReadsAs(text[..|PadStart2(t.hours)|], t.hours)
    ensures ReadsAs(text[|PadStart2(t.hours)| + 1..|PadStart2(t.hours)| + 1 + |PadStart2(t.minutes)|], t.minutes)
    ensures ReadsAs(text[|PadStart2(t.hours)| + |PadStart2(t.minutes)| + 2..], t.seconds)
  {
    var h, m, s := PadStart2(t.hours), PadStart2(t.minutes), PadStart2(t.seconds);
    PadStart2Facts(t.hours);
    PadStart2Facts(t.minutes);
    PadStart2Facts(t.seconds);
    JoinSlices(h, m, s);
    h + ":" + m + ":" + s
  }

  /** `field` is a string of decimal digits denoting `value`. */
  predicate ReadsAs(field: string, value: nat) {
    AllDigits(field) && DigitsValue(field) == value
  }

  /** Three fields joined by colons split back at the colons. */
  lemma JoinSlices(h: string, m: string, s: string)
    ensures var text := h + ":" + m + ":" + s;
            && |text| == |h| + |m| + 2 + |s|
            && text[|h|] == ':' && text[|h| + 1 + |m|] == ':'
            && text[..|h|] == h && text[|h| + 1..|h| + 1 + |m|] == m
            && text[|h| + |m| + 2..] == s
  {
    var text := h + ":" + m + ":" + s;
    assert text[0..|h|] == h;
    assert text[|h| + 1..|h| + 1 + |m|] == m;
    assert text[|h| + |m| + 2..|text|] == s;
  }

  /**
   * The badge shows the closed message exactly when `isPassed`; otherwise it
   * shows the time left, which starts with a digit.
   */
  function Render(st: CountdownState): (text: string)
    ensures text == ClosedText <==> st.isPassed
    ensures !st.isPassed ==> text == FormatTime(st.timeLeft) && IsDigit(text[0])
  {
    if st.isPassed then ClosedText
    else
      var text := FormatTime(st.timeLeft);
      PadStart2Facts(st.timeLeft.hours);
      assert text[0] == PadStart2(st.timeLeft.hours)[0];
      assert !IsDigit(ClosedText[0]);
      text
  }

  /**
   * For any time left with fewer than 100 hours and minutes and seconds below
   * 60, the text is `HH:MM:SS`: eight characters, colons at positions 2 and 5,
   * and each two-digit field reads back as its value.
   */
  lemma {:induction false} FormatTimeLayout(t: Remaining)
    requires t.hours < 100 && t.minutes < 60 && t.seconds < 60
    ensures |FormatTime(t)| == 8
    ensures FormatTime(t)[2] == ':' && FormatTime(t)[5] == ':'
    ensures ReadsAs(FormatTime(t)[0..2], t.hours)
    ensures ReadsAs(FormatTime(t)[3..5], t.minutes)
    ensures ReadsAs(FormatTime(t)[6..8], t.seconds)
  {
    PadStart2Facts(t.hours);
    PadStart2Facts(t.minutes);
    PadStart2Facts(t.seconds);
  }

  /**
   * A fresh reading renders the closed message exactly when the gate read says
   * the cutoff has passed. Otherwise, when the clock does not run backwards
   * between the two reads, the text is `HH:MM:SS` whose fields read back as the
   * countdown's hours, minutes and seconds at the first read.
   */
  lemma {:induction false} RenderReading(timeRead: MsOfDay, gateRead: MsOfDay)
    ensures Render(Read(timeRead, gateRead)) == ClosedText <==> IsCutoffPassed(gateRead)
    ensures timeRead <= gateRead && !IsCutoffPassed(gateRead) ==>
              var text := Render(Read(timeRead, gateRead));
              var t := TimeUntilCutoff(timeRead);
              && |text| == 8 && text[2] == ':' && text[5] == ':'
              && ReadsAs(text[0..2], t.hours) && ReadsAs(text[3..5], t.minutes)
              && ReadsAs(text[6..8], t.seconds)
  {
    FormatTimeLayout(TimeUntilCutoff(timeRead));
  }

  /** The state after a tick depends on the clock alone: no other state is kept. */
  lemma TickForgets(a: CountdownState, b: CountdownState, timeRead: MsOfDay, gateRead: MsOfDay)
    ensures Tick(a, timeRead, gateRead) == Tick(b, timeRead, gateRead) == Init(timeRead, gateRead)
  {
  }
}
