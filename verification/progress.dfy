/** components/chat/chat-progress-bar.tsx: how full the conversation memory looks, as a
    percentage, a colour and a warning. */
module Progress {
  /** Ten messages fill the bar. */
  const Threshold: nat := 10

  /** `Math.min(Math.round((messageCount / 10) * 100), 100)`: for a whole count the rounding is
      exact, so this is ten points per message, capped at 100. */
  function Percentage(messageCount: nat): (r: nat)
    ensures r <= 100
    ensures messageCount >= Threshold ==> r == 100
    ensures messageCount < Threshold ==> r == 10 * messageCount
  {
    if 10 * messageCount < 100 then 10 * messageCount else 100
  }

  /** More messages never show a smaller percentage. */
  lemma PercentageMonotone(a: nat, b: nat)
    requires a <= b
    ensures Percentage(a) <= Percentage(b)
  {
  }

  datatype Colour = Green | Amber | Red

  /** `getProgressColor`: green below 50%, amber below 80%, red from there on. */
  function ProgressColour(percentage: nat): Colour {
    if percentage < 50 then Green
    else if percentage < 80 then Amber
    else Red
  }

  /** The colour of the bar in messages: green for up to four, amber for five to seven, red from
      eight on. */
  lemma ColourByCount(messageCount: nat)
    ensures ProgressColour(Percentage(messageCount)) == Green <==> messageCount < 5
    ensures ProgressColour(Percentage(messageCount)) == Amber <==> 5 <= messageCount < 8
    ensures ProgressColour(Percentage(messageCount)) == Red <==> messageCount >= 8
  {
  }

  /** The colour never goes back as messages are added. */
  function Rank(c: Colour): nat {
    match c
    case Green => 0
    case Amber => 1
    case Red => 2
  }

  lemma ColourMonotone(a: nat, b: nat)
    requires a <= b
    ensures Rank(ProgressColour(Percentage(a))) <= Rank(ProgressColour(Percentage(b)))
  {
    ColourByCount(a);
    ColourByCount(b);
  }

  /** The warning effect: shown exactly when the count exceeds the threshold. */
  function ShowWarning(messageCount: nat): (r: bool)
    ensures r <==> messageCount > Threshold
  {
    messageCount > 10
  }

  /** A warning is only ever shown on a full, red bar; a full bar is shown one message before
      the warning. */
  lemma WarningOnFullBar(messageCount: nat)
    ensures ShowWarning(messageCount) ==> Percentage(messageCount) == 100 && ProgressColour(Percentage(messageCount)) == Red
    ensures Percentage(Threshold) == 100 && !ShowWarning(Threshold)
  {
  }
}
