/** The statistic counter of `animateCounters`: read the label text once,
    then count up to its leading integer over a fixed number of display
    frames, keeping a trailing "+". The per-frame product `frame / steps *
    target` is the exact rational; the browser's double product can round a
    single frame that lies at or near a half the other way. */
module Counter {
  import opened Wrappers
  import opened JsText

  /** Length of the count-up in milliseconds. */
  const DurationMs: nat := 2000

  /** Nominal display rate: one frame every 1000 / 60 milliseconds. */
  const FramesPerSecond: nat := 60

  /** Integer division rounded up. */
  function CeilDiv(a: nat, b: nat): (q: nat)
    requires b > 0
    ensures a <= b * q && b * q < a + b
  {
    (a + b - 1) / b
  }

  /** Number of frames of the count-up. */
  const Steps: nat := 120

  /** `Math.ceil(duration / fps)` with `fps = 1000 / 60` is 120: computed
      exactly, ceil(2000 * 60 / 1000). */
  lemma StepsFromDuration()
    ensures Steps == CeilDiv(DurationMs * FramesPerSecond, 1000)
  {
  }

  /** What `animateCounters` reads from the label before the first frame. */
  datatype Label = Label(hadPlus: bool, target: int)

  predicate EndsWithPlus(s: string) {
    |s| > 0 && s[|s| - 1] == '+'
  }

  /** `parseInt(original, 10) || 0`: `NaN` falls back to 0 (and so does `-0`,
      which is 0 here anyway). */
  function TargetOf(original: string): int {
    ParseInt(original).GetOr(0)
  }

  /** The trimmed label text, whether it ends in "+", and its target. */
  function ReadLabel(text: string): Label {
    var original := Trim(text);
    Label(EndsWithPlus(original), TargetOf(original))
  }

  /** `Math.round((frame / steps) * target)` in exact arithmetic: the integer
      nearest to frame * target / steps, halves rounded towards +infinity. */
  function RoundedValue(frame: nat, target: int): int {
    (2 * frame * target + Steps) / (2 * Steps)
  }

  /** `RoundedValue` is within one half of frame * target / steps, below
      inclusive and above exclusive, which is what `Math.round` promises. */
  lemma RoundedValueIsNearest(frame: nat, target: int)
    ensures var v := RoundedValue(frame, target);
      2 * Steps * v - Steps <= 2 * frame * target < 2 * Steps * v + Steps
  {
  }

  /** The number frame `frame` displays: `value >= target ? target : value`. */
  function Shown(frame: nat, target: int): (n: int)
    ensures n <= target
  {
    var value := RoundedValue(frame, target);
    if value >= target then target else value
  }

  /** The label text written on a frame: the number, then "+" if the
      original label had one. */
  function Render(n: int, hadPlus: bool): string {
    IntToString(n) + (if hadPlus then "+" else "")
  }

  /** A rendered text ends in "+" exactly when the label had one, and
      `parseInt` reads the shown number back from it. */
  lemma RenderReadsBack(n: int, hadPlus: bool)
    ensures EndsWithPlus(Render(n, hadPlus)) <==> hadPlus
    ensures ParseInt(Render(n, hadPlus)) == Some(n)
  {
    ParseIntOfIntToString(n, if hadPlus then "+" else "");
    IntToStringShape(n);
  }

  lemma MulMonotone(a: nat, b: nat, c: nat)
    requires a <= b
    ensures a * c <= b * c
  {
  }

  /** For a non-negative target the displayed number never decreases. */
  lemma ShownMonotone(f1: nat, f2: nat, target: int)
    requires target >= 0 && f1 <= f2
    ensures Shown(f1, target) <= Shown(f2, target)
  {
    MulMonotone(f1, f2, target);
    var v1 := RoundedValue(f1, target);
    var v2 := RoundedValue(f2, target);
    assert v1 <= v2;
  }

  /** For a non-negative target every frame up to the last shows a number
      between 0 and the target. */
  lemma ShownBounded(frame: nat, target: int)
    requires target >= 0 && frame <= Steps
    ensures 0 <= Shown(frame, target) <= target
  {
    assert frame * target >= 0;
  }

  /** The last frame shows exactly the target. */
  lemma ShownAtLastFrame(target: int)
    ensures Shown(Steps, target) == target
  {
  }

  /** A negative target is shown from the first frame on: the rounded value
      is never below it, so the clamp always picks the target. */
  lemma ShownNegative(frame: nat, target: int)
    requires target < 0 && frame <= Steps
    ensures Shown(frame, target) == target
  {
    MulMonotone(frame, Steps, -target);
    assert frame * target >= Steps * target;
  }

  /** The counter between display frames: the self-rescheduling `tick`
      callback as an explicit state machine. `pending` is true while a
      frame has been requested. */
  datatype Animation = Animation(parsed: Label, frame: nat, text: string, pending: bool)

  /** `animateCounters`: read the label and request the first frame; the
      text stays as it was until that frame. */
  function Start(text: string): Animation {
    Animation(ReadLabel(text), 0, text, true)
  }

  /** One `tick`: advance the frame, render it, and request another frame
      while `frame < steps`. */
  function Tick(a: Animation): Animation
    requires a.pending
  {
    var frame := a.frame + 1;
    Animation(a.parsed, frame, Render(Shown(frame, a.parsed.target), a.parsed.hadPlus), frame < Steps)
  }

  /** The numbers shown on frames 1 .. n. */
  function FrameValues(target: int, n: nat): (vs: seq<int>)
    ensures |vs| == n
    ensures forall i :: 0 <= i < n ==> vs[i] == Shown(i + 1, target)
  {
    if n == 0 then [] else FrameValues(target, n - 1) + [Shown(n, target)]
  }

  /** The texts written on frames 1 .. n. */
  function FrameTexts(parsed: Label, n: nat): (ts: seq<string>)
    ensures |ts| == n
    ensures forall i :: 0 <= i < n ==> ts[i] == Render(Shown(i + 1, parsed.target), parsed.hadPlus)
  {
    if n == 0 then [] else FrameTexts(parsed, n - 1) + [Render(Shown(n, parsed.target), parsed.hadPlus)]
  }

  /** Drives the frame chain of a started animation until no frame is
      pending: the body of `tick` runs exactly `Steps` times. */
  method Drive(start: Animation) returns (values: seq<int>, texts: seq<string>, last: Animation)
    requires start.frame == 0 && start.pending
    ensures last.parsed == start.parsed && last.frame == Steps && !last.pending
    ensures values == FrameValues(start.parsed.target, Steps)
    ensures texts == FrameTexts(start.parsed, Steps)
    ensures last.text == texts[Steps - 1]
  {
    var a := start;
    values, texts := [], [];
    while a.pending
      invariant a.parsed == start.parsed
      invariant a.frame == |values| <= Steps
      invariant a.pending <==> a.frame < Steps
      invariant values == FrameValues(a.parsed.target, a.frame)
      invariant texts == FrameTexts(a.parsed, a.frame)
      invariant a.frame > 0 ==> a.text == texts[a.frame - 1]
      decreases Steps - a.frame
    {
      a := Tick(a);
      var shown := Shown(a.frame, a.parsed.target);
      assert a.text == Render(shown, a.parsed.hadPlus);
      assert FrameValues(a.parsed.target, a.frame) == values + [shown];
      assert FrameTexts(a.parsed, a.frame) == texts + [a.text];
      values := values + [shown];
      texts := texts + [a.text];
    }
    last := a;
  }

  /** `animateCounters` from the label text to the last frame: the text
      written on each frame and the number it shows. */
  method RunAnimation(text: string) returns (values: seq<int>, texts: seq<string>, last: Animation)
    ensures |values| == Steps && |texts| == Steps
    ensures last.frame == Steps && !last.pending && last.parsed == ReadLabel(text)
    ensures forall i :: 0 <= i < Steps ==> values[i] == Shown(i + 1, last.parsed.target)
    ensures forall i :: 0 <= i < Steps ==> texts[i] == Render(values[i], last.parsed.hadPlus)
    ensures forall i :: 0 <= i < Steps ==> ParseInt(texts[i]) == Some(values[i])
    ensures forall i :: 0 <= i < Steps ==> (EndsWithPlus(texts[i]) <==> EndsWithPlus(Trim(text)))
    ensures last.parsed.target >= 0 ==>
      forall i, j :: 0 <= i <= j < Steps ==> 0 <= values[i] <= values[j] <= last.parsed.target
    ensures last.parsed.target < 0 ==> forall i :: 0 <= i < Steps ==> values[i] == last.parsed.target
    ensures values[Steps - 1] == last.parsed.target
    ensures last.text == texts[Steps - 1] == FinalText(text)
  {
    var start := Start(text);
    var parsed := start.parsed;
    values, texts, last := Drive(start);
    ShownSequence(values, parsed.target);
    forall i | 0 <= i < Steps
      ensures ParseInt(texts[i]) == Some(values[i])
      ensures EndsWithPlus(texts[i]) <==> parsed.hadPlus
    {
      RenderReadsBack(values[i], parsed.hadPlus);
    }
  }

  /** The numbers of frames 1 .. Steps: monotone and bounded for a
      non-negative target, constant for a negative one, ending at it. */
  lemma ShownSequence(values: seq<int>, target: int)
    requires |values| == Steps
    requires forall i :: 0 <= i < |values| ==> values[i] == Shown(i + 1, target)
    ensures target >= 0 ==> forall i, j :: 0 <= i <= j < Steps ==> 0 <= values[i] <= values[j] <= target
    ensures target < 0 ==> forall i :: 0 <= i < Steps ==> values[i] == target
    ensures values[Steps - 1] == target
  {
    ShownAtLastFrame(target);
    if target >= 0 {
      forall i, j | 0 <= i <= j < Steps
        ensures 0 <= values[i] <= values[j] <= target
      {
        ShownBounded(i + 1, target);
        ShownMonotone(i + 1, j + 1, target);
      }
    } else {
      forall i | 0 <= i < Steps
        ensures values[i] == target
      {
        ShownNegative(i + 1, target);
      }
    }
  }

  /** The text left on the label once the animation has finished. */
  function FinalText(text: string): string {
    var parsed := ReadLabel(text);
    Render(parsed.target, parsed.hadPlus)
  }

  /** A label in the form `String(n)` optionally followed by "+". */
  ghost predicate IsCanonical(s: string) {
    exists n: int, hadPlus: bool :: s == Render(n, hadPlus)
  }

  /** The finished counter restores the trimmed label exactly when that
      label is canonical; any other label is rewritten. */
  lemma FinalTextRestoresLabel(text: string)
    ensures FinalText(text) == Trim(text) <==> IsCanonical(Trim(text))
  {
    var original := Trim(text);
    var parsed := ReadLabel(text);
    if FinalText(text) == original {
      assert original == Render(parsed.target, parsed.hadPlus);
    }
    if IsCanonical(original) {
      var n: int, hadPlus: bool :| original == Render(n, hadPlus);
      RenderReadsBack(n, hadPlus);
      assert parsed.hadPlus == hadPlus;
      assert parsed.target == n;
    }
  }

  /** A canonical label is read back as the number and plus sign it was
      rendered from. */
  lemma ReadRenderedLabel(n: int, hadPlus: bool)
    ensures ReadLabel(Render(n, hadPlus)) == Label(hadPlus, n)
  {
    var digits := IntToString(n);
    var text := Render(n, hadPlus);
    IntToStringShape(n);
    assert text[0] == digits[0];
    assert !IsWhitespace(text[0]) by {
      assert digits[0] == '-' || IsDigit(digits[0]);
    }
    assert !IsWhitespace(text[|text| - 1]) by {
      assert text[|text| - 1] == '+' || text[|text| - 1] == digits[|digits| - 1];
    }
    assert Trim(text) == text by {
      TrimOfPadded([], text, []);
      assert [] + text + [] == text;
    }
    RenderReadsBack(n, hadPlus);
    assert TargetOf(text) == n;
  }

  /** Running the counter again on its own finished text changes nothing:
      the finished text is already canonical. */
  lemma FinalTextIdempotent(text: string)
    ensures ReadLabel(FinalText(text)) == ReadLabel(text)
    ensures FinalText(FinalText(text)) == FinalText(text)
  {
    ReadRenderedLabel(ReadLabel(text).target, ReadLabel(text).hadPlus);
  }

  /** "150+" keeps its plus sign and is restored exactly. */
  lemma ExamplePlusLabel()
    ensures ReadLabel("150+") == Label(true, 150)
    ensures FinalText("150+") == "150+"
  {
    assert NatToString(150) == "150" by {
      assert NatToString(15) == "15";
    }
    assert Render(150, true) == "150+";
    ReadRenderedLabel(150, true);
  }

  /** "42" ends as "42": no plus sign is invented. */
  lemma ExamplePlainLabel()
    ensures ReadLabel("42") == Label(false, 42)
    ensures FinalText("42") == "42"
  {
    assert NatToString(42) == "42" by {
      assert NatToString(4) == "4";
    }
    assert Render(42, false) == "42";
    ReadRenderedLabel(42, false);
  }

  /** "N/A" has no leading integer: the target falls back to 0. */
  lemma ExampleNotANumber()
    ensures ReadLabel("N/A") == Label(false, 0)
    ensures FinalText("N/A") == "0"
  {
    TrimOfPadded([], "N/A", []);
    assert "N/A" == [] + [] + "N/A";
    ParseIntNoDigits([], [], "N/A");
  }

  /** A lone "+" parses as `NaN`, so the label ends as "0+". */
  lemma ExampleLonePlus()
    ensures ReadLabel("+") == Label(true, 0)
    ensures FinalText("+") == "0+"
  {
    TrimOfPadded([], "+", []);
    assert "+" == [] + "+" + [];
    ParseIntNoDigits([], "+", []);
  }

  /** `parseInt` stops at the comma: "1,500+" counts to 1 and ends as "1+". */
  lemma ExampleThousandsSeparator()
    ensures ReadLabel("1,500+") == Label(true, 1)
    ensures FinalText("1,500+") == "1+"
  {
    TrimOfPadded([], "1,500+", []);
    assert "1,500+" == [] + "1,500+" + [];
    assert "1,500+" == IntToString(1) + ",500+";
    ParseIntOfIntToString(1, ",500+");
  }

  /** Surrounding whitespace is trimmed and a minus sign is kept. */
  lemma ExampleNegativeLabel()
    ensures ReadLabel(" -5\n") == Label(false, -5)
    ensures FinalText(" -5\n") == "-5"
  {
    TrimOfPadded(" ", "-5", "\n");
    assert " -5\n" == " " + "-5" + "\n";
    assert "-5" == IntToString(-5) + [];
    ParseIntOfIntToString(-5, []);
  }
}
