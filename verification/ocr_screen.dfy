/** The OCR camera screen: each frame's recognized text goes through the
    label-code normalizer, and its candidate, if any, is the reading the
    stability filter sees. The accepted code is written under "ocr_result". */
module OcrScreen {
  import opened Wrappers
  import opened LabelCode
  import opened Stability

  /** The saved-state key the accepted code is written under. */
  const ResultKey: string := "ocr_result"

  /** What happens to the screen: a frame's recognizer text, a frame whose
      recognition failed (only logged), a frame without an image (closed at
      once), or the back button. */
  datatype Input = Recognized(text: string) | RecognitionFailed | NoImage | BackButton

  /** The filter event an input amounts to: a frame is a reading exactly when
      its text has a candidate, and the reading is that candidate. */
  function ToEvent(i: Input): (e: Event)
    ensures e.BackPressed? <==> i.BackButton?
    ensures e.Reading? <==> i.Recognized? && MatchedText(i.text).Some?
    ensures e.Reading? ==> Normalize(i.text) == Some(e.value) && IsNormalized(e.value)
  {
    match i
    case Recognized(text) =>
      NormalizeIsCorrectedMatch(text);
      if Normalize(text).Some? then
        NormalizeShape(text);
        Reading(Normalize(text).value)
      else NoReading
    case RecognitionFailed => NoReading
    case NoImage => NoReading
    case BackButton => BackPressed
  }

  function Events(inputs: seq<Input>): seq<Event> {
    seq(|inputs|, k requires 0 <= k < |inputs| => ToEvent(inputs[k]))
  }

  /** A session of the screen over the inputs, starting from the initial
      filter and the saved state of the screen below it. */
  function Session(handle: map<string, string>, inputs: seq<Input>): Screen {
    RunScreen(ResultKey, Screen(Initial, handle), Events(inputs))
  }

  lemma EventsAppend(a: seq<Input>, b: seq<Input>)
    ensures Events(a + b) == Events(a) + Events(b)
  {
  }

  /** A frame without a candidate, a failed recognition and a frame without
      an image leave the screen exactly as it was. */
  lemma NoCandidateKeepsScreen(sc: Screen, i: Input)
    requires !i.BackButton?
    requires i.Recognized? ==> MatchedText(i.text).None?
    ensures OnEvent(ResultKey, sc, ToEvent(i)) == sc
  {
  }

  /** The value emitted at a frame is that frame's normalized candidate. */
  lemma EmissionIsFrameCandidate(inputs: seq<Input>, k: nat)
    requires k < |inputs| && Trace(Initial, Events(inputs))[k].Some?
    ensures inputs[k].Recognized?
    ensures Normalize(inputs[k].text) == Trace(Initial, Events(inputs))[k]
    ensures IsNormalized(Trace(Initial, Events(inputs))[k].value)
  {
    EmittedIsReading(Initial, Events(inputs), k);
    assert Events(inputs)[k] == ToEvent(inputs[k]);
  }

  /** Over a whole session the saved state is either untouched or has
      gained "ocr_result", written once, holding the candidate of one of the
      frames, a normalized label code. */
  lemma ResultIsNormalizedCode(handle: map<string, string>, inputs: seq<Input>)
    ensures var saved := Session(handle, inputs).savedState;
      || saved == handle
      || (&& ResultKey in saved
          && IsNormalized(saved[ResultKey])
          && saved == handle[ResultKey := saved[ResultKey]]
          && exists k :: 0 <= k < |inputs| && inputs[k].Recognized?
               && Normalize(inputs[k].text) == Some(saved[ResultKey]))
  {
    var evs := Events(inputs);
    var em := Emissions(Initial, evs);
    SlotWrittenOnce(ResultKey, Screen(Initial, handle), evs);
    AtMostOneEmission(Initial, evs);
    if |em| == 1 {
      var v := em[0];
      assert v in em;
      EmissionsInTrace(Initial, evs);
      var k :| 0 <= k < |evs| && Trace(Initial, evs)[k] == Some(v);
      EmissionIsFrameCandidate(inputs, k);
      assert Session(handle, inputs).savedState == handle[ResultKey := v];
    }
  }

  /** Once the back button is pressed, nothing more is written. */
  lemma BackButtonFreezesResult(handle: map<string, string>, before: seq<Input>, after: seq<Input>)
    ensures Session(handle, before + [BackButton] + after).savedState == Session(handle, before).savedState
  {
    EventsAppend(before + [BackButton], after);
    EventsAppend(before, [BackButton]);
    assert Events([BackButton]) == [BackPressed] by {
      assert Events([BackButton])[0] == ToEvent(BackButton);
    }
    BackFreezesSlot(ResultKey, Screen(Initial, handle), Events(before), Events(after));
  }

  /** The events of the example session: nothing, then the corrected code
      on every later frame. */
  lemma ExampleEvents(noise: string, printed: string, n: nat)
    requires noise == "LOT 42" && printed == "ABC123X-456O1I-O"
    ensures Events([Recognized(noise)] + seq(n, _ => Recognized(printed)))
      == [NoReading] + Repeat("ABC123X-456011-0", n)
  {
    assert MatchedText(noise) == None;
    ExampleCorrection(printed);
    assert ToEvent(Recognized(printed)) == Reading("ABC123X-456011-0");
  }

  /** What the example session emits after three and after four frames. */
  lemma ExampleEmissions(noise: string, printed: string)
    requires noise == "LOT 42" && printed == "ABC123X-456O1I-O"
    ensures Emissions(Initial, Events([Recognized(noise)] + seq(2, _ => Recognized(printed)))) == []
    ensures Emissions(Initial, Events([Recognized(noise)] + seq(3, _ => Recognized(printed))))
      == ["ABC123X-456011-0"]
  {
    var code := "ABC123X-456011-0";
    assert Final(Initial, [NoReading]) == Initial;
    assert Emissions(Initial, [NoReading]) == [];
    ExampleEvents(noise, printed, 2);
    ExampleEvents(noise, printed, 3);
    EmissionsAppend(Initial, [NoReading], Repeat(code, 2));
    EmissionsAppend(Initial, [NoReading], Repeat(code, 3));
    FreshRunEmissions(Initial, code, 2);
    FreshRunEmissions(Initial, code, 3);
  }

  /** A noisy frame, then the same label on two and on three frames: the
      first frame starts nothing, and the corrected code is written on the
      third frame of the label and not before. */
  lemma ExampleSession(handle: map<string, string>, noise: string, printed: string)
    requires noise == "LOT 42" && printed == "ABC123X-456O1I-O"
    ensures Session(handle, [Recognized(noise)] + seq(2, _ => Recognized(printed))).savedState == handle
    ensures Session(handle, [Recognized(noise)] + seq(3, _ => Recognized(printed))).savedState
      == handle[ResultKey := "ABC123X-456011-0"]
  {
    var sc := Screen(Initial, handle);
    ExampleEmissions(noise, printed);
    SlotWrittenOnce(ResultKey, sc, Events([Recognized(noise)] + seq(2, _ => Recognized(printed))));
    SlotWrittenOnce(ResultKey, sc, Events([Recognized(noise)] + seq(3, _ => Recognized(printed))));
  }
}
