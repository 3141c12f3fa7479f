/** The barcode camera screen: the raw value of the first barcode decoded in
    a frame is the reading the stability filter sees, as decoded. The accepted
    value is written under "barcode_result". */
module BarcodeScreen {
  import opened Wrappers
  import opened Stability

  /** The saved-state key the accepted value is written under. */
  const ResultKey: string := "barcode_result"

  /** What happens to the screen: a frame's decoded barcodes, each with a raw
      value or none; a frame whose scan failed (only logged); a frame without
      an image (closed at once); or the back button. */
  datatype Input = Scanned(barcodes: seq<Option<string>>) | ScanFailed | NoImage | BackButton

  /** `barcodes.firstOrNull()?.rawValue`. */
  function FirstRawValue(barcodes: seq<Option<string>>): Option<string> {
    if |barcodes| == 0 then None else barcodes[0]
  }

  /** The filter event an input amounts to: a frame is a reading exactly when
      its first barcode has a raw value, and the reading is that value,
      unmodified; the barcodes after the first play no part. */
  function ToEvent(i: Input): (e: Event)
    ensures e.BackPressed? <==> i.BackButton?
    ensures e.Reading? <==> i.Scanned? && |i.barcodes| > 0 && i.barcodes[0].Some?
    ensures e.Reading? ==> e.value == i.barcodes[0].value
  {
    match i
    case Scanned(barcodes) =>
      (match FirstRawValue(barcodes)
       case Some(code) => Reading(code)
       case None => NoReading)
    case ScanFailed => NoReading
    case NoImage => NoReading
    case BackButton => BackPressed
  }

  function Events(inputs: seq<Input>): seq<Event> {
    seq(|inputs|, k requires 0 <= k < |inputs| => ToEvent(inputs[k]))
  }

  /** A session of the screen over the inputs, starting from the initial
      filter and the saved state of the screen below it. */
  function Session(handle: map<string, string>, inputs: seq<Input>): Screen {
    RunScreen(ResultKey, Screen(Initial, handle), Events(inputs))
  }

  lemma EventsAppend(a: seq<Input>, b: seq<Input>)
    ensures Events(a + b) == Events(a) + Events(b)
  {
  }

  /** An empty barcode list, a first barcode without a raw value, a failed
      scan and a frame without an image leave the screen exactly as it was. */
  lemma NoCodeKeepsScreen(sc: Screen, i: Input)
    requires !i.BackButton?
    requires i.Scanned? ==> FirstRawValue(i.barcodes).None?
    ensures OnEvent(ResultKey, sc, ToEvent(i)) == sc
  {
  }

  /** The value emitted at a frame is the raw value of that frame's first
      barcode. */
  lemma EmissionIsFirstRawValue(inputs: seq<Input>, k: nat)
    requires k < |inputs| && Trace(Initial, Events(inputs))[k].Some?
    ensures inputs[k].Scanned?
    ensures FirstRawValue(inputs[k].barcodes) == Trace(Initial, Events(inputs))[k]
  {
    EmittedIsReading(Initial, Events(inputs), k);
    assert Events(inputs)[k] == ToEvent(inputs[k]);
  }

  /** Over a whole session the saved state is either untouched or has
      gained "barcode_result", written once, holding the first raw value of
      one of the frames. */
  lemma ResultIsDecodedValue(handle: map<string, string>, inputs: seq<Input>)
    ensures var saved := Session(handle, inputs).savedState;
      || saved == handle
      || (&& ResultKey in saved
          && saved == handle[ResultKey := saved[ResultKey]]
          && exists k :: 0 <= k < |inputs| && inputs[k].Scanned?
               && FirstRawValue(inputs[k].barcodes) == Some(saved[ResultKey]))
  {
    var evs := Events(inputs);
    var em := Emissions(Initial, evs);
    SlotWrittenOnce(ResultKey, Screen(Initial, handle), evs);
    AtMostOneEmission(Initial, evs);
    if |em| == 1 {
      var v := em[0];
      assert v in em;
      EmissionsInTrace(Initial, evs);
      var k :| 0 <= k < |evs| && Trace(Initial, evs)[k] == Some(v);
      EmissionIsFirstRawValue(inputs, k);
      assert Session(handle, inputs).savedState == handle[ResultKey := v];
    }
  }

  /** Once the back button is pressed, nothing more is written. */
  lemma BackButtonFreezesResult(handle: map<string, string>, before: seq<Input>, after: seq<Input>)
    ensures Session(handle, before + [BackButton] + after).savedState == Session(handle, before).savedState
  {
    EventsAppend(before + [BackButton], after);
    EventsAppend(before, [BackButton]);
    assert Events([BackButton]) == [BackPressed] by {
      assert Events([BackButton])[0] == ToEvent(BackButton);
    }
    BackFreezesSlot(ResultKey, Screen(Initial, handle), Events(before), Events(after));
  }

  /** Three frames whose first barcode reads "4912345678904", with a frame
      that decodes nothing after the first: the value is written on the third
      reading and not before, unmodified. */
  lemma ExampleSession(handle: map<string, string>, other: string)
    ensures var f := Scanned([Some("4912345678904"), Some(other)]);
      && Session(handle, [f, Scanned([]), f]).savedState == handle
      && Session(handle, [f, Scanned([]), f, f]).savedState == handle[ResultKey := "4912345678904"]
  {
    var code := "4912345678904";
    var f := Scanned([Some(code), Some(other)]);
    var sc := Screen(Initial, handle);
    var a := [f, Scanned([]), f];
    var b := a + [f];
    assert Events(a) == [Reading(code)] + [NoReading] + Repeat(code, 1);
    assert Events(b) == [Reading(code)] + [NoReading] + Repeat(code, 2);
    NoReadingIsSilent(Initial, [Reading(code)], Repeat(code, 1));
    NoReadingIsSilent(Initial, [Reading(code)], Repeat(code, 2));
    assert [Reading(code)] + Repeat(code, 1) == Repeat(code, 2);
    assert [Reading(code)] + Repeat(code, 2) == Repeat(code, 3);
    FreshRunEmissions(Initial, code, 2);
    FreshRunEmissions(Initial, code, 3);
    assert Emissions(Initial, Events(a)) == [];
    assert Emissions(Initial, Events(b)) == [code];
    SlotWrittenOnce(ResultKey, sc, Events(a));
    SlotWrittenOnce(ResultKey, sc, Events(b));
    assert b == [f, Scanned([]), f, f];
  }
}
