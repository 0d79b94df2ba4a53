/**
 * The orchestration of one book (`FullPipeline`): the operator's reading-status choice and the
 * capture, extract, classify, merge, persist and clean-up sequence. Every external step is
 * represented by its outcome.
 */
module Pipeline {
  import opened Text
  import opened Records

  /** One answer at the status prompt: a line typed by the operator, or a failed read. */
  datatype InputEvent = Line(text: string) | InputError

  /** The single-letter choices offered at the prompt. */
  const ReadingStatusOptions: map<string, string> :=
    map["c" := "Complete", "p" := "Partially Complete", "n" := "Not Started"]

  const ReadingStatuses: set<string> := {"Complete", "Partially Complete", "Not Started"}

  /** `input(...).lower().strip()`. */
  function NormalizeKey(text: string): string
  {
    Strip(Lower(text))
  }

  /** An answer that makes the prompt repeat. */
  predicate Rejected(e: InputEvent)
  {
    e.Line? && NormalizeKey(e.text) !in ReadingStatusOptions
  }

  /**
   * The status the prompt settles on: the first answer that is a valid letter decides, a failed
   * read falls back to "Not Started", and running out of input (`input()` raising `EOFError`)
   * is a failed read.
   */
  function ChosenStatus(inputs: seq<InputEvent>): (status: string)
    ensures status in ReadingStatuses
    decreases |inputs|
  {
    if |inputs| == 0 then "Not Started"
    else match inputs[0]
      case InputError => "Not Started"
      case Line(text) =>
        var key := NormalizeKey(text);
        if key in ReadingStatusOptions then ReadingStatusOptions[key] else ChosenStatus(inputs[1..])
  }

  /** Answers that are rejected are simply skipped. */
  lemma {:induction false} RejectedAnswersSkipped(rejected: seq<InputEvent>, rest: seq<InputEvent>)
    requires forall j :: 0 <= j < |rejected| ==> Rejected(rejected[j])
    ensures ChosenStatus(rejected + rest) == ChosenStatus(rest)
    decreases |rejected|
  {
    if |rejected| > 0 {
      var all := rejected + rest;
      assert all[0] == rejected[0] && all[1..] == rejected[1..] + rest;
      assert Rejected(all[0]);
      assert ChosenStatus(all) == ChosenStatus(all[1..]);
      RejectedAnswersSkipped(rejected[1..], rest);
    } else {
      assert rejected + rest == rest;
    }
  }

  /** An invalid answer followed by "c" re-prompts once and then selects "Complete". */
  lemma InvalidThenComplete()
    ensures ChosenStatus([Line("x"), Line("c")]) == "Complete"
    ensures Rejected(Line("x"))
  {
    assert Lower("x") == "x";
    StripUnpadded("x");
    assert Lower("c") == "c";
    StripUnpadded("c");
    assert [Line("x"), Line("c")][1..] == [Line("c")];
  }

  /** Letter case and surrounding blanks do not matter: " P " selects "Partially Complete". */
  lemma PaddedUpperCaseAccepted()
    ensures ChosenStatus([Line(" P ")]) == "Partially Complete"
  {
    assert Lower(" P ") == " p ";
    assert RStripSpace(" p ") == " p";
    assert LStripSpace(" p") == "p";
  }

  /**
   * `get_reading_status_from_user`: prompts until an answer is one of the letters. Returns the
   * status and the number of rejected answers read before the deciding one.
   */
  method GetReadingStatusFromUser(inputs: seq<InputEvent>) returns (status: string, rejected: nat)
    ensures status == ChosenStatus(inputs) && status in ReadingStatuses
    ensures rejected <= |inputs|
    ensures forall j :: 0 <= j < rejected ==> Rejected(inputs[j])
    ensures rejected < |inputs| && inputs[rejected].Line? ==>
      NormalizeKey(inputs[rejected].text) in ReadingStatusOptions
      && status == ReadingStatusOptions[NormalizeKey(inputs[rejected].text)]
    ensures rejected == |inputs| || inputs[rejected].InputError? ==> status == "Not Started"
  {
    var i := 0;
    while i < |inputs|
      invariant 0 <= i <= |inputs|
      invariant forall j :: 0 <= j < i ==> Rejected(inputs[j])
      invariant ChosenStatus(inputs[i..]) == ChosenStatus(inputs)
    {
      match inputs[i]
      case InputError =>
        return "Not Started", i;
      case Line(text) =>
        var key := NormalizeKey(text);
        if key in ReadingStatusOptions {
          return ReadingStatusOptions[key], i;
        }
        assert inputs[i..][1..] == inputs[i + 1..];
        i := i + 1;
    }
    return "Not Started", i;
  }

  /** What the workflow did to the outside world, in order; `ok` is the store's answer to the insert. */
  datatype Event = PersistAttempted(record: Dict, ok: bool) | CleanedUp(imagePath: string)

  /** The field values after extraction and the classification overlay, before location and status. */
  function MergedField(book: Dict, subjects: Option<Dict>, k: string): Option<Value>
  {
    if subjects.Some? && |subjects.value| > 0 && k in Keys(subjects.value) then Lookup(subjects.value, k)
    else Lookup(book, k)
  }

  /**
   * `process_complete_book_workflow`. A failed capture stops with no clean-up; a failed
   * extraction cleans up once and stops; otherwise the record is built, one insert of it is
   * attempted and the image cleaned up once, and the record is returned only if the store took it. The record
   * holds the extracted fields, overlaid by the classification when that gave a non-empty
   * object, then `Location` (NULL for a falsy location) and the operator's `ReadingStatus`.
   */
  method ProcessCompleteBookWorkflow(
    capture: Option<string>, extraction: Option<Dict>, subjects: Option<Dict>,
    location: Value, statusInputs: seq<InputEvent>, persistOk: bool)
    returns (result: Option<Dict>, trace: seq<Event>)
    requires extraction.Some? ==> DistinctKeys(extraction.value)
    requires subjects.Some? ==> DistinctKeys(subjects.value)
    ensures capture.None? || capture == Some("") ==> result.None? && trace == []
    ensures capture.Some? && capture.value != "" && (extraction.None? || extraction == Some([])) ==>
      result.None? && trace == [CleanedUp(capture.value)]
    ensures capture.Some? && capture.value != "" && extraction.Some? && extraction.value != [] ==>
      && |trace| == 2 && trace[0].PersistAttempted? && trace[1] == CleanedUp(capture.value)
      && trace[0].ok == persistOk
      && result == (if persistOk then Some(trace[0].record) else None)
      && var record := trace[0].record;
        && DistinctKeys(record)
        && Lookup(record, "ReadingStatus") == Some(Text(ChosenStatus(statusInputs)))
        && Lookup(record, "Location") == Some(if Truthy(location) then location else Null)
        && forall k :: k != "Location" && k != "ReadingStatus" ==>
             Lookup(record, k) == MergedField(extraction.value, subjects, k)
  {
    if capture.None? || capture.value == "" {
      return None, [];
    }
    var imagePath := capture.value;
    if extraction.None? || |extraction.value| == 0 {
      return None, [CleanedUp(imagePath)];
    }
    var book := extraction.value;
    var completeInfo := book;
    if subjects.Some? && |subjects.value| > 0 {
      completeInfo := Update(completeInfo, subjects.value);
      UpdateKeys(book, subjects.value);
      forall k ensures Lookup(completeInfo, k) == MergedField(book, subjects, k) {
        UpdateLookup(book, subjects.value, k);
      }
    }
    ghost var merged := completeInfo;
    if Truthy(location) {
      completeInfo := Set(completeInfo, "Location", location);
    } else {
      completeInfo := Set(completeInfo, "Location", Null);
    }
    SetShape(merged, "Location", if Truthy(location) then location else Null);
    var readingStatus, _ := GetReadingStatusFromUser(statusInputs);
    ghost var located := completeInfo;
    completeInfo := Set(completeInfo, "ReadingStatus", Text(readingStatus));
    SetShape(located, "ReadingStatus", Text(readingStatus));
    trace := [PersistAttempted(completeInfo, persistOk)];
    if !persistOk {
      return None, trace + [CleanedUp(imagePath)];
    }
    trace := trace + [CleanedUp(imagePath)];
    result := Some(completeInfo);
  }
}
