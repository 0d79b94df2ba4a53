/**
 * The trailing-comma repair applied to an extraction reply before it is parsed as JSON
 * (`InformationExtractor._fix_json_formatting`).
 */
module JsonRepair {
  import opened Text

  /** Line `i` ends, once stripped, with a comma, and the next line of the input is exactly `}` once stripped. */
  predicate Flagged(lines: seq<string>, i: nat)
    requires i < |lines|
  {
    EndsWith(Strip(lines[i]), ',') && i + 1 < |lines| && Strip(lines[i + 1]) == "}"
  }

  /** What the repair writes for line `i`: a flagged line loses its trailing commas (`rstrip(',')`). */
  function RepairedLine(lines: seq<string>, i: nat): string
    requires i < |lines|
  {
    if Flagged(lines, i) then RStripChar(lines[i], ',') else lines[i]
  }

  function RepairLines(lines: seq<string>): (r: seq<string>)
    ensures |r| == |lines|
  {
    seq(|lines|, i requires 0 <= i < |lines| => RepairedLine(lines, i))
  }

  /** The repaired text: split on newlines, repair each line against the ORIGINAL next line, join. */
  function FixedJson(s: string): string
  {
    Join(RepairLines(Split(s)))
  }

  /** No repaired line holds a newline, so the repaired lines are exactly the lines of the result. */
  lemma {:induction false} FixedJsonLines(s: string)
    ensures Split(FixedJson(s)) == RepairLines(Split(s))
  {
    var lines := Split(s);
    var fixed := RepairLines(lines);
    forall i | 0 <= i < |fixed| ensures '\n' !in fixed[i] {
      assert '\n' !in lines[i];
      if Flagged(lines, i) {
        var out := RStripChar(lines[i], ',');
        assert forall k :: 0 <= k < |out| ==> out[k] == lines[i][k];
      }
    }
    SplitJoin(fixed);
  }

  /**
   * `_fix_json_formatting`: walks the lines, appending each (repaired when flagged) to the output,
   * and joins the output with newlines.
   */
  method FixJsonFormatting(jsonStr: string) returns (fixed: string)
    ensures fixed == FixedJson(jsonStr)
    ensures Split(fixed) == RepairLines(Split(jsonStr))
  {
    var lines := Split(jsonStr);
    var fixedLines: seq<string> := [];
    for i := 0 to |lines|
      invariant |fixedLines| == i
      invariant forall j :: 0 <= j < i ==> fixedLines[j] == RepairedLine(lines, j)
    {
      var line := lines[i];
      if EndsWith(Strip(line), ',') && i + 1 < |lines| && Strip(lines[i + 1]) == "}" {
        line := RStripChar(line, ',');
      }
      fixedLines := fixedLines + [line];
    }
    assert fixedLines == RepairLines(lines);
    fixed := Join(fixedLines);
    FixedJsonLines(jsonStr);
  }

  /**
   * The repair keeps the number of lines; a line changes exactly when it is flagged and really
   * ends with a comma, and then only by losing its trailing commas.
   */
  lemma {:induction false} RepairChangesOnlyFlaggedCommas(s: string, i: nat)
    requires i < |Split(s)|
    ensures |Split(FixedJson(s))| == |Split(s)|
    ensures var line, out := Split(s)[i], Split(FixedJson(s))[i];
      && (out != line <==> Flagged(Split(s), i) && EndsWith(line, ','))
      && |out| <= |line| && out == line[..|out|]
      && (forall k :: |out| <= k < |line| ==> line[k] == ',')
      && (Flagged(Split(s), i) ==> !EndsWith(out, ','))
  {
    FixedJsonLines(s);
  }

  lemma LastLineOf(lines: seq<string>)
    requires |lines| >= 1
    ensures RepairLines(lines)[|lines| - 1] == lines[|lines| - 1]
  {
    assert !Flagged(lines, |lines| - 1);
  }

  /** The last line never changes. */
  lemma {:induction false} RepairKeepsLastLine(s: string)
    ensures var lines, out := Split(s), Split(FixedJson(s));
      |out| == |lines| && out[|out| - 1] == lines[|lines| - 1]
  {
    var lines := Split(s);
    FixedJsonLines(s);
    LastLineOf(lines);
  }

  /** So a reply on a single line, such as `{"a":1,}`, comes back unchanged. */
  lemma {:induction false} SingleLineUnchanged(s: string)
    requires '\n' !in s
    ensures FixedJson(s) == s
  {
    SplitSingle(s);
    assert !Flagged([s], 0);
    assert RepairLines([s])[0] == RepairedLine([s], 0) == s;
    assert RepairLines([s]) == [s];
  }

  /** A reply whose last field keeps its comma before a closing brace on its own line is repaired. */
  lemma RepairsTrailingCommaBeforeBrace()
    ensures FixedJson(Join(["{", "\"Title\": \"X\",", "}"])) == Join(["{", "\"Title\": \"X\"", "}"])
  {
    var lines := ["{", "\"Title\": \"X\",", "}"];
    SplitJoin(lines);
    StripUnpadded(lines[0]);
    StripUnpadded(lines[1]);
    StripUnpadded(lines[2]);
    assert RStripChar("\"Title\": \"X\"", ',') == "\"Title\": \"X\"";
    assert RStripChar(lines[1], ',') == "\"Title\": \"X\"";
    assert Flagged(lines, 1) && !Flagged(lines, 0) && !Flagged(lines, 2);
    assert RepairLines(lines) == ["{", "\"Title\": \"X\"", "}"];
  }

  /** A comma followed by white space (or by the `\r` of a CRLF line end) survives the repair. */
  lemma CommaBeforeSpaceIsKept()
    ensures FixedJson(Join(["{", "\"Title\": \"X\",\r", "}\r", ""])) == Join(["{", "\"Title\": \"X\",\r", "}\r", ""])
  {
    var lines := ["{", "\"Title\": \"X\",\r", "}\r", ""];
    SplitJoin(lines);
    assert RStripChar(lines[1], ',') == lines[1];
    assert RepairLines(lines) == lines;
  }

  /** The repair is not idempotent: a brace line that itself ends in a comma hides the line above it. */
  lemma RepairIsNotIdempotent()
    ensures var once := FixedJson(Join(["a,", "},", "}"]));
      once == Join(["a,", "}", "}"]) && FixedJson(once) == Join(["a", "}", "}"])
  {
    var lines := ["a,", "},", "}"];
    SplitJoin(lines);
    StripUnpadded(lines[0]);
    StripUnpadded(lines[1]);
    StripUnpadded(lines[2]);
    assert RStripChar("}", ',') == "}";
    assert RStripChar("},", ',') == "}";
    assert !Flagged(lines, 0) && Flagged(lines, 1) && !Flagged(lines, 2);
    assert RepairLines(lines) == ["a,", "}", "}"];
    var again := ["a,", "}", "}"];
    SplitJoin(again);
    StripUnpadded(again[0]);
    StripUnpadded(again[1]);
    assert RStripChar("a", ',') == "a";
    assert RStripChar("a,", ',') == "a";
    assert Flagged(again, 0) && !Flagged(again, 1) && !Flagged(again, 2);
    assert RepairLines(again) == ["a", "}", "}"];
  }
}
