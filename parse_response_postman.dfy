/**
 * tools/parse_response_postman.py: a log with one streamed JSON object per
 * line; each stripped line is decoded on its own and the "response" values
 * are gathered up to the first object whose "done" is true.
 */
module ParseResponsePostman {
  import opened Wrappers
  import opened Errors
  import opened StringOps
  import opened StreamedResponses

  /** The lines with surrounding whitespace removed, as `line.strip()` gives them. */
  function Stripped(lines: seq<string>): (r: seq<string>)
    ensures |r| == |lines|
  {
    MapStrings(PythonStrip, lines)
  }

  lemma StrippedAppend(a: seq<string>, b: seq<string>)
    ensures Stripped(a + b) == Stripped(a) + Stripped(b)
  {
    MapStringsAppend(PythonStrip, a, b);
  }

  /** extract_responses_from_lines on the lines of the log, with json.loads as `loads`. */
  method ExtractResponsesFromLines(lines: seq<string>, loads: Loads) returns (result: Result<Extraction, Exception>)
    ensures result == Extract(Stripped(lines), loads)
  {
    ghost var all := Stripped(lines);
    var responses: seq<Json> := [];
    var doneFound := false;
    assert all[0..] == all;
    assert Prepend([], Extract(all, loads)) == Extract(all, loads) by {
      if Extract(all, loads).Success? {
        assert [] + Extract(all, loads).value.responses == Extract(all, loads).value.responses;
      }
    }
    for i := 0 to |lines|
      invariant Extract(all, loads) == Prepend(responses, Extract(all[i..], loads))
    {
      var line := PythonStrip(lines[i]);
      assert all[i..][0] == line && all[i..][1..] == all[i + 1..];
      match loads(line) {
        case None =>
        case Some(JObject(obj)) =>
          ghost var before := responses;
          if "response" in obj {
            responses := responses + [obj["response"]];
          }
          assert responses == before + ResponseOf(obj);
          if "done" in obj && obj["done"] == JBool(true) {
            doneFound := true;
            assert Extract(all, loads) == Success(Extraction(responses, true));
            break;
          }
          PrependPrepend(before, ResponseOf(obj), Extract(all[i + 1..], loads));
        case Some(v) =>
          return Failure(NonObjectError(v));
      }
    }
    if !doneFound {
      assert all[|lines|..] == [];
      assert responses + [] == responses;
    }
    return Success(Extraction(responses, doneFound));
  }

  /**
   * A blank line strips to the empty string, which json.loads rejects, so it
   * is skipped like any other undecodable line.
   */
  lemma BlankLineSkipped(before: seq<string>, blank: string, after: seq<string>, loads: Loads)
    requires forall k :: 0 <= k < |blank| ==> IsPythonSpace(blank[k])
    requires loads("") == None
    ensures Extract(Stripped(before + [blank] + after), loads) == Extract(Stripped(before + after), loads)
  {
    PythonStripEmpty(blank);
    StrippedAppend(before + [blank], after);
    StrippedAppend(before, [blank]);
    StrippedAppend(before, after);
    assert Stripped([blank]) == [""];
    UndecodableSkipped(Stripped(before), "", Stripped(after), loads);
  }

  /** Surrounding whitespace on a line does not change what is extracted. */
  lemma PaddingIgnored(before: seq<string>, line: string, padded: string, after: seq<string>, loads: Loads)
    requires PythonStrip(padded) == PythonStrip(line)
    ensures Extract(Stripped(before + [padded] + after), loads) == Extract(Stripped(before + [line] + after), loads)
  {
    StrippedAppend(before + [padded], after);
    StrippedAppend(before, [padded]);
    StrippedAppend(before + [line], after);
    StrippedAppend(before, [line]);
    assert Stripped([padded]) == Stripped([line]) by {
      assert Stripped([padded])[0] == PythonStrip(padded);
      assert Stripped([line])[0] == PythonStrip(line);
    }
  }
}
