/**
 * tools/parse_response_log.py: a log of streamed JSON objects written back
 * to back is split at every "}{", each piece gets its braces back, and the
 * "response" values are gathered up to the first object whose "done" is
 * true.
 */
module ParseResponseLog {
  import opened Wrappers
  import opened Errors
  import opened StringOps
  import opened StreamedResponses

  const SEPARATOR: string := "}{"

  /** The pieces after the first once braces are restored: each opens, and all but the last close. */
  function RepairedTail(pieces: seq<string>): seq<string>
    requires |pieces| >= 1
    decreases |pieces|
  {
    if |pieces| == 1 then ["{" + pieces[0]]
    else ["{" + pieces[0] + "}"] + RepairedTail(pieces[1..])
  }

  /** The fragments after the brace repair. */
  function Repaired(pieces: seq<string>): seq<string>
    requires |pieces| >= 1
  {
    if |pieces| == 1 then ["{" + pieces[0] + "}"]
    else [pieces[0] + "}"] + RepairedTail(pieces[1..])
  }

  lemma {:induction false} RepairedTailShape(pieces: seq<string>)
    requires |pieces| >= 1
    ensures |RepairedTail(pieces)| == |pieces|
    ensures RepairedTail(pieces)[|pieces| - 1] == "{" + pieces[|pieces| - 1]
    ensures forall i :: 0 <= i < |pieces| - 1 ==> RepairedTail(pieces)[i] == "{" + pieces[i] + "}"
    decreases |pieces|
  {
    if |pieces| > 1 {
      RepairedTailShape(pieces[1..]);
    }
  }

  /**
   * A lone piece gains both braces; otherwise the first gains only a closing
   * brace, the last only an opening one, and every piece between gains both.
   */
  lemma RepairedShape(pieces: seq<string>)
    requires |pieces| >= 1
    ensures |Repaired(pieces)| == |pieces|
    ensures |pieces| == 1 ==> Repaired(pieces) == ["{" + pieces[0] + "}"]
    ensures |pieces| >= 2 ==>
      Repaired(pieces)[0] == pieces[0] + "}"
      && Repaired(pieces)[|pieces| - 1] == "{" + pieces[|pieces| - 1]
      && forall i :: 0 < i < |pieces| - 1 ==> Repaired(pieces)[i] == "{" + pieces[i] + "}"
  {
    if |pieces| >= 2 {
      RepairedTailShape(pieces[1..]);
    }
  }

  lemma {:induction false} RepairedTailConcat(pieces: seq<string>)
    requires |pieces| >= 1
    ensures Concat(RepairedTail(pieces)) == "{" + Join(pieces, SEPARATOR)
    decreases |pieces|
  {
    if |pieces| == 1 {
      assert Concat(["{" + pieces[0]]) == "{" + pieces[0] + "";
    } else {
      var head := "{" + pieces[0] + "}";
      assert RepairedTail(pieces)[1..] == RepairedTail(pieces[1..]);
      RepairedTailConcat(pieces[1..]);
      assert head + ("{" + Join(pieces[1..], SEPARATOR)) == "{" + (pieces[0] + SEPARATOR + Join(pieces[1..], SEPARATOR));
    }
  }

  lemma {:induction false} RepairedConcatHead(pieces: seq<string>)
    requires |pieces| >= 2
    ensures Concat(Repaired(pieces)) == (pieces[0] + "}") + Concat(RepairedTail(pieces[1..]))
  {
    assert Repaired(pieces)[1..] == RepairedTail(pieces[1..]);
  }

  lemma Regroup(a: string, b: string, c: string, d: string)
    ensures (a + b) + (c + d) == a + (b + c) + d
  {
  }

  /** The repaired pieces put back together are the pieces joined with the separator. */
  lemma RepairedConcat(pieces: seq<string>)
    requires |pieces| >= 2
    ensures Concat(Repaired(pieces)) == Join(pieces, SEPARATOR)
  {
    RepairedConcatHead(pieces);
    RepairedTailConcat(pieces[1..]);
    Regroup(pieces[0], "}", "{", Join(pieces[1..], SEPARATOR));
    assert "}" + "{" == SEPARATOR;
  }

  /** With two fragments or more, the repaired fragments put back together give the raw log. */
  lemma RepairRoundTrip(raw: string)
    requires |SplitOn(raw, SEPARATOR)| >= 2
    ensures Concat(Repaired(SplitOn(raw, SEPARATOR))) == raw
  {
    SplitOnJoin(raw, SEPARATOR);
    RepairedConcat(SplitOn(raw, SEPARATOR));
  }

  /** A log without "}{" is one fragment wrapped in a pair of braces. */
  lemma SingleFragment(raw: string)
    requires IndexOf(raw, SEPARATOR) == None
    ensures Repaired(SplitOn(raw, SEPARATOR)) == ["{" + raw + "}"]
    ensures Concat(Repaired(SplitOn(raw, SEPARATOR))) == "{" + raw + "}"
  {
    assert Concat(["{" + raw + "}"]) == "{" + raw + "}" + "";
  }

  /** The brace repair, on the fragment list in place. */
  method RepairBraces(fragments: array<string>)
    requires fragments.Length >= 1
    modifies fragments
    ensures fragments[..] == Repaired(old(fragments[..]))
  {
    ghost var pieces := fragments[..];
    var n := fragments.Length;
    fragments[0] := fragments[0] + "}";
    fragments[n - 1] := "{" + fragments[n - 1];
    var i := 1;
    while i < n - 1
      invariant 1 <= i <= if n > 1 then n - 1 else 1
      invariant fragments[0] == if n == 1 then "{" + pieces[0] + "}" else pieces[0] + "}"
      invariant n > 1 ==> fragments[n - 1] == "{" + pieces[n - 1]
      invariant forall j :: 1 <= j < i ==> fragments[j] == "{" + pieces[j] + "}"
      invariant forall j :: i <= j < n - 1 ==> fragments[j] == pieces[j]
    {
      fragments[i] := "{" + fragments[i] + "}";
      i := i + 1;
    }
    RepairedShape(pieces);
    assert fragments[..] == Repaired(pieces);
  }

  /** extract_responses on the contents of the log, with json.loads as `loads`. */
  method ExtractResponses(raw: string, loads: Loads) returns (result: Result<Extraction, Exception>)
    ensures result == Extract(Repaired(SplitOn(raw, SEPARATOR)), loads)
  {
    var pieces := SplitOn(raw, SEPARATOR);
    var fragments := new string[|pieces|](i requires 0 <= i < |pieces| => pieces[i]);
    assert fragments[..] == pieces;
    RepairBraces(fragments);
    ghost var all := fragments[..];
    var responses: seq<Json> := [];
    var doneFound := false;
    assert all[0..] == all;
    assert Prepend([], Extract(all, loads)) == Extract(all, loads) by {
      if Extract(all, loads).Success? {
        assert [] + Extract(all, loads).value.responses == Extract(all, loads).value.responses;
      }
    }
    for i := 0 to fragments.Length
      invariant fragments[..] == all
      invariant Extract(all, loads) == Prepend(responses, Extract(all[i..], loads))
    {
      assert all[i..][0] == fragments[i] && all[i..][1..] == all[i + 1..];
      match loads(fragments[i]) {
        case None =>
        case Some(JObject(obj)) =>
          ghost var before := responses;
          if "response" in obj {
            responses := responses + [obj["response"]];
          }
          assert responses == before + ResponseOf(obj);
          if "done" in obj && obj["done"] == JBool(true) {
            doneFound := true;
            assert Extract(all, loads) == Success(Extraction(responses, true));
            break;
          }
          PrependPrepend(before, ResponseOf(obj), Extract(all[i + 1..], loads));
        case Some(v) =>
          return Failure(NonObjectError(v));
      }
    }
    if !doneFound {
      assert all[fragments.Length..] == [];
      assert responses + [] == responses;
    }
    return Success(Extraction(responses, doneFound));
  }
}
