/**
 * What the two streamed-response extractors share: the JSON values that
 * json.loads returns, the accumulation of "response" values up to the first
 * object whose "done" is true, and the final ''.join.
 */
module StreamedResponses {
  import opened Wrappers
  import opened Errors
  import opened StringOps

  /** A decoded JSON value. */
  datatype Json =
    | JNull
    | JBool(b: bool)
    | JNumber(n: real)
    | JString(s: string)
    | JArray(items: seq<Json>)
    | JObject(members: map<string, Json>)

  /** json.loads: the decoded value, or None where it raises JSONDecodeError. */
  type Loads = string -> Option<Json>

  /** The pair the extractors return: the responses in order, and whether a done object was seen. */
  datatype Extraction = Extraction(responses: seq<Json>, doneFound: bool)

  /** `if "response" in obj: m_responses.append(obj["response"])`. */
  function ResponseOf(members: map<string, Json>): seq<Json> {
    if "response" in members then [members["response"]] else []
  }

  /** `obj.get("done") is True`. */
  predicate IsDone(members: map<string, Json>) {
    "done" in members && members["done"] == JBool(true)
  }

  /**
   * What the loop body raises on a decoded value that is not an object:
   * `"response" in obj` raises TypeError on a number, a boolean or null; on
   * a string or a list it is a membership test, after which `obj["response"]`
   * raises TypeError, or else `obj.get` raises AttributeError. Neither is
   * caught.
   */
  function NonObjectError(v: Json): Exception {
    match v
    case JString(s) => if IsInfix("response", s) then TypeError else AttributeError
    case JArray(items) => if JString("response") in items then TypeError else AttributeError
    case _ => TypeError
  }

  /** Puts responses gathered earlier in front of a later result. */
  function Prepend(earlier: seq<Json>, later: Result<Extraction, Exception>): Result<Extraction, Exception> {
    match later
    case Success(e) => Success(Extraction(earlier + e.responses, e.doneFound))
    case Failure(x) => Failure(x)
  }

  /** The accumulation loop over the pieces, each decoded with `loads`. */
  function Extract(pieces: seq<string>, loads: Loads): Result<Extraction, Exception>
    decreases |pieces|
  {
    if pieces == [] then Success(Extraction([], false))
    else match loads(pieces[0])
      case None => Extract(pieces[1..], loads)
      case Some(JObject(m)) =>
        if IsDone(m) then Success(Extraction(ResponseOf(m), true))
        else Prepend(ResponseOf(m), Extract(pieces[1..], loads))
      case Some(v) => Failure(NonObjectError(v))
  }

  lemma PrependPrepend(a: seq<Json>, b: seq<Json>, r: Result<Extraction, Exception>)
    ensures Prepend(a, Prepend(b, r)) == Prepend(a + b, r)
  {
    if r.Success? {
      assert a + (b + r.value.responses) == (a + b) + r.value.responses;
    }
  }

  /** Piece k decodes to an object whose "done" is true. */
  predicate DoneAt(pieces: seq<string>, loads: Loads, k: int)
    requires 0 <= k < |pieces|
  {
    match loads(pieces[k])
    case Some(JObject(m)) => IsDone(m)
    case _ => false
  }

  /** A successful extraction reports done exactly when some piece is a done object. */
  lemma {:induction false} DoneFoundExactly(pieces: seq<string>, loads: Loads)
    requires Extract(pieces, loads).Success?
    ensures Extract(pieces, loads).value.doneFound <==> exists k :: 0 <= k < |pieces| && DoneAt(pieces, loads, k)
    decreases |pieces|
  {
    if pieces != [] {
      var rest := pieces[1..];
      assert forall k :: 0 <= k < |rest| ==> (DoneAt(rest, loads, k) <==> DoneAt(pieces, loads, k + 1)) by {
        forall k | 0 <= k < |rest| ensures DoneAt(rest, loads, k) <==> DoneAt(pieces, loads, k + 1) {
          assert rest[k] == pieces[k + 1];
        }
      }
      assert forall k :: 1 <= k < |pieces| ==> (DoneAt(pieces, loads, k) <==> DoneAt(rest, loads, k - 1)) by {
        forall k | 1 <= k < |pieces| ensures DoneAt(pieces, loads, k) <==> DoneAt(rest, loads, k - 1) {
          assert pieces[k] == rest[k - 1];
        }
      }
      match loads(pieces[0])
      case None =>
        assert !DoneAt(pieces, loads, 0);
        DoneFoundExactly(rest, loads);
      case Some(JObject(m)) =>
        assert DoneAt(pieces, loads, 0) <==> IsDone(m);
        if !IsDone(m) {
          DoneFoundExactly(rest, loads);
        }
      case Some(v) =>
    }
  }

  /** The pieces after the first done object are never looked at. */
  lemma {:induction false} StopsAtDone(pieces: seq<string>, later: seq<string>, loads: Loads)
    requires Extract(pieces, loads).Success? && Extract(pieces, loads).value.doneFound
    ensures Extract(pieces + later, loads) == Extract(pieces, loads)
    decreases |pieces|
  {
    assert pieces != [];
    assert (pieces + later)[0] == pieces[0];
    assert (pieces + later)[1..] == pieces[1..] + later;
    match loads(pieces[0])
    case None => StopsAtDone(pieces[1..], later, loads);
    case Some(JObject(m)) =>
      if !IsDone(m) {
        StopsAtDone(pieces[1..], later, loads);
      }
  }

  /** A piece that does not decode is skipped without stopping the loop. */
  lemma {:induction false} UndecodableSkipped(before: seq<string>, piece: string, after: seq<string>, loads: Loads)
    requires loads(piece) == None
    ensures Extract(before + [piece] + after, loads) == Extract(before + after, loads)
    decreases |before|
  {
    if before == [] {
      assert before + [piece] + after == [piece] + after;
      assert before + after == after;
      assert ([piece] + after)[0] == piece;
      assert ([piece] + after)[1..] == after;
    } else {
      assert (before + [piece] + after)[0] == (before + after)[0] == before[0];
      assert (before + [piece] + after)[1..] == before[1..] + [piece] + after;
      assert (before + after)[1..] == before[1..] + after;
      UndecodableSkipped(before[1..], piece, after, loads);
    }
  }

  /** Without a done object the responses of consecutive runs concatenate. */
  lemma {:induction false} ExtractAppend(first: seq<string>, second: seq<string>, loads: Loads)
    requires Extract(first, loads).Success? && !Extract(first, loads).value.doneFound
    ensures Extract(first + second, loads) == Prepend(Extract(first, loads).value.responses, Extract(second, loads))
    decreases |first|
  {
    if first == [] {
      assert first + second == second;
      if Extract(second, loads).Success? {
        assert [] + Extract(second, loads).value.responses == Extract(second, loads).value.responses;
      }
    } else {
      assert (first + second)[0] == first[0];
      assert (first + second)[1..] == first[1..] + second;
      match loads(first[0])
      case None => ExtractAppend(first[1..], second, loads);
      case Some(JObject(m)) =>
        ExtractAppend(first[1..], second, loads);
        PrependPrepend(ResponseOf(m), Extract(first[1..], loads).value.responses, Extract(second, loads));
    }
  }

  /** ''.join(responses): the strings concatenated, or TypeError when an item is not a string. */
  function JoinResponses(responses: seq<Json>): Result<string, Exception> {
    if responses == [] then Success("")
    else match responses[0]
      case JString(s) =>
        (match JoinResponses(responses[1..])
         case Success(t) => Success(s + t)
         case Failure(x) => Failure(x))
      case _ => Failure(TypeError)
  }

  /** The join fails exactly when some response is not a string. */
  lemma {:induction false} JoinFailsExactly(responses: seq<Json>)
    ensures JoinResponses(responses).Failure? <==> exists k :: 0 <= k < |responses| && !responses[k].JString?
    ensures JoinResponses(responses).Failure? ==> JoinResponses(responses).error == TypeError
    decreases |responses|
  {
    if responses != [] {
      JoinFailsExactly(responses[1..]);
      assert forall k :: 1 <= k < |responses| ==> responses[k] == responses[1..][k - 1];
    }
  }

  /** The output of two runs of responses is the two outputs one after the other. */
  lemma {:induction false} JoinAppend(a: seq<Json>, b: seq<Json>)
    requires JoinResponses(a).Success? && JoinResponses(b).Success?
    ensures JoinResponses(a + b) == Success(JoinResponses(a).value + JoinResponses(b).value)
    decreases |a|
  {
    if a == [] {
      assert a + b == b;
      assert "" + JoinResponses(b).value == JoinResponses(b).value;
    } else {
      assert (a + b)[0] == a[0] && a[0].JString?;
      assert (a + b)[1..] == a[1..] + b;
      assert JoinResponses(a[1..]).Success?;
      JoinAppend(a[1..], b);
      var s, x, y := a[0].s, JoinResponses(a[1..]).value, JoinResponses(b).value;
      assert s + (x + y) == (s + x) + y;
    }
  }
}
