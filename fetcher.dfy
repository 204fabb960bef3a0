/** `get_string_interactions`: one request per identifier, the records of the
    list responses concatenated in identifier order. The requests themselves
    are not modelled: each identifier comes with the outcome of its request. */
module Fetcher {
  import opened Records

  /** What the request for one identifier comes to: the request or the JSON
      decoding raised, the decoded body is not a list, or it is a list of
      records. */
  datatype FetchOutcome = Failed | NotAList | Listed(items: seq<Record>)

  datatype Response = Response(identifier: string, outcome: FetchOutcome)

  /** The records contributed by the list responses, in order. */
  function Collected(responses: seq<Response>): seq<Record> {
    if responses == [] then []
    else
      var last := responses[|responses| - 1];
      Collected(responses[..|responses| - 1]) + if last.outcome.Listed? then last.outcome.items else []
  }

  /** The identifiers a warning is printed for, in order. */
  function FailedIdentifiers(responses: seq<Response>): seq<string> {
    if responses == [] then []
    else
      var last := responses[|responses| - 1];
      FailedIdentifiers(responses[..|responses| - 1]) + if last.outcome.Failed? then [last.identifier] else []
  }

  /** The loop of `get_string_interactions`: `all_data` grows by the records of
      each list response; a failed request adds a warning and nothing else. */
  method GetStringInteractions(responses: seq<Response>) returns (allData: seq<Record>, warnings: seq<string>)
    ensures allData == Collected(responses)
    ensures warnings == FailedIdentifiers(responses)
  {
    allData, warnings := [], [];
    for i := 0 to |responses|
      invariant allData == Collected(responses[..i])
      invariant warnings == FailedIdentifiers(responses[..i])
    {
      assert responses[..i + 1][..i] == responses[..i];
      match responses[i].outcome
      case Listed(items) =>
        allData := allData + items;
      case NotAList =>
      case Failed =>
        warnings := warnings + [responses[i].identifier];
    }
    assert responses[..|responses|] == responses;
  }

  /** Responses fetched one after the other contribute their records one after
      the other. */
  lemma {:induction false} CollectedAppend(a: seq<Response>, b: seq<Response>)
    ensures Collected(a + b) == Collected(a) + Collected(b)
  {
    if b == [] {
      assert a + b == a;
    } else {
      var n := |b| - 1;
      CollectedAppend(a, b[..n]);
      assert (a + b)[..|a + b| - 1] == a + b[..n];
      assert (a + b)[|a + b| - 1] == b[n];
    }
  }

  /** A failed or non-list response contributes nothing and leaves what the
      other identifiers contribute as it is. */
  lemma CollectedSkips(responses: seq<Response>, i: nat)
    requires i < |responses| && !responses[i].outcome.Listed?
    ensures Collected(responses) == Collected(responses[..i] + responses[i + 1..])
  {
    var front, back := responses[..i], responses[i + 1..];
    var skipped := [responses[i]];
    assert responses == front + skipped + back;
    assert Collected(skipped) == [] by {
      assert skipped[..0] == [];
    }
    CollectedAppend(front + skipped, back);
    CollectedAppend(front, skipped);
    CollectedAppend(front, back);
  }

  /** A record is in the result exactly when some list response holds it. */
  lemma {:induction false} CollectedMembers(responses: seq<Response>, x: Record)
    ensures x in Collected(responses) <==>
            exists i :: 0 <= i < |responses| && responses[i].outcome.Listed? && x in responses[i].outcome.items
  {
    if responses != [] {
      var n := |responses| - 1;
      var front := responses[..n];
      CollectedMembers(front, x);
      if exists i :: 0 <= i < |front| && front[i].outcome.Listed? && x in front[i].outcome.items {
        var i :| 0 <= i < |front| && front[i].outcome.Listed? && x in front[i].outcome.items;
        assert responses[i] == front[i];
      }
      if exists i :: 0 <= i < |responses| && responses[i].outcome.Listed? && x in responses[i].outcome.items {
        var i :| 0 <= i < |responses| && responses[i].outcome.Listed? && x in responses[i].outcome.items;
        if i < n {
          assert front[i] == responses[i];
        }
      }
    }
  }

  /** A warning is printed exactly for the identifiers whose request failed. */
  lemma {:induction false} WarningsExact(responses: seq<Response>, name: string)
    ensures name in FailedIdentifiers(responses) <==>
            exists i :: 0 <= i < |responses| && responses[i].outcome.Failed? && responses[i].identifier == name
  {
    if responses != [] {
      var n := |responses| - 1;
      var front := responses[..n];
      WarningsExact(front, name);
      if exists i :: 0 <= i < |front| && front[i].outcome.Failed? && front[i].identifier == name {
        var i :| 0 <= i < |front| && front[i].outcome.Failed? && front[i].identifier == name;
        assert responses[i] == front[i];
      }
      if exists i :: 0 <= i < |responses| && responses[i].outcome.Failed? && responses[i].identifier == name {
        var i :| 0 <= i < |responses| && responses[i].outcome.Failed? && responses[i].identifier == name;
        if i < n {
          assert front[i] == responses[i];
        }
      }
    }
  }
}
