/** Test type 1 of `idor_testing`: sequential ID probing. For every `i`
    from `start` to `end` inclusive, in increasing order, the URL
    `base?name=i` is requested, and a guarded response is recorded with a
    label for its status code. The HTTP request is an injected function
    from URL to outcome: `None` for a request that raised (what
    `make_request` returns then), or the response's status code together
    with the truth value that `if response:` tests. */
module Idor {
  import opened Wrappers
  import opened Text
  import opened Decimal

  /** A response as the probe loop sees it. */
  datatype Response = Response(status: int, truthy: bool)

  /** A recorded result: the probed URL and its label. */
  datatype Entry = Entry(url: string, result: string)

  /** The truth value that the `requests` library gives a response: true
      unless the status is a client (4xx) or server (5xx) error. */
  predicate RequestsTruthiness(r: Response)
  {
    r.truthy == !(400 <= r.status < 600)
  }

  /** Which responses are recorded: `AsWritten` is the source's
      `if response:`, `NotNone` records every response that arrived. */
  datatype Guard = AsWritten | NotNone

  predicate Passes(guard: Guard, outcome: Option<Response>)
  {
    match outcome
    case None => false
    case Some(r) => guard == NotNone || r.truthy
  }

  /** `f"{base}?{name}={i}"`. */
  function TestUrl(base: string, name: string, i: int): string
  {
    base + "?" + name + "=" + IntToDecimal(i)
  }

  /** Distinct IDs give distinct URLs. */
  lemma TestUrlInjective(base: string, name: string, a: int, b: int)
    requires TestUrl(base, name, a) == TestUrl(base, name, b)
    ensures a == b
  {
    var prefix := base + "?" + name + "=";
    var ua, ub := TestUrl(base, name, a), TestUrl(base, name, b);
    assert IntToDecimal(a) == ua[|prefix|..];
    assert IntToDecimal(b) == ub[|prefix|..];
    IntToDecimalInjective(a, b);
  }

  /** The label for a recorded status code. */
  function Label(status: int): string
  {
    if status == 200 then "SUCCESS - Access granted"
    else if status == 403 then "FORBIDDEN"
    else if status == 404 then "NOT FOUND"
    else "Status: " + IntToDecimal(status)
  }

  /** The three fixed labels differ from every "Status: n" label. */
  lemma FixedLabelsDiffer(fixed: int, other: int)
    requires fixed in {200, 403, 404} && other !in {200, 403, 404}
    ensures Label(fixed) != Label(other)
  {
    assert Label(other)[1] == 't';
    assert Label(fixed)[1] != 't';
  }

  /** Different status codes get different labels. */
  lemma LabelInjective(a: int, b: int)
    requires Label(a) == Label(b)
    ensures a == b
  {
    var fixed := {200, 403, 404};
    if a !in fixed && b !in fixed {
      assert IntToDecimal(a) == Label(a)[8..];
      assert IntToDecimal(b) == Label(b)[8..];
      IntToDecimalInjective(a, b);
    } else if a in fixed && b !in fixed {
      FixedLabelsDiffer(a, b);
    } else if b in fixed && a !in fixed {
      FixedLabelsDiffer(b, a);
    }
  }

  /** The results display highlights a result containing "SUCCESS"; that
      is exactly the result for status 200. */
  lemma SuccessLabelIff(status: int)
    ensures Contains(Label(status), "SUCCESS") <==> status == 200
  {
    var l := Label(status);
    if status == 200 {
      ContainsAt(l, "SUCCESS", 0);
    } else if status == 403 || status == 404 {
      NotContainsWithoutFirstChar(l, "SUCCESS");
    } else {
      forall i | 0 <= i
        ensures !OccursAt(l, "SUCCESS", i)
      {
        if i + 7 <= |l| {
          assert l[i..i + 7][0] == l[i] && l[i..i + 7][1] == l[i + 1];
        }
        if 8 <= i < |l| {
          assert l[i] == IntToDecimal(status)[i - 8];
        }
      }
      ContainsIff(l, "SUCCESS");
    }
  }

  /** What one probe adds to the results. */
  function EntryFor(guard: Guard, url: string, outcome: Option<Response>): seq<Entry>
  {
    if Passes(guard, outcome) then [Entry(url, Label(outcome.value.status))] else []
  }

  /** The results of probing `start..end` inclusive. */
  function ProbeLog(guard: Guard, base: string, name: string, start: int, end: int,
                    fetch: string -> Option<Response>): seq<Entry>
    decreases if end < start then 0 else end - start + 1
  {
    if end < start then []
    else
      var url := TestUrl(base, name, end);
      ProbeLog(guard, base, name, start, end - 1, fetch) + EntryFor(guard, url, fetch(url))
  }

  /** The probe loop of `idor_testing`, test type 1, as written: a result
      is appended only when `if response:` holds. */
  method SequentialIdTest(base: string, name: string, start: int, end: int,
                          fetch: string -> Option<Response>) returns (results: seq<Entry>)
    ensures results == ProbeLog(AsWritten, base, name, start, end, fetch)
  {
    results := [];
    var i := start;
    while i <= end
      invariant start <= i <= end + 1 || (i == start && end < start)
      invariant results == ProbeLog(AsWritten, base, name, start, i - 1, fetch)
      decreases end - i
    {
      var testUrl := TestUrl(base, name, i);
      var response := fetch(testUrl);
      if response.Some? && response.value.truthy {
        var status := response.value.status;
        if status == 200 {
          results := results + [Entry(testUrl, "SUCCESS - Access granted")];
        } else if status == 403 {
          results := results + [Entry(testUrl, "FORBIDDEN")];
        } else if status == 404 {
          results := results + [Entry(testUrl, "NOT FOUND")];
        } else {
          results := results + [Entry(testUrl, "Status: " + IntToDecimal(status))];
        }
      }
      i := i + 1;
    }
  }

  /** The probe loop with the guard the status branches call for: every
      response that arrived is recorded, 403 and 404 included. */
  method SequentialIdTestCorrected(base: string, name: string, start: int, end: int,
                                   fetch: string -> Option<Response>) returns (results: seq<Entry>)
    ensures results == ProbeLog(NotNone, base, name, start, end, fetch)
  {
    results := [];
    var i := start;
    while i <= end
      invariant start <= i <= end + 1 || (i == start && end < start)
      invariant results == ProbeLog(NotNone, base, name, start, i - 1, fetch)
      decreases end - i
    {
      var testUrl := TestUrl(base, name, i);
      var response := fetch(testUrl);
      if response.Some? {
        var status := response.value.status;
        if status == 200 {
          results := results + [Entry(testUrl, "SUCCESS - Access granted")];
        } else if status == 403 {
          results := results + [Entry(testUrl, "FORBIDDEN")];
        } else if status == 404 {
          results := results + [Entry(testUrl, "NOT FOUND")];
        } else {
          results := results + [Entry(testUrl, "Status: " + IntToDecimal(status))];
        }
      }
      i := i + 1;
    }
  }

  /** The IDs of `start..end` whose outcome passes the guard, ascending. */
  function RecordedIds(guard: Guard, base: string, name: string, start: int, end: int,
                       fetch: string -> Option<Response>): seq<int>
    decreases if end < start then 0 else end - start + 1
  {
    if end < start then []
    else
      RecordedIds(guard, base, name, start, end - 1, fetch)
        + (if Passes(guard, fetch(TestUrl(base, name, end))) then [end] else [])
  }

  /** The recorded IDs lie in the range, strictly increase, and are exactly
      the IDs whose outcome passes the guard: every ID is tried, in order,
      and a failed request only skips its own ID. */
  lemma {:induction false} RecordedIdsExact(guard: Guard, base: string, name: string, start: int, end: int,
                                            fetch: string -> Option<Response>)
    ensures var ids := RecordedIds(guard, base, name, start, end, fetch);
      && (forall k :: 0 <= k < |ids| ==> start <= ids[k] <= end)
      && (forall k, l :: 0 <= k < l < |ids| ==> ids[k] < ids[l])
      && (forall i :: start <= i <= end ==> (i in ids <==> Passes(guard, fetch(TestUrl(base, name, i)))))
    decreases if end < start then 0 else end - start + 1
  {
    if start <= end {
      RecordedIdsExact(guard, base, name, start, end - 1, fetch);
      var prev := RecordedIds(guard, base, name, start, end - 1, fetch);
      var ids := RecordedIds(guard, base, name, start, end, fetch);
      forall k, l | 0 <= k < l < |ids|
        ensures ids[k] < ids[l]
      {
        assert ids[k] == prev[k];
        if l < |prev| {
          assert ids[l] == prev[l];
        }
      }
      forall i | start <= i <= end
        ensures i in ids <==> Passes(guard, fetch(TestUrl(base, name, i)))
      {
        if i < end {
          assert i in ids <==> i in prev;
        }
      }
    }
  }

  /** Entry `k` of the results is the URL of the `k`-th recorded ID with
      the label of its status code. */
  lemma {:induction false} ProbeLogEntries(guard: Guard, base: string, name: string, start: int, end: int,
                                           fetch: string -> Option<Response>)
    ensures var ids := RecordedIds(guard, base, name, start, end, fetch);
      var log := ProbeLog(guard, base, name, start, end, fetch);
      && |log| == |ids|
      && forall k :: 0 <= k < |ids| ==>
           Passes(guard, fetch(TestUrl(base, name, ids[k])))
           && log[k] == Entry(TestUrl(base, name, ids[k]), Label(fetch(TestUrl(base, name, ids[k])).value.status))
    decreases if end < start then 0 else end - start + 1
  {
    if start <= end {
      ProbeLogEntries(guard, base, name, start, end - 1, fetch);
      var prev := RecordedIds(guard, base, name, start, end - 1, fetch);
      var before := ProbeLog(guard, base, name, start, end - 1, fetch);
      var ids := RecordedIds(guard, base, name, start, end, fetch);
      var log := ProbeLog(guard, base, name, start, end, fetch);
      forall k | 0 <= k < |ids|
        ensures Passes(guard, fetch(TestUrl(base, name, ids[k])))
        ensures log[k] == Entry(TestUrl(base, name, ids[k]), Label(fetch(TestUrl(base, name, ids[k])).value.status))
      {
        if k < |prev| {
          assert log[k] == before[k] && ids[k] == prev[k];
        }
      }
    }
  }

  /** At most one result per ID of the range, none for an empty range. */
  lemma ProbeLogBound(guard: Guard, base: string, name: string, start: int, end: int,
                      fetch: string -> Option<Response>)
    ensures |ProbeLog(guard, base, name, start, end, fetch)| <= if end < start then 0 else end - start + 1
    decreases if end < start then 0 else end - start + 1
  {
    if start <= end {
      ProbeLogBound(guard, base, name, start, end - 1, fetch);
    }
  }

  /** Every response arrives with the truth value `requests` gives it. */
  ghost predicate FetchesLikeRequests(fetch: string -> Option<Response>)
  {
    forall url :: fetch(url).Some? ==> RequestsTruthiness(fetch(url).value)
  }

  /** As written, a 403 or 404 response is false under `if response:`, so
      the FORBIDDEN and NOT FOUND branches are never reached. */
  lemma AsWrittenNeverForbidden(base: string, name: string, start: int, end: int,
                                fetch: string -> Option<Response>)
    requires FetchesLikeRequests(fetch)
    ensures var log := ProbeLog(AsWritten, base, name, start, end, fetch);
      forall k :: 0 <= k < |log| ==> log[k].result != "FORBIDDEN" && log[k].result != "NOT FOUND"
  {
    var log := ProbeLog(AsWritten, base, name, start, end, fetch);
    var ids := RecordedIds(AsWritten, base, name, start, end, fetch);
    ProbeLogEntries(AsWritten, base, name, start, end, fetch);
    forall k | 0 <= k < |log|
      ensures log[k].result != "FORBIDDEN" && log[k].result != "NOT FOUND"
    {
      var r := fetch(TestUrl(base, name, ids[k])).value;
      assert r.truthy && RequestsTruthiness(r);
      if log[k].result == "FORBIDDEN" {
        LabelInjective(r.status, 403);
      } else if log[k].result == "NOT FOUND" {
        LabelInjective(r.status, 404);
      }
    }
  }

  /** With the corrected guard, a 403 response within the range is
      recorded as FORBIDDEN (and likewise 404 as NOT FOUND). */
  lemma CorrectedRecordsForbidden(base: string, name: string, start: int, end: int,
                                  fetch: string -> Option<Response>, i: int)
    requires start <= i <= end
    requires fetch(TestUrl(base, name, i)).Some?
    ensures fetch(TestUrl(base, name, i)).value.status == 403 ==>
      Entry(TestUrl(base, name, i), "FORBIDDEN") in ProbeLog(NotNone, base, name, start, end, fetch)
    ensures fetch(TestUrl(base, name, i)).value.status == 404 ==>
      Entry(TestUrl(base, name, i), "NOT FOUND") in ProbeLog(NotNone, base, name, start, end, fetch)
  {
    var log := ProbeLog(NotNone, base, name, start, end, fetch);
    var ids := RecordedIds(NotNone, base, name, start, end, fetch);
    RecordedIdsExact(NotNone, base, name, start, end, fetch);
    ProbeLogEntries(NotNone, base, name, start, end, fetch);
    assert i in ids;
    var k :| 0 <= k < |ids| && ids[k] == i;
    assert log[k] in log;
  }

  /** A target that answers 403 (false for `requests`) to every request:
      as written nothing is recorded, corrected it reads FORBIDDEN. */
  lemma ForbiddenTargetExample(base: string, name: string)
    ensures var fetch := (u: string) => Some(Response(403, false));
      && FetchesLikeRequests(fetch)
      && ProbeLog(AsWritten, base, name, 1, 1, fetch) == []
      && ProbeLog(NotNone, base, name, 1, 1, fetch) == [Entry(TestUrl(base, name, 1), "FORBIDDEN")]
  {
    var fetch := (u: string) => Some(Response(403, false));
    assert ProbeLog(AsWritten, base, name, 1, 0, fetch) == [];
    assert ProbeLog(NotNone, base, name, 1, 0, fetch) == [];
  }

  /** IDs 1..5 against a target that grants ID 3 and forbids the rest. */
  lemma GrantOnlyThreeExample(base: string, name: string)
    ensures var granted := TestUrl(base, name, 3);
      var fetch := (u: string) => if u == granted then Some(Response(200, true)) else Some(Response(403, false));
      && FetchesLikeRequests(fetch)
      && ProbeLog(AsWritten, base, name, 1, 5, fetch) == [Entry(granted, "SUCCESS - Access granted")]
      && |ProbeLog(NotNone, base, name, 1, 5, fetch)| == 5
      && forall i :: 1 <= i <= 5 ==>
           ProbeLog(NotNone, base, name, 1, 5, fetch)[i - 1]
             == Entry(TestUrl(base, name, i), if i == 3 then "SUCCESS - Access granted" else "FORBIDDEN")
  {
    var granted := TestUrl(base, name, 3);
    var fetch := (u: string) => if u == granted then Some(Response(200, true)) else Some(Response(403, false));
    forall i | 1 <= i <= 5 && i != 3
      ensures TestUrl(base, name, i) != granted
    {
      if TestUrl(base, name, i) == granted {
        TestUrlInjective(base, name, i, 3);
      }
    }
    var u1, u2, u4, u5 := TestUrl(base, name, 1), TestUrl(base, name, 2), TestUrl(base, name, 4), TestUrl(base, name, 5);
    assert fetch(u1) == fetch(u2) == fetch(u4) == fetch(u5) == Some(Response(403, false));
    assert ProbeLog(AsWritten, base, name, 1, 2, fetch) == [];
    assert ProbeLog(AsWritten, base, name, 1, 5, fetch) == [Entry(granted, "SUCCESS - Access granted")];
    var e := ProbeLog(NotNone, base, name, 1, 5, fetch);
    assert e == [Entry(u1, "FORBIDDEN"), Entry(u2, "FORBIDDEN"), Entry(granted, "SUCCESS - Access granted"),
                 Entry(u4, "FORBIDDEN"), Entry(u5, "FORBIDDEN")];
  }
}
