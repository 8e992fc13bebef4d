/** The input-reading part of `vulnerability_template`: five prompted
    fields, the reproduction steps and the references (each a list of
    lines ended by a line reading `done`) and the risk-rating choice. The
    console is a sequence of input lines; running out of lines is the
    `EOFError` that `input()` raises, modelled as `None`. */
module ReportTemplate {
  import opened Wrappers
  import opened Text

  /** The filled-in template, before it is written out as JSON. */
  datatype Template = Template(
    title: string,
    description: string,
    stepsToReproduce: seq<string>,
    impact: string,
    riskRating: string,
    remediation: string,
    cvssScore: string,
    references: seq<string>)

  /** The menu choices "1".."5" and the ratings they select. */
  const RiskChoices: seq<string> := ["1", "2", "3", "4", "5"]
  const RiskRatings: seq<string> := ["Critical", "High", "Medium", "Low", "Informational"]

  /** `risk_map.get(choice, "Medium")`. */
  function RiskRating(choice: string): (rating: string)
    ensures rating in RiskRatings
    ensures choice !in RiskChoices ==> rating == "Medium"
    ensures forall k :: 0 <= k < |RiskChoices| && choice == RiskChoices[k] ==> rating == RiskRatings[k]
  {
    if choice == "1" then "Critical"
    else if choice == "2" then "High"
    else if choice == "3" then "Medium"
    else if choice == "4" then "Low"
    else if choice == "5" then "Informational"
    else "Medium"
  }

  /** The five listed choices select five different ratings. */
  lemma RiskRatingDistinct(a: string, b: string)
    requires a in RiskChoices && b in RiskChoices
    requires RiskRating(a) == RiskRating(b)
    ensures a == b
  {
  }

  /** A line that ends a list: `line.strip().lower() == 'done'`. */
  predicate IsDone(line: string)
  {
    ToLower(Strip(line)) == "done"
  }

  /** The index of the first line at or after `from` on which `stop`
      holds, or `|lines|` when there is none. */
  function FirstWhere(lines: seq<string>, from: nat, stop: string -> bool): (d: nat)
    requires from <= |lines|
    ensures from <= d <= |lines|
    ensures d < |lines| ==> stop(lines[d])
    decreases |lines| - from
  {
    if from == |lines| then from
    else if stop(lines[from]) then from
    else FirstWhere(lines, from + 1, stop)
  }

  /** No line between `from` and the first stopping line stops. */
  lemma {:induction false} FirstWhereBefore(lines: seq<string>, from: nat, k: nat, stop: string -> bool)
    requires from <= |lines|
    requires from <= k < FirstWhere(lines, from, stop)
    ensures !stop(lines[k])
    decreases k - from
  {
    if from < k {
      FirstWhereBefore(lines, from + 1, k, stop);
    }
  }

  /** `FirstWhere` is determined by its contract: the first stopping line
      at or after `from` is the `d` before which no line stops and at
      which one does (or the input ends). */
  lemma {:induction false} FirstWhereAt(lines: seq<string>, from: nat, d: nat, stop: string -> bool)
    requires from <= d <= |lines|
    requires forall k :: from <= k < d ==> !stop(lines[k])
    requires d < |lines| ==> stop(lines[d])
    ensures FirstWhere(lines, from, stop) == d
    decreases d - from
  {
    if from < d {
      FirstWhereAt(lines, from + 1, d, stop);
    }
  }

  /** The index of the first `done` line at or after `from`, or `|lines|`. */
  function FirstDone(lines: seq<string>, from: nat): (d: nat)
    requires from <= |lines|
    ensures from <= d <= |lines|
    ensures d < |lines| ==> IsDone(lines[d])
  {
    FirstWhere(lines, from, IsDone)
  }

  /** The end marker is recognised in any case and with surrounding
      blanks: the steps "Open the page", " DONE " end after one step. */
  lemma DoneInAnyCase()
    ensures FirstDone(["Open the page", " DONE "], 0) == 1
  {
    var lines := ["Open the page", " DONE "];
    var step := lines[0];
    LeadingSpaceAt(step, 0);
    TrailingSpaceAt(step, 0);
    assert |ToLower(Strip(step))| == 13;
    var marker := lines[1];
    LeadingSpaceAt(marker, 1);
    TrailingSpaceAt(marker[1..], 1);
    assert Strip(marker) == "DONE";
    var low := ToLower("DONE");
    assert low == "done" by {
      assert low[0] == 'd' && low[1] == 'o' && low[2] == 'n' && low[3] == 'e';
    }
    FirstWhereAt(lines, 0, 1, IsDone);
  }

  /** The stripped form of each line. */
  function StripAll(ls: seq<string>): (r: seq<string>)
    ensures |r| == |ls|
    ensures forall k :: 0 <= k < |ls| ==> r[k] == Strip(ls[k])
  {
    seq(|ls|, k requires 0 <= k < |ls| => Strip(ls[k]))
  }

  /** Stripping one more line extends the stripped lines by it. */
  lemma StripAllStep(lines: seq<string>, from: nat, next: nat)
    requires from <= next < |lines|
    ensures StripAll(lines[from..next + 1]) == StripAll(lines[from..next]) + [Strip(lines[next])]
  {
    assert lines[from..next + 1] == lines[from..next] + [lines[next]];
  }

  /** One `while True` loop of the template: read stripped lines from
      `from` on and collect them until one reads `done` (in any case).
      `finished` is false when the input runs out first. The items are the
      stripped lines before the first `done` line, in order; `next` is the
      line after it. */
  method CollectUntilDone(lines: seq<string>, from: nat) returns (items: seq<string>, next: nat, finished: bool)
    requires from <= |lines|
    ensures from + |items| == FirstDone(lines, from)
    ensures items == StripAll(lines[from..FirstDone(lines, from)])
    ensures finished <==> from + |items| < |lines|
    ensures finished ==> next == from + |items| + 1
    ensures !finished ==> next == |lines|
  {
    items := [];
    next := from;
    finished := false;
    while next < |lines|
      invariant from <= next <= |lines|
      invariant next == from + |items|
      invariant items == StripAll(lines[from..next])
      invariant forall k :: from <= k < next ==> !IsDone(lines[k])
    {
      var line := Strip(lines[next]);
      var isDone := ToLower(line) == "done";
      assert isDone == IsDone(lines[next]);
      if isDone {
        FirstWhereAt(lines, from, next, IsDone);
        next := next + 1;
        finished := true;
        break;
      }
      StripAllStep(lines, from, next);
      items := items + [line];
      next := next + 1;
    }
    if !finished {
      FirstWhereAt(lines, from, next, IsDone);
    }
  }

  /** The prompts of `vulnerability_template` in the order they read input:
      title, description, impact, remediation, CVSS score, the steps up to
      `done`, the risk choice, the references up to `done`. */
  method FillTemplate(lines: seq<string>) returns (t: Option<Template>)
    ensures t.Some? <==>
      && 5 <= |lines|
      && FirstDone(lines, 5) + 1 < |lines|
      && FirstDone(lines, FirstDone(lines, 5) + 2) < |lines|
    ensures t.Some? ==>
      var stepsEnd := FirstDone(lines, 5);
      var refsEnd := FirstDone(lines, stepsEnd + 2);
      t.value == Template(
        Strip(lines[0]), Strip(lines[1]), StripAll(lines[5..stepsEnd]), Strip(lines[2]),
        RiskRating(Strip(lines[stepsEnd + 1])), Strip(lines[3]), Strip(lines[4]),
        StripAll(lines[stepsEnd + 2..refsEnd]))
  {
    if |lines| < 5 {
      return None;
    }
    var title := Strip(lines[0]);
    var description := Strip(lines[1]);
    var impact := Strip(lines[2]);
    var remediation := Strip(lines[3]);
    var cvss := Strip(lines[4]);
    var steps, next, finished := CollectUntilDone(lines, 5);
    ghost var stepsEnd := FirstDone(lines, 5);
    if !finished || next == |lines| {
      assert !(stepsEnd + 1 < |lines|);
      return None;
    }
    assert next == stepsEnd + 1 < |lines|;
    var riskChoice := Strip(lines[next]);
    var rating := RiskRating(riskChoice);
    var refs, after, done := CollectUntilDone(lines, next + 1);
    ghost var refsEnd := FirstDone(lines, stepsEnd + 2);
    assert refsEnd == next + 1 + |refs|;
    if !done {
      assert !(refsEnd < |lines|);
      return None;
    }
    assert refs == StripAll(lines[stepsEnd + 2..refsEnd]);
    assert steps == StripAll(lines[5..stepsEnd]);
    t := Some(Template(title, description, steps, impact, rating, remediation, cvss, refs));
  }
}
