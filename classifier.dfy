/** `classify_by_type`: the first-match-wins classification of parameter
    names into the categories of a fixed, ordered rule table. */
module Classifier {
  import opened Text

  /** One entry of the rule table: a category and its substring patterns. */
  datatype Rule = Rule(category: string, patterns: seq<string>)

  /** One list of the result: a category and the names placed in it. */
  datatype Bucket = Bucket(category: string, members: seq<string>)

  /** The rule table, in declaration order (dicts keep insertion order). */
  const Rules: seq<Rule> := [
    Rule("Authentication", ["token", "session", "api_key", "auth", "password", "key"]),
    Rule("Business Logic", ["price", "quantity", "user_id", "order", "amount"]),
    Rule("File Operations", ["file", "path", "upload", "download", "dir"]),
    Rule("Debug/Admin", ["debug", "test", "admin", "console", "backup"]),
    Rule("Search/Filter", ["q", "search", "filter", "sort", "page"]),
    Rule("Miscellaneous", ["callback", "redirect", "lang", "version", "mode"])
  ]

  /** The category of names that match no rule. */
  const Unknown: string := "Unknown"

  /** The keys of the result, in order: the rule categories, then Unknown. */
  function Categories(): (cs: seq<string>)
    ensures |cs| == |Rules| + 1
    ensures forall k :: 0 <= k < |Rules| ==> cs[k] == Rules[k].category
    ensures cs[|Rules|] == Unknown
  {
    seq(|Rules| + 1, k requires 0 <= k <= |Rules| => if k < |Rules| then Rules[k].category else Unknown)
  }

  predicate Distinct(cs: seq<string>)
  {
    forall i, j :: 0 <= i < j < |cs| ==> cs[i] != cs[j]
  }

  /** No two keys of the result coincide. */
  lemma CategoriesDistinct()
    ensures Distinct(Categories())
  {
    var cs := Categories();
    assert cs == ["Authentication", "Business Logic", "File Operations", "Debug/Admin",
                  "Search/Filter", "Miscellaneous", "Unknown"];
    forall i, j | 0 <= i < j < |cs| ensures cs[i] != cs[j] {
      assert cs[i][0] != cs[j][0];
    }
  }

  /** Some pattern of the list occurs in the (lowercased) name. */
  predicate AnyMatch(lower: string, patterns: seq<string>)
  {
    exists p :: p in patterns && Contains(lower, p)
  }

  /** The index of the first rule at or after `j` with a matching pattern,
      or `|Rules|` when none matches. */
  function FirstRuleFrom(lower: string, j: nat): (k: nat)
    requires j <= |Rules|
    ensures j <= k <= |Rules|
    ensures k < |Rules| ==> AnyMatch(lower, Rules[k].patterns)
    ensures forall t :: j <= t < k ==> !AnyMatch(lower, Rules[t].patterns)
    decreases |Rules| - j
  {
    if j == |Rules| then j
    else if AnyMatch(lower, Rules[j].patterns) then j
    else FirstRuleFrom(lower, j + 1)
  }

  /** Index into `Categories()` of the category a name is placed in. */
  function CategoryIndex(name: string): (k: nat)
    ensures k < |Categories()|
  {
    FirstRuleFrom(ToLower(name), 0)
  }

  /** The category a name is placed in. */
  function CategoryOf(name: string): string
  {
    Categories()[CategoryIndex(name)]
  }

  /** First match wins: a name lands in category `c` exactly when some rule
      for `c` has a pattern occurring in the lowercased name and no earlier
      rule does, or `c` is Unknown and no rule matches at all. */
  lemma CategoryOfIff(name: string, c: string)
    ensures CategoryOf(name) == c <==>
      || (exists k :: 0 <= k < |Rules| && Rules[k].category == c
            && AnyMatch(ToLower(name), Rules[k].patterns)
            && forall t :: 0 <= t < k ==> !AnyMatch(ToLower(name), Rules[t].patterns))
      || (c == Unknown && forall k :: 0 <= k < |Rules| ==> !AnyMatch(ToLower(name), Rules[k].patterns))
  {
    var lower := ToLower(name);
    var i := CategoryIndex(name);
    CategoriesDistinct();
    var cs := Categories();
    if CategoryOf(name) == c {
      if i < |Rules| {
        assert Rules[i].category == c;
      }
    } else {
      forall k | 0 <= k < |Rules| && Rules[k].category == c && AnyMatch(lower, Rules[k].patterns)
        ensures exists t :: 0 <= t < k && AnyMatch(lower, Rules[t].patterns)
      {
        assert cs[k] == c;
        assert k != i;
        if k < i {
        } else {
          assert AnyMatch(lower, Rules[i].patterns);
        }
      }
      if c == Unknown {
        assert cs[|Rules|] == c;
        assert i < |Rules|;
      }
    }
  }

  /** The names of `ps` placed in category `c`, in input order. */
  function InCategory(ps: seq<string>, c: string): seq<string>
  {
    if |ps| == 0 then []
    else InCategory(ps[..|ps| - 1], c) + (if CategoryOf(ps[|ps| - 1]) == c then [ps[|ps| - 1]] else [])
  }

  /** The result with `name` appended to the list at index `k`. */
  function Appended(classified: seq<Bucket>, k: nat, name: string): (r: seq<Bucket>)
    requires k < |classified|
  {
    classified[k := Bucket(classified[k].category, classified[k].members + [name])]
  }

  /** The rule walk for one name (the body of the loop over parameters):
      append the name to the list of the first category with a matching
      pattern, or to the Unknown list when no rule matches. */
  method PlaceName(classified: seq<Bucket>, param: string) returns (placed: seq<Bucket>)
    requires |classified| == |Categories()|
    ensures placed == Appended(classified, CategoryIndex(param), param)
  {
    placed := classified;
    var lower := ToLower(param);
    var categorized := false;
    var j := 0;
    while j < |Rules|
      invariant 0 <= j <= |Rules|
      invariant !categorized && placed == classified
      invariant forall t :: 0 <= t < j ==> !AnyMatch(lower, Rules[t].patterns)
    {
      var patterns := Rules[j].patterns;
      var m := 0;
      while m < |patterns|
        invariant 0 <= m <= |patterns|
        invariant !categorized && placed == classified
        invariant forall t :: 0 <= t < m ==> !Contains(lower, patterns[t])
      {
        if Contains(lower, patterns[m]) {
          placed := Appended(placed, j, param);
          categorized := true;
          break;
        }
        m := m + 1;
      }
      if categorized {
        assert AnyMatch(lower, Rules[j].patterns);
        assert FirstRuleFrom(lower, 0) == j;
        break;
      }
      j := j + 1;
    }
    if !categorized {
      assert FirstRuleFrom(lower, 0) == |Rules|;
      placed := Appended(placed, |Rules|, param);
    }
  }

  /** Appending the next name extends exactly the list of its category. */
  lemma InCategoryStep(classified: seq<Bucket>, ps: seq<string>, n: nat)
    requires n < |ps|
    requires |classified| == |Categories()|
    requires forall k :: 0 <= k < |classified| ==>
      classified[k] == Bucket(Categories()[k], InCategory(ps[..n], Categories()[k]))
    ensures var r := Appended(classified, CategoryIndex(ps[n]), ps[n]);
      forall k :: 0 <= k < |r| ==> r[k] == Bucket(Categories()[k], InCategory(ps[..n + 1], Categories()[k]))
  {
    var cs := Categories();
    CategoriesDistinct();
    var p := ps[n];
    var r := Appended(classified, CategoryIndex(p), p);
    assert ps[..n + 1][..n] == ps[..n];
    assert ps[..n + 1][n] == p;
    forall k | 0 <= k < |r|
      ensures r[k] == Bucket(cs[k], InCategory(ps[..n + 1], cs[k]))
    {
      assert (CategoryOf(p) == cs[k]) == (k == CategoryIndex(p));
    }
  }

  /** `classify_by_type`: every name goes to the list of its category. The
      result lists the categories in table order, then Unknown, each with
      the names of that category in input order. */
  method ClassifyByType(parameters: seq<string>) returns (classified: seq<Bucket>)
    ensures |classified| == |Categories()|
    ensures forall k :: 0 <= k < |classified| ==>
      classified[k] == Bucket(Categories()[k], InCategory(parameters, Categories()[k]))
  {
    var cs := Categories();
    classified := seq(|cs|, k requires 0 <= k < |cs| => Bucket(cs[k], []));
    var n := 0;
    while n < |parameters|
      invariant 0 <= n <= |parameters|
      invariant |classified| == |cs|
      invariant forall k :: 0 <= k < |cs| ==> classified[k] == Bucket(cs[k], InCategory(parameters[..n], cs[k]))
    {
      InCategoryStep(classified, parameters, n);
      classified := PlaceName(classified, parameters[n]);
      n := n + 1;
    }
    assert parameters[..n] == parameters;
  }

  /** Each list holds every occurrence of the names of its category and
      nothing else: a name occurs in the list of `c` as often as in the
      input when its category is `c`, and not at all otherwise. */
  lemma {:induction false} InCategoryMultiplicity(ps: seq<string>, c: string, p: string)
    ensures multiset(InCategory(ps, c))[p] == if CategoryOf(p) == c then multiset(ps)[p] else 0
  {
    if |ps| > 0 {
      var init := ps[..|ps| - 1];
      var last := ps[|ps| - 1];
      InCategoryMultiplicity(init, c, p);
      assert ps == init + [last];
      assert multiset(ps) == multiset(init) + multiset{last};
      var tail := if CategoryOf(last) == c then [last] else [];
      assert InCategory(ps, c) == InCategory(init, c) + tail;
      assert multiset(InCategory(ps, c)) == multiset(InCategory(init, c)) + multiset(tail);
    }
  }

  /** The stored names are the input names themselves, original case kept:
      a name is in the list of `c` exactly when it is an input name whose
      category is `c`. */
  lemma InCategoryMembers(ps: seq<string>, c: string, p: string)
    ensures p in InCategory(ps, c) <==> p in ps && CategoryOf(p) == c
  {
    InCategoryMultiplicity(ps, c, p);
  }

  /** Every input name is placed in exactly one list of the result. */
  lemma ExactlyOneList(ps: seq<string>, p: string)
    requires p in ps
    ensures p in InCategory(ps, Categories()[CategoryIndex(p)])
    ensures forall k :: 0 <= k < |Categories()| && k != CategoryIndex(p) ==>
      p !in InCategory(ps, Categories()[k])
  {
    CategoriesDistinct();
    InCategoryMembers(ps, Categories()[CategoryIndex(p)], p);
    forall k | 0 <= k < |Categories()| && k != CategoryIndex(p)
      ensures p !in InCategory(ps, Categories()[k])
    {
      InCategoryMembers(ps, Categories()[k], p);
    }
  }

  /** Total length of the lists of the categories `cs`. */
  function SumSizes(ps: seq<string>, cs: seq<string>): nat
  {
    if |cs| == 0 then 0 else |InCategory(ps, cs[0])| + SumSizes(ps, cs[1..])
  }

  lemma {:induction false} SumSizesStep(ps: seq<string>, p: string, cs: seq<string>)
    requires Distinct(cs)
    ensures SumSizes(ps + [p], cs) == SumSizes(ps, cs) + (if CategoryOf(p) in cs then 1 else 0)
  {
    assert (ps + [p])[..|ps|] == ps;
    if |cs| > 0 {
      SumSizesStep(ps, p, cs[1..]);
      assert CategoryOf(p) in cs <==> CategoryOf(p) == cs[0] || CategoryOf(p) in cs[1..];
    }
  }

  lemma {:induction false} SumSizesEmpty(cs: seq<string>)
    ensures SumSizes([], cs) == 0
  {
    if |cs| > 0 {
      SumSizesEmpty(cs[1..]);
    }
  }

  /** The lists together hold as many names as the input. */
  lemma {:induction false} PartitionSize(ps: seq<string>)
    ensures SumSizes(ps, Categories()) == |ps|
  {
    CategoriesDistinct();
    if |ps| == 0 {
      SumSizesEmpty(Categories());
    } else {
      var init := ps[..|ps| - 1];
      var p := ps[|ps| - 1];
      PartitionSize(init);
      SumSizesStep(init, p, Categories());
      assert CategoryOf(p) in Categories();
      assert ps == init + [p];
    }
  }

  /** The positions of the names of `ps` placed in category `c`, ascending. */
  function Positions(ps: seq<string>, c: string): seq<nat>
  {
    if |ps| == 0 then []
    else Positions(ps[..|ps| - 1], c) + (if CategoryOf(ps[|ps| - 1]) == c then [|ps| - 1] else [])
  }

  lemma {:induction false} PositionsSelect(ps: seq<string>, c: string)
    ensures |Positions(ps, c)| == |InCategory(ps, c)|
    ensures forall k :: 0 <= k < |Positions(ps, c)| ==>
      Positions(ps, c)[k] < |ps| && ps[Positions(ps, c)[k]] == InCategory(ps, c)[k]
  {
    if |ps| > 0 {
      var n := |ps| - 1;
      var init := ps[..n];
      PositionsSelect(init, c);
      var prev := Positions(init, c);
      var sub := InCategory(init, c);
      var hit := CategoryOf(ps[n]) == c;
      assert Positions(ps, c) == prev + (if hit then [n] else []);
      assert InCategory(ps, c) == sub + (if hit then [ps[n]] else []);
      forall k | 0 <= k < |prev|
        ensures ps[prev[k]] == sub[k]
      {
        assert ps[prev[k]] == init[prev[k]];
      }
    }
  }

  lemma {:induction false} PositionsIncreasing(ps: seq<string>, c: string)
    ensures forall k :: 0 <= k < |Positions(ps, c)| ==> Positions(ps, c)[k] < |ps|
    ensures forall k, l :: 0 <= k < l < |Positions(ps, c)| ==> Positions(ps, c)[k] < Positions(ps, c)[l]
  {
    if |ps| > 0 {
      var n := |ps| - 1;
      PositionsIncreasing(ps[..n], c);
      var prev := Positions(ps[..n], c);
      var hit := CategoryOf(ps[n]) == c;
      assert Positions(ps, c) == prev + (if hit then [n] else []);
    }
  }

  lemma {:induction false} PositionsExact(ps: seq<string>, c: string)
    ensures forall i :: 0 <= i < |ps| ==> (CategoryOf(ps[i]) == c <==> i in Positions(ps, c))
  {
    if |ps| > 0 {
      var n := |ps| - 1;
      var init := ps[..n];
      var prev := Positions(init, c);
      var hit := CategoryOf(ps[n]) == c;
      var all := Positions(ps, c);
      assert all == prev + (if hit then [n] else []);
      PositionsExact(init, c);
      PositionsIncreasing(init, c);
      forall i | 0 <= i < |ps|
        ensures CategoryOf(ps[i]) == c <==> i in all
      {
        if i < n {
          assert ps[i] == init[i];
          assert i in all <==> i in prev;
        } else {
          assert n !in prev;
        }
      }
    }
  }

  /** Each list keeps input order: it is the input at the increasing
      positions `idx`, which are exactly the positions of names of `c`. */
  lemma InCategoryOrder(ps: seq<string>, c: string) returns (idx: seq<nat>)
    ensures |idx| == |InCategory(ps, c)|
    ensures forall k :: 0 <= k < |idx| ==> idx[k] < |ps| && ps[idx[k]] == InCategory(ps, c)[k]
    ensures forall k, l :: 0 <= k < l < |idx| ==> idx[k] < idx[l]
    ensures forall i :: 0 <= i < |ps| ==> (CategoryOf(ps[i]) == c <==> i in idx)
  {
    idx := Positions(ps, c);
    PositionsSelect(ps, c);
    PositionsIncreasing(ps, c);
    PositionsExact(ps, c);
  }

  /** Matching is case-insensitive: a name and its lowercase form are
      placed in the same category. */
  lemma CaseInsensitive(name: string)
    ensures CategoryOf(ToLower(name)) == CategoryOf(name)
  {
    ToLowerIdempotent(name);
  }

  /** A name without upper-case letters is its own lowercase form. */
  lemma ToLowerNoUpper(s: string)
    requires forall i :: 0 <= i < |s| ==> !('A' <= s[i] <= 'Z')
    ensures ToLower(s) == s
  {
  }

  /** "auth_search" matches an Authentication pattern and a Search/Filter
      pattern; the earlier-declared Authentication wins. */
  lemma AuthSearchIsAuthentication()
    ensures AnyMatch("auth_search", Rules[0].patterns) && AnyMatch("auth_search", Rules[4].patterns)
    ensures CategoryOf("auth_search") == "Authentication"
  {
    var s := "auth_search";
    ToLowerNoUpper(s);
    assert OccursAt(s, "auth", 0);
    ContainsAt(s, "auth", 0);
    assert "auth" in Rules[0].patterns;
    assert OccursAt(s, "search", 5);
    ContainsAt(s, "search", 5);
  }

  /** No pattern of the list occurs when none of their first letters does. */
  lemma NoMatchWithoutFirstChars(s: string, patterns: seq<string>)
    requires forall p :: p in patterns ==> |p| > 0 && p[0] !in s
    ensures !AnyMatch(s, patterns)
  {
    forall p | p in patterns
      ensures !Contains(s, p)
    {
      NotContainsWithoutFirstChar(s, p);
    }
  }

  /** A name that matches none of the six rules falls through the table. */
  lemma NoRuleMatches(lower: string)
    requires !AnyMatch(lower, Rules[0].patterns) && !AnyMatch(lower, Rules[1].patterns)
    requires !AnyMatch(lower, Rules[2].patterns) && !AnyMatch(lower, Rules[3].patterns)
    requires !AnyMatch(lower, Rules[4].patterns) && !AnyMatch(lower, Rules[5].patterns)
    ensures FirstRuleFrom(lower, 0) == |Rules|
  {
    assert FirstRuleFrom(lower, 5) == 6;
    assert FirstRuleFrom(lower, 4) == 6;
    assert FirstRuleFrom(lower, 3) == 6;
    assert FirstRuleFrom(lower, 2) == 6;
    assert FirstRuleFrom(lower, 1) == 6;
  }

  /** The first letters of all patterns. */
  const PatternInitials: string := "tsapkquofdbcrlvm"

  /** A name whose lowercase form has none of the first letters of the
      patterns matches no rule and is Unknown. */
  lemma NoInitialsIsUnknown(name: string)
    requires forall c :: c in ToLower(name) ==> c !in PatternInitials
    ensures CategoryOf(name) == Unknown
  {
    var lower := ToLower(name);
    assert !AnyMatch(lower, Rules[0].patterns) by { NoMatchWithoutFirstChars(lower, Rules[0].patterns); }
    assert !AnyMatch(lower, Rules[1].patterns) by { NoMatchWithoutFirstChars(lower, Rules[1].patterns); }
    assert !AnyMatch(lower, Rules[2].patterns) by { NoMatchWithoutFirstChars(lower, Rules[2].patterns); }
    assert !AnyMatch(lower, Rules[3].patterns) by { NoMatchWithoutFirstChars(lower, Rules[3].patterns); }
    assert !AnyMatch(lower, Rules[4].patterns) by { NoMatchWithoutFirstChars(lower, Rules[4].patterns); }
    assert !AnyMatch(lower, Rules[5].patterns) by { NoMatchWithoutFirstChars(lower, Rules[5].patterns); }
    NoRuleMatches(lower);
    assert Categories()[|Rules|] == Unknown;
  }

  /** "xyz123" contains none of the patterns and is Unknown. */
  lemma NoPatternIsUnknown()
    ensures CategoryOf("xyz123") == Unknown
  {
    var name := "xyz123";
    ToLowerNoUpper(name);
    forall c | c in ToLower(name)
      ensures c !in PatternInitials
    {
      assert c == 'x' || c == 'y' || c == 'z' || c == '1' || c == '2' || c == '3';
    }
    NoInitialsIsUnknown(name);
  }

  /** The Kelvin sign is not an ASCII letter, so the model keeps it in
      `"\U{212A}ey"` and the name matches nothing. */
  lemma KelvinSignIsUnknown()
    ensures CategoryOf("\U{212A}ey") == Unknown
  {
    var name := "\U{212A}ey";
    ToLowerNoUpper(name);
    forall c | c in ToLower(name)
      ensures c !in PatternInitials
    {
      assert c == '\U{212A}' || c == 'e' || c == 'y';
    }
    NoInitialsIsUnknown(name);
  }

  /** The one-letter pattern "q" catches every name containing `q` (in
      either case) that the four earlier rules do not. */
  lemma ContainsQIsSearch(name: string)
    requires Contains(ToLower(name), "q")
    requires forall k :: 0 <= k < 4 ==> !AnyMatch(ToLower(name), Rules[k].patterns)
    ensures CategoryOf(name) == "Search/Filter"
  {
    assert "q" in Rules[4].patterns;
    assert FirstRuleFrom(ToLower(name), 0) == 4;
  }
}
