/** The name-collecting part of `basic_parameter_extraction`: the query
    string of every URL is split on `&`, each piece holding a `=`
    contributes the text before its first `=`, and the distinct names are
    written out in sorted order. The query string of each URL is the
    input (URL parsing is not modelled). */
module Extraction {
  import opened Text
  import opened Order

  /** `param.split('=')[0]`: the name part of a `name=value` piece. */
  function NameOf(piece: string): (name: string)
    ensures '=' !in name
  {
    Split(piece, '=')[0]
  }

  /** The name is the text before the first `=`, so for a piece with a
      `=` the piece is the name, a `=`, and the value. */
  lemma NameOfPrefix(piece: string)
    requires '=' in piece
    ensures |NameOf(piece)| < |piece|
    ensures piece == NameOf(piece) + ['='] + piece[|NameOf(piece)| + 1..]
  {
    var i := IndexOf(piece, '=');
    SplitFirstPiece(piece, '=');
    assert piece == piece[..i] + [piece[i]] + piece[i + 1..];
  }

  /** Names contributed by the `&`-pieces of one query. */
  function PieceNames(pieces: seq<string>): set<string>
  {
    if |pieces| == 0 then {}
    else
      var last := pieces[|pieces| - 1];
      PieceNames(pieces[..|pieces| - 1]) + (if '=' in last then {NameOf(last)} else {})
  }

  /** Names contributed by one URL; an empty query contributes none. */
  function QueryNames(query: string): set<string>
  {
    if query == "" then {} else PieceNames(Split(query, '&'))
  }

  /** The set of names collected from all queries. */
  function ExtractedNames(queries: seq<string>): set<string>
  {
    if |queries| == 0 then {}
    else ExtractedNames(queries[..|queries| - 1]) + QueryNames(queries[|queries| - 1])
  }

  /** `basic_parameter_extraction` up to the file and database writes:
      the distinct collected names, in ascending order. */
  method BasicParameterExtraction(queries: seq<string>) returns (names: seq<string>)
    ensures StrictlySorted(names)
    ensures forall n :: n in names <==> n in ExtractedNames(queries)
    ensures |names| == |ExtractedNames(queries)|
  {
    var parameters: set<string> := {};
    for i := 0 to |queries|
      invariant parameters == ExtractedNames(queries[..i])
    {
      var query := queries[i];
      assert queries[..i + 1][..i] == queries[..i];
      if query != "" {
        var queryParams := Split(query, '&');
        for j := 0 to |queryParams|
          invariant parameters == ExtractedNames(queries[..i]) + PieceNames(queryParams[..j])
        {
          var param := queryParams[j];
          assert queryParams[..j + 1][..j] == queryParams[..j];
          if '=' in param {
            parameters := parameters + {Split(param, '=')[0]};
          }
        }
        assert queryParams[..|queryParams|] == queryParams;
      }
    }
    assert queries[..|queries|] == queries;
    names := SortedSet(parameters);
  }

  /** Piece `j` of query `i` holds a `=` and its name is `n`. */
  predicate NameAt(queries: seq<string>, i: int, j: int, n: string)
  {
    && 0 <= i < |queries| && queries[i] != ""
    && 0 <= j < |Split(queries[i], '&')|
    && '=' in Split(queries[i], '&')[j]
    && n == NameOf(Split(queries[i], '&')[j])
  }

  lemma {:induction false} PieceNamesIff(pieces: seq<string>, n: string)
    ensures n in PieceNames(pieces) <==> exists j :: 0 <= j < |pieces| && '=' in pieces[j] && n == NameOf(pieces[j])
  {
    if |pieces| > 0 {
      var init := pieces[..|pieces| - 1];
      PieceNamesIff(init, n);
      if n in PieceNames(init) {
        var j :| 0 <= j < |init| && '=' in init[j] && n == NameOf(init[j]);
        assert pieces[j] == init[j];
      }
      forall j | 0 <= j < |pieces| - 1 ensures pieces[j] == init[j] {}
    }
  }

  /** A name is collected exactly when some `&`-piece of a non-empty query
      holds a `=` and has that name before its first `=`; pieces without a
      `=` and empty queries contribute nothing. */
  lemma {:induction false} ExtractedNamesIff(queries: seq<string>, n: string)
    ensures n in ExtractedNames(queries) <==> exists i, j :: NameAt(queries, i, j, n)
  {
    if |queries| > 0 {
      var m := |queries| - 1;
      var init := queries[..m];
      ExtractedNamesIff(init, n);
      if queries[m] != "" {
        PieceNamesIff(Split(queries[m], '&'), n);
      }
      if n in ExtractedNames(init) {
        var i, j :| NameAt(init, i, j, n);
        assert queries[i] == init[i];
        assert NameAt(queries, i, j, n);
      }
      if n in QueryNames(queries[m]) {
        var j :| 0 <= j < |Split(queries[m], '&')| && '=' in Split(queries[m], '&')[j]
          && n == NameOf(Split(queries[m], '&')[j]);
        assert NameAt(queries, m, j, n);
      }
      forall i, j | NameAt(queries, i, j, n)
        ensures n in ExtractedNames(queries)
      {
        if i < m {
          assert queries[i] == init[i];
          assert NameAt(init, i, j, n);
        }
      }
    }
  }

  /** Collected names never hold a `&` or a `=`. */
  lemma ExtractedNamesClean(queries: seq<string>, n: string)
    requires n in ExtractedNames(queries)
    ensures '&' !in n && '=' !in n
  {
    ExtractedNamesIff(queries, n);
    var i, j :| NameAt(queries, i, j, n);
    var piece := Split(queries[i], '&')[j];
    NameOfPrefix(piece);
    assert forall k :: 0 <= k < |n| ==> n[k] == piece[k];
  }

  /** The name of `name=value` is `name`. */
  lemma NameOfPair(name: string, value: string)
    requires '=' !in name
    ensures NameOf(name + ['='] + value) == name
  {
    var piece := name + ['='] + value;
    assert piece[|name|] == '=';
    assert piece[..|name|] == name;
    assert IndexOf(piece, '=') == |name|;
    SplitFirstPiece(piece, '=');
  }

  /** The `name=value` pieces of a query. */
  function Pairs(names: seq<string>, values: seq<string>): (pieces: seq<string>)
    requires |names| == |values|
    ensures |pieces| == |names|
  {
    seq(|names|, k requires 0 <= k < |names| => names[k] + ['='] + values[k])
  }

  lemma {:induction false} PieceNamesOfPairs(names: seq<string>, values: seq<string>)
    requires |names| == |values|
    requires forall k :: 0 <= k < |names| ==> '=' !in names[k]
    ensures PieceNames(Pairs(names, values)) == set k | 0 <= k < |names| :: names[k]
  {
    if |names| > 0 {
      var m := |names| - 1;
      PieceNamesOfPairs(names[..m], values[..m]);
      assert Pairs(names, values)[..m] == Pairs(names[..m], values[..m]);
      var last := Pairs(names, values)[m];
      NameOfPair(names[m], values[m]);
      assert '=' in last by { assert last[|names[m]|] == '='; }
      assert (set k | 0 <= k < |names| :: names[k])
        == (set k | 0 <= k < m :: names[..m][k]) + {names[m]};
    }
  }

  /** Extraction inverts query building: the query joined with `&` from
      `name=value` pairs (names without `=`, nothing with `&`) yields
      exactly the names. */
  lemma QueryOfPairs(names: seq<string>, values: seq<string>)
    requires |names| == |values| >= 1
    requires forall k :: 0 <= k < |names| ==> '=' !in names[k] && '&' !in names[k] && '&' !in values[k]
    ensures QueryNames(Join(Pairs(names, values), '&')) == set k | 0 <= k < |names| :: names[k]
  {
    var pieces := Pairs(names, values);
    forall k | 0 <= k < |pieces|
      ensures '&' !in pieces[k]
    {
      assert forall c :: c in pieces[k] ==> c in names[k] || c == '=' || c in values[k];
    }
    SplitJoin(pieces, '&');
    PieceNamesOfPairs(names, values);
  }
}
