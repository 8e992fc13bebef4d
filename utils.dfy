/** `Utils.sanitize_filename`: every character that is not allowed in a
    file name is replaced by `_`, one character at a time, and the result
    is cut to 255 characters. */
module Utils {
  import opened Text

  /** The characters replaced, in the order the loop visits them. */
  const InvalidChars: string := "<>:\"/\\|?*"

  /** The longest name returned. */
  const MaxLength: nat := 255

  /** `s.replace(c, d)` for single characters. */
  function ReplaceChar(s: string, c: char, d: char): (r: string)
    ensures |r| == |s|
    ensures forall i :: 0 <= i < |s| ==> r[i] == (if s[i] == c then d else s[i])
  {
    seq(|s|, i requires 0 <= i < |s| => if s[i] == c then d else s[i])
  }

  /** `s.replace(c, d)` equals `d.join(s.split(c))`: every occurrence of
      `c` is replaced and the text between occurrences is kept. */
  lemma {:induction false} ReplaceCharIsSplitJoin(s: string, c: char, d: char)
    ensures ReplaceChar(s, c, d) == Join(Split(s, c), d)
    decreases |s|
  {
    var i := IndexOf(s, c);
    if i == |s| {
      assert ReplaceChar(s, c, d) == s;
    } else {
      var p := s[..i];
      var rest := s[i + 1..];
      var pieces := Split(rest, c);
      assert Split(s, c) == [p] + pieces;
      assert ([p] + pieces)[1..] == pieces;
      assert Join(Split(s, c), d) == p + [d] + Join(pieces, d);
      assert s == p + [c] + rest;
      ReplaceCharCons(p, c, d, rest);
      ReplaceCharIsSplitJoin(rest, c, d);
    }
  }

  /** Replacing in a piece without `c`, then `c`, then the rest. */
  lemma ReplaceCharCons(p: string, c: char, d: char, rest: string)
    requires c !in p
    ensures ReplaceChar(p + [c] + rest, c, d) == p + [d] + ReplaceChar(rest, c, d)
  {
    var s := p + [c] + rest;
    var r := ReplaceChar(s, c, d);
    var t := p + [d] + ReplaceChar(rest, c, d);
    forall k | 0 <= k < |s|
      ensures r[k] == t[k]
    {
      if k < |p| {
        assert s[k] == p[k];
      } else if k > |p| {
        assert s[k] == rest[k - |p| - 1];
      }
    }
  }

  /** The character kept at one position of the name. */
  function SafeChar(c: char): char
  {
    if c in InvalidChars then '_' else c
  }

  function Min(a: nat, b: nat): nat
  {
    if a <= b then a else b
  }

  /** The sanitised name: each of the first 255 characters made safe. */
  function Sanitized(s: string): string
  {
    seq(Min(|s|, MaxLength), i requires 0 <= i < Min(|s|, MaxLength) => SafeChar(s[i]))
  }

  /** `sanitize_filename`: one `replace` per invalid character, then the
      slice `[:255]`. */
  method SanitizeFilename(filename: string) returns (r: string)
    ensures |r| == Min(|filename|, MaxLength)
    ensures forall i :: 0 <= i < |r| ==>
      r[i] == (if filename[i] in InvalidChars then '_' else filename[i])
    ensures r == Sanitized(filename)
  {
    var name := filename;
    for j := 0 to |InvalidChars|
      invariant |name| == |filename|
      invariant forall i :: 0 <= i < |name| ==>
        name[i] == (if filename[i] in InvalidChars[..j] then '_' else filename[i])
    {
      assert InvalidChars[..j + 1] == InvalidChars[..j] + [InvalidChars[j]];
      name := ReplaceChar(name, InvalidChars[j], '_');
    }
    assert InvalidChars[..|InvalidChars|] == InvalidChars;
    r := name[..Min(|name|, MaxLength)];
  }

  /** The result holds none of the invalid characters. */
  lemma SanitizedHasNoInvalid(s: string)
    ensures forall i :: 0 <= i < |Sanitized(s)| ==> Sanitized(s)[i] !in InvalidChars
  {
    assert '_' !in InvalidChars;
  }

  /** The length is that of the input, capped at 255. */
  lemma SanitizedLength(s: string)
    ensures |Sanitized(s)| == Min(|s|, MaxLength)
    ensures |Sanitized(s)| <= MaxLength
  {
  }

  /** Sanitising a sanitised name changes nothing. */
  lemma SanitizeIdempotent(s: string)
    ensures Sanitized(Sanitized(s)) == Sanitized(s)
  {
    var t := Sanitized(s);
    SanitizedHasNoInvalid(s);
    assert forall i :: 0 <= i < |t| ==> SafeChar(t[i]) == t[i];
  }

  /** A short name with no invalid character comes back unchanged. */
  lemma SanitizeKeepsValid(s: string)
    requires |s| <= MaxLength
    requires forall i :: 0 <= i < |s| ==> s[i] !in InvalidChars
    ensures Sanitized(s) == s
  {
    assert forall i :: 0 <= i < |s| ==> SafeChar(s[i]) == s[i];
  }
}
