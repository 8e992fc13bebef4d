/** The Python string built-ins the core relies on: `str.lower`, the `in`
    operator on strings, `str.split` with a one-character separator and
    `str.strip` with no argument. */
module Text {

  /** `str.lower` on one character, for the ASCII letters. */
  function LowerChar(c: char): (r: char)
  {
    if 'A' <= c <= 'Z' then (c as int + 32) as char else c
  }

  /** `str.lower`: maps every character independently. */
  function ToLower(s: string): (r: string)
    ensures |r| == |s|
    ensures forall i :: 0 <= i < |s| ==> r[i] == LowerChar(s[i])
  {
    seq(|s|, i requires 0 <= i < |s| => LowerChar(s[i]))
  }

  /** Lowercasing a lowercased string changes nothing. */
  lemma ToLowerIdempotent(s: string)
    ensures ToLower(ToLower(s)) == ToLower(s)
  {
    assert forall i :: 0 <= i < |s| ==> LowerChar(LowerChar(s[i])) == LowerChar(s[i]);
  }

  /** `p` occurs in `s` starting at offset `i`. */
  predicate OccursAt(s: string, p: string, i: int)
  {
    0 <= i && i + |p| <= |s| && s[i..i + |p|] == p
  }

  /** Python's `p in s` for strings: `p` occurs as a contiguous substring. */
  function Contains(s: string, p: string): bool
    decreases |s|
  {
    if |p| > |s| then false
    else if s[..|p|] == p then true
    else Contains(s[1..], p)
  }

  /** `Contains` holds exactly when `p` occurs at some offset of `s`. */
  lemma {:induction false} ContainsIff(s: string, p: string)
    ensures Contains(s, p) <==> exists i :: OccursAt(s, p, i)
    decreases |s|
  {
    if |p| > |s| {
    } else if s[..|p|] == p {
      assert OccursAt(s, p, 0);
    } else {
      ContainsIff(s[1..], p);
      if Contains(s[1..], p) {
        var i :| OccursAt(s[1..], p, i);
        OccursShift(s, p, i + 1);
      } else {
        forall i | OccursAt(s, p, i)
          ensures i > 0
        {
          assert s[..|p|] == s[0..|p|];
        }
        forall i | 0 < i
          ensures !OccursAt(s, p, i)
        {
          OccursShift(s, p, i);
        }
      }
    }
  }

  /** An occurrence past the first offset is an occurrence in the tail. */
  lemma OccursShift(s: string, p: string, i: int)
    requires 0 < i && 0 < |s|
    ensures OccursAt(s, p, i) <==> OccursAt(s[1..], p, i - 1)
  {
    if i + |p| <= |s| {
      assert s[i..i + |p|] == s[1..][i - 1..i - 1 + |p|];
    }
  }

  /** An occurrence at a known offset is enough. */
  lemma ContainsAt(s: string, p: string, i: nat)
    requires OccursAt(s, p, i)
    ensures Contains(s, p)
  {
    ContainsIff(s, p);
  }

  /** A non-empty pattern whose first character is absent does not occur. */
  lemma NotContainsWithoutFirstChar(s: string, p: string)
    requires |p| > 0 && p[0] !in s
    ensures !Contains(s, p)
  {
    ContainsIff(s, p);
  }

  /** Index of the first `c` in `s`, or `|s|` when there is none. */
  function IndexOf(s: string, c: char): (i: nat)
    ensures i <= |s|
    ensures c !in s[..i]
    ensures i < |s| ==> s[i] == c
    ensures i == |s| <==> c !in s
  {
    if |s| == 0 then 0
    else if s[0] == c then 0
    else
      var j := IndexOf(s[1..], c);
      assert s[..j + 1] == [s[0]] + s[1..][..j];
      1 + j
  }

  /** `s.split(sep)` for a one-character separator: the pieces between
      consecutive separators, including empty ones. */
  function Split(s: string, sep: char): (pieces: seq<string>)
    ensures |pieces| >= 1
    ensures forall k :: 0 <= k < |pieces| ==> sep !in pieces[k]
    decreases |s|
  {
    var i := IndexOf(s, sep);
    if i == |s| then [s] else [s[..i]] + Split(s[i + 1..], sep)
  }

  /** `sep.join(pieces)`, the inverse of `Split`. */
  function Join(pieces: seq<string>, sep: char): string
    requires |pieces| >= 1
  {
    if |pieces| == 1 then pieces[0] else pieces[0] + [sep] + Join(pieces[1..], sep)
  }

  /** Joining the pieces of a split gives back the string. */
  lemma {:induction false} JoinSplit(s: string, sep: char)
    ensures Join(Split(s, sep), sep) == s
    decreases |s|
  {
    var i := IndexOf(s, sep);
    if i < |s| {
      var rest := Split(s[i + 1..], sep);
      assert Split(s, sep) == [s[..i]] + rest;
      assert ([s[..i]] + rest)[1..] == rest;
      JoinSplit(s[i + 1..], sep);
      assert Join(Split(s, sep), sep) == s[..i] + [sep] + Join(rest, sep);
      assert s == s[..i] + [sep] + s[i + 1..];
    }
  }

  /** Splitting a join of separator-free pieces gives back the pieces. */
  lemma {:induction false} SplitJoin(pieces: seq<string>, sep: char)
    requires |pieces| >= 1
    requires forall k :: 0 <= k < |pieces| ==> sep !in pieces[k]
    ensures Split(Join(pieces, sep), sep) == pieces
    decreases |pieces|
  {
    if |pieces| == 1 {
      assert IndexOf(pieces[0], sep) == |pieces[0]|;
    } else {
      var tail := pieces[1..];
      assert Join(pieces, sep) == pieces[0] + [sep] + Join(tail, sep);
      SplitCons(pieces[0], sep, Join(tail, sep));
      assert forall k :: 0 <= k < |tail| ==> tail[k] == pieces[k + 1];
      SplitJoin(tail, sep);
      assert pieces == [pieces[0]] + tail;
    }
  }

  /** A separator-free piece followed by the separator splits off first. */
  lemma SplitCons(p: string, sep: char, rest: string)
    requires sep !in p
    ensures Split(p + [sep] + rest, sep) == [p] + Split(rest, sep)
  {
    var s := p + [sep] + rest;
    assert s[..|p|] == p;
    assert s[|p| + 1..] == rest;
    forall k | 0 <= k < |p|
      ensures s[k] != sep
    {
      assert s[k] == p[k];
    }
    IndexOfAt(s, sep, |p|);
  }

  /** `IndexOf` is determined by its contract: the first `c` is at the
      `i` before which there is none and at which there is one (or the
      string ends). */
  lemma {:induction false} IndexOfAt(s: string, c: char, i: nat)
    requires i <= |s|
    requires forall k :: 0 <= k < i ==> s[k] != c
    requires i < |s| ==> s[i] == c
    ensures IndexOf(s, c) == i
    decreases i
  {
    if i > 0 {
      IndexOfAt(s[1..], c, i - 1);
    }
  }

  /** The first piece of a split is the text before the first separator. */
  lemma SplitFirstPiece(s: string, sep: char)
    ensures Split(s, sep)[0] == s[..IndexOf(s, sep)]
  {
  }

  /** The whitespace that `str.strip` removes, restricted to ASCII:
      space, tab, line feed, vertical tab, form feed, carriage return and
      the four separators 0x1C..0x1F. */
  predicate IsSpace(c: char)
  {
    c == ' ' || ('\t' <= c <= '\r') || ('\U{1C}' <= c <= '\U{1F}')
  }

  /** Number of leading whitespace characters. */
  function LeadingSpace(s: string): (n: nat)
    ensures n <= |s|
    ensures forall k :: 0 <= k < n ==> IsSpace(s[k])
    ensures n < |s| ==> !IsSpace(s[n])
  {
    if |s| > 0 && IsSpace(s[0]) then 1 + LeadingSpace(s[1..]) else 0
  }

  /** Number of trailing whitespace characters. */
  function TrailingSpace(s: string): (n: nat)
    ensures n <= |s|
    ensures forall k :: |s| - n <= k < |s| ==> IsSpace(s[k])
    ensures n < |s| ==> !IsSpace(s[|s| - 1 - n])
  {
    if |s| > 0 && IsSpace(s[|s| - 1]) then 1 + TrailingSpace(s[..|s| - 1]) else 0
  }

  /** `LeadingSpace` is determined by its contract. */
  lemma {:induction false} LeadingSpaceAt(s: string, n: nat)
    requires n <= |s|
    requires forall k :: 0 <= k < n ==> IsSpace(s[k])
    requires n < |s| ==> !IsSpace(s[n])
    ensures LeadingSpace(s) == n
    decreases n
  {
    if n > 0 {
      LeadingSpaceAt(s[1..], n - 1);
    }
  }

  /** `TrailingSpace` is determined by its contract. */
  lemma {:induction false} TrailingSpaceAt(s: string, n: nat)
    requires n <= |s|
    requires forall k :: |s| - n <= k < |s| ==> IsSpace(s[k])
    requires n < |s| ==> !IsSpace(s[|s| - 1 - n])
    ensures TrailingSpace(s) == n
    decreases n
  {
    if n > 0 {
      TrailingSpaceAt(s[..|s| - 1], n - 1);
    }
  }

  /** `str.strip()`: the input without its leading and trailing whitespace. */
  function Strip(s: string): (r: string)
    ensures |r| <= |s|
    ensures r == [] || (!IsSpace(r[0]) && !IsSpace(r[|r| - 1]))
  {
    var i := LeadingSpace(s);
    var j := TrailingSpace(s[i..]);
    s[i..|s| - j]
  }

  /** What `Strip` keeps is a slice of `s` with only whitespace before
      and after it. */
  lemma StripRemovesOnlySpace(s: string)
    ensures exists i ::
      && OccursAt(s, Strip(s), i)
      && (forall k :: 0 <= k < i ==> IsSpace(s[k]))
      && (forall k :: i + |Strip(s)| <= k < |s| ==> IsSpace(s[k]))
  {
    var i := LeadingSpace(s);
    var j := TrailingSpace(s[i..]);
    var r := Strip(s);
    assert r == s[i..i + |r|];
    assert OccursAt(s, r, i);
    forall k | i + |r| <= k < |s| ensures IsSpace(s[k]) {
      assert s[k] == s[i..][k - i];
    }
  }

  /** Stripping twice is stripping once. */
  lemma StripIdempotent(s: string)
    ensures Strip(Strip(s)) == Strip(s)
  {
    var r := Strip(s);
    assert LeadingSpace(r) == 0;
    assert TrailingSpace(r[0..]) == 0 by {
      assert r[0..] == r;
    }
  }
}
