/** The JavaScript string and array operations the archive code relies on,
    each given the meaning the language assigns it. */
module Strings {
  import opened Wrappers

  /** `pat` occurs in `s` starting at index `i`. */
  predicate OccursAt(s: string, pat: string, i: int)
  {
    0 <= i && i + |pat| <= |s| && s[i..i + |pat|] == pat
  }

  predicate Occurs(s: string, pat: string)
  {
    exists i :: 0 <= i <= |s| && OccursAt(s, pat, i)
  }

  /** `i` is the first index at which `pat` occurs in `s`. */
  predicate FirstOccurrence(s: string, pat: string, i: int)
  {
    OccursAt(s, pat, i) && forall j :: 0 <= j < i ==> !OccursAt(s, pat, j)
  }

  /** The first occurrence of `pat` at or after `from` (the source only searches from 0). */
  function IndexFrom(s: string, pat: string, from: nat): (r: Option<nat>)
    ensures r.Some? ==> from <= r.value && OccursAt(s, pat, r.value)
    ensures r.Some? ==> forall j :: from <= j < r.value ==> !OccursAt(s, pat, j)
    ensures r.None? ==> forall j :: from <= j ==> !OccursAt(s, pat, j)
    decreases |s| - from
  {
    if from + |pat| > |s| then None
    else if s[from..from + |pat|] == pat then Some(from)
    else IndexFrom(s, pat, from + 1)
  }

  /** `s.indexOf(pat)`; an empty pattern is found at index 0. */
  function IndexOf(s: string, pat: string): (r: Option<nat>)
    ensures r.Some? <==> Occurs(s, pat)
    ensures r.Some? ==> FirstOccurrence(s, pat, r.value)
  {
    IndexFrom(s, pat, 0)
  }

  lemma FirstOccurrenceUnique(s: string, pat: string, i: int, j: int)
    requires FirstOccurrence(s, pat, i) && FirstOccurrence(s, pat, j)
    ensures i == j
  {
  }

  /** Replaces the first occurrence of `pat` in `s` by `rep`, taken literally;
      `s` is returned unchanged when `pat` does not occur. */
  function ReplaceFirst(s: string, pat: string, rep: string): (r: string)
    ensures !Occurs(s, pat) ==> r == s
    ensures forall i :: FirstOccurrence(s, pat, i) ==> r == s[..i] + rep + s[i + |pat|..]
  {
    match IndexOf(s, pat)
    case None => s
    case Some(i) =>
      assert forall k :: FirstOccurrence(s, pat, k) ==> k == i by {
        forall k | FirstOccurrence(s, pat, k) {
          FirstOccurrenceUnique(s, pat, i, k);
        }
      }
      s[..i] + rep + s[i + |pat|..]
  }

  /** Only the first occurrence is replaced: when `pat` occurs twice without overlap
      and the replacement is made, `pat` still occurs in the result. */
  lemma ReplaceFirstKeepsLaterOccurrence(s: string, pat: string, rep: string, i: int, j: int)
    requires FirstOccurrence(s, pat, i) && OccursAt(s, pat, j) && i + |pat| <= j
    ensures OccursAt(ReplaceFirst(s, pat, rep), pat, j - |pat| + |rep|)
  {
    OccursInSuffix(s[..i] + rep, s, i + |pat|, j, pat, j - |pat| + |rep|);
    ReplaceFirstOccursAt(s, pat, rep, i, j - |pat| + |rep|);
  }

  lemma ReplaceFirstOccursAt(s: string, pat: string, rep: string, i: int, k: int)
    requires FirstOccurrence(s, pat, i)
    ensures OccursAt(ReplaceFirst(s, pat, rep), pat, k) == OccursAt(s[..i] + rep + s[i + |pat|..], pat, k)
  {
    ReplaceFirstAt(s, pat, rep, i);
  }

  lemma ReplaceFirstAt(s: string, pat: string, rep: string, i: int)
    requires FirstOccurrence(s, pat, i)
    ensures ReplaceFirst(s, pat, rep) == s[..i] + rep + s[i + |pat|..]
  {
  }

  /** An occurrence in `s` at or after `a` survives when `s[..a]` is replaced by `head`. */
  lemma OccursInSuffix(head: string, s: string, a: int, j: int, pat: string, k: int)
    requires 0 <= a <= j && OccursAt(s, pat, j) && k == |head| + j - a
    ensures OccursAt(head + s[a..], pat, k)
  {
    SliceOfConcat(head, s[a..], j - a, j - a + |pat|);
    SliceOfSuffix(s, a, j - a, j - a + |pat|);
  }

  lemma SliceOfSuffix<T>(s: seq<T>, a: int, x: int, y: int)
    requires 0 <= a <= |s| && 0 <= x <= y <= |s| - a
    ensures s[a..][x..y] == s[a + x..a + y]
  {
  }

  lemma SliceOfConcat<T>(a: seq<T>, b: seq<T>, x: int, y: int)
    requires 0 <= x <= y <= |b|
    ensures (a + b)[|a| + x..|a| + y] == b[x..y]
  {
  }

  /** The expansion `String.prototype.replace` applies to its replacement argument even
      when the search value is a plain string (the GetSubstitution operation of ECMA-262):
      `$$` is a dollar, `$&` the matched text, `` $` `` the text before the match and
      `$'` the text after it; any other `$` stands for itself. There are no capture groups,
      so `$1` and `$<` are kept as written. */
  function Substitution(rep: string, matched: string, before: string, after: string): string
    decreases |rep|
  {
    if |rep| == 0 then []
    else if rep[0] == '$' && |rep| >= 2 && rep[1] in "$&`'" then
      (if rep[1] == '$' then "$"
       else if rep[1] == '&' then matched
       else if rep[1] == '`' then before
       else after)
      + Substitution(rep[2..], matched, before, after)
    else [rep[0]] + Substitution(rep[1..], matched, before, after)
  }

  lemma {:induction false} SubstitutionWithoutDollar(rep: string, matched: string, before: string, after: string)
    requires '$' !in rep
    ensures Substitution(rep, matched, before, after) == rep
    decreases |rep|
  {
    if |rep| > 0 {
      assert rep == [rep[0]] + rep[1..];
      SubstitutionWithoutDollar(rep[1..], matched, before, after);
    }
  }

  lemma {:induction false} SubstitutionPlainPrefix(p: string, rest: string, matched: string, before: string, after: string)
    requires '$' !in p
    ensures Substitution(p + rest, matched, before, after) == p + Substitution(rest, matched, before, after)
    decreases |p|
  {
    if |p| == 0 {
      assert p + rest == rest;
    } else {
      assert (p + rest)[0] == p[0] && (p + rest)[1..] == p[1..] + rest;
      SubstitutionPlainPrefix(p[1..], rest, matched, before, after);
      assert [p[0]] + p[1..] == p;
    }
  }

  /** A replacement ending in `$&` ends in the matched text instead. */
  lemma DollarAmpersand(p: string, matched: string, before: string, after: string)
    requires '$' !in p
    ensures Substitution(p + "$&", matched, before, after) == p + matched
  {
    SubstitutionPlainPrefix(p, "$&", matched, before, after);
    assert "$&"[2..] == [];
  }

  /** `s.replace(pat, rep)` as the language defines it for a string `pat`: the first
      occurrence is replaced by the expansion of `rep`. */
  function JsReplace(s: string, pat: string, rep: string): (r: string)
    ensures '$' !in rep ==> r == ReplaceFirst(s, pat, rep)
    ensures !Occurs(s, pat) ==> r == s
  {
    match IndexOf(s, pat)
    case None => s
    case Some(i) =>
      SubstitutionWithoutDollarIf(rep, pat, s[..i], s[i + |pat|..]);
      s[..i] + Substitution(rep, pat, s[..i], s[i + |pat|..]) + s[i + |pat|..]
  }

  lemma JsReplaceAt(s: string, pat: string, rep: string, i: int)
    requires FirstOccurrence(s, pat, i)
    ensures JsReplace(s, pat, rep) == s[..i] + Substitution(rep, pat, s[..i], s[i + |pat|..]) + s[i + |pat|..]
  {
    FirstOccurrenceUnique(s, pat, i, IndexOf(s, pat).value);
  }

  lemma SubstitutionWithoutDollarIf(rep: string, matched: string, before: string, after: string)
    ensures '$' !in rep ==> Substitution(rep, matched, before, after) == rep
  {
    if '$' !in rep {
      SubstitutionWithoutDollar(rep, matched, before, after);
    }
  }

  /** `parts.join(sep)` for a one-character separator. */
  function Join(parts: seq<string>, sep: char): string
  {
    if |parts| == 0 then []
    else if |parts| == 1 then parts[0]
    else parts[0] + [sep] + Join(parts[1..], sep)
  }

  /** The inverse of `Join`: the pieces of `s` between occurrences of `sep`. */
  function Split(s: string, sep: char): (r: seq<string>)
    ensures |r| >= 1
    decreases |s|
  {
    if |s| == 0 then [[]]
    else
      var rest := Split(s[1..], sep);
      if s[0] == sep then [[]] + rest
      else [[s[0]] + rest[0]] + rest[1..]
  }

  lemma {:induction false} SplitAfterPlainPrefix(a: string, s: string, sep: char)
    requires sep !in a
    ensures Split(a + s, sep) == [a + Split(s, sep)[0]] + Split(s, sep)[1..]
    decreases |a|
  {
    if |a| > 0 {
      assert (a + s)[1..] == a[1..] + s;
      assert (a + s)[0] == a[0];
      SplitAfterPlainPrefix(a[1..], s, sep);
      assert [a[0]] + (a[1..] + Split(s, sep)[0]) == a + Split(s, sep)[0];
    } else {
      var r := Split(s, sep);
      assert a + s == s;
      assert a + r[0] == r[0];
      assert [r[0]] + r[1..] == r;
    }
  }

  /** Joining lines that do not contain the separator and splitting the result
      gives the lines back. */
  lemma {:induction false} SplitJoin(parts: seq<string>, sep: char)
    requires |parts| >= 1
    requires forall i :: 0 <= i < |parts| ==> sep !in parts[i]
    ensures Split(Join(parts, sep), sep) == parts
    decreases |parts|
  {
    if |parts| == 1 {
      SplitAfterPlainPrefix(parts[0], [], sep);
      assert parts[0] + [] == parts[0];
    } else {
      var rest := Join(parts[1..], sep);
      SplitJoin(parts[1..], sep);
      assert Join(parts, sep) == parts[0] + ([sep] + rest);
      SplitAfterPlainPrefix(parts[0], [sep] + rest, sep);
      assert ([sep] + rest)[1..] == rest;
      assert Split([sep] + rest, sep) == [[]] + parts[1..];
      assert parts[0] + [] == parts[0];
    }
  }

  /** `a.reverse()`: the element at `i` is the one that was at `|s| - 1 - i`. */
  function Reverse<T>(s: seq<T>): (r: seq<T>)
    ensures |r| == |s|
    ensures forall i :: 0 <= i < |s| ==> r[i] == s[|s| - 1 - i]
  {
    if |s| == 0 then [] else [s[|s| - 1]] + Reverse(s[..|s| - 1])
  }

  /** Reversing a concatenation reverses the order of the parts. */
  lemma ReverseConcat<T>(a: seq<T>, b: seq<T>)
    ensures Reverse(a + b) == Reverse(b) + Reverse(a)
  {
    var l, r := Reverse(a + b), Reverse(b) + Reverse(a);
    forall i | 0 <= i < |l|
      ensures l[i] == r[i]
    {
      if i < |b| {
        assert r[i] == b[|b| - 1 - i];
      } else {
        assert r[i] == Reverse(a)[i - |b|];
      }
    }
  }

  /** `s.slice(0, end)`: a negative `end` counts from the back. */
  function SliceTo<T>(s: seq<T>, end: int): (r: seq<T>)
    ensures end >= 0 ==> r == s[..Min(end, |s|)]
    ensures end < 0 ==> |r| == Max(0, |s| + end)
    ensures r <= s
  {
    if end >= 0 then s[..Min(end, |s|)] else s[..Max(0, |s| + end)]
  }
}
