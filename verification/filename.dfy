/** The output file name of `process_video`: the generated title with every
    character other than a letter, a digit, a space or `_` removed, then
    right-stripped. */
module FileName {
  import opened PyStr

  /** The characters `c.isalnum() or c in (" ", "_")` keeps. */
  predicate IsSafe(c: char) {
    IsAlnum(c) || c == ' ' || c == '_'
  }

  predicate AllSafe(s: string) {
    forall j :: 0 <= j < |s| ==> IsSafe(s[j])
  }

  /** `"".join(c for c in s if c.isalnum() or c in (" ", "_"))`. */
  function KeepSafe(s: string): (r: string)
    ensures AllSafe(r)
    ensures |r| <= |s|
  {
    if |s| == 0 then []
    else if IsSafe(s[0]) then [s[0]] + KeepSafe(s[1..])
    else KeepSafe(s[1..])
  }

  /** Every safe character survives the filter as often as it occurred, and
      nothing else does. */
  lemma {:induction false} KeepSafeCounts(s: string)
    ensures forall c :: multiset(KeepSafe(s))[c] == if IsSafe(c) then multiset(s)[c] else 0
    decreases |s|
  {
    if |s| > 0 {
      KeepSafeCounts(s[1..]);
      assert s == [s[0]] + s[1..];
    }
  }

  /** The filter keeps the order of the characters: it works piece by piece. */
  lemma {:induction false} KeepSafeAppend(a: string, b: string)
    ensures KeepSafe(a + b) == KeepSafe(a) + KeepSafe(b)
    decreases |a|
  {
    if |a| > 0 {
      assert (a + b)[1..] == a[1..] + b;
      KeepSafeAppend(a[1..], b);
    } else {
      assert a + b == b;
    }
  }

  /** A string is left unchanged by the filter exactly when it is all safe. */
  lemma {:induction false} KeepSafeFixes(s: string)
    ensures AllSafe(s) <==> KeepSafe(s) == s
    decreases |s|
  {
    if |s| > 0 {
      KeepSafeFixes(s[1..]);
      if AllSafe(s) {
        assert [s[0]] + s[1..] == s;
      }
    }
  }

  /** `safe_title` of `process_video`: all safe characters of the title, in
      order, without the trailing spaces. */
  function Sanitize(title: string): (r: string)
    ensures AllSafe(r)
    ensures r == [] || r[|r| - 1] != ' '
    ensures |r| <= |KeepSafe(title)| && r == KeepSafe(title)[..|r|]
    ensures forall j :: |r| <= j < |KeepSafe(title)| ==> KeepSafe(title)[j] == ' '
  {
    var kept := KeepSafe(title);
    SafeTrimEnd(kept);
    TrimEnd(kept)
  }

  /** On safe text the only whitespace is the space, so `rstrip()` removes
      exactly the trailing spaces. */
  lemma SafeTrimEnd(s: string)
    requires AllSafe(s)
    ensures var r := TrimEnd(s);
      && AllSafe(r)
      && (r == [] || r[|r| - 1] != ' ')
      && forall j :: |r| <= j < |s| ==> s[j] == ' '
  {
    var r := TrimEnd(s);
    forall j | |r| <= j < |s|
      ensures s[j] == ' '
    {
      assert s[j] == s[|r|..][j - |r|];
      SafeSpaceIsBlank(s[j]);
    }
    if r != [] {
      SafeSpaceIsBlank(r[|r| - 1]);
    }
  }

  lemma SafeSpaceIsBlank(c: char)
    ensures IsSafe(c) && IsSpace(c) <==> c == ' '
  {
  }

  /** Sanitizing a sanitized name changes nothing. */
  lemma SanitizeIdempotent(title: string)
    ensures Sanitize(Sanitize(title)) == Sanitize(title)
  {
    var r := Sanitize(title);
    KeepSafeFixes(r);
    assert TrimEnd(r) == r;
  }

  /** A character outside the safe set makes no difference wherever it
      stands in the title (so "Week 3: Graphs & Trees!" and
      "Week 3 Graphs  Trees" give the same name). */
  lemma SanitizeIgnoresUnsafe(before: string, c: char, after: string)
    requires !IsSafe(c)
    ensures Sanitize(before + [c] + after) == Sanitize(before + after)
  {
    KeepSafeAppend(before + [c], after);
    KeepSafeAppend(before, [c]);
    KeepSafeAppend(before, after);
    assert [c][1..] == [];
    assert KeepSafe([c]) == [];
    assert KeepSafe(before + [c] + after) == KeepSafe(before + after);
  }
}
