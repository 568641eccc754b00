/** The few Python `str` operations the pipeline relies on: `split()`,
    `sep.join(...)`, `strip()`/`rstrip()` and `split(sep)`, over ASCII, and
    the leftmost and rightmost occurrence of a pattern. */
module PyStr {
  import opened Results

  /** ASCII subset of Python's `str.isspace`: TAB, LF, VT, FF, CR, the four
      information separators 0x1C..0x1F, and the space. */
  predicate IsSpace(c: char) {
    c == ' ' || (9 <= c as int <= 13) || (28 <= c as int <= 31)
  }

  /** ASCII subset of Python's `str.isalnum`. */
  predicate IsAlnum(c: char) {
    ('a' <= c <= 'z') || ('A' <= c <= 'Z') || ('0' <= c <= '9')
  }

  predicate NoSpace(s: string) {
    forall j :: 0 <= j < |s| ==> !IsSpace(s[j])
  }

  predicate AllSpace(s: string) {
    forall j :: 0 <= j < |s| ==> IsSpace(s[j])
  }

  /** What `str.split()` can return as one element. */
  predicate IsWord(w: string) {
    |w| > 0 && NoSpace(w)
  }

  // ---------------------------------------------------------------------------
  // str.split() with no separator

  /** Length of the run of non-whitespace characters that starts `s`. */
  function WordLen(s: string): (n: nat)
    ensures n <= |s|
    ensures NoSpace(s[..n])
    ensures n < |s| ==> IsSpace(s[n])
  {
    if |s| == 0 || IsSpace(s[0]) then 0
    else
      var n := WordLen(s[1..]);
      assert s[..1 + n] == [s[0]] + s[1..][..n];
      1 + n
  }

  /** `s.split()`: the maximal whitespace-free runs of `s`, left to right. */
  function Split(s: string): (words: seq<string>)
    ensures forall i :: 0 <= i < |words| ==> IsWord(words[i])
    ensures words == [] <==> AllSpace(s)
    decreases |s|
  {
    if |s| == 0 then []
    else if IsSpace(s[0]) then Split(s[1..])
    else
      var n := WordLen(s);
      [s[..n]] + Split(s[n..])
  }

  /** The summed length of some strings. */
  function TotalLength(parts: seq<string>): nat {
    if |parts| == 0 then 0 else |parts[0]| + TotalLength(parts[1..])
  }

  lemma {:induction false} TotalLengthSnoc(parts: seq<string>, last: string)
    ensures TotalLength(parts + [last]) == TotalLength(parts) + |last|
    decreases |parts|
  {
    if |parts| == 0 {
      assert (parts + [last])[1..] == [];
    } else {
      assert (parts + [last])[1..] == parts[1..] + [last];
      TotalLengthSnoc(parts[1..], last);
    }
  }

  /** `sep.join(parts)`: the parts in order, with one separator between
      neighbours and none at either end. */
  function Join(parts: seq<string>, sep: string): (r: string)
    ensures |parts| == 0 ==> r == ""
    ensures |parts| > 0 ==> |r| == TotalLength(parts) + (|parts| - 1) * |sep|
  {
    if |parts| == 0 then ""
    else if |parts| == 1 then parts[0]
    else parts[0] + sep + Join(parts[1..], sep)
  }

  /** The first part opens the joined string and the last part closes it. */
  lemma {:induction false} JoinEnds(parts: seq<string>, sep: string)
    requires |parts| > 0
    ensures |parts[0]| <= |Join(parts, sep)| && Join(parts, sep)[..|parts[0]|] == parts[0]
    ensures |parts[|parts| - 1]| <= |Join(parts, sep)|
    ensures Join(parts, sep)[|Join(parts, sep)| - |parts[|parts| - 1]|..] == parts[|parts| - 1]
    decreases |parts|
  {
    if |parts| > 1 {
      var rest := Join(parts[1..], sep);
      JoinEnds(parts[1..], sep);
      var r := parts[0] + sep + rest;
      assert r[..|parts[0]|] == parts[0];
      assert r[|r| - |rest|..] == rest;
      assert parts[1..][|parts[1..]| - 1] == parts[|parts| - 1];
    }
  }

  lemma JoinCons(head: string, tail: seq<string>, sep: string)
    requires |tail| > 0
    ensures Join([head] + tail, sep) == head + sep + Join(tail, sep)
  {
    assert ([head] + tail)[1..] == tail;
  }

  lemma {:induction false} JoinSnoc(parts: seq<string>, last: string, sep: string)
    requires |parts| > 0
    ensures Join(parts + [last], sep) == Join(parts, sep) + sep + last
    decreases |parts|
  {
    if |parts| == 1 {
      assert parts + [last] == [parts[0]] + [last];
      JoinCons(parts[0], [last], sep);
    } else {
      assert parts + [last] == [parts[0]] + (parts[1..] + [last]);
      JoinCons(parts[0], parts[1..] + [last], sep);
      JoinSnoc(parts[1..], last, sep);
      JoinCons(parts[0], parts[1..], sep);
      assert [parts[0]] + parts[1..] == parts;
    }
  }

  lemma {:induction false} WordLenOfWord(w: string, rest: string)
    requires NoSpace(w)
    requires rest == [] || IsSpace(rest[0])
    ensures WordLen(w + rest) == |w|
    decreases |w|
  {
    if |w| > 0 {
      assert (w + rest)[1..] == w[1..] + rest;
      WordLenOfWord(w[1..], rest);
    }
  }

  /** `" ".join(words).split() == words` for words that `split()` can return. */
  lemma {:induction false} SplitJoin(words: seq<string>)
    requires forall i :: 0 <= i < |words| ==> IsWord(words[i])
    ensures Split(Join(words, " ")) == words
    decreases |words|
  {
    if |words| == 1 {
      WordLenOfWord(words[0], "");
      assert words[0] + "" == words[0];
      assert words[0][|words[0]|..] == "";
    } else if |words| > 1 {
      var w, tail := words[0], Join(words[1..], " ");
      var s := w + " " + tail;
      assert s == w + (" " + tail);
      WordLenOfWord(w, " " + tail);
      assert s[..|w|] == w;
      assert s[|w|..] == " " + tail;
      assert (" " + tail)[1..] == tail;
      SplitJoin(words[1..]);
      assert [words[0]] + words[1..] == words;
    }
  }

  /** A word run that ends at whitespace (or at the end) is not lengthened
      by what follows. */
  lemma {:induction false} WordLenAppend(a: string, x: string)
    requires WordLen(a) < |a| || x == [] || IsSpace(x[0])
    ensures WordLen(a + x) == WordLen(a)
    decreases |a|
  {
    if |a| == 0 {
      assert a + x == x;
    } else if !IsSpace(a[0]) {
      assert (a + x)[1..] == a[1..] + x;
      WordLenAppend(a[1..], x);
    }
  }

  /** `split()` cuts at every whitespace character: the words on either side
      of it are split independently. */
  lemma {:induction false} SplitAtSpace(a: string, c: char, b: string)
    requires IsSpace(c)
    ensures Split(a + [c] + b) == Split(a) + Split(b)
    decreases |a|
  {
    var s := a + [c] + b;
    if |a| == 0 {
      assert s == [c] + b;
      assert s[1..] == b;
    } else if IsSpace(a[0]) {
      assert s[1..] == a[1..] + [c] + b;
      SplitAtSpace(a[1..], c, b);
    } else {
      var n := WordLen(a);
      assert s == a + ([c] + b);
      WordLenAppend(a, [c] + b);
      assert s[..n] == a[..n];
      assert s[n..] == a[n..] + [c] + b;
      SplitAtSpace(a[n..], c, b);
    }
  }

  /** A single word splits into itself.  With `Split("") == []` and
      `SplitAtSpace`, this determines `split()` on every text. */
  lemma SplitOfWord(w: string)
    requires IsWord(w)
    ensures Split(w) == [w]
  {
    WordLenOfWord(w, "");
    assert w + "" == w;
    assert w[|w|..] == "";
  }

  // ---------------------------------------------------------------------------
  // str.strip() and str.rstrip() with no argument

  /** `s.lstrip()`. */
  function TrimStart(s: string): (r: string)
    ensures |r| <= |s| && r == s[|s| - |r|..]
    ensures AllSpace(s[..|s| - |r|])
    ensures r == [] || !IsSpace(r[0])
  {
    if |s| > 0 && IsSpace(s[0]) then
      var r := TrimStart(s[1..]);
      assert s[..|s| - |r|] == [s[0]] + s[1..][..|s| - 1 - |r|];
      r
    else s
  }

  /** `s.rstrip()`. */
  function TrimEnd(s: string): (r: string)
    ensures |r| <= |s| && r == s[..|r|]
    ensures AllSpace(s[|r|..])
    ensures r == [] || !IsSpace(r[|r| - 1])
  {
    if |s| > 0 && IsSpace(s[|s| - 1]) then
      var r := TrimEnd(s[..|s| - 1]);
      assert s[|r|..] == s[..|s| - 1][|r|..] + [s[|s| - 1]];
      r
    else s
  }

  /** `r` sits at offset `i` of `s` with only whitespace around it. */
  predicate PaddedAt(s: string, r: string, i: int) {
    0 <= i <= |s| - |r| && s[i..i + |r|] == r && AllSpace(s[..i]) && AllSpace(s[i + |r|..])
  }

  /** `s.strip()`. */
  function Strip(s: string): (r: string)
    ensures r == [] || (!IsSpace(r[0]) && !IsSpace(r[|r| - 1]))
    ensures exists i :: PaddedAt(s, r, i)
  {
    var t := TrimStart(s);
    var r := TrimEnd(t);
    var i := |s| - |t|;
    assert t == s[i..];
    assert s[i..i + |r|] == t[..|r|] == r;
    assert s[i + |r|..] == t[|r|..];
    assert AllSpace(s[..i]) && AllSpace(s[i + |r|..]);
    assert PaddedAt(s, r, i);
    r
  }

  // ---------------------------------------------------------------------------
  // str.split(sep) with an explicit separator

  predicate OccursAt(s: string, p: int, pat: string) {
    0 <= p && p + |pat| <= |s| && s[p..p + |pat|] == pat
  }

  predicate Contains(s: string, pat: string) {
    exists p :: 0 <= p <= |s| && OccursAt(s, p, pat)
  }

  lemma OccursAfterHead(s: string, pat: string)
    requires |s| > 0
    ensures forall q :: 0 <= q ==> (OccursAt(s[1..], q, pat) <==> OccursAt(s, q + 1, pat))
    ensures forall q :: 1 <= q ==> (OccursAt(s, q, pat) <==> OccursAt(s[1..], q - 1, pat))
  {
    OccursInSuffix(s, 1, pat);
  }

  lemma OccursInPrefix(s: string, n: int, pat: string)
    requires 0 <= n <= |s|
    ensures forall q :: q + |pat| <= n ==> (OccursAt(s[..n], q, pat) <==> OccursAt(s, q, pat))
  {
    forall q | q + |pat| <= n
      ensures OccursAt(s[..n], q, pat) <==> OccursAt(s, q, pat)
    {
      if 0 <= q {
        assert s[..n][q..q + |pat|] == s[q..q + |pat|];
      }
    }
  }

  lemma OccursInSuffix(s: string, n: int, pat: string)
    requires 0 <= n <= |s|
    ensures forall q :: 0 <= q ==> (OccursAt(s[n..], q, pat) <==> OccursAt(s, q + n, pat))
    ensures forall q :: n <= q ==> (OccursAt(s, q, pat) <==> OccursAt(s[n..], q - n, pat))
  {
    forall q | 0 <= q
      ensures OccursAt(s[n..], q, pat) <==> OccursAt(s, q + n, pat)
    {
      if q + |pat| <= |s| - n {
        assert s[n..][q..q + |pat|] == s[q + n..q + n + |pat|];
      }
    }
    forall q | n <= q
      ensures OccursAt(s, q, pat) <==> OccursAt(s[n..], q - n, pat)
    {
      if q + |pat| <= |s| {
        assert s[n..][q - n..q - n + |pat|] == s[q..q + |pat|];
      }
    }
  }

  /** The leftmost occurrence of `pat`, where `split(sep)` cuts. */
  function IndexOf(s: string, pat: string): (r: Option<nat>)
    requires |pat| > 0
    ensures r.None? ==> !Contains(s, pat)
    ensures r.Some? ==> OccursAt(s, r.value, pat)
    ensures r.Some? ==> forall q :: q < r.value ==> !OccursAt(s, q, pat)
    decreases |s|
  {
    if |s| < |pat| then None
    else if s[..|pat|] == pat then
      assert OccursAt(s, 0, pat);
      Some(0)
    else
      OccursAfterHead(s, pat);
      assert !OccursAt(s, 0, pat);
      match IndexOf(s[1..], pat)
      case None => None
      case Some(p) => Some(p + 1)
  }

  /** `s.split(sep)`. */
  function SplitOn(s: string, sep: string): (parts: seq<string>)
    requires |sep| > 0
    ensures |parts| > 0
    ensures forall i :: 0 <= i < |parts| ==> !Contains(parts[i], sep)
    ensures Join(parts, sep) == s
    decreases |s|
  {
    match IndexOf(s, sep)
    case None => [s]
    case Some(p) =>
      var rest := SplitOn(s[p + |sep|..], sep);
      OccursInPrefix(s, p, sep);
      JoinCons(s[..p], rest, sep);
      assert s == s[..p] + sep + s[p + |sep|..];
      [s[..p]] + rest
  }

  /** The rightmost occurrence of `pat`: the reference reading of "the
      text after the last marker". */
  function LastIndexOf(s: string, pat: string): (r: Option<nat>)
    requires |pat| > 0
    ensures r.None? ==> !Contains(s, pat)
    ensures r.Some? ==> OccursAt(s, r.value, pat)
    ensures r.Some? ==> forall q :: r.value < q ==> !OccursAt(s, q, pat)
    decreases |s|
  {
    if |s| < |pat| then None
    else if OccursAt(s, |s| - |pat|, pat) then Some(|s| - |pat|)
    else
      OccursInPrefix(s, |s| - 1, pat);
      LastIndexOf(s[..|s| - 1], pat)
  }

  /** An occurrence inside a slice is an occurrence in the whole string. */
  lemma ContainsSlice(s: string, i: int, j: int, pat: string)
    requires 0 <= i <= j <= |s|
    requires Contains(s[i..j], pat)
    ensures Contains(s, pat)
  {
    var p :| 0 <= p <= j - i && OccursAt(s[i..j], p, pat);
    assert s[i..j] == s[..j][i..];
    OccursInSuffix(s[..j], i, pat);
    OccursInPrefix(s, j, pat);
    assert OccursAt(s, p + i, pat);
  }
}
