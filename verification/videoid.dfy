/** `get_youtube_video_id`: `re.search(r"(?:v=|\/)([0-9A-Za-z_-]{11}).*", url)`
    and its first group, or `ValueError` when nothing matches. */
module VideoId {
  import opened Results

  /** The character class `[0-9A-Za-z_-]`. */
  predicate IsIdChar(c: char) {
    ('0' <= c <= '9') || ('A' <= c <= 'Z') || ('a' <= c <= 'z') || c == '_' || c == '-'
  }

  /** The repetition count `{11}`. */
  const IdLength := 11

  /** Eleven identifier characters start at position `p`. */
  predicate IdRunAt(url: string, p: nat) {
    p + IdLength <= |url| && forall j :: p <= j < p + IdLength ==> IsIdChar(url[j])
  }

  /** What the group `([0-9A-Za-z_-]{11})` captures. */
  predicate IsId(id: string) {
    |id| == IdLength && forall j :: 0 <= j < |id| ==> IsIdChar(id[j])
  }

  /** One attempt of the pattern at position `p`: the alternative `v=` is
      tried before `/`, and the group is the eleven characters after the
      prefix (the trailing `.*` always matches). */
  function MatchAt(url: string, p: nat): (m: Option<string>)
    ensures m.Some? ==> IsId(m.value)
  {
    if p + 2 <= |url| && url[p..p + 2] == "v=" && IdRunAt(url, p + 2) then
      Some(url[p + 2..p + 2 + IdLength])
    else if p < |url| && url[p] == '/' && IdRunAt(url, p + 1) then
      Some(url[p + 1..p + 1 + IdLength])
    else None
  }

  /** `q` is the leftmost position from `p` on where the pattern matches. */
  predicate LeftmostMatch(url: string, p: nat, q: nat) {
    p <= q <= |url| && MatchAt(url, q).Some? && forall q' :: p <= q' < q ==> MatchAt(url, q').None?
  }

  /** `re.search` from position `p`: try each start position in turn. */
  function SearchFrom(url: string, p: nat): (m: Option<string>)
    requires p <= |url|
    ensures m.Some? <==> exists q :: p <= q <= |url| && MatchAt(url, q).Some?
    ensures m.Some? ==> exists q :: LeftmostMatch(url, p, q) && MatchAt(url, q) == m
    decreases |url| - p
  {
    var here := MatchAt(url, p);
    if here.Some? then
      assert LeftmostMatch(url, p, p);
      here
    else if p == |url| then None
    else
      var m := SearchFrom(url, p + 1);
      if m.Some? then
        var q :| LeftmostMatch(url, p + 1, q) && MatchAt(url, q) == m;
        assert LeftmostMatch(url, p, q);
        m
      else
        m
  }

  /** `get_youtube_video_id` raises this. */
  datatype UrlError = InvalidUrl(url: string)

  /** `get_youtube_video_id(url)`: it succeeds exactly when the pattern
      matches somewhere, and then returns the eleven identifier characters
      of the leftmost match; otherwise it reports the URL as invalid. */
  function GetVideoId(url: string): (r: Result<string, UrlError>)
    ensures r.Ok? <==> exists q :: 0 <= q <= |url| && MatchAt(url, q).Some?
    ensures r.Ok? ==> IsId(r.value)
    ensures r.Ok? ==> exists q :: LeftmostMatch(url, 0, q) && MatchAt(url, q) == Some(r.value)
    ensures r.Err? ==> r.error == InvalidUrl(url)
  {
    match SearchFrom(url, 0)
    case Some(id) => Ok(id)
    case None => Err(InvalidUrl(url))
  }

  /** A match at the very start wins, and identifier characters beyond the
      eleventh are ignored. */
  lemma IdAtStart(id: string, rest: string)
    requires IsId(id)
    ensures GetVideoId("v=" + id + rest) == Ok(id)
  {
    var url := "v=" + id + rest;
    assert url[0..2] == "v=";
    assert url[2..2 + IdLength] == id;
    assert LeftmostMatch(url, 0, 0);
  }

  /** If no match starts before `p` and one starts at `p`, it is the one
      returned. */
  lemma FirstMatchWins(url: string, p: nat)
    requires p <= |url|
    requires forall q :: 0 <= q < p ==> MatchAt(url, q).None?
    requires MatchAt(url, p).Some?
    ensures GetVideoId(url) == Ok(MatchAt(url, p).value)
  {
    var r := GetVideoId(url);
    var q :| LeftmostMatch(url, 0, q) && MatchAt(url, q) == Some(r.value);
    assert q == p;
  }

  /** The usual watch-page address yields its `v=` parameter. */
  lemma WatchUrl(url: string, id: string, rest: string)
    requires IsId(id)
    requires url == "https://www.youtube.com/watch?v=" + id + rest
    ensures GetVideoId(url) == Ok(id)
  {
    var prefix := "https://www.youtube.com/watch?v=";
    assert url[..|prefix|] == prefix;
    forall q | 0 <= q < 30
      ensures MatchAt(url, q).None?
    {
      assert url[q] == prefix[q];
      assert url[q + 1] == prefix[q + 1];
      if q == 7 {
        assert url[11] == prefix[11] == '.';
      } else if q == 23 {
        assert url[29] == prefix[29] == '?';
        assert !IdRunAt(url, 24);
      } else if q != 6 {
        assert url[q] != 'v' && url[q] != '/';
      }
    }
    assert url[30..32] == "v=";
    assert url[32..32 + IdLength] == id;
    FirstMatchWins(url, 30);
  }

  /** No match starts on a stretch of the URL without `v` and `/`. */
  lemma NoMatchWithin(url: string, i: nat, seg: string)
    requires i + |seg| <= |url| && url[i..i + |seg|] == seg
    requires 'v' !in seg && '/' !in seg
    ensures forall q :: i <= q < i + |seg| ==> MatchAt(url, q).None?
  {
    forall q | i <= q < i + |seg|
      ensures MatchAt(url, q).None?
    {
      assert url[q] == seg[q - i];
      assert seg[q - i] in seg;
    }
  }

  /** The short-link address `https://youtu.be/<id>` yields the path
      segment after the host. */
  lemma ShortUrl(scheme: string, host: string, id: string, rest: string)
    // The URL's literal pieces are parameters so that the verifier reasons
    // about them by name instead of unfolding the whole literal URL.
    requires scheme == "https:" && host == "youtu.be"
    requires IsId(id)
    ensures GetVideoId(scheme + "//" + host + "/" + id + rest) == Ok(id)
  {
    var url := scheme + "//" + host + "/" + id + rest;
    assert url[..6] == scheme;
    assert url[8..16] == host;
    NoMatchWithin(url, 0, scheme);
    NoMatchWithin(url, 8, host);
    assert url[6] == '/' && url[7] == '/' && url[13] == '.';
    assert MatchAt(url, 6).None? by {
      assert !IsIdChar(url[7]);
    }
    assert MatchAt(url, 7).None? by {
      assert !IsIdChar(url[13]);
    }
    assert forall q :: 0 <= q < 16 ==> MatchAt(url, q).None?;
    assert url[16] == '/' && url[17..17 + IdLength] == id;
    assert IdRunAt(url, 17) by {
      forall j | 17 <= j < 17 + IdLength
        ensures IsIdChar(url[j])
      {
        assert url[j] == id[j - 17];
      }
    }
    assert url[16..18][0] == '/';
    assert MatchAt(url, 16) == Some(id);
    FirstMatchWins(url, 16);
  }
}
