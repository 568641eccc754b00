/** `generate_title`: one generation call on the whole transcript, then the
    title is read off the reply as the text after the last `"Title: "`
    marker, stripped of surrounding whitespace. */
module Title {
  import opened Results
  import opened PyStr
  import opened Generation

  /** The marker the title prompt asks the model to put before its answer. */
  const Marker := "Title: "

  /** `response.split("Title: ")[-1].strip()`. */
  function ExtractTitle(response: string): (title: string)
    ensures title == [] || (!IsSpace(title[0]) && !IsSpace(title[|title| - 1]))
    ensures !Contains(title, Marker)
    ensures !Contains(response, Marker) ==> title == Strip(response)
  {
    var parts := SplitOn(response, Marker);
    StripKeepsOut(parts[|parts| - 1], Marker);
    Strip(parts[|parts| - 1])
  }

  lemma StripKeepsOut(s: string, pat: string)
    requires !Contains(s, pat)
    ensures !Contains(Strip(s), pat)
  {
    var r := Strip(s);
    var i :| PaddedAt(s, r, i);
    if Contains(r, pat) {
      ContainsSlice(s, i, i + |r|, pat);
    }
  }

  /** The reference reading: the reply after the rightmost marker, as
      `response.rsplit("Title: ", 1)[-1]` would give it. */
  function TextAfterLastMarker(response: string): (after: string)
    ensures |after| <= |response| && after == response[|response| - |after|..]
    ensures !Contains(after, Marker)
    ensures !Contains(response, Marker) ==> after == response
    ensures Contains(response, Marker) ==> OccursAt(response, |response| - |after| - |Marker|, Marker)
  {
    match LastIndexOf(response, Marker)
    case None => response
    case Some(p) =>
      OccursInSuffix(response, p + |Marker|, Marker);
      response[p + |Marker|..]
  }

  /** If the marker sits at `a` and none follows it, `a` is the rightmost
      occurrence.  Occurrences cannot overlap because `'T'` appears in the
      marker only as its first character. */
  lemma MarkerLastAt(s: string, a: nat)
    requires OccursAt(s, a, Marker)
    requires !Contains(s[a + |Marker|..], Marker)
    ensures LastIndexOf(s, Marker) == Some(a)
  {
    OccursInSuffix(s, a + |Marker|, Marker);
    forall q | a < q
      ensures !OccursAt(s, q, Marker)
    {
      if q < a + |Marker| && q + |Marker| <= |s| {
        assert s[q] == s[a..a + |Marker|][q - a];
        assert s[q..q + |Marker|][0] == s[q];
      }
    }
  }

  /** Taking the last piece of a left-to-right split is the same as taking
      what follows the rightmost marker; this rests on the marker not
      overlapping itself. */
  lemma {:induction false} ExtractTitleAfterLastMarker(response: string)
    ensures ExtractTitle(response) == Strip(TextAfterLastMarker(response))
  {
    var parts := SplitOn(response, Marker);
    var n := |parts|;
    var last := parts[n - 1];
    if n == 1 {
      assert response == last;
    } else {
      var init := parts[..n - 1];
      assert parts == init + [last];
      JoinSnoc(init, last, Marker);
      var a := |Join(init, Marker)|;
      assert response == Join(init, Marker) + Marker + last;
      assert response[a..a + |Marker|] == Marker;
      assert response[a + |Marker|..] == last;
      MarkerLastAt(response, a);
    }
  }

  lemma NoMarkerWithoutT(s: string)
    requires 'T' !in s
    ensures !Contains(s, Marker)
  {
    forall p | 0 <= p && p + |Marker| <= |s|
      ensures !OccursAt(s, p, Marker)
    {
      assert s[p] in s;
      assert s[p..p + |Marker|][0] == s[p];
    }
  }

  /** Whatever precedes the last marker is dropped. */
  lemma ExtractTitleAfterMarker(preamble: string, title: string)
    requires !Contains(title, Marker)
    ensures ExtractTitle(preamble + Marker + title) == Strip(title)
  {
    var response := preamble + Marker + title;
    assert response[|preamble|..|preamble| + |Marker|] == Marker;
    assert response[|preamble| + |Marker|..] == title;
    MarkerLastAt(response, |preamble|);
    ExtractTitleAfterLastMarker(response);
  }

  /** The reply shape the prompt asks for yields the text after the marker. */
  lemma ExtractTitleExample(preamble: string, title: string)
    // The reply's literal pieces are parameters fixed by this requires, so
    // that the verifier reasons about them by name instead of unfolding the
    // whole literal reply.
    requires preamble == "Some preamble. " && title == "Intro to Linear Algebra"
    ensures ExtractTitle(preamble + Marker + title) == title
  {
    NoMarkerWithoutT(title);
    assert Strip(title) == title by {
      assert TrimStart(title) == title;
      assert TrimEnd(title) == title;
    }
    ExtractTitleAfterMarker(preamble, title);
  }

  /** `generate_title` raises this, wrapping the model's failure. */
  datatype TitleError = TitleError(reason: string)

  /** `generate_title(transcript)`: a failed call is a `TitleError`; a reply
      yields the stripped text after its last marker, which has no edge
      whitespace and no marker left in it. */
  function GenerateTitle(transcript: string, generate: Oracle): (r: Result<string, TitleError>)
    ensures r.Err? <==> generate(TitlePrompt(transcript)).Failure?
    ensures r.Err? ==> r.error.reason == generate(TitlePrompt(transcript)).reason
    ensures r.Ok? ==> r.value == Strip(TextAfterLastMarker(generate(TitlePrompt(transcript)).text))
    ensures r.Ok? ==> !Contains(r.value, Marker)
  {
    match generate(TitlePrompt(transcript))
    case Failure(reason) => Err(TitleError(reason))
    case Reply(text) =>
      ExtractTitleAfterLastMarker(text);
      Ok(ExtractTitle(text))
  }
}
