/** `chunk_transcript`: a greedy, length-only partition of a transcript's
    words into chunks.  A chunk is closed as soon as its running length,
    counted as one separator per word (`len(word) + 1`), reaches the limit;
    whatever is left at the end becomes the last chunk. */
module Chunker {
  import opened PyStr

  /** The running length the loop keeps for a list of words: the sum of
      `len(word) + 1`, that is, the words' summed length plus one per word. */
  function Cost(words: seq<string>): (c: nat)
    ensures c == TotalLength(words) + |words|
  {
    if |words| == 0 then 0
    else
      var init, last := words[..|words| - 1], words[|words| - 1];
      assert words == init + [last];
      TotalLengthSnoc(init, last);
      Cost(init) + |last| + 1
  }

  /** The running length of a chunk is one more than the length of the chunk
      as it is emitted, its words joined by single spaces. */
  lemma CostIsJoinedLength(words: seq<string>)
    requires |words| > 0
    ensures Cost(words) == |Join(words, " ")| + 1
  {
  }

  lemma CostSnoc(words: seq<string>, word: string)
    ensures Cost(words + [word]) == Cost(words) + |word| + 1
  {
    assert (words + [word])[..|words|] == words;
  }

  lemma {:induction false} CostAppend(a: seq<string>, b: seq<string>)
    ensures Cost(a + b) == Cost(a) + Cost(b)
    decreases |b|
  {
    if |b| > 0 {
      var init := b[..|b| - 1];
      assert a + b == (a + init) + [b[|b| - 1]];
      CostSnoc(a + init, b[|b| - 1]);
      CostAppend(a, init);
    } else {
      assert a + b == a;
    }
  }

  /** Dropping words from the end never raises the running length, and
      dropping at least one strictly lowers it. */
  lemma {:induction false} CostOfPrefix(words: seq<string>, k: nat)
    requires k <= |words|
    ensures Cost(words[..k]) <= Cost(words)
    ensures k < |words| ==> Cost(words[..k]) < Cost(words)
    decreases |words|
  {
    if k < |words| {
      var init := words[..|words| - 1];
      assert words[..k] == init[..k];
      CostOfPrefix(init, k);
    } else {
      assert words[..k] == words;
    }
  }

  lemma PrefixesBelow(current: seq<string>, maxLength: int)
    requires current == [] || Cost(current) < maxLength
    ensures forall k :: 0 < k <= |current| ==> Cost(current[..k]) < maxLength
  {
    forall k | 0 < k <= |current|
      ensures Cost(current[..k]) < maxLength
    {
      CostOfPrefix(current, k);
    }
  }

  /** The words of a list of chunks, in order. */
  function Flatten(groups: seq<seq<string>>): seq<string> {
    if |groups| == 0 then [] else groups[0] + Flatten(groups[1..])
  }

  lemma FlattenCons(group: seq<string>, rest: seq<seq<string>>)
    ensures Flatten([group] + rest) == group + Flatten(rest)
  {
    assert ([group] + rest)[1..] == rest;
  }

  /** Non-empty groups are no more numerous than their words. */
  lemma {:induction false} FlattenAtLeastGroups(groups: seq<seq<string>>)
    requires forall i :: 0 <= i < |groups| ==> |groups[i]| > 0
    ensures |groups| <= |Flatten(groups)|
    decreases |groups|
  {
    if |groups| > 0 {
      FlattenAtLeastGroups(groups[1..]);
    }
  }

  /** The partition the chunker promises, stated without reference to the
      loop: the groups, read in order, are exactly `words`; none is empty;
      every group but the last reaches `maxLength`; and no proper prefix of
      a group reaches it, so no group could have been closed earlier. */
  predicate GreedyPartition(groups: seq<seq<string>>, words: seq<string>, maxLength: int) {
    && Flatten(groups) == words
    && (forall i :: 0 <= i < |groups| ==> |groups[i]| > 0)
    && (forall i :: 0 <= i < |groups| - 1 ==> Cost(groups[i]) >= maxLength)
    && (forall i, k :: 0 <= i < |groups| && 0 < k < |groups[i]| ==> Cost(groups[i][..k]) < maxLength)
  }

  /** The loop of `chunk_transcript` from a given state: `current` is
      `current_chunk`, `currentLength` is `current_length`, and `words` are
      the words not yet visited.  The result is the list of chunks (as word
      lists) still to be appended. */
  function Group(words: seq<string>, current: seq<string>, currentLength: int, maxLength: int)
    : (groups: seq<seq<string>>)
    requires currentLength == Cost(current)
    requires current == [] || currentLength < maxLength
    ensures Flatten(groups) == current + words
    ensures forall i :: 0 <= i < |groups| ==> |groups[i]| > 0
    ensures forall i :: 0 <= i < |groups| - 1 ==> Cost(groups[i]) >= maxLength
    ensures forall i, k :: 0 <= i < |groups| && 0 < k < |groups[i]| ==> Cost(groups[i][..k]) < maxLength
    decreases |words|
  {
    if |words| == 0 then
      if |current| > 0 then
        PrefixesBelow(current, maxLength);
        FlattenCons(current, []);
        assert current + words == current;
        [current]
      else []
    else
      var word := words[0];
      var current' := current + [word];
      var length' := currentLength + |word| + 1;
      CostSnoc(current, word);
      assert current' + words[1..] == current + words;
      if length' >= maxLength then
        var rest := Group(words[1..], [], 0, maxLength);
        PrefixesBelow(current, maxLength);
        assert forall k :: 0 < k < |current'| ==> current'[..k] == current[..k];
        FlattenCons(current', rest);
        [current'] + rest
      else
        Group(words[1..], current', length', maxLength)
  }

  /** `chunk_transcript` on the already split words, as lists of words. */
  function ChunkWords(words: seq<string>, maxLength: int): (groups: seq<seq<string>>)
    ensures GreedyPartition(groups, words, maxLength)
  {
    var groups := Group(words, [], 0, maxLength);
    assert [] + words == words;
    groups
  }

  /** Every word of every group is a word of the flattened list. */
  lemma {:induction false} FlattenWords(groups: seq<seq<string>>)
    requires forall k :: 0 <= k < |Flatten(groups)| ==> IsWord(Flatten(groups)[k])
    ensures forall i, j :: 0 <= i < |groups| && 0 <= j < |groups[i]| ==> IsWord(groups[i][j])
    decreases |groups|
  {
    if |groups| > 0 {
      var head, flat := groups[0], Flatten(groups);
      assert flat == head + Flatten(groups[1..]);
      assert forall k :: 0 <= k < |Flatten(groups[1..])| ==> Flatten(groups[1..])[k] == flat[|head| + k];
      FlattenWords(groups[1..]);
      assert forall j :: 0 <= j < |head| ==> head[j] == flat[j];
      assert forall i :: 1 <= i < |groups| ==> groups[i] == groups[1..][i - 1];
    }
  }

  /** Python's `text.split()` applied to each chunk. */
  function SplitEach(chunks: seq<string>): (groups: seq<seq<string>>)
    ensures |groups| == |chunks|
    ensures forall i :: 0 <= i < |chunks| ==> groups[i] == Split(chunks[i])
  {
    seq(|chunks|, i requires 0 <= i < |chunks| => Split(chunks[i]))
  }

  /** `" ".join(group)` applied to each group. */
  function JoinEach(groups: seq<seq<string>>): (chunks: seq<string>)
    ensures |chunks| == |groups|
    ensures forall i :: 0 <= i < |groups| ==> chunks[i] == Join(groups[i], " ")
  {
    seq(|groups|, i requires 0 <= i < |groups| => Join(groups[i], " "))
  }

  lemma SplitJoinEach(groups: seq<seq<string>>)
    requires forall i, j :: 0 <= i < |groups| && 0 <= j < |groups[i]| ==> IsWord(groups[i][j])
    ensures SplitEach(JoinEach(groups)) == groups
  {
    forall i | 0 <= i < |groups|
      ensures Split(Join(groups[i], " ")) == groups[i]
    {
      SplitJoin(groups[i]);
    }
  }

  /** `chunk_transcript(text, max_length)`.  The words of the chunks, read in
      order, are exactly `text.split()` and form a greedy partition; each
      chunk is its own words joined by single spaces. */
  function Chunk(text: string, maxLength: int): (chunks: seq<string>)
    ensures GreedyPartition(SplitEach(chunks), Split(text), maxLength)
    ensures forall i :: 0 <= i < |chunks| ==> chunks[i] == Join(Split(chunks[i]), " ")
  {
    var groups := ChunkWords(Split(text), maxLength);
    FlattenWords(groups);
    SplitJoinEach(groups);
    JoinEach(groups)
  }

  // ---------------------------------------------------------------------------
  // Properties of the partition

  lemma GreedyPartitionHead(groups: seq<seq<string>>, words: seq<string>, maxLength: int)
    requires GreedyPartition(groups, words, maxLength)
    requires |groups| > 0
    ensures |groups[0]| <= |words| && words[..|groups[0]|] == groups[0]
    ensures GreedyPartition(groups[1..], words[|groups[0]|..], maxLength)
  {
    FlattenCons(groups[0], groups[1..]);
    assert [groups[0]] + groups[1..] == groups;
    var tail := groups[1..];
    assert forall i :: 0 <= i < |tail| ==> tail[i] == groups[i + 1];
  }

  /** What the partition says about where its first group ends, in terms
      of prefixes of `words`. */
  lemma GreedyPartitionHeadCost(groups: seq<seq<string>>, words: seq<string>, maxLength: int)
    requires GreedyPartition(groups, words, maxLength)
    requires |groups| > 0
    ensures forall n :: 0 < n < |groups[0]| ==> Cost(words[..n]) < maxLength
    ensures |groups| > 1 ==> Cost(words[..|groups[0]|]) >= maxLength
    ensures |groups| == 1 ==> |groups[0]| == |words|
  {
    GreedyPartitionHead(groups, words, maxLength);
    var head := groups[0];
    assert forall n :: 0 < n < |head| ==> words[..n] == head[..n];
    if |groups| == 1 {
      assert Flatten(groups[1..]) == [];
    }
  }

  lemma NoGroupsNoWords(groups: seq<seq<string>>, words: seq<string>, maxLength: int)
    requires GreedyPartition(groups, words, maxLength)
    ensures groups == [] <==> words == []
  {
    if |groups| > 0 {
      GreedyPartitionHead(groups, words, maxLength);
    }
  }

  /** Two greedy partitions of the same words under the same limit are equal:
      the specification leaves the loop no choice. */
  lemma {:induction false} GreedyPartitionUnique(a: seq<seq<string>>, b: seq<seq<string>>, words: seq<string>, maxLength: int)
    requires GreedyPartition(a, words, maxLength)
    requires GreedyPartition(b, words, maxLength)
    ensures a == b
    decreases |a|
  {
    NoGroupsNoWords(a, words, maxLength);
    NoGroupsNoWords(b, words, maxLength);
    if |a| > 0 {
      GreedyPartitionHead(a, words, maxLength);
      GreedyPartitionHead(b, words, maxLength);
      var x, y := a[0], b[0];
      GreedyPartitionHeadCost(a, words, maxLength);
      GreedyPartitionHeadCost(b, words, maxLength);
      assert |x| == |y|;
      GreedyPartitionUnique(a[1..], b[1..], words[|x|..], maxLength);
      assert a == [x] + a[1..];
      assert b == [y] + b[1..];
    }
  }

  /** The loop computes exactly the greedy partition, and nothing else is one. */
  lemma ChunkWordsIsTheGreedyPartition(groups: seq<seq<string>>, words: seq<string>, maxLength: int)
    ensures GreedyPartition(groups, words, maxLength) <==> groups == ChunkWords(words, maxLength)
  {
    if GreedyPartition(groups, words, maxLength) {
      GreedyPartitionUnique(groups, ChunkWords(words, maxLength), words, maxLength);
    }
  }

  /** The chunks of `Chunk` are the greedy partition joined with spaces. */
  lemma ChunkGroups(text: string, maxLength: int)
    ensures SplitEach(Chunk(text, maxLength)) == ChunkWords(Split(text), maxLength)
  {
    ChunkWordsIsTheGreedyPartition(SplitEach(Chunk(text, maxLength)), Split(text), maxLength);
  }

  /** Text without words gives no chunks, and only such text does. */
  lemma ChunkNoWords(text: string, maxLength: int)
    ensures Chunk(text, maxLength) == [] <==> AllSpace(text)
  {
    var chunks := Chunk(text, maxLength);
    NoGroupsNoWords(SplitEach(chunks), Split(text), maxLength);
  }

  lemma SingleGroupIsAllWords(groups: seq<seq<string>>, words: seq<string>, maxLength: int)
    requires GreedyPartition(groups, words, maxLength)
    requires |groups| == 1
    ensures groups == [words]
    ensures words != [] && forall k :: 0 < k < |words| ==> Cost(words[..k]) < maxLength
  {
    GreedyPartitionHeadCost(groups, words, maxLength);
    GreedyPartitionHead(groups, words, maxLength);
    assert words[..|groups[0]|] == words;
    assert groups == [groups[0]];
  }

  lemma AllWordsIsGreedyPartition(words: seq<string>, maxLength: int)
    requires words != []
    requires forall k :: 0 < k < |words| ==> Cost(words[..k]) < maxLength
    ensures GreedyPartition([words], words, maxLength)
  {
    FlattenCons(words, []);
    assert words + [] == words;
  }

  /** There is exactly one chunk when the text has words and no proper
      prefix of them reaches the limit; that chunk is then
      `" ".join(text.split())`. */
  lemma ChunkWordsSingle(words: seq<string>, maxLength: int)
    ensures |ChunkWords(words, maxLength)| == 1 <==>
      (words != [] && forall k :: 0 < k < |words| ==> Cost(words[..k]) < maxLength)
    ensures |ChunkWords(words, maxLength)| == 1 ==> ChunkWords(words, maxLength) == [words]
  {
    var groups := ChunkWords(words, maxLength);
    if |groups| == 1 {
      SingleGroupIsAllWords(groups, words, maxLength);
    }
    if words != [] && forall k :: 0 < k < |words| ==> Cost(words[..k]) < maxLength {
      AllWordsIsGreedyPartition(words, maxLength);
      GreedyPartitionUnique(groups, [words], words, maxLength);
    }
  }

  lemma ChunkSingle(text: string, maxLength: int)
    ensures |Chunk(text, maxLength)| == 1 <==>
      (!AllSpace(text) && forall k :: 0 < k < |Split(text)| ==> Cost(Split(text)[..k]) < maxLength)
    ensures |Chunk(text, maxLength)| == 1 ==> Chunk(text, maxLength) == [Join(Split(text), " ")]
  {
    var words, chunks := Split(text), Chunk(text, maxLength);
    ChunkGroups(text, maxLength);
    ChunkWordsSingle(words, maxLength);
    assert |chunks| == |SplitEach(chunks)|;
    if |chunks| == 1 {
      assert chunks[0] == Join(Split(chunks[0]), " ");
    }
  }

  /** Text whose words fit under the limit comes back as one chunk,
      `" ".join(text.split())`. */
  lemma ChunkShortText(text: string, maxLength: int)
    requires !AllSpace(text)
    requires Cost(Split(text)) < maxLength
    ensures Chunk(text, maxLength) == [Join(Split(text), " ")]
  {
    PrefixesBelow(Split(text), maxLength);
    ChunkSingle(text, maxLength);
  }

  function Singletons(words: seq<string>): (groups: seq<seq<string>>)
    ensures |groups| == |words|
    ensures forall i :: 0 <= i < |words| ==> groups[i] == [words[i]]
  {
    seq(|words|, i requires 0 <= i < |words| => [words[i]])
  }

  lemma {:induction false} FlattenSingletons(words: seq<string>)
    ensures Flatten(Singletons(words)) == words
    decreases |words|
  {
    if |words| > 0 {
      FlattenSingletons(words[1..]);
      assert Singletons(words) == [[words[0]]] + Singletons(words[1..]);
      FlattenCons([words[0]], Singletons(words[1..]));
      assert [words[0]] + words[1..] == words;
    }
  }

  lemma SingletonsPartition(words: seq<string>, maxLength: int)
    requires maxLength <= 1
    ensures GreedyPartition(Singletons(words), words, maxLength)
  {
    var singles := Singletons(words);
    FlattenSingletons(words);
    forall i | 0 <= i < |singles|
      ensures Cost(singles[i]) >= maxLength
    {
      CostSnoc([], words[i]);
      assert [] + [words[i]] == singles[i];
    }
  }

  /** With a limit of at most 1, every word is closed off on its own, so the
      chunks are exactly the words. */
  lemma ChunkTinyLimit(text: string, maxLength: int)
    requires maxLength <= 1
    ensures Chunk(text, maxLength) == Split(text)
  {
    var words, chunks := Split(text), Chunk(text, maxLength);
    SingletonsPartition(words, maxLength);
    GreedyPartitionUnique(SplitEach(chunks), Singletons(words), words, maxLength);
    forall i | 0 <= i < |chunks|
      ensures chunks[i] == words[i]
    {
      assert Split(chunks[i]) == [words[i]];
    }
  }

  /** A closed chunk may run past the limit: the loop checks the running
      length only after adding a word, so the chunk keeps that word. */
  lemma ChunkMayExceedLimit(text: string)
    // The example text is a parameter fixed by this requires, so that the
    // verifier reasons about it by name instead of unfolding the literal.
    requires text == "aaaa bbbbbbbb"
    ensures Chunk(text, 10) == [text]
    ensures |text| > 10
  {
    var words := ["aaaa", "bbbbbbbb"];
    assert Join(words, " ") == text by {
      JoinCons("aaaa", ["bbbbbbbb"], " ");
    }
    assert IsWord(words[0]) && IsWord(words[1]);
    SplitJoin(words);
    assert words[..1] == ["aaaa"];
    assert Cost(["aaaa"]) == 5;
    assert !AllSpace(text) by {
      assert !IsSpace(text[0]);
    }
    ChunkSingle(text, 10);
  }

  lemma {:induction false} PartitionCountBound(groups: seq<seq<string>>, words: seq<string>, maxLength: int)
    requires GreedyPartition(groups, words, maxLength)
    requires maxLength > 0
    ensures (|groups| - 1) * maxLength <= Cost(words)
    decreases |groups|
  {
    if |groups| > 0 {
      GreedyPartitionHead(groups, words, maxLength);
      var n := |groups[0]|;
      assert words == words[..n] + words[n..];
      CostAppend(words[..n], words[n..]);
      PartitionCountBound(groups[1..], words[n..], maxLength);
      if |groups| > 1 {
        assert (|groups| - 1) * maxLength == (|groups| - 2) * maxLength + maxLength;
      }
    }
  }

  /** Every chunk but the last holds at least `maxLength` of running length,
      so there are at most `Cost / maxLength + 1` chunks. */
  lemma ChunkCountBound(text: string, maxLength: int)
    requires maxLength > 0
    ensures (|Chunk(text, maxLength)| - 1) * maxLength <= Cost(Split(text))
  {
    PartitionCountBound(SplitEach(Chunk(text, maxLength)), Split(text), maxLength);
  }
}
