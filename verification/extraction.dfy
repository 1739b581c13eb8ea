/**
 * The extraction engine of the Regex Extractor extension: the gates that stop
 * an extraction before any scanning, the length-based deduplication of the
 * selected messages, and the accumulation of `findall` matches over the
 * messages that survive it.
 *
 * The regular-expression library and the host's byte-to-text conversion are
 * outside the model; an `Engine` value stands for them.
 */
module Extraction {
  import opened Wrappers
  import opened Text

  newtype byte = x: int | 0 <= x < 256

  /** A message selected in the host; only its response bytes are used, and the host may have none. */
  datatype Message = Message(response: Option<seq<byte>>)

  /** Python truthiness of `message.getResponse()`: present and non-empty. */
  predicate HasBody(m: Message) {
    m.response.Some? && |m.response.value| > 0
  }

  function Bytes(m: Message): seq<byte> {
    if m.response.Some? then m.response.value else []
  }

  /** `len(response)`, the deduplication key. */
  function Length(m: Message): nat {
    |Bytes(m)|
  }

  /**
   * The library calls the scan depends on, left uninterpreted:
   * `compiles(p)` says `re.compile(p)` succeeds; `decode` is the host's
   * `bytesToString`; `fails(p, bytes)` says decoding the response or running
   * `findall` on it raises; `findAll(p, text)` is `re.findall`.
   */
  datatype Engine = Engine(
    compiles: string -> bool,
    decode: seq<byte> -> string,
    fails: (string, seq<byte>) -> bool,
    findAll: (string, string) -> seq<string>)

  // ---------------------------------------------------------------------------
  // Deduplication by response length
  // ---------------------------------------------------------------------------

  /** Message `i` has a non-empty response whose length no earlier non-empty response has. */
  predicate FirstOfLength(msgs: seq<Message>, i: int)
    requires 0 <= i < |msgs|
  {
    && HasBody(msgs[i])
    && forall j :: 0 <= j < i && HasBody(msgs[j]) ==> Length(msgs[j]) != Length(msgs[i])
  }

  /** The lengths of the non-empty responses among the first `i` messages. */
  function LengthsBefore(msgs: seq<Message>, i: int): set<nat>
    requires 0 <= i <= |msgs|
  {
    set j | 0 <= j < i && HasBody(msgs[j]) :: Length(msgs[j])
  }

  /**
   * The positions the deduplication loop keeps from position `i` on, given the
   * lengths `seen` so far. The kept positions are increasing, point at
   * non-empty responses with unseen lengths, and carry pairwise different lengths.
   */
  function KeptFrom(msgs: seq<Message>, i: nat, seen: set<nat>): (idx: seq<nat>)
    requires i <= |msgs|
    ensures |idx| <= |msgs| - i
    ensures forall k :: 0 <= k < |idx| ==> i <= idx[k] < |msgs|
    ensures forall k :: 0 <= k < |idx| ==> HasBody(msgs[idx[k]]) && Length(msgs[idx[k]]) !in seen
    ensures forall a, b :: 0 <= a < b < |idx| ==> idx[a] < idx[b]
    ensures forall a, b :: 0 <= a < b < |idx| ==> Length(msgs[idx[a]]) != Length(msgs[idx[b]])
    decreases |msgs| - i
  {
    if i == |msgs| then []
    else if HasBody(msgs[i]) && Length(msgs[i]) !in seen then
      [i] + KeptFrom(msgs, i + 1, seen + {Length(msgs[i])})
    else
      KeptFrom(msgs, i + 1, seen)
  }

  /** The positions of the messages that survive deduplication. */
  function KeptIndices(msgs: seq<Message>): seq<nat> {
    KeptFrom(msgs, 0, {})
  }

  /** The deduplicated messages, in selection order. */
  function Dedup(msgs: seq<Message>): seq<Message> {
    var idx := KeptIndices(msgs);
    seq(|idx|, k requires 0 <= k < |idx| => msgs[idx[k]])
  }

  lemma LengthsBeforeStep(msgs: seq<Message>, i: nat)
    requires i < |msgs|
    ensures LengthsBefore(msgs, i + 1)
         == if HasBody(msgs[i]) then LengthsBefore(msgs, i) + {Length(msgs[i])} else LengthsBefore(msgs, i)
  {
  }

  lemma FirstOfLengthIff(msgs: seq<Message>, i: nat)
    requires i < |msgs|
    ensures FirstOfLength(msgs, i) <==> HasBody(msgs[i]) && Length(msgs[i]) !in LengthsBefore(msgs, i)
  {
  }

  /** With `seen` tracking the lengths before `i`, the loop keeps exactly the first-of-length positions from `i` on. */
  lemma {:induction false} KeptFromExact(msgs: seq<Message>, i: nat, seen: set<nat>)
    requires i <= |msgs|
    requires seen == LengthsBefore(msgs, i)
    ensures forall j: int :: j in KeptFrom(msgs, i, seen) <==> i <= j < |msgs| && FirstOfLength(msgs, j)
    decreases |msgs| - i
  {
    if i < |msgs| {
      LengthsBeforeStep(msgs, i);
      FirstOfLengthIff(msgs, i);
      if HasBody(msgs[i]) {
        KeptFromExact(msgs, i + 1, seen + {Length(msgs[i])});
        if Length(msgs[i]) in seen {
          assert seen + {Length(msgs[i])} == seen;
        }
      } else {
        KeptFromExact(msgs, i + 1, seen);
      }
    }
  }

  /** Every non-empty response has a first message of its length at or before it. */
  lemma {:induction false} FirstOfLengthExists(msgs: seq<Message>, i: nat)
    requires i < |msgs| && HasBody(msgs[i])
    ensures exists j :: 0 <= j <= i && FirstOfLength(msgs, j) && Length(msgs[j]) == Length(msgs[i])
  {
    if !FirstOfLength(msgs, i) {
      var j :| 0 <= j < i && HasBody(msgs[j]) && Length(msgs[j]) == Length(msgs[i]);
      FirstOfLengthExists(msgs, j);
    }
  }

  /** The deduplicated messages are an order-preserving subsequence of the selection. */
  lemma DedupIsOrderedSubsequence(msgs: seq<Message>)
    ensures var r, idx := Dedup(msgs), KeptIndices(msgs);
      && |r| == |idx| <= |msgs|
      && (forall k :: 0 <= k < |idx| ==> idx[k] < |msgs| && r[k] == msgs[idx[k]])
      && (forall a, b :: 0 <= a < b < |idx| ==> idx[a] < idx[b])
  {
  }

  /** No two deduplicated messages have the same response length. */
  lemma DedupLengthsDistinct(msgs: seq<Message>)
    ensures var r := Dedup(msgs);
      forall a, b :: 0 <= a < b < |r| ==> Length(r[a]) != Length(r[b])
  {
  }

  /** A message whose response is empty or absent is never kept. */
  lemma DedupDropsEmpty(msgs: seq<Message>)
    ensures forall k :: 0 <= k < |Dedup(msgs)| ==> HasBody(Dedup(msgs)[k])
  {
  }

  /**
   * A position is kept exactly when it holds the first non-empty response of
   * its length, and every non-empty response length of the selection is
   * represented among the kept messages.
   */
  lemma DedupKeepsFirstOfEachLength(msgs: seq<Message>)
    ensures forall i :: 0 <= i < |msgs| ==> (i in KeptIndices(msgs) <==> FirstOfLength(msgs, i))
    ensures forall i :: 0 <= i < |msgs| && HasBody(msgs[i]) ==>
      exists k :: 0 <= k < |Dedup(msgs)| && KeptIndices(msgs)[k] <= i && Length(Dedup(msgs)[k]) == Length(msgs[i])
  {
    var idx := KeptIndices(msgs);
    KeptFromExact(msgs, 0, {});
    forall i | 0 <= i < |msgs| && HasBody(msgs[i])
      ensures exists k :: 0 <= k < |Dedup(msgs)| && idx[k] <= i && Length(Dedup(msgs)[k]) == Length(msgs[i])
    {
      FirstOfLengthExists(msgs, i);
      var j :| 0 <= j <= i && FirstOfLength(msgs, j) && Length(msgs[j]) == Length(msgs[i]);
      var k :| 0 <= k < |idx| && idx[k] == j;
      assert Dedup(msgs)[k] == msgs[j];
    }
  }

  /** The response lengths of `msgs`, position by position. */
  function Lengths(msgs: seq<Message>): seq<nat> {
    seq(|msgs|, k requires 0 <= k < |msgs| => Length(msgs[k]))
  }

  /** The kept messages carry exactly the non-empty response lengths of the selection. */
  lemma DedupLengthsCover(msgs: seq<Message>)
    ensures forall n :: n in Lengths(Dedup(msgs)) <==> n in LengthsBefore(msgs, |msgs|)
  {
    var r := Dedup(msgs);
    var ls := Lengths(r);
    DedupKeepsFirstOfEachLength(msgs);
    forall n | n in LengthsBefore(msgs, |msgs|) ensures n in ls {
      var i :| 0 <= i < |msgs| && HasBody(msgs[i]) && Length(msgs[i]) == n;
      var k :| 0 <= k < |r| && KeptIndices(msgs)[k] <= i && Length(r[k]) == Length(msgs[i]);
      assert ls[k] == n;
    }
    forall n | n in ls ensures n in LengthsBefore(msgs, |msgs|) {
      var k :| 0 <= k < |ls| && ls[k] == n;
      var i := KeptIndices(msgs)[k];
      assert r[k] == msgs[i] && HasBody(msgs[i]);
    }
  }

  /** The deduplicated count is the number of distinct non-empty response lengths, so at most the selection size. */
  lemma DedupCount(msgs: seq<Message>)
    ensures |Dedup(msgs)| == |LengthsBefore(msgs, |msgs|)| <= |msgs|
  {
    var ls := Lengths(Dedup(msgs));
    DedupLengthsDistinct(msgs);
    assert Distinct(ls);
    DistinctCardinality(ls);
    DedupLengthsCover(msgs);
    var lengthSet := set n: nat | n in ls;
    assert |lengthSet| == |ls|;
    assert lengthSet == LengthsBefore(msgs, |msgs|);
    assert |Dedup(msgs)| == |ls|;
    assert |KeptIndices(msgs)| <= |msgs|;
  }

  /** A message whose response has `n` zero bytes. */
  function Filler(n: nat): Message {
    Message(Some(seq(n, _ => 0 as byte)))
  }

  /** Responses of lengths 10, 20, 10, 30 keep the messages at positions 0, 1 and 3. */
  lemma DedupExample()
    ensures var msgs := [Filler(10), Filler(20), Filler(10), Filler(30)];
      KeptIndices(msgs) == [0, 1, 3] && Dedup(msgs) == [msgs[0], msgs[1], msgs[3]]
  {
    var msgs := [Filler(10), Filler(20), Filler(10), Filler(30)];
    assert Length(msgs[0]) == 10 && Length(msgs[1]) == 20 && Length(msgs[2]) == 10 && Length(msgs[3]) == 30;
  }

  /** The deduplication loop: keeps the first message of each non-empty response length. */
  method DedupByLength(selected: seq<Message>) returns (unique: seq<Message>)
    ensures unique == Dedup(selected)
  {
    var seenLengths: set<nat> := {};
    unique := [];
    ghost var kept: seq<nat> := [];
    var i := 0;
    while i < |selected|
      invariant 0 <= i <= |selected|
      invariant kept + KeptFrom(selected, i, seenLengths) == KeptIndices(selected)
      invariant forall k :: 0 <= k < |kept| ==> kept[k] < |selected|
      invariant |unique| == |kept|
      invariant forall k :: 0 <= k < |kept| ==> unique[k] == selected[kept[k]]
    {
      var response := selected[i].response;
      if response.Some? && |response.value| > 0 {
        var length := |response.value|;
        if length !in seenLengths {
          seenLengths := seenLengths + {length};
          unique := unique + [selected[i]];
          kept := kept + [i];
        }
      }
      i := i + 1;
    }
  }

  // ---------------------------------------------------------------------------
  // Match accumulation
  // ---------------------------------------------------------------------------

  /** `x` is among the matches that processing message `m` yields without raising. */
  predicate Yields(engine: Engine, pattern: string, m: Message, x: string) {
    !engine.fails(pattern, Bytes(m)) && x in engine.findAll(pattern, engine.decode(Bytes(m)))
  }

  /** What one message adds to the match set: nothing when processing it raises. */
  function MatchesOf(engine: Engine, pattern: string, m: Message): set<string> {
    if engine.fails(pattern, Bytes(m)) then {}
    else set x | x in engine.findAll(pattern, engine.decode(Bytes(m)))
  }

  /** The match set after scanning `unique` in order. */
  function Scan(engine: Engine, pattern: string, unique: seq<Message>): set<string>
    decreases |unique|
  {
    if |unique| == 0 then {}
    else Scan(engine, pattern, unique[..|unique| - 1]) + MatchesOf(engine, pattern, unique[|unique| - 1])
  }

  /** The scan collects exactly the `findall` results of the messages that do not fail. */
  lemma {:induction false} ScanIsUnion(engine: Engine, pattern: string, unique: seq<Message>)
    ensures forall x :: x in Scan(engine, pattern, unique) <==>
      exists k :: 0 <= k < |unique| && Yields(engine, pattern, unique[k], x)
    decreases |unique|
  {
    if |unique| > 0 {
      var front := unique[..|unique| - 1];
      ScanIsUnion(engine, pattern, front);
      forall x | x in Scan(engine, pattern, unique)
        ensures exists k :: 0 <= k < |unique| && Yields(engine, pattern, unique[k], x)
      {
        if x in Scan(engine, pattern, front) {
          var k :| 0 <= k < |front| && Yields(engine, pattern, front[k], x);
          assert front[k] == unique[k];
        }
      }
      forall x | exists k :: 0 <= k < |unique| && Yields(engine, pattern, unique[k], x)
        ensures x in Scan(engine, pattern, unique)
      {
        var k :| 0 <= k < |unique| && Yields(engine, pattern, unique[k], x);
        if k < |front| {
          assert front[k] == unique[k];
        }
      }
    }
  }

  /** A failing message contributes nothing, and the others are scanned as if it were absent. */
  lemma ScanSkipsFailure(engine: Engine, pattern: string, unique: seq<Message>, k: nat)
    requires k < |unique| && engine.fails(pattern, Bytes(unique[k]))
    ensures Scan(engine, pattern, unique) == Scan(engine, pattern, unique[..k] + unique[k + 1..])
  {
    var rest := unique[..k] + unique[k + 1..];
    ScanIsUnion(engine, pattern, unique);
    ScanIsUnion(engine, pattern, rest);
    forall x ensures x in Scan(engine, pattern, unique) <==> x in Scan(engine, pattern, rest) {
      if x in Scan(engine, pattern, unique) {
        var j :| 0 <= j < |unique| && Yields(engine, pattern, unique[j], x);
        if j < k {
          assert rest[j] == unique[j];
        } else {
          assert rest[j - 1] == unique[j];
        }
      }
      if x in Scan(engine, pattern, rest) {
        var j :| 0 <= j < |rest| && Yields(engine, pattern, rest[j], x);
        if j < k {
          assert rest[j] == unique[j];
        } else {
          assert rest[j] == unique[j + 1];
        }
      }
    }
  }

  /** The background computation: deduplicate, then accumulate matches; returns the match set and the deduplicated count. */
  method ExtractWorker(engine: Engine, pattern: string, selected: seq<Message>) returns (matches: set<string>, count: nat)
    ensures matches == Scan(engine, pattern, Dedup(selected))
    ensures count == |Dedup(selected)| <= |selected|
  {
    var unique := DedupByLength(selected);
    matches := {};
    var i := 0;
    while i < |unique|
      invariant 0 <= i <= |unique|
      invariant matches == Scan(engine, pattern, unique[..i])
    {
      var m := unique[i];
      if !engine.fails(pattern, Bytes(m)) {
        var local := engine.findAll(pattern, engine.decode(Bytes(m)));
        matches := matches + (set x | x in local);
      }
      assert unique[..i + 1][..i] == unique[..i];
      i := i + 1;
    }
    assert unique[..|unique|] == unique;
    count := |unique|;
  }

  // ---------------------------------------------------------------------------
  // The extraction pipeline
  // ---------------------------------------------------------------------------

  /** Why an extraction stopped before scanning. */
  datatype ExtractError = NoRequestsSelected | NoPatternSelected | CompileError

  /** The match set and the number of deduplicated messages that were attempted. */
  datatype Extraction = Extraction(matches: set<string>, uniqueCount: nat)

  /** `regex_patterns.get(selected_name, "")`. */
  function PatternFor(patterns: map<string, string>, choice: Option<string>): string {
    if choice.Some? && choice.value in patterns then patterns[choice.value] else ""
  }

  /**
   * The whole extraction: the three gates, then the scan of the deduplicated
   * selection. A successful result holds the `findall` matches of exactly the
   * first-of-length messages that do not fail, and counts the distinct
   * non-empty response lengths.
   */
  function Extract(engine: Engine, patterns: map<string, string>, choice: Option<string>, selected: seq<Message>)
    : (r: Result<Extraction, ExtractError>)
    ensures r == Failure(NoRequestsSelected) <==> |selected| == 0
    ensures r == Failure(NoPatternSelected) <==>
      |selected| > 0 && (choice.None? || choice.value !in patterns || patterns[choice.value] == "")
    ensures r == Failure(CompileError) <==>
      |selected| > 0 && PatternFor(patterns, choice) != "" && !engine.compiles(PatternFor(patterns, choice))
    ensures r.Success? ==> r.value.uniqueCount == |LengthsBefore(selected, |selected|)| <= |selected|
    ensures r.Success? ==> forall x :: x in r.value.matches <==>
      exists i :: 0 <= i < |selected| && FirstOfLength(selected, i)
                  && Yields(engine, PatternFor(patterns, choice), selected[i], x)
  {
    if |selected| == 0 then Failure(NoRequestsSelected)
    else
      var pattern := PatternFor(patterns, choice);
      if pattern == "" then Failure(NoPatternSelected)
      else if !engine.compiles(pattern) then Failure(CompileError)
      else
        var unique := Dedup(selected);
        DedupCount(selected);
        DedupMatchesFromFirstOfLength(engine, pattern, selected);
        Success(Extraction(Scan(engine, pattern, unique), |unique|))
  }

  /** Scanning the deduplicated selection is scanning its first-of-length messages. */
  lemma DedupMatchesFromFirstOfLength(engine: Engine, pattern: string, selected: seq<Message>)
    ensures forall x :: x in Scan(engine, pattern, Dedup(selected)) <==>
      exists i :: 0 <= i < |selected| && FirstOfLength(selected, i)
                  && Yields(engine, pattern, selected[i], x)
  {
    var unique := Dedup(selected);
    var idx := KeptIndices(selected);
    ScanIsUnion(engine, pattern, unique);
    DedupKeepsFirstOfEachLength(selected);
    forall x ensures x in Scan(engine, pattern, unique) <==>
      exists i :: 0 <= i < |selected| && FirstOfLength(selected, i)
                  && Yields(engine, pattern, selected[i], x)
    {
      if x in Scan(engine, pattern, unique) {
        var k :| 0 <= k < |unique| && Yields(engine, pattern, unique[k], x);
        assert idx[k] in idx;
        assert unique[k] == selected[idx[k]];
      }
      if exists i :: 0 <= i < |selected| && FirstOfLength(selected, i)
                  && Yields(engine, pattern, selected[i], x) {
        var i :| 0 <= i < |selected| && FirstOfLength(selected, i)
                 && Yields(engine, pattern, selected[i], x);
        var k :| 0 <= k < |idx| && idx[k] == i;
        assert unique[k] == selected[i];
      }
    }
  }

  /**
   * `extract_regex_from_responses` followed by the worker: the gates, then the
   * scan. It repeats `Extract`'s gates so that the loops of `ExtractWorker`
   * are tied to the functional pipeline.
   */
  method ExtractRegexFromResponses(engine: Engine, patterns: map<string, string>, choice: Option<string>, selected: seq<Message>)
    returns (r: Result<Extraction, ExtractError>)
    ensures r == Extract(engine, patterns, choice, selected)
  {
    if |selected| == 0 {
      return Failure(NoRequestsSelected);
    }
    var pattern := PatternFor(patterns, choice);
    if pattern == "" {
      return Failure(NoPatternSelected);
    }
    if !engine.compiles(pattern) {
      return Failure(CompileError);
    }
    var matches, count := ExtractWorker(engine, pattern, selected);
    r := Success(Extraction(matches, count));
  }
}
