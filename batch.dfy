/**
 * The batch driver of spec/generate.py: `parse_characters`, the pool-size
 * guard and the slot loop of `main`. Slot `i` (1-based) draws 2 to 4
 * speakers from distinct positions of the pool and a topic, asks for one conversation,
 * and writes `{i:03d}.txt` only when a transcript came back; the run exits
 * with status 1 when any slot failed.
 *
 * The random draws and the completion client of each slot are inputs (a
 * `SlotDraw` per slot); each written file is recorded as its name and
 * content.
 */
module Batch {
  import opened Wrappers
  import opened PyStr
  import opened Transcript
  import opened Conversation

  /** The entries of a comma-split list, each stripped, with the empty ones dropped: the comprehension of `parse_characters`. */
  function Names(parts: seq<string>): (names: seq<string>)
    ensures |names| <= |parts|
    ensures forall k | 0 <= k < |names| :: names[k] != [] && Strip(names[k]) == names[k]
  {
    if parts == [] then []
    else
      var n := Strip(parts[0]);
      StripIdempotent(parts[0]);
      (if n == [] then [] else [n]) + Names(parts[1..])
  }

  /** One entry gives its stripped text, or nothing when that is empty. */
  lemma NamesOne(x: string)
    ensures Names([x]) == if Strip(x) == [] then [] else [Strip(x)]
  {
    assert [x][1..] == [];
  }

  lemma ConcatAssoc(a: seq<string>, b: seq<string>, c: seq<string>)
    ensures a + (b + c) == (a + b) + c
  {
  }

  /** The first entry of a non-empty list contributes its stripped text, if any, ahead of the rest. */
  lemma NamesUnfold(parts: seq<string>)
    requires parts != []
    ensures Names(parts) == (if Strip(parts[0]) == [] then [] else [Strip(parts[0])]) + Names(parts[1..])
  {
  }

  /** The names of two runs of entries, one after the other: entries are kept in input order. */
  lemma {:induction false} NamesAppend(p: seq<string>, q: seq<string>)
    ensures Names(p + q) == Names(p) + Names(q)
  {
    if p == [] {
      assert p + q == q;
    } else {
      assert (p + q)[0] == p[0] && (p + q)[1..] == p[1..] + q;
      NamesUnfold(p + q);
      NamesUnfold(p);
      NamesAppend(p[1..], q);
      ConcatAssoc(if Strip(p[0]) == [] then [] else [Strip(p[0])], Names(p[1..]), Names(q));
    }
  }

  /** The first name that is not one or more of `a`-`z`, if any. */
  function FirstInvalid(names: seq<string>): (bad: Option<string>)
    ensures bad.Some? ==> bad.value in names && !IsName(bad.value)
  {
    if names == [] then None
    else if !IsName(names[0]) then Some(names[0])
    else FirstInvalid(names[1..])
  }

  /**
   * `parse_characters(value)`: the names in input order, or the first
   * invalid one, which the script reports before exiting with status 1.
   */
  function ParseCharacters(value: string): (r: Result<seq<string>, string>)
    ensures r.Success? ==> r.value == Names(SplitOn(value, ','))
    ensures r.Failure? ==> r.error in Names(SplitOn(value, ','))
  {
    var names := Names(SplitOn(value, ','));
    match FirstInvalid(names)
    case None => Success(names)
    case Some(bad) => Failure(bad)
  }

  /** No name is invalid exactly when every name is one or more of `a`-`z`. */
  lemma {:induction false} FirstInvalidNone(names: seq<string>)
    ensures FirstInvalid(names).None? <==> forall k | 0 <= k < |names| :: IsName(names[k])
  {
    if names != [] {
      FirstInvalidNone(names[1..]);
      if IsName(names[0]) {
        forall k | 0 <= k < |names| && forall j | 0 <= j < |names[1..]| :: IsName(names[1..][j])
          ensures IsName(names[k])
        {
          if k > 0 {
            assert names[k] == names[1..][k - 1];
          }
        }
      }
    }
  }

  /** The reported name is invalid, and every name before its first occurrence is valid. */
  lemma {:induction false} FirstInvalidSome(names: seq<string>)
    requires FirstInvalid(names).Some?
    ensures exists k | 0 <= k < |names| ::
      names[k] == FirstInvalid(names).value && !IsName(names[k]) && forall j | 0 <= j < k :: IsName(names[j])
  {
    if IsName(names[0]) {
      FirstInvalidSome(names[1..]);
      var k :| 0 <= k < |names[1..]| && names[1..][k] == FirstInvalid(names).value
        && !IsName(names[1..][k]) && forall j | 0 <= j < k :: IsName(names[1..][j]);
      assert names[k + 1] == names[1..][k];
      forall j | 0 <= j < k + 1 ensures IsName(names[j]) {
        if j > 0 {
          assert names[j] == names[1..][j - 1];
        }
      }
    } else {
      assert names[0] == FirstInvalid(names).value;
    }
  }

  /** A successful parse gives stripped, non-empty names of `a`-`z` only; a failure reports a name that is not one. */
  lemma ParseCharactersResult(value: string)
    ensures ParseCharacters(value).Success? ==>
      var names := ParseCharacters(value).value;
      forall k | 0 <= k < |names| :: IsName(names[k]) && Strip(names[k]) == names[k]
    ensures ParseCharacters(value).Failure? ==>
      var bad := ParseCharacters(value).error;
      bad != [] && Strip(bad) == bad && !IsName(bad) && bad in Names(SplitOn(value, ','))
  {
    var names := Names(SplitOn(value, ','));
    FirstInvalidNone(names);
    if FirstInvalid(names).Some? {
      FirstInvalidSome(names);
    }
  }

  /** A name of `a`-`z` has no whitespace around it. */
  lemma NameStripped(n: string)
    requires IsName(n)
    ensures Strip(n) == n
  {
    assert IsLower(n[0]) && IsLower(n[|n| - 1]);
    StripStripped(n);
  }

  /** Stripping and filtering a list of valid names keeps every one of them. */
  lemma {:induction false} NamesOfNames(names: seq<string>)
    requires forall k | 0 <= k < |names| :: IsName(names[k])
    ensures Names(names) == names
  {
    if names != [] {
      NameStripped(names[0]);
      NamesOfNames(names[1..]);
      assert names == [names[0]] + names[1..];
    }
  }

  /** Joining valid names with commas and parsing the list gives the names back. */
  lemma ParseCharactersJoin(names: seq<string>)
    requires forall k | 0 <= k < |names| :: IsName(names[k])
    ensures ParseCharacters(Join(names, ",")) == Success(names)
  {
    FirstInvalidNone(names);
    if names == [] {
      assert SplitOn(Join(names, ","), ',') == [""];
    } else {
      forall p | p in names ensures ',' !in p {
        var k :| 0 <= k < |names| && names[k] == p;
        assert IsName(names[k]);
      }
      SplitOnJoin(names, ',');
      NamesOfNames(names);
    }
  }

  /** `f"{i:03d}.txt"`. */
  function FileName(i: nat): (name: string)
    ensures |name| >= 7 && name[|name| - 4..] == ".txt"
  {
    FormatInt(i, 3) + ".txt"
  }

  /**
   * A file name reads back as its slot number: exactly `max(3, len(str(i)))`
   * digits, then ".txt" (slot 7 is "007.txt", slot 1234 is "1234.txt").
   */
  lemma FileNameRoundTrip(i: nat)
    ensures var name := FileName(i);
      && |name| == 4 + (if |Digits(i)| < 3 then 3 else |Digits(i)|) && name[|name| - 4..] == ".txt"
      && AllDigits(name[..|name| - 4]) && DigitsValue(name[..|name| - 4]) == i
  {
    FormatIntRoundTrip(i, 3);
    var name := FileName(i);
    assert name[..|name| - 4] == FormatInt(i, 3);
  }

  /** Different slots write different files. */
  lemma FileNameInjective(i: nat, j: nat)
    requires FileName(i) == FileName(j)
    ensures i == j
  {
    FileNameRoundTrip(i);
    FileNameRoundTrip(j);
  }

  /**
   * The random draws of one slot and the completion client it talks to:
   * the pool indices `random.sample` picked (as many as `random.randint`
   * chose) and the index of the topic `random.choice` picked.
   */
  datatype SlotDraw = SlotDraw(picks: seq<nat>, topic: nat, llm: (nat, Request) -> Reply)

  function Min(a: int, b: int): int {
    if a < b then a else b
  }

  /** `picks` are positions of a pool of `n`, no position twice: what `random.sample` draws. */
  predicate DistinctPositions(picks: seq<nat>, n: nat) {
    && (forall k | 0 <= k < |picks| :: picks[k] < n)
    && (forall j, k | 0 <= j < k < |picks| :: picks[j] != picks[k])
  }

  /** What the draws can be: 2 to `min(4, len(pool))` distinct pool positions and a topic. */
  predicate ValidDraw(d: SlotDraw, poolSize: nat) {
    && 2 <= |d.picks| <= Min(4, poolSize)
    && DistinctPositions(d.picks, poolSize)
    && d.topic < |Topics|
  }

  /** The speakers of a slot: `random.sample(characters, num_chars)`. */
  function Selected(pool: seq<string>, picks: seq<nat>): (sel: seq<string>)
    requires forall k | 0 <= k < |picks| :: picks[k] < |pool|
    ensures |sel| == |picks| && forall k | 0 <= k < |picks| :: sel[k] == pool[picks[k]]
  {
    seq(|picks|, k requires 0 <= k < |picks| => pool[picks[k]])
  }

  /** Positions inside a prefix of the pool select the same speakers from that prefix. */
  lemma SelectedPrefix(pool: seq<string>, n: nat, picks: seq<nat>)
    requires n <= |pool| && forall k | 0 <= k < |picks| :: picks[k] < n
    ensures Selected(pool[..n], picks) == Selected(pool, picks)
  {
  }

  /** Dropping the pick at `q` drops the speaker at `q`. */
  lemma SelectedRemove(pool: seq<string>, picks: seq<nat>, q: nat)
    requires q < |picks| && forall k | 0 <= k < |picks| :: picks[k] < |pool|
    ensures var sel := Selected(pool, picks);
      Selected(pool, picks[..q] + picks[q + 1..]) == sel[..q] + sel[q + 1..]
  {
  }

  /** Dropping the pick at `q` keeps the other positions distinct and bounded. */
  lemma RemovePosition(picks: seq<nat>, n: nat, q: nat)
    requires q < |picks| && DistinctPositions(picks, n + 1) && picks[q] == n
    ensures DistinctPositions(picks[..q] + picks[q + 1..], n)
  {
    var rest := picks[..q] + picks[q + 1..];
    assert forall k | 0 <= k < |rest| :: rest[k] == if k < q then picks[k] else picks[k + 1];
  }

  /** Putting the same name back into both sides keeps one within the other. */
  lemma MultisetInsert(a: seq<string>, b: seq<string>, x: string, pool: seq<string>)
    requires multiset(a + b) <= multiset(pool)
    ensures multiset(a + [x] + b) <= multiset(pool + [x])
  {
    assert multiset(a + [x] + b) == multiset(a + b) + multiset{x};
  }

  /** Positions that avoid the last one of a pool are positions of the pool without it. */
  lemma AvoidLast(picks: seq<nat>, n: nat)
    requires DistinctPositions(picks, n + 1) && forall k | 0 <= k < |picks| :: picks[k] != n
    ensures DistinctPositions(picks, n)
  {
  }

  /** Picking the last position adds the last name to a selection from the rest of the pool. */
  lemma SelectedWithLast(pool: seq<string>, picks: seq<nat>, q: nat)
    requires |pool| > 0 && q < |picks| && picks[q] == |pool| - 1
    requires DistinctPositions(picks, |pool|)
    requires multiset(Selected(pool[..|pool| - 1], picks[..q] + picks[q + 1..])) <= multiset(pool[..|pool| - 1])
    ensures multiset(Selected(pool, picks)) <= multiset(pool)
  {
    var last := |pool| - 1;
    var rest := picks[..q] + picks[q + 1..];
    var sel := Selected(pool, picks);
    RemovePosition(picks, last, q);
    SelectedPrefix(pool, last, rest);
    SelectedRemove(pool, picks, q);
    assert sel == sel[..q] + [pool[last]] + sel[q + 1..];
    MultisetInsert(sel[..q], sel[q + 1..], pool[last], pool[..last]);
    assert pool[..last] + [pool[last]] == pool;
  }

  /** Speakers drawn from distinct positions are drawn without replacement: no name more often than the pool holds it. */
  lemma {:induction false} SelectedSubMultiset(pool: seq<string>, picks: seq<nat>)
    requires DistinctPositions(picks, |pool|)
    ensures multiset(Selected(pool, picks)) <= multiset(pool)
    decreases |pool|
  {
    if picks != [] {
      assert picks[0] < |pool|;
      var last := |pool| - 1;
      if q :| 0 <= q < |picks| && picks[q] == last {
        RemovePosition(picks, last, q);
        SelectedSubMultiset(pool[..last], picks[..q] + picks[q + 1..]);
        SelectedWithLast(pool, picks, q);
      } else {
        AvoidLast(picks, last);
        SelectedSubMultiset(pool[..last], picks);
        SelectedPrefix(pool, last, picks);
        assert pool[..last] + [pool[last]] == pool;
        assert multiset(pool) == multiset(pool[..last]) + multiset{pool[last]};
      }
    }
  }

  /**
   * A slot's speakers under a possible draw: 2 to `min(4, len(pool))` of
   * them, taken from the pool without replacement.
   */
  lemma SelectedSample(pool: seq<string>, d: SlotDraw)
    requires ValidDraw(d, |pool|)
    ensures var sel := Selected(pool, d.picks);
      && 2 <= |sel| <= Min(4, |pool|)
      && multiset(sel) <= multiset(pool)
  {
    SelectedSubMultiset(pool, d.picks);
  }

  /** What every slot of one run shares, and the draws of the slots in order. */
  datatype Run = Run(model: string, systemPrompt: string, pool: seq<string>, messages: int, draws: seq<SlotDraw>)

  /** The first `n` slots have their draws, and each is possible for the pool. */
  predicate Drawn(r: Run, n: nat) {
    n <= |r.draws| && forall k | 0 <= k < n :: ValidDraw(r.draws[k], |r.pool|)
  }

  /** The transcript slot `i` gets: `generate_conversation` with its speakers and topic and the default retries. */
  function SlotTranscript(r: Run, i: nat): Option<string>
    requires 1 <= i && Drawn(r, i)
  {
    var d := r.draws[i - 1];
    var sel := Selected(r.pool, d.picks);
    var req := Request(r.model, r.systemPrompt, sel, r.messages, Topics[d.topic]);
    Attempts(DefaultMaxRetries, req, Check(AllowedSet(sel)), d.llm, 1).transcript
  }

  /** The transcript of each slot, as a function of the slot number: nothing for a slot without a possible draw. */
  function Slots(r: Run): nat -> Option<string> {
    i => if 1 <= i && Drawn(r, i) then SlotTranscript(r, i) else None
  }

  /** One written file: its name and the text written to it. */
  datatype OutputFile = OutputFile(name: string, content: string)

  /** The file slot `i` writes when it got transcript `t`: `t + "\n"` in `{i:03d}.txt`. */
  function SlotFile(i: nat, t: string): OutputFile {
    OutputFile(FileName(i), t + "\n")
  }

  /** The files written for slots 1 to `n`, given what each slot got. */
  function BatchFiles(outcome: nat -> Option<string>, n: nat): (files: seq<OutputFile>)
    ensures |files| <= n
  {
    if n == 0 then []
    else BatchFiles(outcome, n - 1) + if outcome(n).Some? then [SlotFile(n, outcome(n).value)] else []
  }

  /** The number of slots among 1 to `n` that got no transcript. */
  function FailedCount(outcome: nat -> Option<string>, n: nat): (failed: nat)
    ensures failed <= n
  {
    if n == 0 then 0
    else FailedCount(outcome, n - 1) + if outcome(n).None? then 1 else 0
  }

  /** Every slot either wrote a file or counts as failed: `succeeded + failed == count`. */
  lemma {:induction false} BatchCounts(outcome: nat -> Option<string>, n: nat)
    ensures |BatchFiles(outcome, n)| + FailedCount(outcome, n) == n
  {
    if n > 0 {
      BatchCounts(outcome, n - 1);
    }
  }

  /** Some slot failed exactly when the failure count is positive: the exit status is 1 iff a slot failed. */
  lemma {:induction false} FailedCountPositive(outcome: nat -> Option<string>, n: nat)
    ensures FailedCount(outcome, n) > 0 <==> exists i | 1 <= i <= n :: outcome(i).None?
  {
    if n > 0 {
      FailedCountPositive(outcome, n - 1);
    }
  }

  /** Every file written belongs to a slot that got a transcript: it is that slot's file. */
  lemma {:induction false} BatchFilesSound(outcome: nat -> Option<string>, n: nat)
    ensures forall f | f in BatchFiles(outcome, n) ::
      exists i | 1 <= i <= n :: outcome(i).Some? && f == SlotFile(i, outcome(i).value)
  {
    if n > 0 {
      BatchFilesSound(outcome, n - 1);
    }
  }

  /** Every slot that got a transcript has its file written. */
  lemma {:induction false} BatchFilesComplete(outcome: nat -> Option<string>, n: nat)
    ensures forall i | 1 <= i <= n && outcome(i).Some? :: SlotFile(i, outcome(i).value) in BatchFiles(outcome, n)
  {
    if n > 0 {
      BatchFilesComplete(outcome, n - 1);
    }
  }

  /** No two of `files` share a name. */
  predicate NamesDistinct(files: seq<OutputFile>) {
    forall p, q | 0 <= p < q < |files| :: files[p].name != files[q].name
  }

  /** No two files written share a name. */
  lemma {:induction false} BatchNamesDistinct(outcome: nat -> Option<string>, n: nat)
    ensures NamesDistinct(BatchFiles(outcome, n))
  {
    if n > 0 {
      var files := BatchFiles(outcome, n);
      var before := BatchFiles(outcome, n - 1);
      BatchNamesDistinct(outcome, n - 1);
      if outcome(n).Some? {
        var last := SlotFile(n, outcome(n).value);
        assert files == before + [last];
        BatchFilesSound(outcome, n - 1);
        forall p | 0 <= p < |before| ensures before[p].name != last.name {
          assert before[p] in before;
          var i :| 1 <= i <= n - 1 && outcome(i).Some? && before[p] == SlotFile(i, outcome(i).value);
          if before[p].name == last.name {
            FileNameInjective(i, n);
          }
        }
        forall p, q | 0 <= p < q < |files| ensures files[p].name != files[q].name {
          assert files[p] == before[p];
          if q < |before| {
            assert files[q] == before[q];
          } else {
            assert files[q] == last;
          }
        }
      } else {
        assert files == before;
      }
    }
  }

  /**
   * `outcome` gives every slot with a possible draw the transcript it gets.
   * The trigger keeps the comparison to the slots whose transcript is
   * already under discussion.
   */
  ghost predicate Realizes(r: Run, outcome: nat -> Option<string>) {
    forall i {:trigger SlotTranscript(r, i)} | 1 <= i && Drawn(r, i) :: outcome(i) == SlotTranscript(r, i)
  }

  lemma SlotsRealize(r: Run)
    ensures Realizes(r, Slots(r))
  {
  }

  /** Two outcome functions that agree on slots 1 to `n` give the same files and failures. */
  lemma {:induction false} BatchAgree(o1: nat -> Option<string>, o2: nat -> Option<string>, n: nat)
    requires forall i | 1 <= i <= n :: o1(i) == o2(i)
    ensures BatchFiles(o1, n) == BatchFiles(o2, n) && FailedCount(o1, n) == FailedCount(o2, n)
  {
    if n > 0 {
      BatchAgree(o1, o2, n - 1);
    }
  }

  /** Any outcome function that realizes the run gives the run's own files and failures. */
  lemma RealizedBatch(r: Run, outcome: nat -> Option<string>, n: nat)
    requires Realizes(r, outcome) && Drawn(r, n)
    ensures BatchFiles(outcome, n) == BatchFiles(Slots(r), n) && FailedCount(outcome, n) == FailedCount(Slots(r), n)
  {
    forall i | 1 <= i <= n
      ensures outcome(i) == Slots(r)(i)
    {
      assert Drawn(r, i);
      assert outcome(i) == SlotTranscript(r, i);
    }
    BatchAgree(outcome, Slots(r), n);
  }

  /**
   * One slot: its speakers drawn from the pool, then `generate_conversation`
   * for them with the default retries; it gets what `outcome` says it gets.
   */
  method RunSlot(r: Run, i: nat, ghost outcome: nat -> Option<string>) returns (transcript: Option<string>)
    requires 1 <= i && Drawn(r, i) && Realizes(r, outcome)
    ensures transcript == outcome(i)
  {
    var d := r.draws[i - 1];
    var selected := Selected(r.pool, d.picks);
    var requests, sleeps;
    transcript, requests, sleeps := GenerateConversation(r.model, r.systemPrompt, selected, r.messages, d.topic, DefaultMaxRetries, d.llm);
    assert transcript == SlotTranscript(r, i);
  }

  /**
   * The slot loop of `main` over slots 1 to `count`: a slot's transcript is
   * written to the slot's file, and a slot without one counts as failed.
   */
  method GenerateBatch(r: Run, count: int, ghost outcome: nat -> Option<string>) returns (files: seq<OutputFile>, succeeded: nat, failed: nat)
    requires (count <= 0 || Drawn(r, count)) && Realizes(r, outcome)
    ensures var n := if count <= 0 then 0 else count;
      files == BatchFiles(outcome, n) && succeeded == |files| && failed == FailedCount(outcome, n)
  {
    files, succeeded, failed := [], 0, 0;
    var i := 1;
    while i <= count
      invariant 1 <= i && (i == 1 || i <= count + 1)
      invariant files == BatchFiles(outcome, i - 1) && succeeded == |files| && failed == FailedCount(outcome, i - 1)
    {
      var transcript := RunSlot(r, i, outcome);
      match transcript {
        case None =>
          failed := failed + 1;
        case Some(t) =>
          files := files + [SlotFile(i, t)];
          succeeded := succeeded + 1;
      }
      i := i + 1;
    }
  }

  /**
   * `main` from the parsed `--characters` list on: a list that does not
   * parse or names fewer than two speakers ends the run with status 1 before
   * any slot; otherwise the slots run and the status is 1 exactly when one
   * of them failed.
   */
  method GenerateMain(characters: string, count: int, messages: int, model: string, systemPrompt: string, draws: seq<SlotDraw>)
    returns (files: seq<OutputFile>, succeeded: nat, failed: nat, status: int)
    requires ParseCharacters(characters).Success? && |ParseCharacters(characters).value| >= 2 && count > 0 ==>
      Drawn(Run(model, systemPrompt, ParseCharacters(characters).value, messages, draws), count)
    ensures ParseCharacters(characters).Failure? || |ParseCharacters(characters).value| < 2 ==>
      files == [] && succeeded == 0 && failed == 0 && status == 1
    ensures ParseCharacters(characters).Success? && |ParseCharacters(characters).value| >= 2 ==>
      var n := if count <= 0 then 0 else count;
      var outcome := Slots(Run(model, systemPrompt, ParseCharacters(characters).value, messages, draws));
      && files == BatchFiles(outcome, n) && succeeded == |files| && failed == FailedCount(outcome, n)
      && (status == 1 <==> exists i | 1 <= i <= n :: outcome(i).None?) && (status == 0 || status == 1)
  {
    var parsed := ParseCharacters(characters);
    if parsed.Failure? || |parsed.value| < 2 {
      return [], 0, 0, 1;
    }
    var r := Run(model, systemPrompt, parsed.value, messages, draws);
    SlotsRealize(r);
    files, succeeded, failed := GenerateBatch(r, count, Slots(r));
    var n := if count <= 0 then 0 else count;
    FailedCountPositive(Slots(r), n);
    status := if failed > 0 then 1 else 0;
  }
}
