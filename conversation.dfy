/**
 * `generate_conversation` of spec/generate.py: a fixed topic and allowed
 * speaker set, then up to `max_retries` chat-completion calls. A reply that
 * validates is returned stripped; a reply that does not is retried at once;
 * a call that raises is retried after a sleep of `2**attempt` seconds,
 * except after the last attempt.
 *
 * The chat-completion client is a function from the attempt number and the
 * request to a reply; `random.choice(TOPICS)` is the index it drew; each
 * `time.sleep` is recorded as its delay in seconds.
 */
module Conversation {
  import opened Wrappers
  import opened PyStr
  import opened Transcript

  /** The sample topics one is drawn from per conversation. */
  const Topics: seq<string> := [
    "planning a surprise birthday party",
    "debating the best pizza toppings",
    "organizing a weekend hiking trip",
    "discussing a mysterious noise in the building",
    "planning a potluck dinner",
    "debating which movie to watch tonight",
    "coordinating a group study session",
    "discussing rumors about a new neighbor",
    "planning a road trip across the country",
    "arguing about the rules of a board game",
    "discussing what to name a new pet",
    "planning a community garden project",
    "debating the merits of early morning vs late night routines",
    "organizing a charity fundraiser",
    "discussing a strange dream someone had",
    "planning a home renovation project",
    "debating the best strategy for a video game",
    "discussing a book everyone just read",
    "planning a camping trip",
    "arguing about whose turn it is to do the dishes"
  ]

  /** The default number of attempts. */
  const DefaultMaxRetries: int := 3

  /**
   * What every completion call of one conversation is asked: the model, the
   * system prompt, and the speakers, message count and topic the user
   * prompt is built from.
   */
  datatype Request = Request(model: string, systemPrompt: string, characters: seq<string>, messageCount: int, topic: string)

  /** One completion call: it raised (including a reply whose content is missing), or it returned content. */
  datatype Reply = Raised | Completion(content: string)

  /** The outcome of the attempts from some attempt number on: the transcript, the calls made and the sleeps taken. */
  datatype Generation = Generation(transcript: Option<string>, calls: nat, sleeps: seq<nat>)

  /** `2**k`. */
  function Pow2(k: nat): (p: nat)
    ensures p >= 1
  {
    if k == 0 then 1 else 2 * Pow2(k - 1)
  }

  lemma {:induction false} Pow2Increasing(i: nat, j: nat)
    requires i < j
    ensures Pow2(i) < Pow2(j)
    decreases j
  {
    if i < j - 1 {
      Pow2Increasing(i, j - 1);
    }
  }

  /** `set(characters)`. */
  function AllowedSet(characters: seq<string>): set<string> {
    set c | c in characters
  }

  /**
   * The decision on one reply's content: its stripped text when
   * `validate_transcript` accepts that text against the allowed speakers,
   * and nothing otherwise.
   */
  function Check(allowed: set<string>): (check: string -> Option<string>)
    ensures forall content :: check(content).Some? <==> Validate(Strip(content), allowed) == Valid
    ensures forall content :: check(content).Some? ==> check(content).value == Strip(content)
  {
    content => if Validate(Strip(content), allowed) == Valid then Some(Strip(content)) else None
  }

  /** An accepted reply becomes a stripped transcript the validator accepts, opening with a line by an allowed speaker. */
  lemma CheckAccepted(allowed: set<string>, content: string)
    requires Check(allowed)(content).Some?
    ensures var t := Check(allowed)(content).value;
      && Strip(t) == t && Validate(t, allowed) == Valid
      && MatchMessage(Lines(t)[0]).Some? && MatchMessage(Lines(t)[0]).value.speaker in allowed
  {
    StripIdempotent(content);
    AcceptedHasMessage(Strip(content), allowed);
  }

  /** Attempt `a` returned content that `check` accepts. */
  predicate Accepts(llm: (nat, Request) -> Reply, req: Request, check: string -> Option<string>, a: nat) {
    llm(a, req).Completion? && check(llm(a, req).content).Some?
  }

  /** The attempts numbered `a` to `maxRetries`, as the loop body runs them, each reply decided by `check`. */
  function Attempts(maxRetries: int, req: Request, check: string -> Option<string>, llm: (nat, Request) -> Reply, a: nat): (g: Generation)
    ensures a > maxRetries ==> g.calls == 0 && g.sleeps == [] && g.transcript.None?
    ensures a <= maxRetries ==> |g.sleeps| < g.calls
    decreases maxRetries - a + 1
  {
    if a > maxRetries then Generation(None, 0, [])
    else
      var rest := Attempts(maxRetries, req, check, llm, a + 1);
      match llm(a, req)
      case Raised =>
        var pause := if a < maxRetries then [Pow2(a)] else [];
        Generation(rest.transcript, rest.calls + 1, pause + rest.sleeps)
      case Completion(content) =>
        if check(content).Some? then Generation(check(content), 1, [])
        else Generation(rest.transcript, rest.calls + 1, rest.sleeps)
  }

  /**
   * The retry loop of `generate_conversation` for one request: up to
   * `maxRetries` calls, each reply decided by `check`.
   */
  method Retry(maxRetries: int, req: Request, check: string -> Option<string>, llm: (nat, Request) -> Reply)
    returns (transcript: Option<string>, requests: seq<Request>, sleeps: seq<nat>)
    ensures var g := Attempts(maxRetries, req, check, llm, 1);
      && transcript == g.transcript && |requests| == g.calls && sleeps == g.sleeps
      && forall k | 0 <= k < |requests| :: requests[k] == req
  {
    ghost var whole := Attempts(maxRetries, req, check, llm, 1);
    requests, sleeps := [], [];
    var attempt := 1;
    while attempt <= maxRetries
      invariant 1 <= attempt && (attempt == 1 || attempt <= maxRetries + 1)
      invariant |requests| == attempt - 1
      invariant forall k | 0 <= k < |requests| :: requests[k] == req
      invariant var rest := Attempts(maxRetries, req, check, llm, attempt);
        whole.transcript == rest.transcript && whole.calls == |requests| + rest.calls && whole.sleeps == sleeps + rest.sleeps
    {
      requests := requests + [req];
      var reply := llm(attempt, req);
      match reply {
        case Raised =>
          if attempt < maxRetries {
            sleeps := sleeps + [Pow2(attempt)];
          }
        case Completion(content) =>
          var decision := check(content);
          if decision.Some? {
            transcript := decision;
            return;
          }
      }
      attempt := attempt + 1;
    }
    transcript := None;
  }

  /** `generate_conversation(...)`: the request is fixed once, then the replies are retried under the validator. */
  method GenerateConversation(model: string, systemPrompt: string, characters: seq<string>, messageCount: int,
                              topicChoice: nat, maxRetries: int, llm: (nat, Request) -> Reply)
    returns (transcript: Option<string>, requests: seq<Request>, sleeps: seq<nat>)
    requires topicChoice < |Topics|
    ensures var req := Request(model, systemPrompt, characters, messageCount, Topics[topicChoice]);
      var g := Attempts(maxRetries, req, Check(AllowedSet(characters)), llm, 1);
      && transcript == g.transcript && |requests| == g.calls && sleeps == g.sleeps
      && forall k | 0 <= k < |requests| :: requests[k] == req
  {
    var topic := Topics[topicChoice];
    var req := Request(model, systemPrompt, characters, messageCount, topic);
    var allowed := AllowedSet(characters);
    transcript, requests, sleeps := Retry(maxRetries, req, Check(allowed), llm);
  }

  /** The attempts from `a` on make at most `maxRetries - a + 1` calls, and none at all when `a > maxRetries`. */
  lemma {:induction false} AttemptsCalls(maxRetries: int, req: Request, check: string -> Option<string>, llm: (nat, Request) -> Reply, a: nat)
    ensures var g := Attempts(maxRetries, req, check, llm, a);
      && (a > maxRetries ==> g == Generation(None, 0, []))
      && (a <= maxRetries ==> 1 <= g.calls <= maxRetries - a + 1)
    decreases maxRetries - a + 1
  {
    if a <= maxRetries {
      AttemptsCalls(maxRetries, req, check, llm, a + 1);
    }
  }

  /**
   * A transcript is what `check` made of the first accepting attempt from
   * `a` on; the calls stop there, and no attempt before it accepts.
   */
  lemma {:induction false} AttemptsFirstAccepted(maxRetries: int, req: Request, check: string -> Option<string>, llm: (nat, Request) -> Reply, a: nat)
    requires Attempts(maxRetries, req, check, llm, a).transcript.Some?
    ensures var g := Attempts(maxRetries, req, check, llm, a);
      var k := a + g.calls - 1;
      && g.calls >= 1 && k <= maxRetries
      && Accepts(llm, req, check, k)
      && g.transcript == check(llm(k, req).content)
      && forall j {:trigger Accepts(llm, req, check, j)} | a <= j < k :: !Accepts(llm, req, check, j)
    decreases maxRetries - a + 1
  {
    if !Accepts(llm, req, check, a) {
      AttemptsFirstAccepted(maxRetries, req, check, llm, a + 1);
    }
  }

  /** Without a transcript, every attempt from `a` to `maxRetries` was made and none accepted. */
  lemma {:induction false} AttemptsExhausted(maxRetries: int, req: Request, check: string -> Option<string>, llm: (nat, Request) -> Reply, a: nat)
    requires Attempts(maxRetries, req, check, llm, a).transcript.None?
    ensures Attempts(maxRetries, req, check, llm, a).calls == if a > maxRetries then 0 else maxRetries - a + 1
    ensures forall j {:trigger Accepts(llm, req, check, j)} | a <= j <= maxRetries :: !Accepts(llm, req, check, j)
    decreases maxRetries - a + 1
  {
    if a <= maxRetries {
      AttemptsExhausted(maxRetries, req, check, llm, a + 1);
    }
  }

  /**
   * The back-off delays of attempts `a` up to (not including) `b`: `2**k`
   * for each attempt `k` that raised, except the last one allowed.
   */
  function Backoffs(maxRetries: int, req: Request, llm: (nat, Request) -> Reply, a: nat, b: nat): seq<nat>
    decreases b - a
  {
    if a >= b then []
    else (if llm(a, req).Raised? && a < maxRetries then [Pow2(a)] else []) + Backoffs(maxRetries, req, llm, a + 1, b)
  }

  /** The sleeps taken are exactly the back-off delays of the attempts made. */
  lemma {:induction false} AttemptsSleeps(maxRetries: int, req: Request, check: string -> Option<string>, llm: (nat, Request) -> Reply, a: nat)
    ensures var g := Attempts(maxRetries, req, check, llm, a);
      g.sleeps == Backoffs(maxRetries, req, llm, a, a + g.calls)
    decreases maxRetries - a + 1
  {
    if a <= maxRetries {
      AttemptsSleeps(maxRetries, req, check, llm, a + 1);
      var rest := Attempts(maxRetries, req, check, llm, a + 1);
      if !Accepts(llm, req, check, a) {
        AttemptsCalls(maxRetries, req, check, llm, a + 1);
        assert Backoffs(maxRetries, req, llm, a + 1, a + 1) == [];
      }
    }
  }

  predicate AtLeast(s: seq<nat>, low: nat) {
    forall p | 0 <= p < |s| :: low <= s[p]
  }

  predicate Increasing(s: seq<nat>) {
    forall p, q | 0 <= p < q < |s| :: s[p] < s[q]
  }

  /** Putting a smaller delay in front keeps the delays increasing. */
  lemma PrependIncreasing(d: nat, low: nat, s: seq<nat>)
    requires d < low && AtLeast(s, low) && Increasing(s)
    ensures AtLeast([d] + s, d) && Increasing([d] + s)
  {
    forall p, q | 0 <= p < q < |[d] + s| ensures ([d] + s)[p] < ([d] + s)[q] {
      if p > 0 {
        assert ([d] + s)[p] == s[p - 1];
      }
      assert ([d] + s)[q] == s[q - 1];
    }
  }

  /** The delays are increasing powers of two, each at least `2**a`: the back-off doubles. */
  lemma {:induction false} BackoffsIncrease(maxRetries: int, req: Request, llm: (nat, Request) -> Reply, a: nat, b: nat)
    ensures AtLeast(Backoffs(maxRetries, req, llm, a, b), Pow2(a))
    ensures Increasing(Backoffs(maxRetries, req, llm, a, b))
    decreases b - a
  {
    if a < b {
      var tail := Backoffs(maxRetries, req, llm, a + 1, b);
      BackoffsIncrease(maxRetries, req, llm, a + 1, b);
      Pow2Increasing(a, a + 1);
      if llm(a, req).Raised? && a < maxRetries {
        PrependIncreasing(Pow2(a), Pow2(a + 1), tail);
      }
    }
  }

  /** When no call raises, there is never a sleep: validation failures retry at once. */
  lemma {:induction false} NoRaiseNoSleep(maxRetries: int, req: Request, check: string -> Option<string>, llm: (nat, Request) -> Reply, a: nat)
    requires forall k | a <= k <= maxRetries :: llm(k, req).Completion?
    ensures Attempts(maxRetries, req, check, llm, a).sleeps == []
    decreases maxRetries - a + 1
  {
    if a <= maxRetries {
      NoRaiseNoSleep(maxRetries, req, check, llm, a + 1);
    }
  }

  /** When every call raises, all attempts are made and the sleeps are `2**a, ..., 2**(maxRetries - 1)`. */
  lemma {:induction false} AllRaiseBackoff(maxRetries: int, req: Request, check: string -> Option<string>, llm: (nat, Request) -> Reply, a: nat)
    requires 1 <= a <= maxRetries
    requires forall k | a <= k <= maxRetries :: llm(k, req).Raised?
    ensures var g := Attempts(maxRetries, req, check, llm, a);
      && g.transcript.None? && g.calls == maxRetries - a + 1
      && g.sleeps == seq(maxRetries - a, j requires 0 <= j < maxRetries - a => Pow2(a + j))
    decreases maxRetries - a + 1
  {
    if a < maxRetries {
      AllRaiseBackoff(maxRetries, req, check, llm, a + 1);
    }
  }
}
