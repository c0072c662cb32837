/** Which answer a request gets, by counting the tokens that last long enough. */
module TokenAnswers {
  import opened Bytes
  import opened TokenCache

  /** A token can be given out for five minutes less than it lasts. */
  predicate Lasts(t: Token, now: int) {
    t.expiration - now > 300
  }

  /** How many of the tokens last. */
  function Lasting(tokens: seq<Token>, now: int): nat {
    |set i | 0 <= i < |tokens| && Lasts(tokens[i], now)|
  }

  predicate Increasing(at: seq<nat>) {
    forall i, j :: 0 <= i < j < |at| ==> at[i] < at[j]
  }

  /** The places of all tokens that last, in order. */
  predicate Places(tokens: seq<Token>, now: int, at: seq<nat>) {
    && Increasing(at) && (forall j :: 0 <= j < |at| ==> at[j] < |tokens|)
    && forall i :: 0 <= i < |tokens| ==> (Lasts(tokens[i], now) <==> i in at)
  }

  predicate Picked(tokens: seq<Token>, at: seq<nat>, r: seq<Token>) {
    |r| == |at| && forall j :: 0 <= j < |at| ==> at[j] < |tokens| && r[j] == tokens[at[j]]
  }

  lemma OneMorePlaces(tokens: seq<Token>, last: Token, now: int, at: seq<nat>)
    requires Places(tokens, now, at)
    ensures Places(tokens + [last], now, if Lasts(last, now) then at + [|tokens|] else at)
  {
    var all, at' := tokens + [last], if Lasts(last, now) then at + [|tokens|] else at;
    forall i | 0 <= i < |all| ensures Lasts(all[i], now) <==> i in at' {
      if i < |tokens| {
        assert all[i] == tokens[i];
      }
    }
  }

  lemma OneMorePicked(tokens: seq<Token>, last: Token, at: seq<nat>, r: seq<Token>)
    requires Picked(tokens, at, r)
    ensures Picked(tokens + [last], at, r) && Picked(tokens + [last], at + [|tokens|], r + [last])
  {
  }

  /** Removing the expired tokens leaves those that last, in order. */
  lemma {:induction false} FreshPlaces(tokens: seq<Token>, now: int) returns (at: seq<nat>)
    ensures Places(tokens, now, at) && Picked(tokens, at, Fresh(tokens, now))
    decreases |tokens|
  {
    hide Places, Picked, Fresh;
    if tokens == [] {
      at := [];
      NoPlaces(now);
    } else {
      var init, last := tokens[..|tokens| - 1], tokens[|tokens| - 1];
      var before := FreshPlaces(init, now);
      assert tokens == init + [last];
      OneMorePlaces(init, last, now, before);
      OneMorePicked(init, last, before, Fresh(init, now));
      OneMoreFresh(init, last, now);
      at := if Lasts(last, now) then before + [|init|] else before;
    }
  }

  lemma NoPlaces(now: int)
    ensures Places([], now, []) && Picked([], [], Fresh([], now))
  {
  }

  lemma OneMoreFresh(init: seq<Token>, last: Token, now: int)
    ensures Fresh(init + [last], now) == if Lasts(last, now) then Fresh(init, now) + [last] else Fresh(init, now)
  {
    assert (init + [last])[..|init|] == init;
  }

  function Elements(at: seq<nat>): set<nat> {
    set i | i in at
  }

  lemma OneMorePlace(init: seq<nat>, last: nat)
    requires forall j :: 0 <= j < |init| ==> init[j] < last
    ensures |Elements(init + [last])| == |Elements(init)| + 1
  {
    assert Elements(init + [last]) == Elements(init) + {last};
    assert last !in Elements(init);
  }

  lemma {:induction false} PlacesCounted(at: seq<nat>)
    requires Increasing(at)
    ensures |Elements(at)| == |at|
  {
    if at == [] {
      assert Elements(at) == {};
    } else {
      var init, last := at[..|at| - 1], at[|at| - 1];
      hide Elements;
      PlacesCounted(init);
      OneMorePlace(init, last);
      assert at == init + [last];
    }
  }

  lemma LastingIs(tokens: seq<Token>, now: int, at: seq<nat>)
    requires Places(tokens, now, at)
    ensures Lasting(tokens, now) == |at|
  {
    PlacesCounted(at);
    assert (set i | 0 <= i < |tokens| && Lasts(tokens[i], now)) == Elements(at);
  }

  /** `given` are the first `count` tokens that last, `kept` all others that do. */
  ghost predicate Shared(tokens: seq<Token>, now: int, count: nat, given: seq<Token>, kept: seq<Token>) {
    exists at: seq<nat> ::
      && Places(tokens, now, at) && count <= |at|
      && Picked(tokens, at[..count], given) && Picked(tokens, at[count..], kept)
  }

  lemma FreshShared(tokens: seq<Token>, now: int, count: nat)
    requires count <= |Fresh(tokens, now)|
    ensures Shared(tokens, now, count, Fresh(tokens, now)[..count], Fresh(tokens, now)[count..])
    ensures Lasting(tokens, now) == |Fresh(tokens, now)|
  {
    hide Fresh;
    var at := FreshPlaces(tokens, now);
    LastingIs(tokens, now, at);
    assert Picked(tokens, at[..count], Fresh(tokens, now)[..count]);
    assert Picked(tokens, at[count..], Fresh(tokens, now)[count..]);
  }

  /** A request out of range is refused; any other is answered at once if and only if enough tokens last,
      with the first of these, and waits otherwise.  The cache keeps all others that last. */
  lemma RequestIsAnswered(limit: int, s: State, count: int, now: int)
    ensures var s1 := Apply(limit, s, GetTokens(count, now));
            && |s1.requests| == |s.requests| + 1 && s1.requests[..|s.requests|] == s.requests
            && s1.calls == s.calls && s1.received == s.received && s1.requests[|s.requests|].count == count
    ensures var s1 := Apply(limit, s, GetTokens(count, now));
            var progress := s1.requests[|s.requests|].progress;
            if count < 0 || count > limit then progress == Ready(InvalidArgument) && s1.cache == s.cache
            else if count <= Lasting(s.cache, now) then
              && progress.Ready? && progress.result.Tokens? && progress.result.taken == now
              && |progress.result.tokens| == count
              && Shared(s.cache, now, count, progress.result.tokens, s1.cache)
            else progress == Waiting && Shared(s.cache, now, 0, [], s1.cache)
  {
    hide Fresh, Expired, Shared;
    var unexpired := Fresh(s.cache, now);
    FreshShared(s.cache, now, 0);
    assert unexpired[..0] == [] && unexpired[0..] == unexpired;
    if 0 <= count <= |unexpired| {
      FreshShared(s.cache, now, count);
    }
  }

  /** A response without tokens is an error for the request that waits for it.  One with tokens answers it
      with tokens if and only if enough last of those in the cache and these, and then with the first of
      them, oldest first.  The cache keeps all others that last; no other request changes. */
  lemma ResponseIsAnswer(limit: int, s: State, id: nat, tokens: Option<seq<Token>>, now: int)
    requires id < |s.requests| && s.requests[id].progress.Waiting? && s.requests[id].count >= 0
    ensures var s1 := Apply(limit, s, HandleResponse(id, tokens, now));
            && |s1.requests| == |s.requests| && s1.requests[id].count == s.requests[id].count && s1.calls == s.calls
            && forall i :: 0 <= i < |s.requests| && i != id ==> s1.requests[i] == s.requests[i]
    ensures var s1 := Apply(limit, s, HandleResponse(id, tokens, now));
            var progress, count := s1.requests[id].progress, s.requests[id].count;
            match tokens
            case None => progress == Ready(UpstreamError) && s1.cache == s.cache && s1.received == s.received
            case Some(more) =>
              var all := s.cache + more;
              && s1.received == s.received + more
              && if count <= Lasting(all, now) then
                   && progress.Ready? && progress.result.Tokens? && progress.result.taken == now
                   && |progress.result.tokens| == count
                   && Shared(all, now, count, progress.result.tokens, s1.cache)
                 else progress == Ready(ResourceExhausted) && Shared(all, now, 0, [], s1.cache)
  {
    hide Fresh, Expired, Shared;
    if tokens.Some? {
      var all, count := s.cache + tokens.value, s.requests[id].count;
      var unexpired := Fresh(all, now);
      FreshShared(all, now, 0);
      assert unexpired[..0] == [] && unexpired[0..] == unexpired;
      if count <= |unexpired| {
        FreshShared(all, now, count);
      }
    }
  }

  /** What a request was answered with, if it was. */
  function Answer(r: Request): Option<Result> {
    match r.progress
    case Waiting => None
    case Ready(result) => Some(result)
    case Answered(result) => Some(result)
  }

  lemma AnswerStaysInStep(limit: int, s: State, step: Step, id: nat)
    requires id < |s.requests| && Answer(s.requests[id]).Some?
    ensures var s1 := Apply(limit, s, step);
            && id < |s1.requests| && Answer(s1.requests[id]) == Answer(s.requests[id])
            && s1.requests[id].count == s.requests[id].count
            && s1.requests[id].progress.Answered?
               == (s.requests[id].progress.Answered? || step == RunCallback(id))
  {
    hide Fresh, Expired;
  }

  /** An answer does not change any more, whatever comes after it; its callback runs with it. */
  lemma {:induction false} AnswerStays(limit: int, s: State, steps: seq<Step>, id: nat)
    requires id < |s.requests| && Answer(s.requests[id]).Some?
    ensures var s1 := Run(limit, s, steps);
            && id < |s1.requests| && Answer(s1.requests[id]) == Answer(s.requests[id])
            && s1.requests[id].progress.Answered?
               == (s.requests[id].progress.Answered? || RunCallback(id) in steps)
    decreases |steps|
  {
    hide Apply;
    if steps != [] {
      AnswerStaysInStep(limit, s, steps[0], id);
      AnswerStays(limit, Apply(limit, s, steps[0]), steps[1..], id);
      assert steps == [steps[0]] + steps[1..];
    }
  }

  // ---------------------------------------------------------------------------------------------
  // Where tokens that are handed out come from

  /** The tokens of the cache at an earlier time, and those that have come since. */
  function Pool(s0: State, s: State): seq<Token>
    requires |s0.received| <= |s.received|
  {
    s0.cache + s.received[|s0.received|..]
  }

  predicate Within(tokens: seq<Token>, pool: seq<Token>) {
    forall t :: t in tokens ==> t in pool
  }

  predicate AnsweredThen(s0: State, id: nat) {
    id < |s0.requests| && Answer(s0.requests[id]).Some?
  }

  predicate GivenWithin(answer: Option<Result>, pool: seq<Token>) {
    answer.Some? && answer.value.Tokens? ==> Within(answer.value.tokens, pool)
  }

  /** The cache, and every answer given since, hold only tokens of the pool. */
  predicate Since(s0: State, s: State) {
    && |s0.received| <= |s.received| && |s0.requests| <= |s.requests| && Within(s.cache, Pool(s0, s))
    && forall id :: 0 <= id < |s.requests| && !AnsweredThen(s0, id) ==>
                      GivenWithin(Answer(s.requests[id]), Pool(s0, s))
  }

  lemma {:induction false} FreshWithin(tokens: seq<Token>, now: int)
    ensures Within(Fresh(tokens, now), tokens)
    decreases |tokens|
  {
    if tokens != [] {
      FreshWithin(tokens[..|tokens| - 1], now);
    }
  }

  lemma SinceGet(limit: int, s0: State, s: State, count: int, now: int)
    requires Since(s0, s)
    ensures Since(s0, Apply(limit, s, GetTokens(count, now)))
  {
    FreshWithin(s.cache, now);
    hide Fresh, Expired;
    var s1 := Apply(limit, s, GetTokens(count, now));
    assert Pool(s0, s1) == Pool(s0, s);
    hide Pool;
    var unexpired := Fresh(s.cache, now);
    assert Within(unexpired, Pool(s0, s));
    forall id | 0 <= id < |s1.requests| && !AnsweredThen(s0, id)
      ensures GivenWithin(Answer(s1.requests[id]), Pool(s0, s1))
    {
      if id < |s.requests| {
        assert s1.requests[id] == s.requests[id];
      }
    }
  }

  lemma PoolGrows(s0: State, s: State, s1: State, more: seq<Token>)
    requires |s0.received| <= |s.received| && s1.received == s.received + more
    ensures Within(Pool(s0, s), Pool(s0, s1)) && Within(more, Pool(s0, s1))
  {
    assert Pool(s0, s1) == Pool(s0, s) + more;
  }

  lemma SinceResponse(limit: int, s0: State, s: State, id: nat, tokens: Option<seq<Token>>, now: int)
    requires Since(s0, s)
    ensures Since(s0, Apply(limit, s, HandleResponse(id, tokens, now)))
  {
    var s1 := Apply(limit, s, HandleResponse(id, tokens, now));
    hide Fresh, Expired;
    if s1 != s {
      var more := if tokens.None? then [] else tokens.value;
      assert s.received + [] == s.received;
      PoolGrows(s0, s, s1, more);
      hide Pool;
      FreshWithin(s.cache + more, now);
      assert Within(Fresh(s.cache + more, now), Pool(s0, s1));
      forall i | 0 <= i < |s1.requests| && !AnsweredThen(s0, i)
        ensures GivenWithin(Answer(s1.requests[i]), Pool(s0, s1))
      {
        assert i != id ==> s1.requests[i] == s.requests[i];
        assert GivenWithin(Answer(s.requests[i]), Pool(s0, s));
      }
    }
  }

  lemma SinceStep(limit: int, s0: State, s: State, step: Step)
    requires Since(s0, s)
    ensures Since(s0, Apply(limit, s, step))
  {
    match step
    case GetTokens(count, now) => SinceGet(limit, s0, s, count, now);
    case HandleResponse(id, tokens, now) => SinceResponse(limit, s0, s, id, tokens, now);
    case RunCallback(id) =>
      var s1 := Apply(limit, s, step);
      assert forall i :: 0 <= i < |s.requests| ==> Answer(s1.requests[i]) == Answer(s.requests[i]);
    case ClearCache =>
  }

  lemma {:induction false} SinceRun(limit: int, s0: State, s: State, steps: seq<Step>)
    requires Since(s0, s)
    ensures Since(s0, Run(limit, s, steps))
    decreases |steps|
  {
    hide Since, Apply;
    if steps != [] {
      SinceStep(limit, s0, s, steps[0]);
      SinceRun(limit, s0, Apply(limit, s, steps[0]), steps[1..]);
    }
  }

  /** Over every run: what is handed out after a time was in the cache then or has come since.  After the cache was
      cleared, nothing that had come before is handed out. */
  lemma HandedOutLater(limit: int, s0: State, steps: seq<Step>, id: nat)
    requires !AnsweredThen(s0, id)
    ensures var s := Run(limit, s0, steps);
            && |s0.received| <= |s.received|
            && (id < |s.requests| ==> GivenWithin(Answer(s.requests[id]), s0.cache + s.received[|s0.received|..]))
    ensures var s := Run(limit, s0, [ClearCache] + steps);
            && |s0.received| <= |s.received|
            && (id < |s.requests| ==> GivenWithin(Answer(s.requests[id]), s.received[|s0.received|..]))
  {
    SinceRun(limit, s0, s0, steps);
    var cleared := Apply(limit, s0, ClearCache);
    SinceRun(limit, cleared, cleared, steps);
    assert ([ClearCache] + steps)[1..] == steps;
    var s := Run(limit, s0, [ClearCache] + steps);
    assert s == Run(limit, cleared, steps);
    assert [] + s.received[|s0.received|..] == s.received[|s0.received|..];
  }
}
