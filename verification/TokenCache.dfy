/** A cache of single-use tokens, shared by concurrent requests. */
module TokenCache {
  import opened Bytes
  import opened CircularDeque

  datatype Token = Token(text: string, expiration: int)

  /** Seconds for which a token must still be good. */
  const FRESHNESS: int := 300

  const MAX_TOKENS: int := 1024

  predicate IsFresh(t: Token, now: int) {
    t.expiration > now + FRESHNESS
  }

  /** Without the tokens that are about to expire. */
  function Fresh(tokens: seq<Token>, now: int): (r: seq<Token>)
    ensures |r| <= |tokens|
  {
    if tokens == [] then []
    else
      var last := tokens[|tokens| - 1];
      Fresh(tokens[..|tokens| - 1], now) + if IsFresh(last, now) then [last] else []
  }

  // ---------------------------------------------------------------------------------------------
  // Requests and their answers

  datatype Result = Tokens(tokens: seq<Token>, taken: int) | InvalidArgument | ResourceExhausted | UpstreamError

  /** A request waits for more tokens to be issued, or its answer is there, or its callback has run. */
  datatype Progress = Waiting | Ready(result: Result) | Answered(result: Result)

  datatype Request = Request(count: int, progress: Progress)

  /** What is done under the lock is one step, and so is running a callback. */
  datatype Step =
    | GetTokens(count: int, now: int)
    | HandleResponse(id: nat, tokens: Option<seq<Token>>, now: int)
    | RunCallback(id: nat)
    | ClearCache

  datatype State = State(
    cache: seq<Token>,
    requests: seq<Request>,
    calls: seq<nat>,
    received: seq<Token>,
    discarded: seq<Token>)

  const START := State([], [], [], [], [])

  /** The answer from a cache of fresh tokens, if there are enough. */
  function FirstAnswer(unexpired: seq<Token>, count: nat, now: int): Progress {
    if count <= |unexpired| then Ready(Tokens(unexpired[..count], now)) else Waiting
  }

  function LeftOver(unexpired: seq<Token>, count: nat): seq<Token> {
    if count <= |unexpired| then unexpired[count..] else unexpired
  }

  /** The tokens that are about to expire. */
  function Expired(tokens: seq<Token>, now: int): seq<Token> {
    if tokens == [] then []
    else
      var last := tokens[|tokens| - 1];
      Expired(tokens[..|tokens| - 1], now) + if IsFresh(last, now) then [] else [last]
  }

  function AfterGet(limit: int, s: State, count: int, now: int): State {
    if count > limit || count < 0 then s.(requests := s.requests + [Request(count, Ready(InvalidArgument))])
    else
      var unexpired := Fresh(s.cache, now);
      s.(cache := LeftOver(unexpired, count),
         requests := s.requests + [Request(count, FirstAnswer(unexpired, count, now))],
         discarded := s.discarded + Expired(s.cache, now))
  }

  /** The answer when more tokens have come. */
  function SecondAnswer(unexpired: seq<Token>, count: nat, now: int): Result {
    if count <= |unexpired| then Tokens(unexpired[..count], now) else ResourceExhausted
  }

  function WithProgress(requests: seq<Request>, id: nat, p: Progress): seq<Request>
    requires id < |requests|
  {
    requests[id := requests[id].(progress := p)]
  }

  function AfterResponse(s: State, id: nat, tokens: Option<seq<Token>>, now: int): State {
    if id >= |s.requests| || !s.requests[id].progress.Waiting? || s.requests[id].count < 0 then s
    else if tokens.None? then s.(requests := WithProgress(s.requests, id, Ready(UpstreamError)))
    else
      var all := s.cache + tokens.value;
      var unexpired := Fresh(all, now);
      var count := s.requests[id].count;
      s.(cache := LeftOver(unexpired, count),
         requests := WithProgress(s.requests, id, Ready(SecondAnswer(unexpired, count, now))),
         received := s.received + tokens.value,
         discarded := s.discarded + Expired(all, now))
  }

  function AfterCallback(s: State, id: nat): State {
    if id >= |s.requests| || !s.requests[id].progress.Ready? then s
    else
      s.(requests := WithProgress(s.requests, id, Answered(s.requests[id].progress.result)), calls := s.calls + [id])
  }

  function Apply(limit: int, s: State, step: Step): State {
    match step
    case GetTokens(count, now) => AfterGet(limit, s, count, now)
    case HandleResponse(id, tokens, now) => AfterResponse(s, id, tokens, now)
    case RunCallback(id) => AfterCallback(s, id)
    case ClearCache => s.(cache := [], discarded := s.discarded + s.cache)
  }

  function Run(limit: int, s: State, steps: seq<Step>): State
    decreases |steps|
  {
    if steps == [] then s else Run(limit, Apply(limit, s, steps[0]), steps[1..])
  }

  // ---------------------------------------------------------------------------------------------
  // Where the tokens are

  function ResultTokens(r: Result): seq<Token> {
    if r.Tokens? then r.tokens else []
  }

  /** The tokens that a request was given. */
  function Held(r: Request): seq<Token> {
    match r.progress
    case Waiting => []
    case Ready(result) => ResultTokens(result)
    case Answered(result) => ResultTokens(result)
  }

  /** How often a token occurs. */
  function Times(tokens: seq<Token>, t: Token): nat {
    if tokens == [] then 0
    else Times(tokens[..|tokens| - 1], t) + if tokens[|tokens| - 1] == t then 1 else 0
  }

  /** How often a token was given to a request. */
  function TimesHeld(requests: seq<Request>, t: Token): nat {
    if requests == [] then 0
    else TimesHeld(requests[..|requests| - 1], t) + Times(Held(requests[|requests| - 1]), t)
  }

  lemma {:induction false} TimesConcat(a: seq<Token>, b: seq<Token>, t: Token)
    ensures Times(a + b, t) == Times(a, t) + Times(b, t)
    decreases |b|
  {
    if b == [] {
      assert a + b == a;
    } else {
      TimesConcat(a, b[..|b| - 1], t);
      assert (a + b)[..|a + b| - 1] == a + b[..|b| - 1];
    }
  }

  lemma TimesOneMore(tokens: seq<Token>, last: Token, t: Token)
    ensures Times(tokens + [last], t) == Times(tokens, t) + if last == t then 1 else 0
  {
    assert (tokens + [last])[..|tokens|] == tokens;
  }

  lemma {:induction false} TimesInside(tokens: seq<Token>, t: Token)
    ensures Times(tokens, t) > 0 <==> t in tokens
  {
    if tokens != [] {
      TimesInside(tokens[..|tokens| - 1], t);
      assert tokens == tokens[..|tokens| - 1] + [tokens[|tokens| - 1]];
    }
  }

  lemma HeldByOneMore(requests: seq<Request>, r: Request, t: Token)
    ensures TimesHeld(requests + [r], t) == TimesHeld(requests, t) + Times(Held(r), t)
  {
    assert (requests + [r])[..|requests|] == requests;
  }

  lemma {:induction false} HeldAfterUpdate(requests: seq<Request>, i: nat, r: Request, t: Token)
    requires i < |requests|
    ensures TimesHeld(requests[i := r], t) == TimesHeld(requests, t) - Times(Held(requests[i]), t) + Times(Held(r), t)
  {
    hide Held, Times;
    var n := |requests| - 1;
    if i == n {
      assert requests[i := r][..n] == requests[..n];
    } else {
      HeldAfterUpdate(requests[..n], i, r, t);
      assert requests[i := r][..n] == requests[..n][i := r];
    }
  }

  /** What one request was given counts, and so does what two were given. */
  lemma {:induction false} HeldTogether(requests: seq<Request>, i: nat, j: nat, t: Token)
    requires i <= j < |requests|
    ensures Times(Held(requests[i]), t) + (if i < j then Times(Held(requests[j]), t) else 0) <= TimesHeld(requests, t)
  {
    hide Held, Times;
    var n := |requests| - 1;
    if i < n {
      HeldTogether(requests[..n], i, if j < n then j else i, t);
    }
  }

  lemma {:induction false} FreshOrExpired(tokens: seq<Token>, now: int, t: Token)
    ensures Times(tokens, t) == Times(Fresh(tokens, now), t) + Times(Expired(tokens, now), t)
    decreases |tokens|
  {
    if tokens != [] {
      var init, last := tokens[..|tokens| - 1], tokens[|tokens| - 1];
      var kept, gone := Fresh(init, now), Expired(init, now);
      FreshOrExpired(init, now, t);
      assert Times(tokens, t) == Times(init, t) + if last == t then 1 else 0;
      assert Fresh(tokens, now) == kept + if IsFresh(last, now) then [last] else [];
      assert Expired(tokens, now) == gone + if IsFresh(last, now) then [] else [last];
      hide Fresh, Expired, Times;
      TimesOneMore(kept, last, t);
      TimesOneMore(gone, last, t);
      assert kept + [] == kept && gone + [] == gone;
    }
  }

  lemma {:induction false} FreshAreFresh(tokens: seq<Token>, now: int)
    ensures forall i :: 0 <= i < |Fresh(tokens, now)| ==> IsFresh(Fresh(tokens, now)[i], now)
    decreases |tokens|
  {
    if tokens != [] {
      FreshAreFresh(tokens[..|tokens| - 1], now);
    }
  }

  // ---------------------------------------------------------------------------------------------
  // What every step keeps

  /** An answer with tokens has as many as were asked for, and they were fresh when they were taken. */
  predicate GoodResult(limit: int, count: int, r: Result) {
    match r
    case Tokens(tokens, taken) => |tokens| == count && forall i :: 0 <= i < |tokens| ==> IsFresh(tokens[i], taken)
    case InvalidArgument => count > limit || count < 0
    case ResourceExhausted => 0 < count <= limit
    case UpstreamError => 0 < count <= limit
  }

  predicate GoodRequest(limit: int, r: Request) {
    match r.progress
    case Waiting => 0 < r.count <= limit
    case Ready(result) => GoodResult(limit, r.count, result)
    case Answered(result) => GoodResult(limit, r.count, result)
  }

  /** No callback runs twice, and those that have run are those of the answered requests. */
  ghost predicate CallsAreRight(s: State) {
    && (forall i, j :: 0 <= i < j < |s.calls| ==> s.calls[i] != s.calls[j])
    && (forall id :: id in s.calls <==> 0 <= id < |s.requests| && s.requests[id].progress.Answered?)
  }

  /** Every token that was ever received is in one place. */
  ghost predicate Conserved(s: State) {
    forall t :: Balanced(s, t)
  }

  ghost predicate Balanced(s: State, t: Token) {
    Times(s.received, t) == Times(s.cache, t) + TimesHeld(s.requests, t) + Times(s.discarded, t)
  }

  ghost predicate AllGood(limit: int, s: State) {
    forall i :: 0 <= i < |s.requests| ==> GoodRequest(limit, s.requests[i])
  }

  ghost predicate Inv(limit: int, s: State) {
    Conserved(s) && CallsAreRight(s) && AllGood(limit, s)
  }

  lemma NoTimes(t: Token)
    ensures Times([], t) == 0
  {
  }

  /** The tokens that an answer takes from those that are fresh. */
  function Taken(unexpired: seq<Token>, count: nat): seq<Token> {
    if count <= |unexpired| then unexpired[..count] else []
  }

  lemma TakenFromCache(tokens: seq<Token>, count: nat, now: int, t: Token)
    ensures var unexpired := Fresh(tokens, now);
            Times(tokens, t)
            == Times(LeftOver(unexpired, count), t) + Times(Taken(unexpired, count), t) + Times(Expired(tokens, now), t)
  {
    hide Fresh, Expired, Times;
    var unexpired := Fresh(tokens, now);
    FreshOrExpired(tokens, now, t);
    NoTimes(t);
    if count <= |unexpired| {
      assert unexpired == unexpired[..count] + unexpired[count..];
      TimesConcat(unexpired[..count], unexpired[count..], t);
    }
  }

  /** One more request, given some of the cached tokens, while others are thrown away. */
  lemma OneMoreBalances(s: State, cache: seq<Token>, r: Request, expired: seq<Token>, t: Token)
    requires Balanced(s, t)
    requires Times(s.cache, t) == Times(cache, t) + Times(Held(r), t) + Times(expired, t)
    ensures Balanced(s.(cache := cache, requests := s.requests + [r], discarded := s.discarded + expired), t)
  {
    hide TimesHeld, Held, Times;
    HeldByOneMore(s.requests, r, t);
    TimesConcat(s.discarded, expired, t);
  }

  lemma GetTokensBalances(limit: int, s: State, count: int, now: int, t: Token)
    requires Balanced(s, t)
    ensures Balanced(AfterGet(limit, s, count, now), t)
  {
    hide TimesHeld, Fresh, Expired, Times, Balanced;
    NoTimes(t);
    if count > limit || count < 0 {
      OneMoreBalances(s, s.cache, Request(count, Ready(InvalidArgument)), [], t);
      assert s.discarded + [] == s.discarded;
    } else {
      var unexpired := Fresh(s.cache, now);
      var r := Request(count, FirstAnswer(unexpired, count, now));
      assert Held(r) == Taken(unexpired, count);
      TakenFromCache(s.cache, count, now, t);
      OneMoreBalances(s, LeftOver(unexpired, count), r, Expired(s.cache, now), t);
    }
  }

  lemma GetTokensKeeps(limit: int, s: State, count: int, now: int)
    requires Inv(limit, s)
    ensures Inv(limit, AfterGet(limit, s, count, now))
  {
    forall t ensures Balanced(AfterGet(limit, s, count, now), t) {
      GetTokensBalances(limit, s, count, now, t);
    }
    FreshAreFresh(s.cache, now);
    hide Balanced, Fresh, Expired;
  }

  /** A request that held nothing is given some of the tokens cached or received. */
  lemma AnswerBalances(s: State, id: nat, r: Request, cache: seq<Token>, got: seq<Token>, expired: seq<Token>, t: Token)
    requires Balanced(s, t) && id < |s.requests| && s.requests[id].progress.Waiting?
    requires Times(s.cache + got, t) == Times(cache, t) + Times(Held(r), t) + Times(expired, t)
    ensures Balanced(s.(cache := cache, requests := s.requests[id := r],
                        received := s.received + got, discarded := s.discarded + expired), t)
  {
    hide TimesHeld, Times;
    NoTimes(t);
    HeldAfterUpdate(s.requests, id, r, t);
    TimesConcat(s.cache, got, t);
    TimesConcat(s.received, got, t);
    TimesConcat(s.discarded, expired, t);
  }

  lemma HandleResponseBalances(s: State, id: nat, tokens: Option<seq<Token>>, now: int, t: Token)
    requires Balanced(s, t)
    ensures Balanced(AfterResponse(s, id, tokens, now), t)
  {
    hide TimesHeld, Fresh, Expired, Times, Balanced;
    if id < |s.requests| && s.requests[id].progress.Waiting? && s.requests[id].count >= 0 {
      var count := s.requests[id].count;
      NoTimes(t);
      if tokens.None? {
        assert s.cache + [] == s.cache && s.received + [] == s.received && s.discarded + [] == s.discarded;
        AnswerBalances(s, id, Request(count, Ready(UpstreamError)), s.cache, [], [], t);
      } else {
        var all := s.cache + tokens.value;
        var unexpired := Fresh(all, now);
        var r := Request(count, Ready(SecondAnswer(unexpired, count, now)));
        assert Held(r) == Taken(unexpired, count);
        TakenFromCache(all, count, now, t);
        AnswerBalances(s, id, r, LeftOver(unexpired, count), tokens.value, Expired(all, now), t);
      }
    }
  }

  lemma HandleResponseKeeps(limit: int, s: State, id: nat, tokens: Option<seq<Token>>, now: int)
    requires Inv(limit, s)
    ensures Inv(limit, AfterResponse(s, id, tokens, now))
  {
    forall t ensures Balanced(AfterResponse(s, id, tokens, now), t) {
      HandleResponseBalances(s, id, tokens, now, t);
    }
    if tokens.Some? {
      FreshAreFresh(s.cache + tokens.value, now);
    }
    hide Balanced, Expired, Fresh;
    if id < |s.requests| {
      assert GoodRequest(limit, s.requests[id]);
    }
  }

  lemma RunCallbackKeeps(limit: int, s: State, id: nat)
    requires Inv(limit, s)
    ensures Inv(limit, AfterCallback(s, id))
  {
    if id < |s.requests| && s.requests[id].progress.Ready? {
      forall t ensures Balanced(AfterCallback(s, id), t) {
        assert Balanced(s, t);
        HeldAfterUpdate(s.requests, id, AfterCallback(s, id).requests[id], t);
      }
      hide Balanced, GoodResult;
      assert GoodRequest(limit, s.requests[id]);
      assert id !in s.calls;
    }
  }

  lemma ClearCacheKeeps(limit: int, s: State)
    requires Inv(limit, s)
    ensures Inv(limit, Apply(limit, s, ClearCache))
  {
    forall t ensures Balanced(Apply(limit, s, ClearCache), t) {
      assert Balanced(s, t);
      TimesConcat(s.discarded, s.cache, t);
    }
    hide Balanced, GoodRequest;
  }

  lemma ApplyKeeps(limit: int, s: State, step: Step)
    requires Inv(limit, s)
    ensures Inv(limit, Apply(limit, s, step))
  {
    match step
    case GetTokens(count, now) => GetTokensKeeps(limit, s, count, now);
    case HandleResponse(id, tokens, now) => HandleResponseKeeps(limit, s, id, tokens, now);
    case RunCallback(id) => RunCallbackKeeps(limit, s, id);
    case ClearCache => ClearCacheKeeps(limit, s);
  }

  /** Whatever the interleaving of requests, responses, callbacks and clearing. */
  lemma {:induction false} EveryRun(limit: int, s: State, steps: seq<Step>)
    requires Inv(limit, s)
    ensures Inv(limit, Run(limit, s, steps))
    decreases |steps|
  {
    if steps != [] {
      ApplyKeeps(limit, s, steps[0]);
      hide Apply, Inv;
      EveryRun(limit, Apply(limit, s, steps[0]), steps[1..]);
    }
  }

  /** Tokens are used once: a token is given out no more often than it was received. */
  lemma NoTokenTwice(limit: int, steps: seq<Step>, i: nat, j: nat, t: Token)
    requires var s := Run(limit, START, steps);
             && i <= j < |s.requests| && Times(s.received, t) <= 1
             && t in Held(s.requests[i]) && t in Held(s.requests[j])
    ensures i == j && Times(Held(Run(limit, START, steps).requests[i]), t) == 1
  {
    var s := Run(limit, START, steps);
    StartIsRight(limit);
    EveryRun(limit, START, steps);
    assert Balanced(s, t);
    hide Run, Held, TimesHeld, Inv, Times;
    HeldTogether(s.requests, i, j, t);
    TimesInside(Held(s.requests[i]), t);
    TimesInside(Held(s.requests[j]), t);
  }

  lemma StartIsRight(limit: int)
    ensures Inv(limit, START)
  {
  }

  /** No response and no callback would change anything. */
  ghost predicate Quiescent(s: State) {
    && (forall id, tokens, now :: AfterResponse(s, id, tokens, now) == s)
    && (forall id :: AfterCallback(s, id) == s)
  }

  /** Nothing is left to do exactly if every request is answered. */
  lemma QuiescentExactly(limit: int, s: State)
    requires Inv(limit, s)
    ensures Quiescent(s) <==> forall i :: 0 <= i < |s.requests| ==> s.requests[i].progress.Answered?
  {
    forall i | 0 <= i < |s.requests| && Quiescent(s)
      ensures s.requests[i].progress.Answered?
    {
      assert GoodRequest(limit, s.requests[i]);
      hide GoodResult, Balanced;
      assert AfterResponse(s, i, None, 0) == s && AfterCallback(s, i) == s;
    }
  }

  /** When nothing is left to do, every request has had its callback run, and only once. */
  lemma EveryRequestAnswered(limit: int, steps: seq<Step>, id: nat)
    requires var s := Run(limit, START, steps); id < |s.requests| && Quiescent(s)
    ensures var s := Run(limit, START, steps);
            && multiset(s.calls)[id] == 1 && s.requests[id].progress.Answered?
            && GoodResult(limit, s.requests[id].count, s.requests[id].progress.result)
  {
    var s := Run(limit, START, steps);
    StartIsRight(limit);
    EveryRun(limit, START, steps);
    QuiescentExactly(limit, s);
    hide Run, GoodResult, Quiescent;
    assert GoodRequest(limit, s.requests[id]);
    assert id in s.calls;
    CountedOnce(s.calls, id);
  }

  lemma {:induction false} CountedOnce(calls: seq<nat>, id: nat)
    requires forall i, j :: 0 <= i < j < |calls| ==> calls[i] != calls[j]
    ensures multiset(calls)[id] == if id in calls then 1 else 0
  {
    if calls != [] {
      var init, last := calls[..|calls| - 1], calls[|calls| - 1];
      assert calls == init + [last];
      CountedOnce(init, id);
    }
  }

  // ---------------------------------------------------------------------------------------------
  // The cache

  lemma FreshOneMore(tokens: seq<Token>, i: nat, now: int)
    requires i < |tokens|
    ensures Fresh(tokens[..i + 1], now) == Fresh(tokens[..i], now) + if IsFresh(tokens[i], now) then [tokens[i]] else []
  {
    assert tokens[..i + 1][..i] == tokens[..i];
  }

  function Moved(tokens: seq<Token>, now: int): seq<Token>
    requires tokens != []
  {
    tokens[1..] + if IsFresh(tokens[0], now) then [tokens[0]] else []
  }

  /** After `i` tokens have gone around. */
  function Rotated(tokens: seq<Token>, i: nat, now: int): seq<Token>
    requires i <= |tokens|
  {
    tokens[i..] + Fresh(tokens[..i], now)
  }

  lemma RotationStarts(tokens: seq<Token>, now: int)
    ensures Rotated(tokens, 0, now) == tokens
  {
    assert tokens[..0] == [] && tokens[0..] == tokens;
  }

  lemma RotationStep(tokens: seq<Token>, i: nat, now: int)
    requires i < |tokens|
    ensures Rotated(tokens, i, now) != [] && Moved(Rotated(tokens, i, now), now) == Rotated(tokens, i + 1, now)
  {
    FreshOneMore(tokens, i, now);
    hide Fresh;
    assert Rotated(tokens, i, now)[1..] == tokens[i + 1..] + Fresh(tokens[..i], now);
  }

  lemma RotationEnds(tokens: seq<Token>, now: int)
    ensures Rotated(tokens, |tokens|, now) == Fresh(tokens, now)
  {
    assert tokens[..|tokens|] == tokens && tokens[|tokens|..] == [];
  }

  class CachedBlindSignAuth {
    const cachedTokens: QuicheCircularDeque<Token>
    const maxTokensPerRequest: int
    /** All requests so far, and where the tokens have gone. */
    ghost var state: State

    ghost predicate Valid()
      reads this, cachedTokens, cachedTokens.data
    {
      cachedTokens.Valid() && cachedTokens.Contents() == state.cache && Inv(maxTokensPerRequest, state)
    }

    constructor (maxTokensPerRequest: int := MAX_TOKENS)
      ensures Valid() && fresh(cachedTokens) && fresh(cachedTokens.data)
      ensures this.maxTokensPerRequest == maxTokensPerRequest && state == START
    {
      this.maxTokensPerRequest := maxTokensPerRequest;
      cachedTokens := new QuicheCircularDeque();
      state := START;
      new;
      StartIsRight(maxTokensPerRequest);
    }

    /** Every token goes once around; those about to expire do not come back. */
    method RemoveExpiredTokens(now: int)
      requires cachedTokens.Valid()
      modifies cachedTokens, cachedTokens.data
      ensures cachedTokens.Valid() && cachedTokens.Contents() == Fresh(old(cachedTokens.Contents()), now)
      ensures cachedTokens.data == old(cachedTokens.data) || fresh(cachedTokens.data)
    {
      hide Fresh, Moved, Rotated, IsRing, Elements, Paid;
      ghost var all := cachedTokens.Contents();
      cachedTokens.SizeIsRight();
      var originalSize := cachedTokens.Size();
      RotationStarts(all, now);
      var i := 0;
      while i < originalSize
        invariant i <= originalSize == |all| && cachedTokens.Valid()
        invariant cachedTokens.data == old(cachedTokens.data) || fresh(cachedTokens.data)
        invariant cachedTokens.Contents() == Rotated(all, i, now)
      {
        RotationStep(all, i, now);
        RotateOne(now);
        i := i + 1;
      }
      RotationEnds(all, now);
    }

    /** The first token goes to the end, or away. */
    method RotateOne(now: int)
      requires cachedTokens.Valid() && cachedTokens.Contents() != []
      modifies cachedTokens, cachedTokens.data
      ensures cachedTokens.Valid() && cachedTokens.Contents() == Moved(old(cachedTokens.Contents()), now)
      ensures cachedTokens.data == old(cachedTokens.data) || fresh(cachedTokens.data)
    {
      hide IsRing, Elements, Paid;
      var token := cachedTokens.Front();
      cachedTokens.PopFront();
      if token.expiration > now + FRESHNESS {
        cachedTokens.EmplaceBack(token);
      }
    }

    method CreateOutputTokens(count: nat) returns (output: seq<Token>)
      requires cachedTokens.Valid() && count <= |cachedTokens.Contents()|
      modifies cachedTokens, cachedTokens.data
      ensures cachedTokens.Valid() && cachedTokens.data == old(cachedTokens.data)
      ensures output == old(cachedTokens.Contents())[..count]
      ensures cachedTokens.Contents() == old(cachedTokens.Contents())[count..]
    {
      hide IsRing, Elements, Paid;
      ghost var all := cachedTokens.Contents();
      output := [];
      while |output| < count
        invariant |output| <= count && cachedTokens.Valid() && cachedTokens.data == old(cachedTokens.data)
        invariant output == all[..|output|] && cachedTokens.Contents() == all[|output|..]
      {
        var token := cachedTokens.Front();
        output := output + [token];
        cachedTokens.PopFront();
      }
    }

    /** What a request does under the lock; a request that is left waiting asks for more tokens. */
    method GetTokensLocked(count: int, now: int) returns (ghost id: nat, answer: Progress)
      requires Valid()
      modifies this, cachedTokens, cachedTokens.data
      ensures Valid() && state == Apply(maxTokensPerRequest, old(state), GetTokens(count, now))
      ensures id == |old(state).requests| && state.requests[id] == Request(count, answer)
      ensures cachedTokens.data == old(cachedTokens.data) || fresh(cachedTokens.data)
    {
      GetTokensKeeps(maxTokensPerRequest, state, count, now);
      hide Inv, Fresh, Expired, IsRing, Elements, Paid;
      id := |state.requests|;
      state := AfterGet(maxTokensPerRequest, state, count, now);
      if count > maxTokensPerRequest || count < 0 {
        return id, Ready(InvalidArgument);
      }
      RemoveExpiredTokens(now);
      cachedTokens.SizeIsRight();
      if count <= cachedTokens.Size() {
        var output := CreateOutputTokens(count);
        return id, Ready(Tokens(output, now));
      }
      return id, Waiting;
    }

    /** What a response does under the lock, for a request that waits for it. */
    method HandleGetTokensResponse(ghost id: nat, count: nat, tokens: Option<seq<Token>>, now: int)
      returns (answer: Result)
      requires Valid()
      requires id < |state.requests| && state.requests[id] == Request(count, Waiting)
      modifies this, cachedTokens, cachedTokens.data
      ensures Valid() && state == Apply(maxTokensPerRequest, old(state), HandleResponse(id, tokens, now))
      ensures state.requests[id] == Request(count, Ready(answer))
      ensures cachedTokens.data == old(cachedTokens.data) || fresh(cachedTokens.data)
    {
      HandleResponseKeeps(maxTokensPerRequest, state, id, tokens, now);
      assert GoodRequest(maxTokensPerRequest, state.requests[id]);
      hide Inv, Fresh, Expired, IsRing, Elements, Paid;
      state := AfterResponse(state, id, tokens, now);
      if tokens.None? {
        return UpstreamError;
      }
      AddTokens(tokens.value);
      RemoveExpiredTokens(now);
      cachedTokens.SizeIsRight();
      var output := [];
      if cachedTokens.Size() >= count {
        output := CreateOutputTokens(count);
      }
      if output != [] {
        return Tokens(output, now);
      }
      return ResourceExhausted;
    }

    method AddTokens(tokens: seq<Token>)
      requires cachedTokens.Valid()
      modifies cachedTokens, cachedTokens.data
      ensures cachedTokens.Valid() && cachedTokens.Contents() == old(cachedTokens.Contents()) + tokens
      ensures cachedTokens.data == old(cachedTokens.data) || fresh(cachedTokens.data)
    {
      hide IsRing, Elements, Paid;
      ghost var before := cachedTokens.Contents();
      var i := 0;
      while i < |tokens|
        invariant i <= |tokens| && cachedTokens.Valid()
        invariant cachedTokens.data == old(cachedTokens.data) || fresh(cachedTokens.data)
        invariant cachedTokens.Contents() == before + tokens[..i]
      {
        cachedTokens.EmplaceBack(tokens[i]);
        i := i + 1;
      }
      assert tokens[..i] == tokens;
    }

    /** A callback is used up when it runs. */
    method RunCallback(ghost id: nat)
      requires Valid() && id < |state.requests| && state.requests[id].progress.Ready?
      modifies this
      ensures Valid() && state == Apply(maxTokensPerRequest, old(state), Step.RunCallback(id))
      ensures id in state.calls && id !in old(state).calls
    {
      RunCallbackKeeps(maxTokensPerRequest, state, id);
      state := AfterCallback(state, id);
    }

    method ClearCache()
      requires Valid()
      modifies this, cachedTokens, cachedTokens.data
      ensures Valid() && state == Apply(maxTokensPerRequest, old(state), Step.ClearCache)
    {
      ClearCacheKeeps(maxTokensPerRequest, state);
      state := Apply(maxTokensPerRequest, state, Step.ClearCache);
      hide Inv, IsRing, Elements, Paid;
      cachedTokens.Clear();
    }
  }
}
