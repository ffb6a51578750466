/** The cache from authorisation codes to identity tokens in src/appauth.cpp. */
module TokenCache {
  import opened CStrings

  datatype Entry = Entry(value: string, expiresAt: int)

  type Cache = map<string, Entry>

  // Clock readings are in nanoseconds.
  const LIFETIME := 30_000_000_000

  /** What the token endpoint's response comes to: no response, an exception while reading it, a response without a
      token, or a token. */
  datatype Response = Unreachable | Malformed | NoToken | Token(token: string)

  /** The clock readings of one call: on a hit, during the sweep, and on insertion. */
  datatype Clock = Clock(hit: int, sweep: int, insert: int)

  /** What a call returns: the return code and, with code 0, the token as a C string. */
  datatype Result = Result(rc: int, token: Option<string>)

  /** The entries that a sweep keeps. */
  function Unexpired(c: Cache, now: int): Cache {
    map k | k in c && now < c[k].expiresAt :: c[k]
  }

  function Touch(c: Cache, code: string, now: int): Cache
    requires code in c
  {
    c[code := Entry(c[code].value, now + LIFETIME)]
  }

  /** One call, on values.  A hit renews the entry without looking at its expiry. */
  function Get(c: Cache, code: string, clock: Clock, response: Response): (Cache, Result) {
    if code in c then (Touch(c, code, clock.hit), Result(0, Some(CText(c[code].value))))
    else
      var kept := Unexpired(c, clock.sweep);
      match response
      case Unreachable => (kept, Result(-1, None))
      case Malformed => (kept, Result(-1, None))
      case NoToken => (kept, Result(-2, None))
      case Token(t) => (kept[code := Entry(t, clock.insert + LIFETIME)], Result(0, Some(CText(t))))
  }

  class CodeCache {
    var entries: Cache

    constructor ()
      ensures entries == map[]
    {
      entries := map[];
    }

    /** The sweep: erases while it walks over the map. */
    method RemoveExpired(now: int)
      modifies this
      ensures entries == Unexpired(old(entries), now)
    {
      var left := entries.Keys;
      ghost var all := entries;
      while left != {}
        invariant left <= all.Keys && left <= entries.Keys && entries.Keys <= all.Keys
        invariant forall k | k in entries :: entries[k] == all[k]
        invariant forall k | k in all && k !in left :: k in entries <==> now < all[k].expiresAt
        decreases left
      {
        var k :| k in left;
        left := left - {k};
        if now >= entries[k].expiresAt {
          entries := entries - {k};
        }
      }
    }

    method GetTokens(code: string, clock: Clock, response: Response) returns (r: Result, posted: bool)
      modifies this
      ensures (entries, r) == Get(old(entries), code, clock, response)
      ensures posted <==> code !in old(entries)
    {
      if code in entries {
        entries := entries[code := entries[code].(expiresAt := clock.hit + LIFETIME)];
        return Result(0, Some(CText(entries[code].value))), false;
      }
      RemoveExpired(clock.sweep);
      posted := true;
      r := Result(-2, None);
      match response {
        case Unreachable => r := Result(-1, None);
        case Malformed => r := Result(-1, None);
        case NoToken =>
        case Token(t) =>
          if code !in entries {
            entries := entries[code := Entry(t, clock.insert + LIFETIME)];
          }
          r := Result(0, Some(CText(t)));
      }
    }
  }

  // Whole runs.

  datatype Call = Call(code: string, clock: Clock, response: Response)

  /** The cache, together with every token fetched so far, oldest first. */
  datatype History = History(cache: Cache, fetched: seq<(string, string)>)

  function Step(h: History, call: Call): History {
    var (c, r) := Get(h.cache, call.code, call.clock, call.response);
    if call.code !in h.cache && call.response.Token?
    then History(c, h.fetched + [(call.code, call.response.token)])
    else History(c, h.fetched)
  }

  function Run(h: History, calls: seq<Call>): History {
    if calls == [] then h else Step(Run(h, calls[..|calls| - 1]), calls[|calls| - 1])
  }

  /** The token of the latest fetch for a code. */
  function Latest(fetched: seq<(string, string)>, code: string): Option<string> {
    if fetched == [] then None
    else if fetched[|fetched| - 1].0 == code then Some(fetched[|fetched| - 1].1)
    else Latest(fetched[..|fetched| - 1], code)
  }

  /** Every entry holds the token of the latest fetch for its code. */
  ghost predicate Inv(h: History) {
    forall k | k in h.cache :: Latest(h.fetched, k) == Some(h.cache[k].value)
  }

  lemma StepKeepsInv(h: History, call: Call)
    requires Inv(h)
    ensures Inv(Step(h, call))
  {
    var h' := Step(h, call);
    if h'.fetched != h.fetched {
      assert h'.fetched[..|h'.fetched| - 1] == h.fetched;
    }
  }

  /** Over every run from an empty cache, an entry holds the token fetched when it was created. */
  lemma {:induction false} RunKeepsInv(calls: seq<Call>)
    ensures Inv(Run(History(map[], []), calls))
  {
    hide Step;
    if calls != [] {
      RunKeepsInv(calls[..|calls| - 1]);
      StepKeepsInv(Run(History(map[], []), calls[..|calls| - 1]), calls[|calls| - 1]);
    }
  }

  /** After every run: a call that returns a token returns the one of the latest fetch for its code, and it fetches
      exactly when the code has no entry. */
  lemma {:induction false} ReturnedTokens(calls: seq<Call>, call: Call)
    ensures
      var h := Run(History(map[], []), calls);
      var h' := Step(h, call);
      var r := Get(h.cache, call.code, call.clock, call.response).1;
      && (r.rc == 0 <==> r.token.Some?)
      && (r.rc == 0 ==> Latest(h'.fetched, call.code).Some? &&
                        r.token == Some(CText(Latest(h'.fetched, call.code).value)))
      && (h'.fetched != h.fetched <==> call.code !in h.cache && call.response.Token?)
  {
    hide CText;
    RunKeepsInv(calls);
    var h := Run(History(map[], []), calls);
    StepKeepsInv(h, call);
    assert |Step(h, call).fetched| == |h.fetched| ==> Step(h, call).fetched == h.fetched;
  }

  /** A miss drops exactly the expired entries and leaves the others unchanged. */
  lemma MissKeeps(c: Cache, code: string, clock: Clock, response: Response, other: string)
    requires code !in c && other != code
    ensures
      var c' := Get(c, code, clock, response).0;
      (other in c' <==> other in c && clock.sweep < c[other].expiresAt) && (other in c' ==> c'[other] == c[other])
  {
  }

  /** A miss that gets no token keeps just the unexpired entries and says whether the response was read. */
  lemma MissWithoutToken(c: Cache, code: string, clock: Clock, response: Response)
    requires code !in c && !response.Token?
    ensures
      var (c', r) := Get(c, code, clock, response);
      && (forall k :: k in c' <==> k in c && clock.sweep < c[k].expiresAt)
      && (forall k | k in c' :: c'[k] == c[k])
      && r == Result(if response == NoToken then -2 else -1, None)
  {
  }

  /** A token that is fetched at t is kept by a sweep just before t + 30 s, and dropped by one at that time. */
  lemma ThirtySeconds(token: string, t: int, other: string)
    requires other != "code"
    ensures
      var c := Get(map[], "code", Clock(t, t, t), Token(token)).0;
      var late := t + 30_000_000_000;
      && "code" in Get(c, other, Clock(late, late - 1, late), Unreachable).0
      && "code" !in Get(c, other, Clock(late, late, late), Unreachable).0
  {
  }

  /** Over every run of hits nothing is fetched and every value stays, at any clock readings. */
  lemma {:induction false} HitsNeverExpire(c: Cache, calls: seq<Call>)
    requires forall k | k in calls :: k.code in c
    ensures
      var h := Run(History(c, []), calls);
      && h.fetched == [] && h.cache.Keys == c.Keys
      && forall k | k in c :: h.cache[k].value == c[k].value
  {
    if calls != [] {
      var init, last := calls[..|calls| - 1], calls[|calls| - 1];
      assert last in calls && forall k | k in init :: k in calls;
      HitsNeverExpire(c, init);
    }
  }

  // Expired tokens.

  /** A call that finds an entry whose lifetime is over. */
  predicate FindsExpired(c: Cache, call: Call) {
    call.code in c && c[call.code].expiresAt <= call.clock.hit
  }

  /** Such a call returns the expired token, without a fetch, and renews it. */
  lemma ExpiredIsServed(h: History, call: Call)
    requires FindsExpired(h.cache, call)
    ensures
      var e := h.cache[call.code];
      && Get(h.cache, call.code, call.clock, call.response).1 == Result(0, Some(CText(e.value)))
      && Step(h, call) == History(h.cache[call.code := Entry(e.value, call.clock.hit + LIFETIME)], h.fetched)
  {
  }

  /** A token that expired at 0 is returned at 0, and at any later reading. */
  lemma ExpiredTokenReturned(now: nat)
    ensures
      var c := map["code" := Entry("token", 0)];
      Get(c, "code", Clock(now, now, now), Unreachable).1 == Result(0, Some("token"))
  {
    IndexOfFirst("token", NUL, 0);
    IndexIs("token", NUL, 0, 5);
    assert CText("token") == "token";
  }

  /** Every call that misses at its turn sweeps before the given time. */
  predicate Spares(h: History, calls: seq<Call>, expiresAt: int) {
    calls == [] ||
    (var init, last := calls[..|calls| - 1], calls[|calls| - 1];
     Spares(h, init, expiresAt) && (last.code in Run(h, init).cache || last.clock.sweep < expiresAt))
  }

  /** Over every run of calls for other codes, an entry survives, unchanged, exactly when every call that misses at its
      turn sweeps before the entry expires. */
  lemma {:induction false} SurvivalIff(h: History, code: string, calls: seq<Call>)
    requires code in h.cache && forall k | k in calls :: k.code != code
    ensures
      var c := Run(h, calls).cache;
      (code in c <==> Spares(h, calls, h.cache[code].expiresAt)) && (code in c ==> c[code] == h.cache[code])
  {
    if calls != [] {
      var init, last := calls[..|calls| - 1], calls[|calls| - 1];
      assert last in calls && forall k | k in init :: k in calls;
      SurvivalIff(h, code, init);
      AbsentStaysAbsent(h, code, init, last);
    }
  }

  /** A call for another code never brings an entry back. */
  lemma AbsentStaysAbsent(h: History, code: string, init: seq<Call>, last: Call)
    requires last.code != code
    ensures
      var c, c' := Run(h, init).cache, Step(Run(h, init), last).cache;
      && (code !in c ==> code !in c')
      && (code in c ==> (code in c' <==> last.code in c || last.clock.sweep < c[code].expiresAt))
      && (code in c && code in c' ==> c'[code] == c[code])
  {
    hide Run;
  }

  /** When a call for a code has returned a token, and calls for other codes have followed, the next call for the code
      serves that token expired exactly when no sweep came at or after its expiry and the call itself does. */
  lemma ServesExpiredIff(h: History, first: Call, others: seq<Call>, next: Call)
    requires Get(h.cache, first.code, first.clock, first.response).1.rc == 0 && next.code == first.code
    requires forall k | k in others :: k.code != first.code
    ensures
      var expiresAt := (if first.code in h.cache then first.clock.hit else first.clock.insert) + LIFETIME;
      FindsExpired(Run(Step(h, first), others).cache, next)
      <==> Spares(Step(h, first), others, expiresAt) && expiresAt <= next.clock.hit
  {
    hide Run, Spares;
    SurvivalIff(Step(h, first), first.code, others);
  }
}
