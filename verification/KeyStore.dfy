/** The key store of src/JWKSVerifierStore.cpp: a map from key ids to verifiers that documents extend and that a miss
    may refresh.  What a verifier does with a token is not modelled; it is a value attached to a key id. */
module KeyStore {
  import opened CStrings

  datatype Verifier = Verifier(algorithm: string, publicKey: string)

  /** A key object of a document.  `built` is the verifier that its key material gives, None when building it throws. */
  datatype Jwk = Jwk(kid: Option<string>, kty: Option<string>, crv: Option<string>, built: Option<Verifier>)

  /** An element of the `keys` array; reading anything but an object throws. */
  datatype Element = Object(key: Jwk) | NotAnObject

  datatype Document = NotObject | KeysNotArray | Keys(elements: seq<Element>)

  type Verifiers = map<string, Verifier>

  // Clock readings are in nanoseconds.
  const SECOND := 1_000_000_000
  const HOUR := 3600 * SECOND
  const DAY := 24 * HOUR

  predicate Acceptable(j: Jwk) {
    && j.kid.Some? && j.kty.Some? && j.built.Some?
    && (j.kty.value == "RSA" || (j.kty.value == "EC" && j.crv == Some("P-256")))
  }

  /** One key object. */
  function AddKey(m: Verifiers, j: Jwk): Verifiers {
    if Acceptable(j) && j.kid.value !in m then m[j.kid.value := j.built.value] else m
  }

  /** The elements of a document, up to the first one that throws. */
  function AddElements(m: Verifiers, es: seq<Element>): Verifiers
    decreases |es|
  {
    if es == [] || es[0].NotAnObject? then m else AddElements(AddKey(m, es[0].key), es[1..])
  }

  predicate Throws(es: seq<Element>) {
    exists e | e in es :: e.NotAnObject?
  }

  function Load(m: Verifiers, d: Document): Verifiers {
    if d.Keys? then AddElements(m, d.elements) else m
  }

  function Get(m: Verifiers, kid: string): Option<Verifier> {
    if kid in m then Some(m[kid]) else None
  }

  /** The first acceptable occurrence of a key id. */
  function FirstKey(es: seq<Element>, kid: string): Option<Verifier> {
    if es == [] || es[0].NotAnObject? then None
    else if Acceptable(es[0].key) && es[0].key.kid == Some(kid) then es[0].key.built
    else FirstKey(es[1..], kid)
  }

  /** Loading extends the map by the first acceptable occurrence of each new key id and changes no binding. */
  lemma {:induction false} LoadIs(m: Verifiers, es: seq<Element>, kid: string)
    ensures Get(AddElements(m, es), kid) == if kid in m then Some(m[kid]) else FirstKey(es, kid)
    decreases |es|
  {
    if es != [] && es[0].Object? {
      LoadIs(AddKey(m, es[0].key), es[1..], kid);
    }
  }

  /** The i-th element is an acceptable key with this id. */
  predicate Offers(es: seq<Element>, kid: string, i: int) {
    0 <= i < |es| && es[i].Object? && Acceptable(es[i].key) && es[i].key.kid == Some(kid)
  }

  /** The first occurrence that is found is the least position that offers the id in front of every element that
      throws. */
  lemma {:induction false} FirstKeyIs(es: seq<Element>, kid: string, v: Verifier)
    ensures FirstKey(es, kid) == Some(v) <==>
      exists i | Offers(es, kid, i) ::
        es[i].key.built == Some(v) && forall j | 0 <= j < i :: es[j].Object? && !Offers(es, kid, j)
  {
    if es != [] && es[0].Object? && !Offers(es, kid, 0) {
      var rest := es[1..];
      FirstKeyIs(rest, kid, v);
      assert forall i | 0 < i < |es| :: es[i] == rest[i - 1] && (Offers(es, kid, i) <==> Offers(rest, kid, i - 1));
      if i :| Offers(rest, kid, i) && rest[i].key.built == Some(v) &&
              forall j | 0 <= j < i :: rest[j].Object? && !Offers(rest, kid, j) {
        assert Offers(es, kid, i + 1) && es[i + 1].key.built == Some(v);
      }
    }
  }

  /** Which keys are taken: RSA keys, and EC keys on the P-256 curve, whose material gives a verifier. */
  lemma KindsTaken(m: Verifiers, kid: string, kty: Option<string>, crv: Option<string>, built: Option<Verifier>)
    requires kid !in m
    ensures Get(AddKey(m, Jwk(Some(kid), kty, crv, built)), kid) ==
      if kty == Some("RSA") || (kty == Some("EC") && crv == Some("P-256")) then built else None
    ensures AddKey(m, Jwk(None, kty, crv, built)) == m
  {
  }

  /** A load of a document, and whether it throws. */
  predicate LoadThrows(d: Document) {
    d.Keys? && Throws(d.elements)
  }

  /** What fetching the source gives; mtime is the write time of a local file, when stat succeeds. */
  datatype Source = Failed | Fetched(document: Document, mtime: Option<int>)

  predicate IsLocal(url: string) {
    url != "" && (url[0] == '.' || url[0] == '/')
  }

  /** A remote source leaves the write time at zero. */
  function WriteTime(url: string, s: Source): int
    requires s.Fetched?
  {
    if IsLocal(url) && s.mtime.Some? then s.mtime.value else 0
  }

  /** duration_cast to hours truncates towards zero. */
  function Hours(d: int): int {
    if d >= 0 then d / HOUR else -((-d) / HOUR)
  }

  datatype Store = Store(url: string, lastFetch: int, verifiers: Verifiers)

  /** A lookup; Thrown is an exception out of the fetch or the load. */
  datatype Answer = Found(verifier: Verifier) | Missing | Thrown

  predicate Fetches(s: Store, kid: string, now: int) {
    kid !in s.verifiers && Hours(now - s.lastFetch) >= 24
  }

  function Find(s: Store, kid: string, now: int, source: Source): (Store, Answer) {
    if !Fetches(s, kid, now) then (s, if kid in s.verifiers then Found(s.verifiers[kid]) else Missing)
    else if source.Failed? then (s, Thrown)
    else
      var s' := s.(verifiers := Load(s.verifiers, source.document));
      if LoadThrows(source.document) then (s', Thrown)
      else
        var s'' := s'.(lastFetch := WriteTime(s.url, source) * SECOND);
        (s'', if kid in s''.verifiers then Found(s''.verifiers[kid]) else Missing)
  }

  class JwksStore {
    var url: string
    var lastFetch: int
    var verifiers: Verifiers

    function Model(): Store
      reads this
    {
      Store(url, lastFetch, verifiers)
    }

    constructor (source: string)
      ensures Model() == Store(source, 0, map[])
    {
      url, lastFetch, verifiers := source, 0, map[];
    }

    /** Returns whether the key was added. */
    method AddKeyObject(j: Jwk) returns (added: bool)
      modifies `verifiers
      ensures verifiers == AddKey(old(verifiers), j)
      ensures added <==> Acceptable(j) && j.kid.value !in old(verifiers)
    {
      if j.kid.None? || j.kty.None? {
        return false;
      }
      var kid, kty := j.kid.value, j.kty.value;
      if kty == "RSA" {
        if j.built.None? {
          return false;
        }
      } else if kty == "EC" {
        if j.crv != Some("P-256") || j.built.None? {
          return false;
        }
      } else {
        return false;
      }
      if kid in verifiers {
        return false;
      }
      verifiers := verifiers[kid := j.built.value];
      return true;
    }

    method AddDocument(d: Document) returns (thrown: bool)
      modifies `verifiers
      ensures verifiers == Load(old(verifiers), d)
      ensures thrown == LoadThrows(d)
    {
      if !d.Keys? {
        return false;
      }
      var es := d.elements;
      var i := 0;
      assert es[0..] == es;
      while i < |es|
        invariant 0 <= i <= |es|
        invariant forall k | 0 <= k < i :: es[k].Object?
        invariant AddElements(verifiers, es[i..]) == AddElements(old(verifiers), es)
      {
        assert es[i..][1..] == es[i + 1..];
        if es[i].NotAnObject? {
          assert es[i] in es;
          return true;
        }
        var _ := AddKeyObject(es[i].key);
        i := i + 1;
      }
      assert es[i..] == [];
      return false;
    }

    method FindVerifier(kid: string, now: int, source: Source) returns (r: Answer)
      modifies `verifiers, `lastFetch
      ensures (Model(), r) == old(Find(Model(), kid, now, source))
    {
      hide Load, LoadThrows;
      if kid !in verifiers {
        var sinceFetch := Hours(now - lastFetch);
        if sinceFetch >= 24 {
          if source.Failed? {
            return Thrown;
          }
          var writeTime := WriteTime(url, source);
          var thrown := AddDocument(source.document);
          if thrown {
            return Thrown;
          }
          lastFetch := writeTime * SECOND;
        }
      }
      if kid in verifiers {
        return Found(verifiers[kid]);
      }
      return Missing;
    }
  }

  // Whole runs.

  datatype Op = Lookup(kid: string, now: int, source: Source) | AddDoc(document: Document)

  function Apply(s: Store, op: Op): Store {
    match op
    case Lookup(kid, now, source) => Find(s, kid, now, source).0
    case AddDoc(document) => s.(verifiers := Load(s.verifiers, document))
  }

  function Run(s: Store, ops: seq<Op>): Store
    decreases |ops|
  {
    if ops == [] then s else Run(Apply(s, ops[0]), ops[1..])
  }

  /** m' extends m. */
  ghost predicate Extends(m': Verifiers, m: Verifiers) {
    forall k | k in m :: k in m' && m'[k] == m[k]
  }

  lemma LoadExtends(m: Verifiers, d: Document)
    ensures Extends(Load(m, d), m)
  {
    if d.Keys? {
      forall k | k in m
        ensures k in Load(m, d) && Load(m, d)[k] == m[k]
      {
        LoadIs(m, d.elements, k);
      }
    }
  }

  /** Over every run a key id keeps the first verifier it was bound to. */
  lemma {:induction false} RunKeepsKeys(s: Store, ops: seq<Op>)
    ensures Extends(Run(s, ops).verifiers, s.verifiers)
    decreases |ops|
  {
    hide Load, LoadThrows, Fetches;
    if ops != [] {
      match ops[0] {
        case Lookup(kid, now, source) =>
          if source.Fetched? {
            LoadExtends(s.verifiers, source.document);
          }
        case AddDoc(document) => LoadExtends(s.verifiers, document);
      }
      RunKeepsKeys(Apply(s, ops[0]), ops[1..]);
    }
  }

  /** A key id that is known after some run is found by every later lookup, at once and without change. */
  lemma KnownKeyIsFound(s: Store, ops: seq<Op>, kid: string, now: int, source: Source)
    requires kid in s.verifiers
    ensures var t := Run(s, ops); Find(t, kid, now, source) == (t, Found(s.verifiers[kid]))
  {
    RunKeepsKeys(s, ops);
  }

  /** Unless it throws, a lookup answers exactly what the map holds when it returns; it fetches exactly when the key id
      is unknown and a day has passed since the recorded fetch time. */
  lemma FindIs(s: Store, kid: string, now: int, source: Source)
    ensures
      var (s', r) := Find(s, kid, now, source);
      && Extends(s'.verifiers, s.verifiers)
      && (r != Thrown ==> r == match Get(s'.verifiers, kid) case None => Missing case Some(v) => Found(v))
      && (Fetches(s, kid, now) <==> kid !in s.verifiers && now - s.lastFetch >= DAY)
      && (!Fetches(s, kid, now) ==> s' == s)
    ensures DAY == 24 * 60 * 60 * 1_000_000_000
  {
    if source.Fetched? {
      LoadExtends(s.verifiers, source.document);
    }
  }

  /** What a lookup that fetches learns: every new key id of the document, up to an element that throws; the answer is
      the document's first key with the id, and the recorded time is the write time of a local file, or zero. */
  lemma RefreshLearns(s: Store, kid: string, now: int, es: seq<Element>, mtime: Option<int>)
    requires kid !in s.verifiers && now - s.lastFetch >= DAY
    ensures
      var (s', r) := Find(s, kid, now, Fetched(Keys(es), mtime));
      && (forall k :: Get(s'.verifiers, k) == if k in s.verifiers then Some(s.verifiers[k]) else FirstKey(es, k))
      && s'.url == s.url
      && if NotAnObject in es then r == Thrown && s'.lastFetch == s.lastFetch
         else
           && r == (match FirstKey(es, kid) case None => Missing case Some(v) => Found(v))
           && s'.lastFetch ==
                if ("/" <= s.url || "." <= s.url) && mtime.Some? then mtime.value * 1_000_000_000 else 0
  {
    hide FirstKey, AddElements;
    forall k
      ensures Get(AddElements(s.verifiers, es), k) ==
        if k in s.verifiers then Some(s.verifiers[k]) else FirstKey(es, k)
    {
      LoadIs(s.verifiers, es, k);
    }
  }

  /** A document of another shape teaches nothing, but it is recorded as a fetch; a failed fetch is not. */
  lemma RefreshWithoutKeys(s: Store, kid: string, now: int, source: Source)
    requires kid !in s.verifiers && now - s.lastFetch >= DAY && (source.Fetched? ==> !source.document.Keys?)
    ensures
      Find(s, kid, now, source) ==
      if source.Failed? then (s, Thrown) else (s.(lastFetch := WriteTime(s.url, source) * SECOND), Missing)
  {
  }

  /** After a refresh at `now`, later lookups of unknown keys leave the source alone for a day exactly when the write
      time it recorded is not earlier than `now`. */
  lemma OncePerDayIff(s: Store, kid: string, now: int, source: Source)
    requires Fetches(s, kid, now) && source.Fetched? && !LoadThrows(source.document)
    ensures
      var s' := Find(s, kid, now, source).0;
      (forall kid': string, later: int | now <= later && Fetches(s', kid', later) :: later - now >= DAY)
      <==> WriteTime(s.url, source) * SECOND >= now
  {
    hide Load, LoadThrows;
    var s' := Find(s, kid, now, source).0;
    var recorded := WriteTime(s.url, source) * SECOND;
    if recorded < now {
      var unknown := FreshKid(s'.verifiers.Keys);
      assert Fetches(s', unknown, if now <= recorded + DAY then recorded + DAY else now);
    }
  }

  lemma {:induction false} FreshKid(taken: set<string>) returns (a: string)
    ensures a !in taken && forall s | s in taken :: |s| < |a|
  {
    if taken == {} {
      a := "";
    } else {
      var s :| s in taken;
      var b := FreshKid(taken - {s});
      a := seq(|s| + |b| + 1, _ => 'k');
      assert forall u | u in taken :: u == s || u in taken - {s};
    }
  }

  /** A remote source is therefore fetched again by the very next unknown key. */
  lemma RemoteFetchedAgain(s: Store, kid: string, now: int, source: Source, kid': string)
    requires !IsLocal(s.url) && now >= DAY
    requires Fetches(s, kid, now) && source.Fetched? && !LoadThrows(source.document)
    requires kid' !in Load(s.verifiers, source.document)
    ensures Fetches(Find(s, kid, now, source).0, kid', now)
  {
    hide Load, LoadThrows;
  }

  /** A refresh that throws, in the fetch or in the load, records nothing, and the next miss tries again. */
  lemma ThrownIsRetried(s: Store, kid: string, now: int, source: Source, kid': string, later: int)
    requires Fetches(s, kid, now) && (source.Failed? || LoadThrows(source.document))
    requires now <= later && kid' !in Find(s, kid, now, source).0.verifiers
    ensures
      var (s', r) := Find(s, kid, now, source);
      r == Thrown && s'.lastFetch == s.lastFetch && Fetches(s', kid', later)
  {
    hide Load, LoadThrows;
  }

  // Refreshes over runs.

  /** The operation is a lookup that fetches and loads without an exception. */
  predicate Refreshes(s: Store, op: Op): (b: bool)
    ensures b ==> op.Lookup? && op.source.Fetched?
  {
    op.Lookup? && Fetches(s, op.kid, op.now) && op.source.Fetched? && !LoadThrows(op.source.document)
  }

  /** The fetch time that such a lookup records. */
  function Recorded(url: string, op: Op): int
    requires op.Lookup? && op.source.Fetched?
  {
    WriteTime(url, op.source) * SECOND
  }

  /** The i-th operation of a run refreshes. */
  predicate RefreshAt(s: Store, ops: seq<Op>, i: int): (b: bool)
    ensures b ==> 0 <= i < |ops| && ops[i].Lookup? && ops[i].source.Fetched?
  {
    0 <= i < |ops| && Refreshes(Run(s, ops[..i]), ops[i])
  }

  ghost predicate NoRefresh(s: Store, ops: seq<Op>) {
    forall i | 0 <= i < |ops| :: !RefreshAt(s, ops, i)
  }

  /** The clock never goes back. */
  ghost predicate Ordered(ops: seq<Op>) {
    forall i, j | 0 <= i < j < |ops| && ops[i].Lookup? && ops[j].Lookup? :: ops[i].now <= ops[j].now
  }

  lemma {:induction false} RunConcat(s: Store, a: seq<Op>, b: seq<Op>)
    ensures Run(s, a + b) == Run(Run(s, a), b)
    decreases |a|
  {
    hide Apply;
    if a == [] {
      assert a + b == b;
    } else {
      assert (a + b)[1..] == a[1..] + b;
      RunConcat(Apply(s, a[0]), a[1..], b);
    }
  }

  /** What an operation does to the recorded time. */
  lemma ApplyTime(s: Store, op: Op)
    ensures Apply(s, op).url == s.url
    ensures Apply(s, op).lastFetch == if Refreshes(s, op) then Recorded(s.url, op) else s.lastFetch
  {
    hide Load, LoadThrows, Fetches;
  }

  /** Only a successful refresh moves the recorded time. */
  lemma {:induction false} QuietRun(s: Store, ops: seq<Op>)
    requires NoRefresh(s, ops)
    ensures Run(s, ops).lastFetch == s.lastFetch && Run(s, ops).url == s.url
    decreases |ops|
  {
    hide Refreshes, Apply;
    if ops != [] {
      assert !RefreshAt(s, ops, 0) && ops[..0] == [];
      ApplyTime(s, ops[0]);
      forall i | 0 <= i < |ops[1..]|
        ensures !RefreshAt(Apply(s, ops[0]), ops[1..], i)
      {
        assert !RefreshAt(s, ops, i + 1);
        assert ops[..i + 1][1..] == ops[1..][..i];
      }
      QuietRun(Apply(s, ops[0]), ops[1..]);
    }
  }

  /** However a run goes on, the next successful refresh comes at least a day after this one. */
  ghost predicate NextWaits(s: Store, op: Op)
    requires op.Lookup?
  {
    forall quiet: seq<Op>, next: Op
      | NoRefresh(Apply(s, op), quiet) && Ordered([op] + quiet + [next]) && Refreshes(Run(Apply(s, op), quiet), next)
      :: next.now - op.now >= DAY
  }

  /** A refresh is followed by a day without one, however the run goes on, exactly when it records a time that is not
      earlier than its own. */
  lemma NextWaitsIff(s: Store, op: Op)
    requires Refreshes(s, op)
    ensures NextWaits(s, op) <==> Recorded(s.url, op) >= op.now
  {
    hide Refreshes, Apply;
    var s' := Apply(s, op);
    ApplyTime(s, op);
    if Recorded(s.url, op) >= op.now {
      forall quiet: seq<Op>, next: Op
        | NoRefresh(s', quiet) && Ordered([op] + quiet + [next]) && Refreshes(Run(s', quiet), next)
        ensures next.now - op.now >= DAY
      {
        QuietRun(s', quiet);
        RefreshIsLate(Run(s', quiet), next);
      }
    } else {
      var kid := FreshKid(s'.verifiers.Keys);
      var earliest := s'.lastFetch + DAY;
      var next := Lookup(kid, if op.now <= earliest then earliest else op.now, Fetched(NotObject, None));
      UnknownRefreshes(s', next);
      var quiet: seq<Op> := [];
      assert Run(s', quiet) == s' && NoRefresh(s', quiet) && Ordered([op] + quiet + [next]);
    }
  }

  lemma RefreshIsLate(s: Store, op: Op)
    requires Refreshes(s, op)
    ensures op.now - s.lastFetch >= DAY
  {
  }

  lemma UnknownRefreshes(s: Store, op: Op)
    requires op.Lookup? && op.kid !in s.verifiers && op.now - s.lastFetch >= DAY
    requires op.source == Fetched(NotObject, None)
    ensures Refreshes(s, op)
  {
  }

  /** Every refresh of a run records a time that is not earlier than its own. */
  ghost predicate Timely(s: Store, ops: seq<Op>) {
    forall i: int | RefreshAt(s, ops, i) :: Recorded(s.url, ops[i]) >= ops[i].now
  }

  lemma {:induction false} RunKeepsUrl(s: Store, ops: seq<Op>)
    ensures Run(s, ops).url == s.url
    decreases |ops|
  {
    hide Apply;
    if ops != [] {
      ApplyTime(s, ops[0]);
      RunKeepsUrl(Apply(s, ops[0]), ops[1..]);
    }
  }

  /** Two successive successful refreshes of a run are a day apart, counted from what the first one recorded, and so
      from the first one itself when it is timely. */
  lemma SuccessiveRefreshes(s: Store, ops: seq<Op>, i: int, j: int)
    requires i < j && RefreshAt(s, ops, i) && RefreshAt(s, ops, j)
    requires forall k | i < k < j :: !RefreshAt(s, ops, k)
    ensures ops[j].now - Recorded(s.url, ops[i]) >= DAY
    ensures Timely(s, ops) ==> ops[j].now - ops[i].now >= DAY
  {
    hide Refreshes, Apply, Run;
    var before := Run(s, ops[..i]);
    var quiet := ops[i + 1..j];
    RunStep(s, ops, i);
    RunKeepsUrl(s, ops[..i]);
    ApplyTime(before, ops[i]);
    var s' := Run(s, ops[..i + 1]);
    forall k | 0 <= k < |quiet|
      ensures !RefreshAt(s', quiet, k)
    {
      assert !RefreshAt(s, ops, i + 1 + k);
      assert ops[..i + 1 + k] == ops[..i + 1] + quiet[..k];
      RunConcat(s, ops[..i + 1], quiet[..k]);
    }
    QuietRun(s', quiet);
    assert ops[..j] == ops[..i + 1] + quiet;
    RunConcat(s, ops[..i + 1], quiet);
    RefreshIsLate(Run(s, ops[..j]), ops[j]);
  }

  lemma RunStep(s: Store, ops: seq<Op>, i: nat)
    requires i < |ops|
    ensures Run(s, ops[..i + 1]) == Apply(Run(s, ops[..i]), ops[i])
  {
    hide Apply;
    assert ops[..i + 1] == ops[..i] + [ops[i]];
    RunConcat(s, ops[..i], [ops[i]]);
    assert Run(Run(s, ops[..i]), [ops[i]]) == Apply(Run(s, ops[..i]), ops[i]);
  }

  /** Over every run: no refresh can be followed by another one within a day, however the run goes on from it, exactly
      when every refresh of the run is timely. */
  lemma RefreshesWaitIff(s: Store, ops: seq<Op>)
    ensures (forall i | RefreshAt(s, ops, i) :: NextWaits(Run(s, ops[..i]), ops[i])) <==> Timely(s, ops)
  {
    hide Refreshes, Apply, Run, NextWaits;
    forall i | RefreshAt(s, ops, i)
      ensures NextWaits(Run(s, ops[..i]), ops[i]) <==> Recorded(s.url, ops[i]) >= ops[i].now
    {
      RunKeepsUrl(s, ops[..i]);
      NextWaitsIff(Run(s, ops[..i]), ops[i]);
    }
  }
}
