/** The token introspection cache of src/mas.rs, over every interleaving of its lookups, answers and
    drops. Times are nanoseconds: by the wall clock, whose zero is the Unix epoch and which may be
    set at any moment, or by the monotonic clock, which only moves forward. */
module IntrospectionCache {
  import opened Options
  import opened Whitespace

  const SECOND: int := 1_000_000_000
  const MAX_CACHE_TTL: int := 60 * SECOND
  const CACHE_SOFT_CAP: nat := 256

  const I64_MIN: int := -0x8000_0000_0000_0000
  const I64_MAX: int := 0x7FFF_FFFF_FFFF_FFFF
  type i64 = x: int | I64_MIN <= x <= I64_MAX

  datatype IntrospectionResponse = IntrospectionResponse(
    active: bool, sub: Option<string>, username: Option<string>, scope: Option<string>,
    aud: Option<AudField>, exp: Option<i64>, deviceId: Option<string>)

  datatype AudField = Single(one: string) | Multi(many: seq<string>) {
    predicate Matches(expected: string) {
      match this
      case Single(s) => s == expected
      case Multi(xs) => expected in xs
    }
  }

  datatype Identity = Identity(
    subject: string, mxid: string, deviceId: Option<string>, rawScope: Option<string>, exp: Option<i64>)

  /** What comes back from the authentication service. */
  datatype Reply = TransportError | Reply(status: nat, body: IntrospectionResponse)

  /** `Ok(Some(identity))`, `Ok(None)` and `Err`. */
  datatype Judgement = Accepted(identity: Identity) | Refused | Failed

  datatype Client = Client(audiences: seq<string>, serverName: string)

  datatype CacheEntry = CacheEntry(identity: Identity, expiresAt: int)

  // ---- Scopes -------------------------------------------------------------------------

  const API_SCOPES: seq<string> := ["urn:matrix:client:api:", "urn:matrix:org.matrix.msc2967.client:api:"]
  const STABLE_DEVICE: string := "urn:matrix:client:device:"
  const UNSTABLE_DEVICE: string := "urn:matrix:org.matrix.msc2967.client:device:"

  predicate HasMatrixScope(scope: Option<string>) {
    scope.Some? && exists t, p :: t in Fields(scope.value) && p in API_SCOPES && p <= t
  }

  /** `prefix` begins a field of `scope`. */
  ghost predicate BeginsField(scope: string, a: string, prefix: string, rest: string) {
    scope == a + prefix + rest && EndsBlank(a)
  }

  lemma ApiScopesAreFields(p: string)
    requires p in API_SCOPES
    ensures IsField(p)
  {
    hide IsField;
    assert p == API_SCOPES[0] || p == API_SCOPES[1];
    StableApiIsPrintable();
    UnstableApiIsPrintable();
    PrintableIsField(p);
  }

  lemma StableApiIsPrintable()
    ensures API_SCOPES[0] != "" && forall i :: 0 <= i < |API_SCOPES[0]| ==> '!' <= API_SCOPES[0][i] <= '~'
  {
  }

  lemma UnstableApiIsPrintable()
    ensures API_SCOPES[1] != "" && forall i :: 0 <= i < |API_SCOPES[1]| ==> '!' <= API_SCOPES[1][i] <= '~'
  {
  }

  lemma FieldBegins(scope: string, p: string, k: nat) returns (a: string, rest: string)
    requires k < |Fields(scope)| && p <= Fields(scope)[k]
    ensures BeginsField(scope, a, p, rest)
  {
    hide Fields;
    var b;
    a, b := FieldAt(scope, k);
    SplitBehindPrefix(a, p, Fields(scope)[k], b);
    rest := Fields(scope)[k][|p|..] + b;
  }

  /** A prefix without blanks begins a field of a text exactly when some field begins with it. */
  lemma FieldBeginsExactlyWhen(scope: string, p: string)
    requires IsField(p)
    ensures (exists k :: 0 <= k < |Fields(scope)| && p <= Fields(scope)[k]) <==> exists a, rest :: BeginsField(scope, a, p, rest)
  {
    hide Fields, IsField, EndsBlank;
    if k :| 0 <= k < |Fields(scope)| && p <= Fields(scope)[k] {
      var a, rest := FieldBegins(scope, p, k);
    }
    if a, rest :| BeginsField(scope, a, p, rest) {
      FieldFrom(a, p, rest);
      var k :| 0 <= k < |Fields(scope)| && Fields(scope)[k] == p + FirstField(rest);
    }
  }

  lemma SplitBehindPrefix(a: string, p: string, f: string, b: string)
    requires p <= f
    ensures a + f + b == a + p + (f[|p|..] + b)
  {
    assert f == p + f[|p|..];
  }

  lemma FieldFrom(a: string, p: string, rest: string)
    requires IsField(p) && EndsBlank(a)
    ensures p + FirstField(rest) in Fields(a + p + rest)
  {
    hide Fields, FirstField, IsField, EndsBlank, IsSpace;
    var f, b := p + FirstField(rest), rest[|FirstField(rest)|..];
    FirstFieldSplits(rest);
    FirstFieldHasNoBlank(rest);
    FieldsJoin(p, FirstField(rest));
    Regroup(a, p, FirstField(rest), b);
    FieldStands(a, f, b);
    assert (Fields(a) + [f] + Fields(b))[|Fields(a)|] == f;
  }

  lemma Regroup(a: string, p: string, f: string, b: string)
    ensures a + p + (f + b) == a + (p + f) + b
  {
  }

  lemma {:induction false} FirstFieldHasNoBlank(s: string)
    ensures forall i :: 0 <= i < |FirstField(s)| ==> !IsSpace(FirstField(s)[i])
  {
    if s != "" && !IsSpace(s[0]) {
      FirstFieldHasNoBlank(s[1..]);
    }
  }

  /** A scope grants the API exactly when one of the two API prefixes begins a field of it. */
  lemma MatrixScopeExactlyWhen(scope: Option<string>)
    ensures HasMatrixScope(scope) <==> exists s, a, p, rest :: scope == Some(s) && p in API_SCOPES && BeginsField(s, a, p, rest)
  {
    hide Fields, EndsBlank, BeginsField, IsField;
    if HasMatrixScope(scope) {
      var f, p :| f in Fields(scope.value) && p in API_SCOPES && p <= f;
      var k :| 0 <= k < |Fields(scope.value)| && Fields(scope.value)[k] == f;
      ApiScopesAreFields(p);
      FieldBeginsExactlyWhen(scope.value, p);
      var a, rest :| BeginsField(scope.value, a, p, rest);
      assert scope == Some(scope.value);
    }
    if s, a, p, rest :| scope == Some(s) && p in API_SCOPES && BeginsField(s, a, p, rest) {
      ApiScopesAreFields(p);
      FieldBeginsExactlyWhen(s, p);
      var k :| 0 <= k < |Fields(s)| && p <= Fields(s)[k];
      assert Fields(s)[k] in Fields(s);
    }
  }

  /** What follows `prefix` in the last field that begins with it. */
  function LastTail(fields: seq<string>, prefix: string): Option<string> {
    if fields == [] then None
    else
      var f := fields[|fields| - 1];
      if prefix <= f then Some(f[|prefix|..]) else LastTail(fields[..|fields| - 1], prefix)
  }

  lemma {:induction false} LastTailIsOfTheLast(fields: seq<string>, prefix: string, i: nat)
    requires i < |fields| && prefix <= fields[i] && forall j :: i < j < |fields| ==> !(prefix <= fields[j])
    ensures LastTail(fields, prefix) == Some(fields[i][|prefix|..])
  {
    if i < |fields| - 1 {
      LastTailIsOfTheLast(fields[..|fields| - 1], prefix, i);
    }
  }

  function DeviceIn(fields: seq<string>, stable: string, unstable: string): Option<string> {
    var d := LastTail(fields, stable);
    if d.Some? then d else LastTail(fields, unstable)
  }

  /** `device_from_scope`: the last stable device field, else the last unstable one. */
  method DeviceFromScope(scope: string, stablePrefix: string, unstablePrefix: string) returns (device: Option<string>)
    requires !(stablePrefix <= unstablePrefix) && !(unstablePrefix <= stablePrefix)
    ensures device == DeviceIn(Fields(scope), stablePrefix, unstablePrefix)
  {
    var fields := Fields(scope);
    var stable: Option<string>, unstable: Option<string> := None, None;
    for i := 0 to |fields|
      invariant stable == LastTail(fields[..i], stablePrefix)
      invariant unstable == LastTail(fields[..i], unstablePrefix)
    {
      assert fields[..i + 1][..i] == fields[..i];
      PrefixesNest(fields[i], stablePrefix, unstablePrefix);
      if stablePrefix <= fields[i] {
        stable := Some(fields[i][|stablePrefix|..]);
      } else if unstablePrefix <= fields[i] {
        unstable := Some(fields[i][|unstablePrefix|..]);
      }
    }
    assert fields[..|fields|] == fields;
    device := if stable.Some? then stable else unstable;
  }

  lemma PrefixesNest(s: string, p: string, q: string)
    ensures p <= s && q <= s ==> p <= q || q <= p
  {
    if p <= s && q <= s {
      assert if |p| <= |q| then p == q[..|p|] else q == p[..|q|];
    }
  }

  /** The code's two prefixes meet that demand. */
  lemma DevicePrefixesDiffer()
    ensures !(STABLE_DEVICE <= UNSTABLE_DEVICE) && !(UNSTABLE_DEVICE <= STABLE_DEVICE)
  {
    assert STABLE_DEVICE[11] == 'c' && UNSTABLE_DEVICE[11] == 'o';
  }

  // ---- Judging a reply ----------------------------------------------------------------

  predicate AudienceMatches(aud: AudField, expected: seq<string>) {
    exists e :: e in expected && aud.Matches(e)
  }

  /** `introspect` after the reply came in. */
  function Judge(client: Client, reply: Reply): Judgement {
    if reply.TransportError? || !(200 <= reply.status < 300) then Failed
    else
      var body := reply.body;
      if !body.active then Refused
      else if body.aud.Some? && !AudienceMatches(body.aud.value, client.audiences) then Failed
      else if !HasMatrixScope(body.scope) || body.sub.None? || body.username.None? then Refused
      else
        var mxid := "@" + body.username.value + ":" + client.serverName;
        var device := if body.deviceId.Some? then body.deviceId
                      else if body.scope.Some? then DeviceIn(Fields(body.scope.value), STABLE_DEVICE, UNSTABLE_DEVICE)
                      else None;
        Accepted(Identity(body.sub.value, mxid, device, body.scope, body.exp))
  }

  /** An audience check passes: the token names none, or one this server accepts. */
  ghost predicate ForThisServer(aud: Option<AudField>, audiences: seq<string>) {
    || aud == None
    || exists expected :: expected in audiences
         && (aud == Some(Single(expected)) || exists many :: aud == Some(Multi(many)) && expected in many)
  }

  /** A scope in which an API prefix begins a field. */
  ghost predicate GrantsTheApi(scope: Option<string>) {
    exists s, a, p, rest :: scope == Some(s) && p in API_SCOPES && BeginsField(s, a, p, rest)
  }

  lemma AudienceExactlyWhen(aud: Option<AudField>, audiences: seq<string>)
    ensures ForThisServer(aud, audiences) <==> (aud.Some? ==> AudienceMatches(aud.value, audiences))
  {
    if aud.Some? && AudienceMatches(aud.value, audiences) {
      var expected :| expected in audiences && aud.value.Matches(expected);
      assert aud.value.Multi? ==> aud == Some(Multi(aud.value.many));
      assert aud.value.Single? ==> aud == Some(Single(expected));
    }
  }

  /** A token is accepted exactly when every check passes, in whatever order they are made: a success,
      active, for this server, with a scope that grants the API, a subject and a user name. A wrong
      audience is an error, not a refusal. */
  lemma AcceptedExactlyWhenEveryCheckPasses(client: Client, reply: Reply)
    ensures Judge(client, reply).Accepted? <==>
              && reply.Reply? && 200 <= reply.status < 300 && reply.body.active
              && ForThisServer(reply.body.aud, client.audiences) && GrantsTheApi(reply.body.scope)
              && reply.body.sub.Some? && reply.body.username.Some?
    ensures Judge(client, reply).Failed? <==>
              || reply.TransportError? || !(200 <= reply.status < 300)
              || (reply.body.active && !ForThisServer(reply.body.aud, client.audiences))
  {
    hide HasMatrixScope, AudienceMatches, DeviceIn, ForThisServer;
    if reply.Reply? {
      MatrixScopeExactlyWhen(reply.body.scope);
      AudienceExactlyWhen(reply.body.aud, client.audiences);
    }
  }

  /** Whom an accepted token identifies: the subject as named, the Matrix id of the user name on this
      server, and the device named, or the one in the scope. */
  lemma AcceptedIdentityIs(client: Client, reply: Reply)
    requires Judge(client, reply).Accepted?
    ensures var (identity, body) := (Judge(client, reply).identity, reply.body);
            && Some(identity.subject) == body.sub && identity.exp == body.exp && identity.rawScope == body.scope
            && (forall name :: body.username == Some(name) ==> identity.mxid == "@" + name + ":" + client.serverName)
            && (body.deviceId.Some? ==> identity.deviceId == body.deviceId)
  {
    hide HasMatrixScope, AudienceMatches, DeviceIn;
  }

  /** No field of `s` begins with `prefix`. */
  ghost predicate NoFieldBegins(s: string, prefix: string) {
    forall a, rest :: !BeginsField(s, a, prefix, rest)
  }

  /** The last field of a scope that begins with `prefix` goes on with `x`. */
  ghost predicate LastFieldIs(scope: string, prefix: string, x: string) {
    exists a, b :: scope == a + (prefix + x) + b && EndsBlank(a) && IsField(prefix + x) && BeginsBlank(b) && NoFieldBegins(b, prefix)
  }

  lemma {:induction false} LastTailOfNone(fields: seq<string>, prefix: string)
    requires forall k :: 0 <= k < |fields| ==> !(prefix <= fields[k])
    ensures LastTail(fields, prefix) == None
  {
    if fields != [] {
      LastTailOfNone(fields[..|fields| - 1], prefix);
    }
  }

  lemma LastFieldReads(scope: string, prefix: string, x: string)
    requires IsField(prefix) && LastFieldIs(scope, prefix, x)
    ensures LastTail(Fields(scope), prefix) == Some(x)
  {
    hide Fields, LastTail, IsField, EndsBlank, BeginsBlank;
    var a, b :| scope == a + (prefix + x) + b && EndsBlank(a) && IsField(prefix + x) && BeginsBlank(b) && NoFieldBegins(b, prefix);
    FieldStands(a, prefix + x, b);
    FieldBeginsExactlyWhen(b, prefix);
    var all, k := Fields(a) + [prefix + x] + Fields(b), |Fields(a)|;
    forall j | k < j < |all| ensures !(prefix <= all[j]) {
      assert all[j] == Fields(b)[j - k - 1];
    }
    LastTailIsOfTheLast(all, prefix, k);
    assert (prefix + x)[|prefix|..] == x;
  }

  lemma NoFieldReads(scope: string, prefix: string)
    requires IsField(prefix) && NoFieldBegins(scope, prefix)
    ensures LastTail(Fields(scope), prefix) == None
  {
    hide Fields, LastTail, BeginsField;
    forall k | 0 <= k < |Fields(scope)| ensures !(prefix <= Fields(scope)[k]) {
      if prefix <= Fields(scope)[k] {
        var a, rest := FieldBegins(scope, prefix, k);
      }
    }
    LastTailOfNone(Fields(scope), prefix);
  }

  lemma StableDeviceIsPrintable()
    ensures STABLE_DEVICE != "" && forall i :: 0 <= i < |STABLE_DEVICE| ==> '!' <= STABLE_DEVICE[i] <= '~'
  {
  }

  lemma UnstableDeviceIsPrintable()
    ensures UNSTABLE_DEVICE != "" && forall i :: 0 <= i < |UNSTABLE_DEVICE| ==> '!' <= UNSTABLE_DEVICE[i] <= '~'
  {
  }

  lemma DevicePrefixesAreFields()
    ensures IsField(STABLE_DEVICE) && IsField(UNSTABLE_DEVICE)
  {
    hide IsField;
    StableDeviceIsPrintable();
    UnstableDeviceIsPrintable();
    PrintableIsField(STABLE_DEVICE);
    PrintableIsField(UNSTABLE_DEVICE);
  }

  /** A device not named by itself is the last stable one of the scope, else the last unstable one,
      else none. */
  lemma AcceptedDeviceIs(client: Client, reply: Reply, scope: string, x: string)
    requires Judge(client, reply).Accepted? && reply.body.deviceId == None && reply.body.scope == Some(scope)
    ensures var device := Judge(client, reply).identity.deviceId;
            && (LastFieldIs(scope, STABLE_DEVICE, x) ==> device == Some(x))
            && (NoFieldBegins(scope, STABLE_DEVICE) && LastFieldIs(scope, UNSTABLE_DEVICE, x) ==> device == Some(x))
            && (NoFieldBegins(scope, STABLE_DEVICE) && NoFieldBegins(scope, UNSTABLE_DEVICE) ==> device == None)
  {
    hide HasMatrixScope, AudienceMatches, Fields, LastTail, LastFieldIs, NoFieldBegins, IsField;
    DevicePrefixesAreFields();
    if LastFieldIs(scope, STABLE_DEVICE, x) { LastFieldReads(scope, STABLE_DEVICE, x); }
    if LastFieldIs(scope, UNSTABLE_DEVICE, x) { LastFieldReads(scope, UNSTABLE_DEVICE, x); }
    if NoFieldBegins(scope, STABLE_DEVICE) { NoFieldReads(scope, STABLE_DEVICE); }
    if NoFieldBegins(scope, UNSTABLE_DEVICE) { NoFieldReads(scope, UNSTABLE_DEVICE); }
  }

  /** One server's users are told apart by the Matrix id made from their name. */
  lemma SameMxidSameUser(client: Client, a: Reply, b: Reply)
    requires Judge(client, a).Accepted? && Judge(client, b).Accepted?
    ensures Judge(client, a).identity.mxid == Judge(client, b).identity.mxid <==> a.body.username == b.body.username
  {
    hide HasMatrixScope, AudienceMatches, DeviceIn;
    NameReadsBack(a.body.username.value, client.serverName);
    NameReadsBack(b.body.username.value, client.serverName);
  }

  lemma NameReadsBack(name: string, server: string)
    ensures var mxid := "@" + name + ":" + server;
            |mxid| == |name| + |server| + 2 && mxid[1..|mxid| - |server| - 1] == name
  {
  }

  // ---- Lifetimes ----------------------------------------------------------------------

  /** The wall clock in whole seconds, as the code reads it into an `i64`. */
  function WallSeconds(wall: int): i64 {
    if wall < 0 then 0 else if wall / SECOND > I64_MAX then I64_MAX else wall / SECOND
  }

  /** `i64` subtraction as a release build computes it. */
  function WrappingSub(a: i64, b: i64): i64 {
    if a - b < I64_MIN then a - b + 0x1_0000_0000_0000_0000
    else if a - b > I64_MAX then a - b - 0x1_0000_0000_0000_0000
    else a - b
  }

  /** How long an accepted answer may be cached. */
  function Ttl(exp: Option<i64>, wall: int): int {
    match exp
    case None => MAX_CACHE_TTL
    case Some(e) =>
      var remaining := WrappingSub(e, WallSeconds(wall));
      if remaining <= 0 then 0
      else if remaining * SECOND < MAX_CACHE_TTL then remaining * SECOND
      else MAX_CACHE_TTL
  }

  /** No subtraction of the lifetime computation leaves `i64`. */
  predicate Subtractable(exp: Option<i64>, wall: int) {
    exp.Some? ==> exp.value - WallSeconds(wall) >= I64_MIN
  }

  /** A token already expired by the wall clock is given no lifetime, exactly when its expiry can be
      subtracted from. */
  lemma ExpiredGetsNoTimeIffSubtractable(exp: i64, wall: int)
    requires exp <= WallSeconds(wall)
    ensures Ttl(Some(exp), wall) == 0 <==> Subtractable(Some(exp), wall)
  {
    var d := WrappingSub(exp, WallSeconds(wall));
    assert d <= 0 <==> exp - WallSeconds(wall) >= I64_MIN;
  }

  /** Inputs it fails on: the least expiry there is, at any time from the first second of 1970 on
      (until a minute before the clock's own last second), is cached for the full minute. */
  lemma LeastExpiryIsCachedForAMinute(wall: int)
    requires SECOND <= wall && wall / SECOND <= I64_MAX - 59
    ensures Ttl(Some(I64_MIN), wall) == 60 * SECOND && I64_MIN <= WallSeconds(wall)
  {
    var s := WallSeconds(wall);
    assert 1 <= s && s == wall / SECOND;
    assert WrappingSub(I64_MIN, s) == I64_MAX + 1 - s;
  }

  /** How much further the wall clock moved than the monotonic one between two pairs of readings. */
  function WallGain(wall: int, at: int, wallLater: int, later: int): int {
    (wallLater - wall) - (later - at)
  }

  /** An answer cached at `at` by the monotonic clock, the wall clock having been read at `wall`, is
      served for less than a minute. When a lookup finds it, the wall clock is less than a second
      past its expiry, apart from what that clock gained on the monotonic one since those readings. */
  lemma ServedBriefly(exp: Option<i64>, wall: int, at: int, wallThen: int, t: int)
    requires at <= t < at + Ttl(exp, wall)
    ensures t < at + 60 * SECOND
    ensures exp.Some? && Subtractable(exp, wall) ==> wallThen < (exp.value + 1) * SECOND + WallGain(wall, at, wallThen, t)
    ensures exp.Some? && Subtractable(exp, wall) ==> WallSeconds(wall) < exp.value
  {
    if exp.Some? && Subtractable(exp, wall) {
      var s := WallSeconds(wall);
      assert WrappingSub(exp.value, s) == exp.value - s;
      assert (exp.value - s) * SECOND == exp.value * SECOND - s * SECOND;
      assert wall < (s + 1) * SECOND;
    }
  }

  /** And for no less than that: within a minute of being cached, until the seconds left to its
      expiry by the wall clock have passed. */
  lemma ServedUntilItsTime(exp: Option<i64>, wall: int, at: int, t: int)
    requires at <= t && Subtractable(exp, wall)
    ensures t < at + Ttl(exp, wall)
       <==> t < at + 60 * SECOND && (exp.Some? ==> t - at < (exp.value - WallSeconds(wall)) * SECOND)
  {
    if exp.Some? {
      assert WrappingSub(exp.value, WallSeconds(wall)) == exp.value - WallSeconds(wall);
    }
  }

  // ---- The cache ----------------------------------------------------------------------

  /** What a lookup finds in `m`. */
  function Live(m: map<string, CacheEntry>, token: string, now: int): Option<Identity> {
    if token in m && m[token].expiresAt > now then Some(m[token].identity) else None
  }

  /** Tokens stand for their hashes. */
  class IntrospectionCache {
    const client: Client
    var cache: map<string, CacheEntry>

    constructor (client: Client)
      ensures this.client == client && cache == map[]
    {
      this.client, cache := client, map[];
    }

    /** `cache_lookup`. */
    method CacheLookup(token: string, now: int) returns (hit: Option<Identity>)
      ensures hit == Live(cache, token, now)
    {
      hit := None;
      if token in cache {
        var entry := cache[token];
        if entry.expiresAt > now {
          hit := Some(entry.identity);
        }
      }
    }

    /** `cache_insert`: clocks read at `wall` and `at`, the lock held from `now`. */
    method CacheInsert(token: string, identity: Identity, exp: Option<i64>, wall: int, at: int, now: int)
      modifies this`cache
      ensures token in cache && cache[token] == CacheEntry(identity, at + Ttl(exp, wall))
      ensures forall t :: t in cache && t != token ==> t in old(cache) && cache[t] == old(cache)[t]
      ensures forall t :: t in old(cache) && t !in cache ==> old(cache)[t].expiresAt <= now
      ensures |cache| <= 256 || forall t :: t in cache && t != token ==> cache[t].expiresAt > now
    {
      if |cache| >= CACHE_SOFT_CAP {
        cache := map t | t in cache && cache[t].expiresAt > now :: cache[t];
      } else {
        assert cache[token := CacheEntry(identity, at)].Keys == cache.Keys + {token};
        assert |cache| == |cache.Keys|;
      }
      var entry := CacheEntry(identity, at + Ttl(exp, wall));
      assert |cache[token := entry]| == |cache[token := entry].Keys|;
      assert cache[token := entry].Keys == cache.Keys + {token};
      cache := cache[token := entry];
    }

    /** `drop_token`. */
    method DropToken(token: string)
      modifies this`cache
      ensures cache == old(cache) - {token}
    {
      cache := cache - {token};
    }

    /** The end of `introspect`: a reply is judged, and only an accepted one is cached. */
    method Answer(token: string, reply: Reply, wall: int, at: int, now: int) returns (judgement: Judgement)
      modifies this`cache
      ensures judgement == Judge(client, reply)
      ensures !judgement.Accepted? ==> cache == old(cache)
      ensures judgement.Accepted? ==> token in cache && cache[token] == EntryOf(client, AnswerStep(token, reply, wall, at, now))
      ensures forall t :: t in cache && t != token ==> t in old(cache) && cache[t] == old(cache)[t]
      ensures forall t :: t in old(cache) && t !in cache ==> old(cache)[t].expiresAt <= now
      ensures judgement.Accepted? ==>
                |cache| <= CACHE_SOFT_CAP || forall t :: t in cache && t != token ==> cache[t].expiresAt > now
    {
      hide HasMatrixScope, DeviceIn, Ttl;
      judgement := Judge(client, reply);
      if judgement.Accepted? {
        CacheInsert(token, judgement.identity, judgement.identity.exp, wall, at, now);
      }
    }
  }

  // ---- Runs ---------------------------------------------------------------------------

  /** One critical section of the cache: `now` is when it is entered, by the monotonic clock.
      Concurrent introspections interleave between their lookup and their answer. A lookup does not
      read the wall clock; its reading is recorded for the theorem about expiry. */
  datatype Step =
    | LookupStep(token: string, now: int, wall: int)
    | AnswerStep(token: string, reply: Reply, wall: int, at: int, now: int)
    | DropStep(token: string, now: int)

  ghost predicate Orderly(steps: seq<Step>) {
    && (forall i, j :: 0 <= i < j < |steps| ==> steps[i].now <= steps[j].now)
    && (forall i :: 0 <= i < |steps| && steps[i].AnswerStep? ==> steps[i].at <= steps[i].now)
  }

  predicate Accepts(client: Client, step: Step, token: string) {
    step.AnswerStep? && step.token == token && Judge(client, step.reply).Accepted?
  }

  function EntryOf(client: Client, step: Step): CacheEntry
    requires Accepts(client, step, step.token)
  {
    var identity := Judge(client, step.reply).identity;
    CacheEntry(identity, step.at + Ttl(identity.exp, step.wall))
  }

  /** The unbounded map after one more step. */
  function Updated(client: Client, latest: map<string, CacheEntry>, step: Step): map<string, CacheEntry> {
    if Accepts(client, step, step.token) then latest[step.token := EntryOf(client, step)]
    else if step.DropStep? then latest - {step.token}
    else latest
  }

  /** The unbounded map the cache stands for: each token's last acceptance since it was dropped. */
  function Latest(client: Client, steps: seq<Step>): map<string, CacheEntry> {
    if steps == [] then map[]
    else Updated(client, Latest(client, steps[..|steps| - 1]), steps[|steps| - 1])
  }

  /** The cache holds part of that map, and what it lacks has expired. */
  ghost predicate Refines(cache: map<string, CacheEntry>, latest: map<string, CacheEntry>, clock: int) {
    && (forall t :: t in cache ==> t in latest && cache[t] == latest[t])
    && (forall t :: t in latest && t !in cache ==> latest[t].expiresAt <= clock)
  }

  /** Step `j` accepts `token` and nothing since accepts or drops it. */
  ghost predicate LastWord(client: Client, steps: seq<Step>, token: string, j: int) {
    && 0 <= j < |steps| && Accepts(client, steps[j], token)
    && forall k :: j < k < |steps| ==> !Accepts(client, steps[k], token) && steps[k] != DropStep(token, steps[k].now)
  }

  /** A token is in the unbounded map exactly when it has been accepted and not dropped since, with
      the entry of its last acceptance: so after a drop it is gone until accepted again. */
  lemma {:induction false} LatestIsTheLastWord(client: Client, steps: seq<Step>, token: string)
    ensures token in Latest(client, steps) <==> exists j :: LastWord(client, steps, token, j)
    ensures forall j :: LastWord(client, steps, token, j) ==> Latest(client, steps)[token] == EntryOf(client, steps[j])
  {
    hide Judge, Ttl;
    if steps != [] {
      var n := |steps| - 1;
      var front, last := steps[..n], steps[n];
      LatestIsTheLastWord(client, front, token);
      if Accepts(client, last, token) {
        assert LastWord(client, steps, token, n);
      } else if last != DropStep(token, last.now) {
        forall j ensures LastWord(client, steps, token, j) <==> LastWord(client, front, token, j) {
          assert forall k :: 0 <= k < n ==> front[k] == steps[k];
        }
      }
    }
  }

  /** The answer of a lookup at step `i`: what the unbounded map holds and has not expired. */
  ghost predicate LooksUpRight(client: Client, steps: seq<Step>, hits: seq<Option<Identity>>, i: nat)
    requires i < |steps| && i < |hits|
  {
    steps[i].LookupStep? ==> hits[i] == Live(Latest(client, steps[..i]), steps[i].token, steps[i].now)
  }

  /** Play any interleaving: bounded, swept and shared as it is, the cache answers as the unbounded
      map would. */
  method Play(client: Client, steps: seq<Step>) returns (hits: seq<Option<Identity>>)
    requires Orderly(steps)
    ensures |hits| == |steps| && forall i :: 0 <= i < |steps| ==> LooksUpRight(client, steps, hits, i)
  {
    hide Judge, Ttl, Latest, EntryOf, Refines, LooksUpRight;
    hits := [];
    var cache := new IntrospectionCache(client);
    LatestOfNone(client, steps);
    NothingRefines(if steps == [] then 0 else steps[0].now);
    for i := 0 to |steps|
      invariant |hits| == i && fresh(cache) && cache.client == client
      invariant i < |steps| ==> Refines(cache.cache, Latest(client, steps[..i]), steps[i].now)
      invariant forall k :: 0 <= k < i ==> LooksUpRight(client, steps, hits, k)
    {
      ghost var latest, earlier := Latest(client, steps[..i]), hits;
      var hit := Perform(cache, steps[i], latest);
      LatestOneMore(client, steps, i);
      if i + 1 < |steps| {
        RefinesLater(cache.cache, Latest(client, steps[..i + 1]), steps[i].now, steps[i + 1].now);
      }
      hits := hits + [hit];
      LookedUp(client, steps, hits, i);
      forall k | 0 <= k < i ensures LooksUpRight(client, steps, hits, k) {
        LooksUpStill(client, steps, earlier, hit, k);
      }
    }
  }

  /** One step on the cache, beside the map it stands for. */
  method Perform(cache: IntrospectionCache, step: Step, ghost latest: map<string, CacheEntry>) returns (hit: Option<Identity>)
    requires Refines(cache.cache, latest, step.now)
    modifies cache`cache
    ensures Refines(cache.cache, Updated(cache.client, latest, step), step.now)
    ensures step.LookupStep? ==> hit == Live(latest, step.token, step.now)
  {
    hide Judge, EntryOf;
    hit := None;
    match step {
      case LookupStep(token, now, _) =>
        hit := cache.CacheLookup(token, now);
      case AnswerStep(token, reply, wall, at, now) =>
        var _ := cache.Answer(token, reply, wall, at, now);
      case DropStep(token, now) =>
        cache.DropToken(token);
    }
  }

  lemma NothingRefines(clock: int)
    ensures Refines(map[], map[], clock)
  {
  }

  lemma RefinesLater(cache: map<string, CacheEntry>, latest: map<string, CacheEntry>, clock: int, later: int)
    requires Refines(cache, latest, clock) && clock <= later
    ensures Refines(cache, latest, later)
  {
  }

  lemma LookedUp(client: Client, steps: seq<Step>, hits: seq<Option<Identity>>, i: nat)
    requires i < |steps| && i < |hits|
    requires steps[i].LookupStep? ==> hits[i] == Live(Latest(client, steps[..i]), steps[i].token, steps[i].now)
    ensures LooksUpRight(client, steps, hits, i)
  {
  }

  lemma LooksUpStill(client: Client, steps: seq<Step>, hits: seq<Option<Identity>>, next: Option<Identity>, k: nat)
    requires k < |hits| && k < |steps| && LooksUpRight(client, steps, hits, k)
    ensures LooksUpRight(client, steps, hits + [next], k)
  {
  }

  lemma LatestOfNone(client: Client, steps: seq<Step>)
    ensures Latest(client, steps[..0]) == map[]
  {
  }

  lemma LatestOneMore(client: Client, steps: seq<Step>, i: nat)
    requires i < |steps|
    ensures Latest(client, steps[..i + 1]) == Updated(client, Latest(client, steps[..i]), steps[i])
  {
    hide Judge, EntryOf;
    assert steps[..i + 1][..i] == steps[..i];
  }

  /** Every hit comes from an earlier acceptance of that very token, not dropped and not replaced
      since, is less than a minute old, and, unless its expiry is beyond subtraction, was unexpired
      when cached and is less than a second past its expiry, apart from what the wall clock gained on
      the monotonic one since it was read; and the reply accepted passed every check. */
  lemma HitsAreFreshAcceptances(client: Client, steps: seq<Step>, i: nat) returns (j: nat)
    requires Orderly(steps) && i < |steps| && steps[i].LookupStep?
    requires Live(Latest(client, steps[..i]), steps[i].token, steps[i].now).Some?
    ensures j < i && LastWord(client, steps[..i], steps[i].token, j)
    ensures Live(Latest(client, steps[..i]), steps[i].token, steps[i].now) == Some(Judge(client, steps[j].reply).identity)
    ensures steps[i].now < steps[j].at + 60 * SECOND
    ensures var reply := steps[j].reply;
            && reply.Reply? && 200 <= reply.status < 300 && reply.body.active
            && ForThisServer(reply.body.aud, client.audiences) && GrantsTheApi(reply.body.scope)
    ensures var exp := Judge(client, steps[j].reply).identity.exp;
            exp.Some? && Subtractable(exp, steps[j].wall) ==>
              && WallSeconds(steps[j].wall) < exp.value
              && steps[i].wall < (exp.value + 1) * SECOND + WallGain(steps[j].wall, steps[j].at, steps[i].wall, steps[i].now)
  {
    hide Judge, Ttl, WallSeconds, WrappingSub, Latest, ForThisServer, GrantsTheApi;
    var token := steps[i].token;
    LatestIsTheLastWord(client, steps[..i], token);
    j :| LastWord(client, steps[..i], token, j);
    assert steps[..i][j] == steps[j];
    AcceptedExactlyWhenEveryCheckPasses(client, steps[j].reply);
    var exp := Judge(client, steps[j].reply).identity.exp;
    ServedBriefly(exp, steps[j].wall, steps[j].at, steps[i].wall, steps[i].now);
  }
}
