/** Theorems across key ring, cookies, AES-SIV and the extension-field layer: no amplification, no
    spurious failure, and the request/response round trip. */
module NtsExchange {
  import opened Bytes
  import opened Esp
  import opened AesSiv
  import opened KeyRing
  import opened Cookie
  import opened NtpAuth
  import LateStamp
  import Timestamps

  // ---------------------------------------------------------------- no amplification

  lemma {:induction false} EqualPlaceholdersWeigh(lens: seq<nat>)
    ensures 132 * CountEqual(lens, COOKIE_LEN) <= SumFields(lens)
  {
    if lens != [] { EqualPlaceholdersWeigh(lens[..|lens| - 1]); }
  }

  /** A verified request is at least as long as the response its context entitles to. */
  lemma VerifiedRequestCoversResponse(p: Prims, stored: Option<Ring>, env: Env, packet: seq<byte>, now: Option<u32>)
    requires VerifyCall(p, stored, env, packet, now).0.Ok?
    ensures var c := VerifyCall(p, stored, env, packet, now).0.value;
      && c.requestLength == |packet| <= MAX_PACKET
      && 32 <= |c.uid| <= MAX_UID && |c.uid| % 4 == 0
      && c.validPlaceholders <= MAX_PLACEHOLDERS
      && ResponseLength(|c.uid|, 1 + c.validPlaceholders) <= |packet|
  {
    hide Open, Unpacked, Maintained, Walk;
    WalkKeepsSound(packet, HEADER_LEN, NOTHING);
    var w := Walk(packet, HEADER_LEN, NOTHING).value;
    EqualPlaceholdersWeigh(w.placeholders);
  }

  /** The cheap scan never turns away a request that verification would accept. */
  lemma VerifiedIsPresent(p: Prims, stored: Option<Ring>, env: Env, packet: seq<byte>, now: Option<u32>)
    requires VerifyCall(p, stored, env, packet, now).0.Ok?
    ensures |packet| > HEADER_LEN && Present(packet, HEADER_LEN)
  {
    hide Open, Unpacked, Maintained, Walk;
    VerifiedRequestCoversResponse(p, stored, env, packet, now);
    WalkedIsPresent(packet, HEADER_LEN, NOTHING);
  }

  /** The authenticator of a complete walk: nonce, and the empty plaintext sealed under the given key over
      every byte before the field. */
  predicate SealsPrefix(p: Prims, key: Key, packet: seq<byte>, auth: Auth)
    requires auth.offset <= |packet|
  {
    var parts := AuthParts(auth.body);
    parts.Ok? && parts.value.1 == Seal(p, key, packet[..auth.offset], parts.value.0, [])
  }

  predicate IsContextOf(p: Prims, stored: Option<Ring>, env: Env, packet: seq<byte>, now: Option<u32>, w: Walked, c: Context) {
    && w.uid.Some? && w.cookie.Some? && w.auth.Some? && w.auth.value.offset <= |packet|
    && UnpackCall(p, stored, env, w.cookie.value, now).0 == Ok(c.keys)
    && SealsPrefix(p, c.keys.c2s, packet, w.auth.value)
    && c.uid == w.uid.value && c.requestLength == |packet|
    && c.validPlaceholders == CountEqual(w.placeholders, |w.cookie.value|)
  }

  lemma AuthenticatedIff(p: Prims, packet: seq<byte>, w: Walked, keys: Keys, c: Context)
    requires w.uid.Some? && w.cookie.Some? && w.auth.Some? && w.auth.value.offset <= |packet|
    requires |w.placeholders| <= MAX_PLACEHOLDERS && AuthParts(w.auth.value.body).Ok?
    ensures Authenticated(p, packet, w, keys) == Ok(c)
      <==> SealsPrefix(p, keys.c2s, packet, w.auth.value)
           && c == Context(w.uid.value, CountEqual(w.placeholders, |w.cookie.value|), |packet|, keys)
  {
    hide Open, Seal, AuthParts;
    var (nonce, ciphertext) := AuthParts(w.auth.value.body).value;
    OpenIffSealed(p, keys.c2s, packet[..w.auth.value.offset], nonce, ciphertext, []);
  }

  /** The walk is complete, its authenticator parses and its cookie unpacks. */
  predicate Openable(p: Prims, stored: Option<Ring>, env: Env, now: Option<u32>, w: Walked) {
    && w.uid.Some? && w.cookie.Some? && w.auth.Some?
    && AuthParts(w.auth.value.body).Ok? && UnpackCall(p, stored, env, w.cookie.value, now).0.Ok?
  }

  lemma VerifyByParts(p: Prims, stored: Option<Ring>, env: Env, packet: seq<byte>, now: Option<u32>)
    requires HEADER_LEN <= |packet|
    ensures var walk, result := Walk(packet, HEADER_LEN, NOTHING), VerifyCall(p, stored, env, packet, now).0;
      if |packet| > MAX_PACKET || walk.Err? || !Openable(p, stored, env, now, walk.value) then result.Err?
      else
        && walk.value.auth.value.offset <= |packet| && |walk.value.placeholders| <= MAX_PLACEHOLDERS
        && result == Authenticated(p, packet, walk.value, UnpackCall(p, stored, env, walk.value.cookie.value, now).0.value)
  {
    WalkKeepsSound(packet, HEADER_LEN, NOTHING);
    hide Open, Unpacked, UnpackCall, Maintained, Walk, AuthParts, Authenticated, Weight;
  }

  /** Acceptance is exact. A packet is verified to a context when and only when it is of legal size, walks
      to an identifier, a cookie and an authenticator, the cookie unpacks to the context's keys, and the
      authenticator seals nothing but the bytes before it under the client-to-server one of those keys. */
  lemma VerifiedIffAuthentic(p: Prims, stored: Option<Ring>, env: Env, packet: seq<byte>, now: Option<u32>, c: Context)
    requires HEADER_LEN <= |packet|
    ensures var walk := Walk(packet, HEADER_LEN, NOTHING);
      VerifyCall(p, stored, env, packet, now).0 == Ok(c)
      <==>
      && |packet| <= MAX_PACKET && walk.Ok?
      && IsContextOf(p, stored, env, packet, now, walk.value, c)
  {
    VerifyByParts(p, stored, env, packet, now);
    hide UnpackCall, Walk, Seal, AuthParts, CountEqual, Authenticated, VerifyCall;
    var walk := Walk(packet, HEADER_LEN, NOTHING);
    if |packet| <= MAX_PACKET && walk.Ok? && Openable(p, stored, env, now, walk.value) {
      AuthenticatedIff(p, packet, walk.value, UnpackCall(p, stored, env, walk.value.cookie.value, now).0.value, c);
    }
  }

  /** Every clock reading is present and every load and save succeeds. */
  predicate Serviceable(mints: Mints, count: nat) {
    forall i :: 0 <= i < count ==> mints(i).env.load == OK && mints(i).env.save == OK && mints(i).env.now.Some?
  }

  lemma CreateSucceeds(p: Prims, stored: Ring, env: Env, keys: Keys, nonce: Block)
    requires Healthy(stored) && env.load == OK && env.save == OK && env.now.Some?
    ensures var (created, ring) := CreateCall(p, Some(stored), env, keys, nonce);
      created.Ok? && ring.Some? && Healthy(ring.value)
  {
    hide Minted;
    HealthyIsAccepted(stored);
    CatchUpKeepsHealthy(stored, env.now.value, env.draw, 0);
  }

  lemma {:induction false} MintAllSucceeds(p: Prims, stored: Ring, keys: Keys, mints: Mints, count: nat)
    requires Healthy(stored) && Serviceable(mints, count)
    ensures var (cookies, ring) := MintAll(p, Some(stored), keys, mints, count);
      cookies.Ok? && ring.Some? && Healthy(ring.value)
  {
    hide CreateCall, Healthy;
    if count > 0 {
      MintAllSucceeds(p, stored, keys, mints, count - 1);
      var ring := MintAll(p, Some(stored), keys, mints, count - 1).1.value;
      CreateSucceeds(p, ring, mints(count - 1).env, keys, mints(count - 1).nonce);
    }
  }

  /** For every context a successful verification produces, protection with a healthy ring succeeds in
      any buffer that could hold the request, and the response is exactly as long as the formula says -
      so neither size check after the cookies ever fires. */
  lemma ProtectNeverFailsSpuriously(p: Prims, before: Option<Ring>, env: Env, packet: seq<byte>, now: Option<u32>,
                                    stored: Ring, header: seq<byte>, capacity: nat, mints: Mints, nonce: Block)
    requires VerifyCall(p, before, env, packet, now).0.Ok?
    requires Healthy(stored) && |header| == HEADER_LEN && |packet| <= capacity <= MAX_PACKET
    requires Serviceable(mints, 1 + VerifyCall(p, before, env, packet, now).0.value.validPlaceholders)
    ensures var c := VerifyCall(p, before, env, packet, now).0.value;
      var response := ProtectCall(p, Some(stored), c, header, capacity, mints, nonce).0;
      && response.Ok?
      && |response.value| == ResponseLength(|c.uid|, 1 + c.validPlaceholders)
      && |response.value| <= |packet|
  {
    hide VerifyCall, MintAll, Response, Healthy, Field;
    VerifiedRequestCoversResponse(p, before, env, packet, now);
    var c := VerifyCall(p, before, env, packet, now).0.value;
    var count := 1 + c.validPlaceholders;
    assert CookieCount(c.validPlaceholders) == count;
    MintAllSucceeds(p, stored, c.keys, mints, count);
    ResponseIs(p, c, header, MintAll(p, Some(stored), c.keys, mints, count).0.value, nonce);
  }

  /** What the maintenance calls of the first `count` creations find. */
  function Envs(mints: Mints, count: nat): seq<Env> {
    seq(count, i requires 0 <= i < count => mints(i).env)
  }

  lemma {:induction false} RunAppend(r: Ring, calls: seq<Env>, env: Env)
    ensures Run(r, calls + [env]) == MaintainedRing(Run(r, calls), env)
    decreases |calls|
  {
    hide Maintained;
    if calls == [] {
      assert calls + [env] == [env] && Run(MaintainedRing(r, env), []) == MaintainedRing(r, env);
    } else {
      assert (calls + [env])[1..] == calls[1..] + [env];
      RunAppend(MaintainedRing(r, calls[0]), calls[1..], env);
    }
  }

  lemma CreatedIs(p: Prims, r: Ring, env: Env, keys: Keys, nonce: Block)
    requires Healthy(r) && env.load == OK && env.save == OK && env.now.Some?
    ensures CreateCall(p, Some(r), env, keys, nonce)
         == (Ok(Minted(p, MaintainedRing(r, env)[ACTIVE], keys, nonce)), Some(MaintainedRing(r, env)))
  {
    hide Minted;
    HealthyIsAccepted(r);
    CatchUpKeepsHealthy(r, env.now.value, env.draw, 0);
  }

  /** The cookies of one response, each in its own right: the j-th is sealed under the key that is ACTIVE after
      j + 1 maintenance calls, with the nonce drawn for it. */
  lemma {:induction false} MintAllIs(p: Prims, r: Ring, keys: Keys, mints: Mints, count: nat)
    requires Healthy(r) && Serviceable(mints, count)
    ensures var (cookies, ring) := MintAll(p, Some(r), keys, mints, count);
      && cookies.Ok? && ring == Some(Run(r, Envs(mints, count)))
      && forall j :: 0 <= j < count ==>
           cookies.value[j] == Minted(p, Run(r, Envs(mints, j + 1))[ACTIVE], keys, mints(j).nonce)
  {
    hide CreateCall, Healthy, Minted, MaintainedRing;
    if count == 0 {
      assert Envs(mints, 0) == [];
    } else {
      var k := count - 1;
      MintAllIs(p, r, keys, mints, k);
      RunKeepsHealthy(r, Envs(mints, k));
      assert Envs(mints, count) == Envs(mints, k) + [mints(k).env];
      RunAppend(r, Envs(mints, k), mints(k).env);
      CreatedIs(p, Run(r, Envs(mints, k)), mints(k).env, keys, mints(k).nonce);
    }
  }

  /** A cookie shows the nonce it was sealed with, so cookies with different nonces differ. */
  lemma NonceIsShown(p: Prims, k: CookieKey, keys: Keys, nonce: Block)
    ensures Minted(p, k, keys, nonce)[4..20] == nonce
  {
    MintedParts(p, k, keys, nonce);
  }

  lemma MintedIgnoresKeyId(p: Prims, k: CookieKey, keys: Keys, id: u32, nonce: Block)
    ensures Minted(p, k, keys.(masterKeyId := id), nonce) == Minted(p, k, keys, nonce)
  {}

  /** How many cookies a context entitles to. */
  function Entitled(validPlaceholders: u16): nat {
    if validPlaceholders == TWO_16 - 1 then 0 else if validPlaceholders > 7 then 8 else 1 + validPlaceholders
  }

  /** Whatever the context, protection on a healthy ring succeeds if and only if the header is one, the
      identifier fills whole words, and the response fits both the buffer and the length of the request:
      no response is longer than the request it answers. */
  lemma ProtectsIff(p: Prims, stored: Ring, c: Context, header: seq<byte>, capacity: nat, mints: Mints, nonce: Block)
    requires Healthy(stored) && Serviceable(mints, Entitled(c.validPlaceholders))
    ensures var (response, ring) := ProtectCall(p, Some(stored), c, header, capacity, mints, nonce);
      var length := 92 + |c.uid| + 132 * Entitled(c.validPlaceholders);
      && (response.Ok?
          <==> |header| == 48 && |c.uid| % 4 == 0 && length <= capacity <= 1280 && length <= c.requestLength)
      && (response.Err? ==>
            response.error == if |header| != 48 || capacity < 48 || capacity > 1280 then INVALID_ARG else INVALID_SIZE)
      && (response.Ok? ==> |response.value| == length
                           && ring == Some(Run(stored, Envs(mints, Entitled(c.validPlaceholders)))))
  {
    hide MintAll, Response, Healthy, Field, Minted, Run;
    var count := Entitled(c.validPlaceholders);
    assert CookieCount(c.validPlaceholders) == count;
    MintAllIs(p, stored, c.keys, mints, count);
    hide Envs, Entitled, CookieCount, Serviceable;
    if ProtectCall(p, Some(stored), c, header, capacity, mints, nonce).0.Ok? {
      ResponseIs(p, c, header, MintAll(p, Some(stored), c.keys, mints, count).0.value, nonce);
    }
  }

  /** The bytes of a response: the header as given, the identifier in its field, and an authenticator that
      carries the nonce drawn for the response. */
  lemma ResponseShows(p: Prims, c: Context, header: seq<byte>, cookies: seq<seq<byte>>, nonce: Block)
    requires |header| == HEADER_LEN && |c.uid| + 4 < TWO_16
    requires |cookies| <= 1 + MAX_PLACEHOLDERS && forall j :: 0 <= j < |cookies| ==> |cookies[j]| == COOKIE_LEN
    ensures var r, a := Response(p, c, header, cookies, nonce), 52 + |c.uid|;
      && |r| >= a + 40
      && r[..48] == header && r[48..50] == [1, 4] && r[52..a] == c.uid
      && r[a..a + 2] == [4, 4] && r[a + 4..a + 6] == [0, 16] && r[a + 8..a + 24] == nonce
  {
    var base := header + Field(UNIQUE_IDENTIFIER, c.uid);
    var sealed := Seal(p, c.keys.s2c, base, nonce, Fields(NtpAuth.COOKIE, cookies));
    var body := AuthBody(nonce, sealed);
    ResponseIs(p, c, header, cookies, nonce);
    hide Seal, Fields, AuthBody, Response;
    ShownBytes(header, c.uid, body);
    BodyShowsNonce(nonce, sealed);
  }

  lemma ShownBytes(header: seq<byte>, uid: seq<byte>, body: seq<byte>)
    requires |header| == HEADER_LEN && |uid| + 4 < TWO_16 && 24 <= |body| && |body| + 4 < TWO_16
    ensures var r, a := header + Field(UNIQUE_IDENTIFIER, uid) + Field(AUTHENTICATOR, body), 52 + |uid|;
      && r[..48] == header && r[48..50] == [1, 4] && r[52..a] == uid
      && r[a..a + 2] == [4, 4] && r[a + 4..a + 6] == body[..2] && r[a + 8..a + 24] == body[4..20]
  {}

  lemma BodyShowsNonce(nonce: Block, sealed: seq<byte>)
    requires |sealed| < TWO_16
    ensures AuthBody(nonce, sealed)[..2] == [0, 16] && AuthBody(nonce, sealed)[4..20] == nonce
  {}

  lemma ProtectedLength(p: Prims, stored: Option<Ring>, c: Context, header: seq<byte>, capacity: nat, mints: Mints, nonce: Block)
    requires ProtectCall(p, stored, c, header, capacity, mints, nonce).0.Ok?
    ensures |ProtectCall(p, stored, c, header, capacity, mints, nonce).0.value|
         == ResponseLength(|c.uid|, CookieCount(c.validPlaceholders))
  {
    hide MintAll, Response;
    var count := CookieCount(c.validPlaceholders);
    ResponseIs(p, c, header, MintAll(p, stored, c.keys, mints, count).0.value, nonce);
  }

  /** The authenticator of a response survives transmission: whatever frame carries a protected response, the
      late-stamping hook leaves every byte of it as sealed. */
  lemma ProtectedResponseIsNotStamped(p: Prims, stored: Option<Ring>, c: Context, header: seq<byte>, capacity: nat,
                                      mints: Mints, nonce: Block, frame: seq<byte>, clock: Option<Timestamps.Timestamp>)
    requires ProtectCall(p, stored, c, header, capacity, mints, nonce).0.Ok?
    requires var at := LateStamp.Ipv4Layout(frame);
      at.Some? ==> Rd16(frame, at.value.udp + 4) == 8 + |ProtectCall(p, stored, c, header, capacity, mints, nonce).0.value|
    ensures LateStamp.Transmitted(frame, clock) == frame
  {
    ProtectedLength(p, stored, c, header, capacity, mints, nonce);
    hide ProtectCall;
    LateStamp.OtherLengthsUntouched(frame, clock);
  }

  // ---------------------------------------------------------------- the client's side

  /** The cookies in a decrypted response; any other field is refused. */
  function Collected(s: seq<byte>, offset: nat, cookies: seq<seq<byte>>): Result<seq<seq<byte>>>
    requires offset <= |s|
    decreases |s| - offset
  {
    if offset == |s| then Ok(cookies)
    else if !FieldFits(s, offset) || Rd16(s, offset) != COOKIE then Err(INVALID_RESPONSE)
    else
      var len := Rd16(s, offset + 2);
      Collected(s, offset + len, cookies + [s[offset + 4..offset + len]])
  }

  datatype Received = Received(uid: seq<byte>, cookies: seq<seq<byte>>)

  /** A client walks the response, opens its authenticator under S2C and collects the cookies. */
  function ClientReceive(p: Prims, s2c: Key, response: seq<byte>): Result<Received> {
    if |response| < HEADER_LEN then Err(INVALID_SIZE)
    else
      WalkKeepsSound(response, HEADER_LEN, NOTHING);
      match Walk(response, HEADER_LEN, NOTHING)
      case Err(e) => Err(e)
      case Ok(w) =>
        if w.uid.None? || w.auth.None? || AuthParts(w.auth.value.body).Err? then Err(INVALID_RESPONSE)
        else
          var (nonce, ciphertext) := AuthParts(w.auth.value.body).value;
          match Open(p, s2c, response[..w.auth.value.offset], nonce, ciphertext)
          case Err(e) => Err(e)
          case Ok(plaintext) =>
            match Collected(plaintext, 0, [])
            case Err(e) => Err(e)
            case Ok(cookies) => Ok(Received(w.uid.value, cookies))
  }

  /** A client's request: header, identifier, cookie, placeholders, and an authenticator that seals
      the empty plaintext under C2S. */
  function Request(p: Prims, header: seq<byte>, uid: seq<byte>, cookie: seq<byte>, placeholders: seq<seq<byte>>,
                   c2s: Key, nonce: Block): seq<byte>
    requires |uid| + 4 < TWO_16 && |cookie| == COOKIE_LEN
    requires forall j :: 0 <= j < |placeholders| ==> |placeholders[j]| == COOKIE_LEN
  {
    var base := RequestBase(header, uid, cookie, placeholders);
    base + Field(AUTHENTICATOR, AuthBody(nonce, Seal(p, c2s, base, nonce, [])))
  }

  function RequestBase(header: seq<byte>, uid: seq<byte>, cookie: seq<byte>, placeholders: seq<seq<byte>>): (s: seq<byte>)
    requires |uid| + 4 < TWO_16 && |cookie| == COOKIE_LEN
    requires forall j :: 0 <= j < |placeholders| ==> |placeholders[j]| == COOKIE_LEN
    ensures |s| == |header| + 136 + |uid| + 132 * |placeholders|
  {
    header + Field(UNIQUE_IDENTIFIER, uid) + Field(NtpAuth.COOKIE, cookie) + Fields(COOKIE_PLACEHOLDER, placeholders)
  }

  // ---------------------------------------------------------------- walking what was written

  function Copies(n: nat): (s: seq<nat>)
    ensures |s| == n
  {
    if n == 0 then [] else Copies(n - 1) + [COOKIE_LEN]
  }

  lemma {:induction false} CountCopies(n: nat)
    ensures CountEqual(Copies(n), COOKIE_LEN) == n
  {
    if n > 0 {
      assert Copies(n)[..n - 1] == Copies(n - 1);
      CountCopies(n - 1);
    }
  }

  lemma {:induction false} WalkPlaceholders(packet: seq<byte>, offset: nat, w: Walked, bodies: seq<seq<byte>>)
    requires forall j :: 0 <= j < |bodies| ==> |bodies[j]| == COOKIE_LEN
    requires offset + 132 * |bodies| <= |packet|
    requires packet[offset..offset + 132 * |bodies|] == Fields(COOKIE_PLACEHOLDER, bodies)
    requires w.auth.None? && w.placeholders == [] && |bodies| <= MAX_PLACEHOLDERS
    ensures Walk(packet, offset, w)
         == Walk(packet, offset + 132 * |bodies|, w.(placeholders := Copies(|bodies|)))
    decreases |bodies|
  {
    hide Walk, Field;
    var n := |bodies|;
    if n == 0 {
      assert w.(placeholders := Copies(0)) == w;
    } else {
      var all := packet[offset..offset + 132 * n];
      var init := bodies[..n - 1];
      var mid := offset + 132 * (n - 1);
      assert packet[offset..mid] == all[..132 * (n - 1)] == Fields(COOKIE_PLACEHOLDER, init);
      assert packet[mid..mid + COOKIE_LEN + 4] == all[132 * (n - 1)..] == Field(COOKIE_PLACEHOLDER, bodies[n - 1]);
      WalkPlaceholders(packet, offset, w, init);
      WalkField(packet, mid, w.(placeholders := Copies(n - 1)), COOKIE_PLACEHOLDER, bodies[n - 1]);
    }
  }

  lemma {:induction false} CollectedFields(s: seq<byte>, bodies: seq<seq<byte>>)
    requires forall j :: 0 <= j < |bodies| ==> |bodies[j]| == COOKIE_LEN
    requires 132 * |bodies| <= |s| && s[..132 * |bodies|] == Fields(NtpAuth.COOKIE, bodies)
    ensures Collected(s, 0, []) == Collected(s, 132 * |bodies|, bodies)
    decreases |bodies|
  {
    hide Fields;
    var n := |bodies|;
    if n > 0 {
      var all := s[..132 * n];
      var init, last := bodies[..n - 1], bodies[n - 1];
      var mid := 132 * (n - 1);
      FieldsSplit(NtpAuth.COOKIE, bodies);
      assert s[..mid] == all[..mid];
      CollectedFields(s, init);
      CollectedField(s, mid, init, last);
      assert init + [last] == bodies;
    }
  }

  lemma FieldsSplit(t: u16, bodies: seq<seq<byte>>)
    requires bodies != [] && forall j :: 0 <= j < |bodies| ==> |bodies[j]| == COOKIE_LEN
    ensures var mid := 132 * (|bodies| - 1);
      && Fields(t, bodies)[..mid] == Fields(t, bodies[..|bodies| - 1])
      && Fields(t, bodies)[mid..] == Field(t, bodies[|bodies| - 1])
  {
    hide Field;
  }

  lemma CollectedField(s: seq<byte>, offset: nat, cookies: seq<seq<byte>>, body: seq<byte>)
    requires |body| == COOKIE_LEN && offset + 132 <= |s| && s[offset..offset + 132] == Field(NtpAuth.COOKIE, body)
    ensures Collected(s, offset, cookies) == Collected(s, offset + 132, cookies + [body])
  {
    hide Field;
    FieldRead(s, offset, NtpAuth.COOKIE, body);
  }

  /** The final field of a packet, when it is the authenticator. */
  lemma WalkAuthenticator(base: seq<byte>, body: seq<byte>, w: Walked)
    requires |body| + 4 < TWO_16 && |body| % 4 == 0 && w.auth.None?
    ensures Walk(base + Field(AUTHENTICATOR, body), |base|, w) == Ok(w.(auth := Some(Auth(|base|, body))))
  {
    hide Walk, Field;
    var packet := base + Field(AUTHENTICATOR, body);
    assert packet[|base|..|base| + |body| + 4] == Field(AUTHENTICATOR, body);
    WalkField(packet, |base|, w, AUTHENTICATOR, body);
    WalkEnd(packet, w.(auth := Some(Auth(|base|, body))));
  }

  lemma WalkOfRequest(header: seq<byte>, uid: seq<byte>, cookie: seq<byte>, placeholders: seq<seq<byte>>, body: seq<byte>)
    requires |header| == HEADER_LEN && 32 <= |uid| <= MAX_UID && |uid| % 4 == 0 && |cookie| == COOKIE_LEN
    requires |placeholders| <= MAX_PLACEHOLDERS
    requires forall j :: 0 <= j < |placeholders| ==> |placeholders[j]| == COOKIE_LEN
    requires |body| + 4 < TWO_16 && |body| % 4 == 0
    ensures var base := RequestBase(header, uid, cookie, placeholders);
      Walk(base + Field(AUTHENTICATOR, body), HEADER_LEN, NOTHING)
        == Ok(Walked(Some(uid), Some(cookie), Copies(|placeholders|), Some(Auth(|base|, body))))
  {
    hide Walk, Field, Fields;
    var base := RequestBase(header, uid, cookie, placeholders);
    var packet := base + Field(AUTHENTICATOR, body);
    var a := HEADER_LEN;
    var b := a + 4 + |uid|;
    var c := b + 132;
    var d := c + 132 * |placeholders|;
    assert packet[a..a + |uid| + 4] == Field(UNIQUE_IDENTIFIER, uid);
    assert packet[b..b + |cookie| + 4] == Field(NtpAuth.COOKIE, cookie);
    assert packet[c..d] == Fields(COOKIE_PLACEHOLDER, placeholders);
    WalkField(packet, a, NOTHING, UNIQUE_IDENTIFIER, uid);
    WalkField(packet, b, Walked(Some(uid), None, [], None), NtpAuth.COOKIE, cookie);
    var w := Walked(Some(uid), Some(cookie), [], None);
    WalkPlaceholders(packet, c, w, placeholders);
    WalkAuthenticator(base, body, w.(placeholders := Copies(|placeholders|)));
  }

  /** A well-formed request whose cookie the server can unpack is accepted, and yields exactly its
      identifier, its number of placeholders and the cookie's keys. */
  lemma RequestIsAccepted(p: Prims, stored: Option<Ring>, env: Env, now: Option<u32>, keys: Keys,
                          header: seq<byte>, uid: seq<byte>, cookie: seq<byte>, placeholders: seq<seq<byte>>, nonce: Block)
    requires |header| == HEADER_LEN && 32 <= |uid| <= MAX_UID && |uid| % 4 == 0 && |cookie| == COOKIE_LEN
    requires |placeholders| <= MAX_PLACEHOLDERS
    requires forall j :: 0 <= j < |placeholders| ==> |placeholders[j]| == COOKIE_LEN
    requires |Request(p, header, uid, cookie, placeholders, keys.c2s, nonce)| <= MAX_PACKET
    requires UnpackCall(p, stored, env, cookie, now).0 == Ok(keys)
    ensures var request := Request(p, header, uid, cookie, placeholders, keys.c2s, nonce);
      && |request| == ResponseLength(|uid|, 1 + |placeholders|)
      && VerifyCall(p, stored, env, request, now)
           == (Ok(Context(uid, |placeholders|, |request|, keys)), UnpackCall(p, stored, env, cookie, now).1)
  {
    hide Walk, Field, Fields, Seal, Open, UnpackCall;
    var base := RequestBase(header, uid, cookie, placeholders);
    var sealed := Seal(p, keys.c2s, base, nonce, []);
    var body := AuthBody(nonce, sealed);
    assert |sealed| == 16;
    var request := Request(p, header, uid, cookie, placeholders, keys.c2s, nonce);
    WalkOfRequest(header, uid, cookie, placeholders, body);
    AuthPartsOfBody(nonce, sealed);
    assert request[..|base|] == base;
    OpenIffSealed(p, keys.c2s, base, nonce, sealed, []);
    CountCopies(|placeholders|);
  }

  /** What the client receives from a response is the identifier and the cookies it was built from. */
  lemma ResponseIsReceived(p: Prims, c: Context, header: seq<byte>, cookies: seq<seq<byte>>, nonce: Block)
    requires |header| == HEADER_LEN && 32 <= |c.uid| <= MAX_UID && |c.uid| % 4 == 0
    requires |cookies| <= 1 + MAX_PLACEHOLDERS && forall j :: 0 <= j < |cookies| ==> |cookies[j]| == COOKIE_LEN
    ensures ClientReceive(p, c.keys.s2c, Response(p, c, header, cookies, nonce)) == Ok(Received(c.uid, cookies))
  {
    hide Walk, Field, Fields, Seal, Open, AuthBody, Response;
    ResponseIs(p, c, header, cookies, nonce);
    var base := header + Field(UNIQUE_IDENTIFIER, c.uid);
    var text := Fields(NtpAuth.COOKIE, cookies);
    var sealed := Seal(p, c.keys.s2c, base, nonce, text);
    var body := AuthBody(nonce, sealed);
    var response := base + Field(AUTHENTICATOR, body);
    assert response[HEADER_LEN..HEADER_LEN + |c.uid| + 4] == Field(UNIQUE_IDENTIFIER, c.uid);
    WalkField(response, HEADER_LEN, NOTHING, UNIQUE_IDENTIFIER, c.uid);
    WalkAuthenticator(base, body, Walked(Some(c.uid), None, [], None));
    AuthPartsOfBody(nonce, sealed);
    assert response[..|base|] == base;
    OpenIffSealed(p, c.keys.s2c, base, nonce, sealed, text);
    assert text[..132 * |cookies|] == text;
    CollectedFields(text, cookies);
  }

  // ---------------------------------------------------------------- the whole exchange

  /** `cookie` was sealed for `keys` by a master key the ring retains until they expire. */
  ghost predicate LiveCookie(p: Prims, r: Ring, cookie: seq<byte>, keys: Keys) {
    exists k: CookieKey, nonce: Block :: Retained(r, k, keys.expires) && cookie == Minted(p, k, keys, nonce)
  }

  lemma LiveCookieOpens(p: Prims, r: Ring, cookie: seq<byte>, keys: Keys, opening: Env, now: u32)
    requires LiveCookie(p, r, cookie, keys)
    requires opening.load == OK && opening.save == OK && opening.now.Some?
    requires opening.now.value <= now && keys.issued <= now < keys.expires
    ensures exists id: u32 :: UnpackCall(p, Some(r), opening, cookie, Some(now)).0 == Ok(keys.(masterKeyId := id))
  {
    hide Retained, Minted, UnpackCall;
    var k: CookieKey, nonce: Block :| Retained(r, k, keys.expires) && cookie == Minted(p, k, keys, nonce);
    RetainedOpens(p, r, k, keys, nonce, opening, now);
  }

  lemma LiveCookieSurvives(p: Prims, r: Ring, cookie: seq<byte>, keys: Keys, calls: seq<Env>)
    requires LiveCookie(p, r, cookie, keys) && Before(calls, keys.expires)
    ensures LiveCookie(p, Run(r, calls), cookie, keys)
  {
    hide Retained, Minted, Run;
    var k: CookieKey, nonce: Block :| Retained(r, k, keys.expires) && cookie == Minted(p, k, keys, nonce);
    RunRetains(r, calls, k, keys.expires);
  }

  lemma CreateMakesLive(p: Prims, r: Ring, env: Env, keys: Keys, nonce: Block)
    requires Healthy(r) && env.load == OK && env.save == OK && env.now.Some?
    requires keys.expires <= env.now.value + PERIOD
    ensures var (created, ring) := CreateCall(p, Some(r), env, keys, nonce);
      created.Ok? && ring == Some(MaintainedRing(r, env)) && LiveCookie(p, ring.value, created.value, keys)
  {
    hide Minted;
    CreateSucceeds(p, r, env, keys, nonce);
    MintingRetains(p, r, env, keys, nonce);
  }

  /** Each creation happens before the keys expire and no more than a period ahead of their expiry. */
  predicate Timely(mints: Mints, count: nat, keys: Keys) {
    forall i :: 0 <= i < count && mints(i).env.now.Some? ==>
      mints(i).env.now.value < keys.expires <= mints(i).env.now.value + PERIOD
  }

  lemma {:induction false} MintAllMakesLive(p: Prims, r: Ring, keys: Keys, mints: Mints, count: nat)
    requires Healthy(r) && Serviceable(mints, count) && Timely(mints, count, keys)
    ensures var (cookies, ring) := MintAll(p, Some(r), keys, mints, count);
      && cookies.Ok? && ring.Some? && Healthy(ring.value)
      && forall j :: 0 <= j < count ==> LiveCookie(p, ring.value, cookies.value[j], keys)
  {
    hide CreateCall, LiveCookie, Healthy, Maintained;
    MintAllSucceeds(p, r, keys, mints, count);
    if count > 0 {
      var env, nonce := mints(count - 1).env, mints(count - 1).nonce;
      MintAllMakesLive(p, r, keys, mints, count - 1);
      var (cookies, ring) := MintAll(p, Some(r), keys, mints, count - 1);
      CreateMakesLive(p, ring.value, env, keys, nonce);
      assert Run(ring.value, [env]) == MaintainedRing(ring.value, env);
      assert Before([env], keys.expires);
      forall j | 0 <= j < count - 1
        ensures LiveCookie(p, MaintainedRing(ring.value, env), cookies.value[j], keys)
      {
        LiveCookieSurvives(p, ring.value, cookies.value[j], keys, [env]);
      }
    }
  }

  lemma LiveCookieIgnoresKeyId(p: Prims, r: Ring, cookie: seq<byte>, keys: Keys, id: u32)
    requires LiveCookie(p, r, cookie, keys.(masterKeyId := id))
    ensures LiveCookie(p, r, cookie, keys)
  {
    hide Retained;
    var k: CookieKey, nonce: Block :|
      Retained(r, k, keys.expires) && cookie == Minted(p, k, keys.(masterKeyId := id), nonce);
    assert Minted(p, k, keys.(masterKeyId := id), nonce) == Minted(p, k, keys, nonce);
  }

  /** What an exchange does to a live cookie: the request that presents it is accepted with its
      identifier, placeholder count and keys. */
  lemma LiveCookieIsAccepted(p: Prims, ring: Ring, cookie: seq<byte>, keys: Keys,
                             header: seq<byte>, uid: seq<byte>, placeholders: seq<seq<byte>>, nonce: Block,
                             verifying: Env, now: u32)
    returns (id: u32)
    requires LiveCookie(p, ring, cookie, keys) && |cookie| == COOKIE_LEN
    requires |header| == HEADER_LEN && 32 <= |uid| <= MAX_UID && |uid| % 4 == 0
    requires |placeholders| <= MAX_PLACEHOLDERS
    requires forall i :: 0 <= i < |placeholders| ==> |placeholders[i]| == COOKIE_LEN
    requires ResponseLength(|uid|, 1 + |placeholders|) <= MAX_PACKET
    requires verifying.load == OK && verifying.save == OK && verifying.now.Some?
    requires verifying.now.value <= now && keys.issued <= now < keys.expires
    ensures var request := Request(p, header, uid, cookie, placeholders, keys.c2s, nonce);
      && |request| == ResponseLength(|uid|, 1 + |placeholders|)
      && VerifyCall(p, Some(ring), verifying, request, Some(now))
           == (Ok(Context(uid, |placeholders|, |request|, keys.(masterKeyId := id))), Some(MaintainedRing(ring, verifying)))
      && Healthy(MaintainedRing(ring, verifying))
  {
    hide Minted, UnpackCall, VerifyCall, Request, Healthy;
    LiveCookieOpens(p, ring, cookie, keys, verifying, now);
    id :| UnpackCall(p, Some(ring), verifying, cookie, Some(now)).0 == Ok(keys.(masterKeyId := id));
    RequestLengthIs(p, header, uid, cookie, placeholders, keys.c2s, nonce);
    RequestIsAccepted(p, Some(ring), verifying, Some(now), keys.(masterKeyId := id), header, uid, cookie, placeholders, nonce);
    UnpackLeavesMaintained(p, ring, verifying, cookie, Some(now));
    LiveRingIsHealthy(p, ring, cookie, keys);
    RunKeepsHealthy(ring, [verifying]);
    assert Run(ring, [verifying]) == MaintainedRing(ring, verifying);
  }

  lemma RequestLengthIs(p: Prims, header: seq<byte>, uid: seq<byte>, cookie: seq<byte>, placeholders: seq<seq<byte>>,
                        c2s: Key, nonce: Block)
    requires |header| == HEADER_LEN && |uid| + 4 < TWO_16 && |cookie| == COOKIE_LEN
    requires forall j :: 0 <= j < |placeholders| ==> |placeholders[j]| == COOKIE_LEN
    ensures |Request(p, header, uid, cookie, placeholders, c2s, nonce)| == ResponseLength(|uid|, 1 + |placeholders|)
  {
    hide Seal, Field, Fields, RequestBase;
  }

  lemma UnpackLeavesMaintained(p: Prims, ring: Ring, env: Env, cookie: seq<byte>, now: Option<u32>)
    requires |cookie| == COOKIE_LEN
    ensures UnpackCall(p, Some(ring), env, cookie, now).1 == Some(MaintainedRing(ring, env))
  {
    hide Unpacked, Accepted, CatchUp;
  }

  lemma LiveRingIsHealthy(p: Prims, ring: Ring, cookie: seq<byte>, keys: Keys)
    requires LiveCookie(p, ring, cookie, keys)
    ensures Healthy(ring)
  {
    hide Minted, Healthy;
  }

  /** The whole exchange. A live cookie is presented in a request with k placeholders. The server accepts
      it with exactly the client's identifier, k and the cookie's keys; the response is as long as the
      request; and the client gets its identifier back with 1 + k cookies, each live for the same
      traffic keys and times - so the exchange can be repeated with any of them - and each sealed in its own
      right: under the key ACTIVE at its creation, with the nonce drawn for it. */
  lemma ExchangeRoundTrip(p: Prims, ring: Ring, cookie: seq<byte>, keys: Keys,
                          header: seq<byte>, uid: seq<byte>, placeholders: seq<seq<byte>>, requestNonce: Block,
                          verifying: Env, now: u32, responseHeader: seq<byte>, mints: Mints, responseNonce: Block)
    requires LiveCookie(p, ring, cookie, keys) && |cookie| == COOKIE_LEN
    requires |header| == |responseHeader| == HEADER_LEN && 32 <= |uid| <= MAX_UID && |uid| % 4 == 0
    requires |placeholders| <= MAX_PLACEHOLDERS
    requires forall i :: 0 <= i < |placeholders| ==> |placeholders[i]| == COOKIE_LEN
    requires ResponseLength(|uid|, 1 + |placeholders|) <= MAX_PACKET
    requires verifying.load == OK && verifying.save == OK && verifying.now.Some?
    requires verifying.now.value <= now && keys.issued <= now < keys.expires
    requires Serviceable(mints, 1 + |placeholders|) && Timely(mints, 1 + |placeholders|, keys)
    ensures var request := Request(p, header, uid, cookie, placeholders, keys.c2s, requestNonce);
      var (verified, ring1) := VerifyCall(p, Some(ring), verifying, request, Some(now));
      && verified.Ok? && verified.value.uid == uid && verified.value.validPlaceholders == |placeholders|
      && verified.value.keys == keys.(masterKeyId := verified.value.keys.masterKeyId)
      && var (response, ring2) := ProtectCall(p, ring1, verified.value, responseHeader, MAX_PACKET, mints, responseNonce);
      && response.Ok? && ring2.Some? && |response.value| == |request|
      && var received := ClientReceive(p, keys.s2c, response.value);
      && received.Ok? && received.value.uid == uid && |received.value.cookies| == 1 + |placeholders|
      && forall j :: 0 <= j <= |placeholders| ==>
           && LiveCookie(p, ring2.value, received.value.cookies[j], keys)
           && ring1.Some? && received.value.cookies[j] == Minted(p, Run(ring1.value, Envs(mints, j + 1))[ACTIVE], keys, mints(j).nonce)
           && received.value.cookies[j][4..20] == mints(j).nonce
  {
    hide Minted, VerifyCall, MintAll, Response, Request, Healthy, ClientReceive, LiveCookie, Field;
    var id := LiveCookieIsAccepted(p, ring, cookie, keys, header, uid, placeholders, requestNonce, verifying, now);
    var request := Request(p, header, uid, cookie, placeholders, keys.c2s, requestNonce);
    var count := 1 + |placeholders|;
    var c := Context(uid, |placeholders|, |request|, keys.(masterKeyId := id));
    var ring1 := MaintainedRing(ring, verifying);
    assert CookieCount(|placeholders|) == count;
    FreshCookies(p, ring1, keys, id, mints, count);
    var (cookies, ring2) := MintAll(p, Some(ring1), c.keys, mints, count);
    ResponseIs(p, c, responseHeader, cookies.value, responseNonce);
    ResponseIsReceived(p, c, responseHeader, cookies.value, responseNonce);
  }

  /** The cookies of a response for keys that were unpacked under the identifier `id`. */
  lemma FreshCookies(p: Prims, ring1: Ring, keys: Keys, id: u32, mints: Mints, count: nat)
    requires Healthy(ring1) && Serviceable(mints, count) && Timely(mints, count, keys)
    ensures var (cookies, ring2) := MintAll(p, Some(ring1), keys.(masterKeyId := id), mints, count);
      && cookies.Ok? && ring2.Some?
      && forall j :: 0 <= j < count ==>
           && LiveCookie(p, ring2.value, cookies.value[j], keys)
           && cookies.value[j] == Minted(p, Run(ring1, Envs(mints, j + 1))[ACTIVE], keys, mints(j).nonce)
           && cookies.value[j][4..20] == mints(j).nonce
  {
    var named := keys.(masterKeyId := id);
    assert Timely(mints, count, named);
    hide Minted, MintAll, Healthy, LiveCookie, Run, Timely;
    MintAllMakesLive(p, ring1, named, mints, count);
    MintAllIs(p, ring1, named, mints, count);
    var (cookies, ring2) := MintAll(p, Some(ring1), named, mints, count);
    forall j | 0 <= j < count
      ensures LiveCookie(p, ring2.value, cookies.value[j], keys)
      ensures cookies.value[j] == Minted(p, Run(ring1, Envs(mints, j + 1))[ACTIVE], keys, mints(j).nonce)
      ensures cookies.value[j][4..20] == mints(j).nonce
    {
      var master := Run(ring1, Envs(mints, j + 1))[ACTIVE];
      LiveCookieIgnoresKeyId(p, ring2.value, cookies.value[j], keys, id);
      MintedIgnoresKeyId(p, master, keys, id, mints(j).nonce);
      NonceIsShown(p, master, keys, mints(j).nonce);
    }
  }
}
