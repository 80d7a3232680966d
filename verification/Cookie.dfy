/** NTS cookies sealed under the key ring (main/nts_cookie.c). */
module Cookie {
  import opened Bytes
  import opened Esp
  import opened AesSiv
  import opened KeyRing

  const MAGIC: u32 := 0x4E54_5343
  const VERSION: u16 := 1
  const PLAINTEXT_LEN: nat := 92
  const PREFIX_LEN: nat := 20
  const COOKIE_LEN: nat := 128
  const COOKIE_MAX_LEN: nat := 256

  datatype Keys = Keys(c2s: Key, s2c: Key, masterKeyId: u32, issued: u64, expires: u64)

  const NO_KEYS := Keys(Zeros(32), Zeros(32), 0, 0, 0)

  function Plaintext(masterKeyId: u32, keys: Keys): (s: seq<byte>)
    ensures |s| == PLAINTEXT_LEN
  {
    Be32(MAGIC) + Be16(VERSION) + Be16(0) + Be32(masterKeyId) + Be64(keys.issued) + Be64(keys.expires)
      + keys.c2s + keys.s2c
  }

  /** The cookie a master key seals: identifier, nonce, sealed plaintext. */
  function Minted(p: Prims, master: CookieKey, keys: Keys, nonce: Block): (c: seq<byte>)
    ensures |c| == COOKIE_LEN
  {
    var id := Be32(master.keyId);
    id + nonce + Seal(p, master.key, id, nonce, Plaintext(master.keyId, keys))
  }

  function FindMasterKey(r: Ring, id: u32): Option<CookieKey> {
    if r[PREVIOUS].valid != 0 && r[PREVIOUS].keyId == id then Some(r[PREVIOUS])
    else if r[ACTIVE].valid != 0 && r[ACTIVE].keyId == id then Some(r[ACTIVE])
    else if r[NEXT].valid != 0 && r[NEXT].keyId == id then Some(r[NEXT])
    else None
  }

  /** Decodes an opened plaintext and applies the issue and expiry checks. */
  function Decoded(s: seq<byte>, masterKeyId: u32, now: Option<u32>): Result<Keys>
    requires |s| == PLAINTEXT_LEN
  {
    var issued, expires := Rd64(s, 12), Rd64(s, 20);
    if Rd32(s, 0) != MAGIC || Rd16(s, 4) != VERSION || Rd16(s, 6) != 0 || Rd32(s, 8) != masterKeyId then
      Err(INVALID_RESPONSE)
    else if now.None? then Err(INVALID_STATE)
    else if expires <= now.value || issued > now.value then Err(INVALID_STATE)
    else Ok(Keys(s[28..60], s[60..92], masterKeyId, issued, expires))
  }

  /** What unpacking a cookie gives once the ring has been maintained and loaded. */
  function Unpacked(p: Prims, r: Ring, cookie: seq<byte>, now: Option<u32>): Result<Keys> {
    if |cookie| != COOKIE_LEN then Err(INVALID_SIZE)
    else
      var id := Rd32(cookie, 0);
      match FindMasterKey(r, id)
      case None => Err(NOT_FOUND)
      case Some(master) =>
        match Open(p, master.key, cookie[..4], cookie[4..20], cookie[20..])
        case Err(e) => Err(e)
        case Ok(s) => Decoded(s, id, now)
  }

  /** `nts_cookie_unpack` on a stored ring: the size check, maintenance at `env`, then the cookie,
      checked against a second clock reading `now`. */
  function UnpackCall(p: Prims, stored: Option<Ring>, env: Env, cookie: seq<byte>, now: Option<u32>)
    : (Result<Keys>, Option<Ring>)
  {
    if |cookie| != COOKIE_LEN then (Err(INVALID_SIZE), stored)
    else
      var (err, ring) := Maintained(stored, env);
      if err != OK then (Err(err), ring) else (Unpacked(p, ring.value, cookie, now), ring)
  }

  /** `nts_cookie_create` into a buffer of at least `COOKIE_LEN` bytes. */
  function CreateCall(p: Prims, stored: Option<Ring>, env: Env, keys: Keys, nonce: Block)
    : (r: (Result<seq<byte>>, Option<Ring>))
    ensures r.0.Ok? ==> |r.0.value| == COOKIE_LEN
  {
    var (err, ring) := Maintained(stored, env);
    if err != OK then (Err(err), ring)
    else if ring.value[ACTIVE].valid == 0 then (Err(NOT_FOUND), ring)
    else (Ok(Minted(p, ring.value[ACTIVE], keys, nonce)), ring)
  }

  // ---------------------------------------------------------------- the routines

  /** Result and stored ring after `nts_cookie_generate_keys`. */
  function GenerateCall(stored: Option<Ring>, env: Env, lifetime: u64, now: Option<u32>, c2s: Key, s2c: Key)
    : (Result<Keys>, Option<Ring>)
  {
    if lifetime == 0 then (Err(INVALID_ARG), stored)
    else
      var (err, ring) := Maintained(stored, env);
      if err != OK then (Err(err), ring)
      else if ring.value[ACTIVE].valid == 0 then (Err(NOT_FOUND), ring)
      else if now.None? then (Err(INVALID_STATE), ring)
      else (Ok(Keys(c2s, s2c, ring.value[ACTIVE].keyId, now.value, (now.value + lifetime) % TWO_64)), ring)
  }

  /** Keys left in the out-parameter by a failure: as they were, or zeroed when only the clock was missing. */
  method GenerateKeys(store: NtsStorage, env: Env, lifetime: u64, now: Option<u32>, c2s: Key, s2c: Key, before: Keys)
    returns (err: EspErr, keys: Keys)
    modifies store
    ensures store.ring == GenerateCall(old(store.ring), env, lifetime, now, c2s, s2c).1
    ensures match GenerateCall(old(store.ring), env, lifetime, now, c2s, s2c).0
      case Ok(k) => err == OK && keys == k
      case Err(e) =>
        && err == e != OK
        && keys == if lifetime != 0 && Maintained(old(store.ring), env).0 == OK && e != NOT_FOUND then NO_KEYS else before
  {
    keys := before;
    if lifetime == 0 { return INVALID_ARG, keys; }
    err := store.Maintain(env);
    if err != OK { return; }
    var r: Ring;
    err, r := store.Load(env);
    if err != OK { return; }
    if r[ACTIVE].valid == 0 { return NOT_FOUND, keys; }
    if now.None? { return INVALID_STATE, NO_KEYS; }
    keys := Keys(c2s, s2c, r[ACTIVE].keyId, now.value, (now.value + lifetime) % TWO_64);
    return OK, keys;
  }

  method Create(p: Prims, store: NtsStorage, env: Env, keys: Keys, nonce: Block, cookie: array<byte>, capacity: nat)
    returns (err: EspErr, cookieLen: nat)
    requires capacity <= cookie.Length
    modifies store, cookie
    ensures store.ring == CreateCall(p, old(store.ring), env, keys, nonce).1
    ensures capacity >= COOKIE_LEN ==>
      match CreateCall(p, old(store.ring), env, keys, nonce).0
      case Ok(c) => err == OK && cookieLen == COOKIE_LEN && cookie[..] == Splice(old(cookie[..]), 0, c)
      case Err(e) => err == e != OK
    ensures capacity < COOKIE_LEN && CreateCall(p, old(store.ring), env, keys, nonce).0.Ok? ==>
      err == INVALID_SIZE && cookieLen == COOKIE_LEN
    ensures err != OK ==> cookie[..] == old(cookie[..])
  {
    cookieLen := capacity;
    err := store.Maintain(env);
    if err != OK { return; }
    var r: Ring;
    err, r := store.Load(env);
    if err != OK { return; }
    var master := r[ACTIVE];
    if master.valid == 0 { return NOT_FOUND, cookieLen; }
    var encryptedLen := TAG_LEN + PLAINTEXT_LEN;
    var requiredLen := PREFIX_LEN + encryptedLen;
    if capacity < requiredLen {
      return INVALID_SIZE, requiredLen;
    }
    var plaintext := new byte[PLAINTEXT_LEN](_ => 0);
    WritePlaintext(plaintext, master.keyId, keys);
    var id := Be32(master.keyId);
    CopyTo(cookie, 0, id);
    CopyTo(cookie, 4, nonce);
    SpliceAdjacent(old(cookie[..]), 0, id, nonce);
    var outputLen: nat;
    err, outputLen := Encrypt(p, master.key, id, nonce, plaintext[..], cookie, PREFIX_LEN, encryptedLen);
    SpliceAdjacent(old(cookie[..]), 0, id + nonce, Seal(p, master.key, id, nonce, plaintext[..]));
    cookieLen := PREFIX_LEN + outputLen;
  }

  method WritePlaintext(plaintext: array<byte>, masterKeyId: u32, keys: Keys)
    requires plaintext.Length == PLAINTEXT_LEN
    modifies plaintext
    ensures plaintext[..] == Plaintext(masterKeyId, keys)
  {
    var offset := 0;
    CopyTo(plaintext, offset, Be32(MAGIC));
    offset := offset + 4;
    assert plaintext[..4] == Be32(MAGIC);
    CopyTo(plaintext, offset, Be16(VERSION));
    offset := offset + 2;
    assert plaintext[..6] == Be32(MAGIC) + Be16(VERSION);
    CopyTo(plaintext, offset, Be16(0));
    offset := offset + 2;
    assert plaintext[..8] == Be32(MAGIC) + Be16(VERSION) + Be16(0);
    CopyTo(plaintext, offset, Be32(masterKeyId));
    offset := offset + 4;
    ghost var head := Be32(MAGIC) + Be16(VERSION) + Be16(0) + Be32(masterKeyId);
    assert plaintext[..12] == head;
    CopyTo(plaintext, offset, Be64(keys.issued));
    offset := offset + 8;
    assert plaintext[..20] == head + Be64(keys.issued);
    CopyTo(plaintext, offset, Be64(keys.expires));
    offset := offset + 8;
    assert plaintext[..28] == head + Be64(keys.issued) + Be64(keys.expires);
    CopyTo(plaintext, offset, keys.c2s);
    offset := offset + 32;
    assert plaintext[..60] == head + Be64(keys.issued) + Be64(keys.expires) + keys.c2s;
    CopyTo(plaintext, offset, keys.s2c);
    offset := offset + 32;
    assert plaintext[..92] == head + Be64(keys.issued) + Be64(keys.expires) + keys.c2s + keys.s2c;
    assert plaintext[..] == plaintext[..92];
  }

  method FindCookieMasterKey(r: Ring, id: u32) returns (key: Option<CookieKey>)
    ensures key == FindMasterKey(r, id)
  {
    for i := 0 to 3
      invariant forall k :: 0 <= k < i ==> r[k].valid == 0 || r[k].keyId != id
    {
      if r[i].valid != 0 && r[i].keyId == id { return Some(r[i]); }
    }
    return None;
  }

  method Decode(s: seq<byte>, masterKeyId: u32, now: Option<u32>) returns (result: Result<Keys>)
    requires |s| == PLAINTEXT_LEN
    ensures result == Decoded(s, masterKeyId, now)
  {
    var offset := 0;
    var magic := Rd32(s, offset);
    offset := offset + 4;
    var version := Rd16(s, offset);
    offset := offset + 2;
    var reserved := Rd16(s, offset);
    offset := offset + 2;
    var payloadKeyId := Rd32(s, offset);
    offset := offset + 4;
    var issued := Rd64(s, offset);
    offset := offset + 8;
    var expires := Rd64(s, offset);
    offset := offset + 8;
    if magic != MAGIC || version != VERSION || reserved != 0 || payloadKeyId != masterKeyId {
      return Err(INVALID_RESPONSE);
    }
    if now.None? { return Err(INVALID_STATE); }
    if expires <= now.value || issued > now.value { return Err(INVALID_STATE); }
    return Ok(Keys(s[offset..offset + 32], s[offset + 32..offset + 64], masterKeyId, issued, expires));
  }

  method OpenCookie(p: Prims, r: Ring, cookie: seq<byte>, now: Option<u32>) returns (result: Result<Keys>)
    requires |cookie| == COOKIE_LEN
    ensures result == Unpacked(p, r, cookie, now)
  {
    var masterKeyId := Rd32(cookie, 0);
    var master := FindCookieMasterKey(r, masterKeyId);
    if master.None? { return Err(NOT_FOUND); }
    var plaintext := new byte[PLAINTEXT_LEN](_ => 0);
    var err, plaintextLen :=
      Decrypt(p, master.value.key, cookie[..4], cookie[4..20], cookie[20..], plaintext, PLAINTEXT_LEN);
    if err != OK { return Err(err); }
    ghost var unsealed := Open(p, master.value.key, cookie[..4], cookie[4..20], cookie[20..]);
    assert unsealed.Ok?;
    assert Splice(Zeros(PLAINTEXT_LEN), 0, unsealed.value) == unsealed.value == plaintext[..];
    result := Decode(plaintext[..], masterKeyId, now);
  }

  method Unpack(p: Prims, store: NtsStorage, env: Env, cookie: seq<byte>, now: Option<u32>)
    returns (result: Result<Keys>)
    modifies store
    ensures (result, store.ring) == UnpackCall(p, old(store.ring), env, cookie, now)
  {
    if |cookie| != COOKIE_LEN { return Err(INVALID_SIZE); }
    var err := store.Maintain(env);
    if err != OK { return Err(err); }
    var r: Ring;
    err, r := store.Load(env);
    if err != OK { return Err(err); }
    result := OpenCookie(p, r, cookie, now);
  }

  // ---------------------------------------------------------------- round trip and survival

  /** Decoding an encoded plaintext gives back the keys and times while the cookie is current. */
  lemma PlaintextRoundTrip(id: u32, keys: Keys, now: u32)
    requires keys.issued <= now < keys.expires
    ensures Decoded(Plaintext(id, keys), id, Some(now)) == Ok(keys.(masterKeyId := id))
  {
    var s := Plaintext(id, keys);
    assert s[0..4] == Be32(MAGIC);
    assert s[4..6] == Be16(VERSION);
    assert s[6..8] == Be16(0);
    assert s[8..12] == Be32(id);
    assert s[12..20] == Be64(keys.issued);
    assert s[20..28] == Be64(keys.expires);
    assert s[28..60] == keys.c2s;
    assert s[60..92] == keys.s2c;
    Rd32Be32(s, 0, MAGIC);
    Rd16Be16(s, 4, VERSION);
    Rd16Be16(s, 6, 0);
    Rd32Be32(s, 8, id);
    Rd64Be64(s, 12, keys.issued);
    Rd64Be64(s, 20, keys.expires);
  }

  /** The layout: magic "NTSC", version 1, zero, the master key's identifier, issue and expiry time, each most
      significant byte first, then the client-to-server and the server-to-client key. */
  lemma PlaintextShows(id: u32, keys: Keys)
    ensures var s := Plaintext(id, keys);
      && s[..8] == [0x4E, 0x54, 0x53, 0x43, 0, 1, 0, 0]
      && s[8] as int * 16777216 + s[9] as int * 65536 + s[10] as int * 256 + s[11] as int == id
      && s[28..60] == keys.c2s && s[60..] == keys.s2c
    ensures Rd64(Plaintext(id, keys), 12) == keys.issued && Rd64(Plaintext(id, keys), 20) == keys.expires
  {
    var s := Plaintext(id, keys);
    assert s[8..12] == Be32(id) && s[12..20] == Be64(keys.issued) && s[20..28] == Be64(keys.expires);
    Rd32Be32(s, 8, id);
    Rd64Be64(s, 12, keys.issued);
    Rd64Be64(s, 20, keys.expires);
  }

  /** A lookup finds the first slot in use under the identifier, whatever the ring. */
  lemma FindsFirst(r: Ring, id: u32, i: nat)
    requires i < 3
    ensures r[i].valid != 0 && r[i].keyId == id && (forall j :: 0 <= j < i ==> r[j].valid == 0 || r[j].keyId != id) ==>
      FindMasterKey(r, id) == Some(r[i])
    ensures (forall j :: 0 <= j < 3 ==> r[j].valid == 0 || r[j].keyId != id) ==> FindMasterKey(r, id) == None
  {
    assert r[0] == r[PREVIOUS] && r[1] == r[ACTIVE] && r[2] == r[NEXT];
  }

  /** Why an opened plaintext is refused: it does not start as one for this identifier, or there is no clock, or
      the clock is not within its times. */
  lemma DecodeRefusals(s: seq<byte>, id: u32, now: Option<u32>)
    requires |s| == PLAINTEXT_LEN
    ensures var r, ours := Decoded(s, id, now), s[..12] == [0x4E, 0x54, 0x53, 0x43, 0, 1, 0, 0] + Be32(id);
      && (!ours ==> r == Err(INVALID_RESPONSE))
      && (ours && (now.None? || now.value < Rd64(s, 12) || Rd64(s, 20) <= now.value) ==> r == Err(INVALID_STATE))
  {
    var head := s[..12];
    assert head == s[..4] + s[4..6] + s[6..8] + s[8..12];
    Be32Rd32(s, 8);
    assert s[8..12] == head[8..];
    hide Be32, Rd64;
    StartsOurs(s);
    if Rd32(s, 8) == id && s[..8] == [0x4E, 0x54, 0x53, 0x43, 0, 1, 0, 0] { assert head == s[..8] + s[8..12]; }
    if head == [0x4E, 0x54, 0x53, 0x43, 0, 1, 0, 0] + Be32(id) {
      assert s[..8] == head[..8];
      Rd32Be32(s, 8, id);
    }
  }

  lemma StartsOurs(s: seq<byte>)
    requires |s| == PLAINTEXT_LEN
    ensures s[..8] == [0x4E, 0x54, 0x53, 0x43, 0, 1, 0, 0]
      <==> Rd32(s, 0) == MAGIC && Rd16(s, 4) == VERSION && Rd16(s, 6) == 0
  {
    var t := s[..8];
    assert t[0] == s[0] && t[1] == s[1] && t[2] == s[2] && t[3] == s[3];
    assert t[4] == s[4] && t[5] == s[5] && t[6] == s[6] && t[7] == s[7];
  }

  ghost predicate NothingSealed(p: Prims, key: Key, cookie: seq<byte>)
    requires |cookie| == 128
  {
    forall text: seq<byte> :: cookie[20..] != Seal(p, key, cookie[..4], cookie[4..20], text)
  }

  /** Why a cookie is refused by a ring: its size, no key under its identifier, or a tag that no text explains. */
  lemma UnpackRefusals(p: Prims, r: Ring, cookie: seq<byte>, now: Option<u32>)
    ensures |cookie| != 128 ==> Unpacked(p, r, cookie, now) == Err(INVALID_SIZE)
    ensures |cookie| == 128 && (forall j :: 0 <= j < 3 ==> r[j].valid == 0 || r[j].keyId != Rd32(cookie, 0)) ==>
      Unpacked(p, r, cookie, now) == Err(NOT_FOUND)
    ensures |cookie| == 128 ==>
      var found := FindMasterKey(r, Rd32(cookie, 0));
      found.Some? && NothingSealed(p, found.value.key, cookie) ==> Unpacked(p, r, cookie, now) == Err(INVALID_CRC)
  {
    if |cookie| == 128 {
      FindsFirst(r, Rd32(cookie, 0), 0);
      var found := FindMasterKey(r, Rd32(cookie, 0));
      if found.Some? {
        var result := Open(p, found.value.key, cookie[..4], cookie[4..20], cookie[20..]);
        if result.Ok? { OpenIffSealed(p, found.value.key, cookie[..4], cookie[4..20], cookie[20..], result.value); }
      }
    }
  }

  lemma DecodedIsEncoded(s: seq<byte>, id: u32, keys: Keys, now: u32)
    requires |s| == PLAINTEXT_LEN && Decoded(s, id, Some(now)) == Ok(keys)
    ensures s == Plaintext(id, keys) && keys.masterKeyId == id && keys.issued <= now < keys.expires
  {
    hide Be16, Be32, Be64, Rd16, Rd32, Rd64;
    Be32Rd32(s, 0);
    Be16Rd16(s, 4);
    Be16Rd16(s, 6);
    Be32Rd32(s, 8);
    Be64Rd64(s, 12);
    Be64Rd64(s, 20);
    assert s == s[0..4] + s[4..6] + s[6..8] + s[8..12] + s[12..20] + s[20..28] + s[28..60] + s[60..92];
  }

  /** A plaintext decodes to `keys` exactly when it is their encoding and they are current. */
  lemma DecodesIff(s: seq<byte>, id: u32, keys: Keys, now: u32)
    requires |s| == PLAINTEXT_LEN
    ensures Decoded(s, id, Some(now)) == Ok(keys)
       <==> s == Plaintext(id, keys) && keys.masterKeyId == id && keys.issued <= now < keys.expires
  {
    hide Decoded, Plaintext;
    if s == Plaintext(id, keys) && keys.masterKeyId == id && keys.issued <= now < keys.expires {
      PlaintextRoundTrip(id, keys, now);
    }
    if Decoded(s, id, Some(now)) == Ok(keys) { DecodedIsEncoded(s, id, keys, now); }
  }

  lemma MintedParts(p: Prims, k: CookieKey, keys: Keys, nonce: Block)
    ensures var c := Minted(p, k, keys, nonce);
      && c[..4] == Be32(k.keyId) && Rd32(c, 0) == k.keyId && c[4..20] == nonce
      && c[20..] == Seal(p, k.key, c[..4], nonce, Plaintext(k.keyId, keys))
  {
    var c := Minted(p, k, keys, nonce);
    assert c[0..4] == c[..4] == Be32(k.keyId);
    Rd32Be32(c, 0, k.keyId);
    assert c[4..20] == nonce;
    assert c[20..] == Seal(p, k.key, Be32(k.keyId), nonce, Plaintext(k.keyId, keys));
  }

  /** A cookie opens under any ring that still finds its sealing key by identifier. */
  lemma MintedOpens(p: Prims, r: Ring, k: CookieKey, keys: Keys, nonce: Block, now: u32)
    requires FindMasterKey(r, k.keyId) == Some(k) && keys.issued <= now < keys.expires
    ensures Unpacked(p, r, Minted(p, k, keys, nonce), Some(now)) == Ok(keys.(masterKeyId := k.keyId))
  {
    var c := Minted(p, k, keys, nonce);
    var text := Plaintext(k.keyId, keys);
    MintedParts(p, k, keys, nonce);
    OpenIffSealed(p, k.key, c[..4], nonce, c[20..], text);
    PlaintextRoundTrip(k.keyId, keys, now);
  }

  lemma OpensOnlyMinted(p: Prims, r: Ring, cookie: seq<byte>, keys: Keys, now: u32)
    requires Unpacked(p, r, cookie, Some(now)) == Ok(keys)
    ensures |cookie| == COOKIE_LEN && keys.issued <= now < keys.expires
    ensures FindMasterKey(r, keys.masterKeyId).Some?
    ensures cookie == Minted(p, FindMasterKey(r, keys.masterKeyId).value, keys, cookie[4..20])
  {
    hide Open, Decoded, Seal, Plaintext, Rd32, Be32;
    var id := Rd32(cookie, 0);
    var k := FindMasterKey(r, id).value;
    var s := Open(p, k.key, cookie[..4], cookie[4..20], cookie[20..]).value;
    OpenIffSealed(p, k.key, cookie[..4], cookie[4..20], cookie[20..], s);
    DecodesIff(s, id, keys, now);
    Be32Rd32(cookie, 0);
    assert cookie == cookie[0..4] + cookie[4..20] + cookie[20..];
    assert cookie[0..4] == cookie[..4];
  }

  /** Unpacking is exact: a ring opens a cookie to `keys` when and only when the key it finds for their
      identifier sealed precisely those keys under the cookie's nonce, and `now` lies in their lifetime. */
  lemma UnpacksIffMinted(p: Prims, r: Ring, cookie: seq<byte>, keys: Keys, now: u32)
    requires |cookie| == COOKIE_LEN
    ensures Unpacked(p, r, cookie, Some(now)) == Ok(keys)
       <==> var k := FindMasterKey(r, keys.masterKeyId);
            k.Some? && cookie == Minted(p, k.value, keys, cookie[4..20]) && keys.issued <= now < keys.expires
  {
    hide Unpacked, Minted;
    if Unpacked(p, r, cookie, Some(now)) == Ok(keys) {
      OpensOnlyMinted(p, r, cookie, keys, now);
    }
    var k := FindMasterKey(r, keys.masterKeyId);
    if k.Some? && cookie == Minted(p, k.value, keys, cookie[4..20]) && keys.issued <= now < keys.expires {
      MintedOpens(p, r, k.value, keys, cookie[4..20], now);
    }
  }

  /** The key `k` is found under its own identifier. */
  predicate Finds(r: Ring, k: CookieKey) {
    FindMasterKey(r, k.keyId) == Some(k)
  }

  lemma HealthyFinds(r: Ring, i: nat)
    requires Healthy(r) && i < 3 && r[i] != NO_KEY
    ensures Finds(r, r[i])
  {
    HealthyIsAccepted(r);
    if i == ACTIVE && r[PREVIOUS] != NO_KEY { assert r[PREVIOUS].keyId != r[ACTIVE].keyId; }
    if i == NEXT && r[PREVIOUS] != NO_KEY { assert r[PREVIOUS].keyId != r[NEXT].keyId; }
  }

  /** `k` is ACTIVE, or it is PREVIOUS and ACTIVE outlasts the deadline. */
  predicate Retained(r: Ring, k: CookieKey, deadline: int) {
    && Healthy(r)
    && k != NO_KEY
    && ((r[ACTIVE] == k && deadline <= k.notAfter + PERIOD)
        || (r[PREVIOUS] == k && deadline <= r[ACTIVE].notAfter))
  }

  /** Maintenance before the deadline, failing or not, keeps the key. */
  lemma MaintainRetains(r: Ring, env: Env, k: CookieKey, deadline: int)
    requires Retained(r, k, deadline) && (env.now.Some? ==> env.now.value < deadline)
    ensures Retained(MaintainedRing(r, env), k, deadline)
  {
    HealthyIsAccepted(r);
    if env.now.Some? {
      CatchUpKeepsHealthy(r, env.now.value, env.draw, 0);
      if r[ACTIVE] == k { CatchUpWithinOnePeriod(r, env.now.value, env.draw); }
    }
  }

  /** A retained key's cookie opens in any call made before its expiry. */
  lemma RetainedOpens(p: Prims, r: Ring, k: CookieKey, keys: Keys, nonce: Block, opening: Env, now: u32)
    requires Retained(r, k, keys.expires)
    requires opening.load == OK && opening.save == OK && opening.now.Some?
    requires opening.now.value <= now && keys.issued <= now < keys.expires
    ensures UnpackCall(p, Some(r), opening, Minted(p, k, keys, nonce), Some(now)).0
         == Ok(keys.(masterKeyId := k.keyId))
  {
    MaintainRetains(r, opening, k, keys.expires);
    HealthyIsAccepted(r);
    var found := MaintainedRing(r, opening);
    if found[ACTIVE] == k { HealthyFinds(found, ACTIVE); } else { HealthyFinds(found, PREVIOUS); }
    MintedOpens(p, found, k, keys, nonce, now);
  }

  /** A key that has just minted for a deadline within one period is retained. */
  lemma MintingRetains(p: Prims, stored: Ring, minting: Env, keys: Keys, nonce: Block)
    requires Healthy(stored) && CreateCall(p, Some(stored), minting, keys, nonce).0.Ok?
    requires keys.expires <= minting.now.value + PERIOD
    ensures var (created, ring) := CreateCall(p, Some(stored), minting, keys, nonce);
      && Retained(ring.value, ring.value[ACTIVE], keys.expires)
      && created == Ok(Minted(p, ring.value[ACTIVE], keys, nonce))
  {
    HealthyIsAccepted(stored);
    CatchUpKeepsHealthy(stored, minting.now.value, minting.draw, 0);
  }

  predicate Before(calls: seq<Env>, deadline: int) {
    forall i :: 0 <= i < |calls| && calls[i].now.Some? ==> calls[i].now.value < deadline
  }

  lemma {:induction false} RunRetains(r: Ring, calls: seq<Env>, k: CookieKey, deadline: int)
    requires Retained(r, k, deadline) && Before(calls, deadline)
    ensures Retained(Run(r, calls), k, deadline)
    decreases |calls|
  {
    if calls != [] {
      assert calls[0].now.Some? ==> calls[0].now.value < deadline;
      MaintainRetains(r, calls[0], k, deadline);
      RunRetains(MaintainedRing(r, calls[0]), calls[1..], k, deadline);
    }
  }

  /** Cookie survival. A cookie created by a successful call at `minting`, with an expiry at most one
      period after the call, opens after any run of maintenance calls - some of which may fail - at
      every later time before its expiry, to exactly its traffic keys and times. */
  lemma CookieSurvives(p: Prims, stored: Ring, minting: Env, keys: Keys, nonce: Block,
                       calls: seq<Env>, opening: Env, now: u32)
    requires Healthy(stored)
    requires CreateCall(p, Some(stored), minting, keys, nonce).0.Ok?
    requires keys.expires <= minting.now.value + PERIOD
    requires Before(calls, keys.expires)
    requires opening.load == OK && opening.save == OK && opening.now.Some?
    requires opening.now.value <= now && keys.issued <= now < keys.expires
    ensures var (created, ring) := CreateCall(p, Some(stored), minting, keys, nonce);
      UnpackCall(p, Some(Run(ring.value, calls)), opening, created.value, Some(now)).0
        == Ok(keys.(masterKeyId := ring.value[ACTIVE].keyId))
  {
    MintingRetains(p, stored, minting, keys, nonce);
    var r := CreateCall(p, Some(stored), minting, keys, nonce).1.value;
    RunRetains(r, calls, r[ACTIVE], keys.expires);
    RetainedOpens(p, Run(r, calls), r[ACTIVE], keys, nonce, opening, now);
  }

  // ---------------------------------------------------------------- exactly how long

  /** A call that may open a cookie of these keys: before their expiry, with clock and storage at hand. */
  predicate MayOpen(keys: Keys, calls: seq<Env>, opening: Env, now: u32) {
    && Before(calls, keys.expires)
    && opening.load == OK && opening.save == OK && opening.now.Some?
    && opening.now.value <= now && keys.issued <= now < keys.expires
  }

  /** After every run, every call before expiry opens the cookie to its keys. */
  ghost predicate AlwaysOpens(p: Prims, r: Ring, cookie: seq<byte>, keys: Keys) {
    forall calls: seq<Env>, opening: Env, now: u32 :: MayOpen(keys, calls, opening, now) ==>
      UnpackCall(p, Some(Run(r, calls)), opening, cookie, Some(now)).0 == Ok(keys.(masterKeyId := r[ACTIVE].keyId))
  }

  /** The cookie lifetime the ring supports: a cookie opens until its expiry in every run if and only if it
      expires no later than one period after its sealing key stops being ACTIVE. */
  lemma AlwaysOpensIff(p: Prims, r: Ring, keys: Keys, nonce: Block)
    requires Healthy(r) && keys.issued < keys.expires <= TWO_32
    ensures AlwaysOpens(p, r, Minted(p, r[ACTIVE], keys, nonce), keys) <==> keys.expires <= r[ACTIVE].notAfter + PERIOD
  {
    hide Minted, UnpackCall;
    if keys.expires <= r[ACTIVE].notAfter + PERIOD {
      forall calls: seq<Env>, opening: Env, now: u32 | MayOpen(keys, calls, opening, now)
        ensures UnpackCall(p, Some(Run(r, calls)), opening, Minted(p, r[ACTIVE], keys, nonce), Some(now)).0
             == Ok(keys.(masterKeyId := r[ACTIVE].keyId))
      {
        RunRetains(r, calls, r[ACTIVE], keys.expires);
        RetainedOpens(p, Run(r, calls), r[ACTIVE], keys, nonce, opening, now);
      }
    } else {
      var t := r[ACTIVE].notAfter + PERIOD;
      var opening := Env(Some(t), _ => Zeros(32), OK, OK);
      var now := if keys.issued > t then keys.issued else t;
      KeyIsGone(p, r, keys, nonce, opening, now);
      assert MayOpen(keys, [], opening, now) && Run(r, []) == r;
    }
  }

  /** One period after a key stopped being ACTIVE, its cookies are refused. */
  lemma KeyIsGone(p: Prims, r: Ring, keys: Keys, nonce: Block, opening: Env, now: u32)
    requires Healthy(r) && opening.load == OK && opening.save == OK
    requires opening.now.Some? && opening.now.value == r[ACTIVE].notAfter + PERIOD
    ensures UnpackCall(p, Some(r), opening, Minted(p, r[ACTIVE], keys, nonce), Some(now)).0 == Err(NOT_FOUND)
  {
    HealthyIsAccepted(r);
    RotatedTwice(r, opening.now.value, opening.draw);
    MintedParts(p, r[ACTIVE], keys, nonce);
    hide Minted, CatchUp, Accepted, Healthy;
  }

  /** Two rotations leave nothing under the identifier of the key that was ACTIVE. */
  lemma RotatedTwice(r: Ring, now: u32, draw: Draws)
    requires Healthy(r) && now == r[ACTIVE].notAfter + PERIOD
    ensures Chained(r, now) && FindMasterKey(CatchUp(r, now, draw, 0), r[ACTIVE].keyId) == None
  {
    var once := Rotate(r, draw(0));
    var twice := Rotate(once, draw(1));
    RotateKeepsHealthy(r, now, draw(0));
    RotateKeepsHealthy(once, now, draw(1));
    assert CatchUp(r, now, draw, 0) == CatchUp(once, now, draw, 1) == CatchUp(twice, now, draw, 2) == twice;
    hide CatchUp;
    SuccessorsDiffer(r[ACTIVE].keyId);
    SuccessorsDiffer(r[NEXT].keyId);
    ThirdDiffers(r[ACTIVE].keyId);
  }

  lemma ThirdDiffers(id: u32)
    requires id != 0
    ensures NextKeyId(NextKeyId(NextKeyId(id))) != id
  {}

  // ---------------------------------------------------------------- generated keys

  lemma GenerateSucceeds(stored: Ring, env: Env, lifetime: u64, now: u32, c2s: Key, s2c: Key)
    requires Healthy(stored) && env.load == OK && env.save == OK && env.now.Some? && 0 < lifetime
    ensures var (generated, ring) := GenerateCall(Some(stored), env, lifetime, Some(now), c2s, s2c);
      && ring == Some(MaintainedRing(stored, env)) && Healthy(ring.value) && env.now.value < ring.value[ACTIVE].notAfter
      && generated == Ok(Keys(c2s, s2c, ring.value[ACTIVE].keyId, now, (now + lifetime) % TWO_64))
  {
    HealthyIsAccepted(stored);
    CatchUpKeepsHealthy(stored, env.now.value, env.draw, 0);
  }

  /** Generated keys all the way: after any run, a cookie created for them at a time no earlier than their
      issue opens - after any further run, in every call before their expiry - to exactly these keys, named
      after the key that sealed the cookie. */
  lemma GeneratedKeysSurvive(p: Prims, stored: Ring, env: Env, lifetime: u64, now: u32, c2s: Key, s2c: Key,
                             between: seq<Env>, minting: Env, nonce: Block, calls: seq<Env>, opening: Env, later: u32)
    requires Healthy(stored) && env.load == OK && env.save == OK && env.now.Some? && 0 < lifetime <= PERIOD
    requires var (generated, ring) := GenerateCall(Some(stored), env, lifetime, Some(now), c2s, s2c);
      && generated.Ok? && ring.Some?
      && CreateCall(p, Some(Run(ring.value, between)), minting, generated.value, nonce).0.Ok?
      && minting.now.Some? && now <= minting.now.value
      && MayOpen(generated.value, calls, opening, later)
    ensures var (generated, ring) := GenerateCall(Some(stored), env, lifetime, Some(now), c2s, s2c);
      var (created, sealing) := CreateCall(p, Some(Run(ring.value, between)), minting, generated.value, nonce);
      UnpackCall(p, Some(Run(sealing.value, calls)), opening, created.value, Some(later)).0
        == Ok(generated.value.(masterKeyId := sealing.value[ACTIVE].keyId))
  {
    hide GenerateCall, CreateCall, UnpackCall, Maintained, Run, CatchUp, Healthy, Minted, Accepted;
    GenerateSucceeds(stored, env, lifetime, now, c2s, s2c);
    var (generated, ring) := GenerateCall(Some(stored), env, lifetime, Some(now), c2s, s2c);
    RunKeepsHealthy(ring.value, between);
    CookieSurvives(p, Run(ring.value, between), minting, generated.value, nonce, calls, opening, later);
  }

  /** Their own name is that of the sealing key if and only if no rotation falls between: a creating call
      that follows at once renames them exactly from the named key's expiry on. */
  lemma NamedKeySealsIff(p: Prims, stored: Ring, env: Env, lifetime: u64, now: u32, c2s: Key, s2c: Key, minting: Env, nonce: Block)
    requires Healthy(stored) && env.load == OK && env.save == OK && env.now.Some? && 0 < lifetime
    requires minting.load == OK && minting.save == OK && minting.now.Some?
    ensures var (generated, ring) := GenerateCall(Some(stored), env, lifetime, Some(now), c2s, s2c);
      && generated.Ok? && ring.Some?
      && var (created, sealing) := CreateCall(p, ring, minting, generated.value, nonce);
      && created.Ok? && sealing.Some?
      && (sealing.value[ACTIVE].keyId == generated.value.masterKeyId <==> minting.now.value < ring.value[ACTIVE].notAfter)
  {
    GenerateSucceeds(stored, env, lifetime, now, c2s, s2c);
    var ring := MaintainedRing(stored, env);
    hide GenerateCall, Minted;
    HealthyIsAccepted(ring);
    CatchUpKeepsHealthy(ring, minting.now.value, minting.draw, 0);
    var m := CatchUpCounts(ring, minting.now.value, minting.draw, 0);
    hide CatchUp;
    if m > 0 { IdsDiffer(ring[ACTIVE].keyId, m); }
  }
}
