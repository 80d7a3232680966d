/** The NTPv4 extension-field walk, request verification and response protection of NTS
    (main/nts_ntp_auth.c; sections 5.3-5.7 of RFC 8915). */
module NtpAuth {
  import opened Bytes
  import opened Esp
  import opened AesSiv
  import opened KeyRing
  import opened Cookie

  const HEADER_LEN: nat := 48
  const UNIQUE_IDENTIFIER: u16 := 0x0104
  const COOKIE: u16 := 0x0204
  const COOKIE_PLACEHOLDER: u16 := 0x0304
  const AUTHENTICATOR: u16 := 0x0404
  const MAX_PACKET: nat := 1280
  const MAX_UID: nat := 256
  const MAX_PLACEHOLDERS: nat := 7
  const NONCE_LEN: nat := 16

  function RoundUp4(n: nat): nat {
    (n + 3) / 4 * 4
  }

  predicate IsNtsType(t: u16) {
    t == UNIQUE_IDENTIFIER || t == COOKIE || t == COOKIE_PLACEHOLDER || t == AUTHENTICATOR
  }

  // ---------------------------------------------------------------- extension fields

  /** The wire form of one extension field. */
  function Field(t: u16, body: seq<byte>): (f: seq<byte>)
    requires |body| + 4 < TWO_16
    ensures |f| == |body| + 4
  {
    Be16(t) + Be16(4 + |body|) + body
  }

  lemma FieldParts(t: u16, body: seq<byte>)
    requires |body| + 4 < TWO_16
    ensures Field(t, body)[..2] == Be16(t)
    ensures Field(t, body)[2..4] == Be16(4 + |body|)
    ensures Field(t, body)[4..] == body
    ensures Field(t, body) == Be16(t) + Be16(4 + |body|) + body
  {
    hide Be16;
  }

  /** A field of legal length starts at `offset`. */
  predicate FieldFits(packet: seq<byte>, offset: nat) {
    && offset + 4 <= |packet|
    && 4 <= Rd16(packet, offset + 2)
    && Rd16(packet, offset + 2) % 4 == 0
    && offset + Rd16(packet, offset + 2) <= |packet|
  }

  /** What the append routine accepts. */
  predicate Appendable(bodyLen: nat, room: int) {
    4 + bodyLen < TWO_16 && bodyLen % 4 == 0 && 4 + bodyLen <= room
  }

  datatype Auth = Auth(offset: nat, body: seq<byte>)

  /** What the walk has collected; fields after the authenticator are skipped. */
  datatype Walked = Walked(uid: Option<seq<byte>>, cookie: Option<seq<byte>>,
                           placeholders: seq<nat>, auth: Option<Auth>)

  const NOTHING := Walked(None, None, [], None)

  function Collect(w: Walked, offset: nat, t: u16, body: seq<byte>): Result<Walked> {
    if w.auth.Some? then Ok(w)
    else if t == UNIQUE_IDENTIFIER then
      if w.uid.Some? || |body| < 32 || |body| > MAX_UID then Err(INVALID_RESPONSE)
      else Ok(w.(uid := Some(body)))
    else if t == COOKIE then
      if w.cookie.Some? || |body| == 0 || |body| > COOKIE_MAX_LEN then Err(INVALID_RESPONSE)
      else Ok(w.(cookie := Some(body)))
    else if t == COOKIE_PLACEHOLDER then
      if |w.placeholders| < MAX_PLACEHOLDERS then Ok(w.(placeholders := w.placeholders + [|body|])) else Ok(w)
    else if t == AUTHENTICATOR then Ok(w.(auth := Some(Auth(offset, body))))
    else Ok(w)
  }

  function Walk(packet: seq<byte>, offset: nat, w: Walked): Result<Walked>
    requires offset <= |packet|
    decreases |packet| - offset
  {
    if offset == |packet| then Ok(w)
    else if !FieldFits(packet, offset) then Err(INVALID_SIZE)
    else
      var len := Rd16(packet, offset + 2);
      match Collect(w, offset, Rd16(packet, offset), packet[offset + 4..offset + len])
      case Err(e) => Err(e)
      case Ok(next) => Walk(packet, offset + len, next)
  }

  /** Reading a field back where it was written. */
  lemma FieldRead(packet: seq<byte>, offset: nat, t: u16, body: seq<byte>)
    requires |body| + 4 < TWO_16
    requires offset + |body| + 4 <= |packet| && packet[offset..offset + |body| + 4] == Field(t, body)
    ensures Rd16(packet, offset) == t && Rd16(packet, offset + 2) == 4 + |body|
    ensures packet[offset + 4..offset + 4 + |body|] == body
  {
    hide Field, Rd16, Be16;
    var f := packet[offset..offset + |body| + 4];
    FieldParts(t, body);
    SliceOfSlice(packet, offset, offset + |body| + 4, 0, 2);
    SliceOfSlice(packet, offset, offset + |body| + 4, 2, 4);
    Rd16Be16(packet, offset, t);
    Rd16Be16(packet, offset + 2, 4 + |body|);
    SliceOfSlice(packet, offset, offset + |body| + 4, 4, 4 + |body|);
  }

  lemma WalkEnd(packet: seq<byte>, w: Walked)
    ensures Walk(packet, |packet|, w) == Ok(w)
  {}

  /** A field that the walk finds and absorbs. */
  lemma WalkField(packet: seq<byte>, offset: nat, w: Walked, t: u16, body: seq<byte>)
    requires |body| + 4 < TWO_16 && |body| % 4 == 0
    requires offset + |body| + 4 <= |packet| && packet[offset..offset + |body| + 4] == Field(t, body)
    ensures Walk(packet, offset, w)
         == match Collect(w, offset, t, body)
            case Err(e) => Err(e)
            case Ok(next) => Walk(packet, offset + |body| + 4, next)
  {
    hide Field, Collect;
    FieldRead(packet, offset, t, body);
  }

  /** Bytes of the packet the collected fields account for. */
  function SumFields(lens: seq<nat>): nat {
    if lens == [] then 0 else SumFields(lens[..|lens| - 1]) + 4 + lens[|lens| - 1]
  }

  function Weight(w: Walked): nat {
    (if w.uid.Some? then 4 + |w.uid.value| else 0)
    + (if w.cookie.Some? then 4 + |w.cookie.value| else 0)
    + SumFields(w.placeholders)
    + (if w.auth.Some? then 4 + |w.auth.value.body| else 0)
  }

  /** What holds of every prefix of a walk. */
  predicate Sound(w: Walked, offset: nat) {
    && HEADER_LEN + Weight(w) <= offset
    && (w.uid.Some? ==> 32 <= |w.uid.value| <= MAX_UID && |w.uid.value| % 4 == 0)
    && (w.cookie.Some? ==> 0 < |w.cookie.value| <= COOKIE_MAX_LEN)
    && |w.placeholders| <= MAX_PLACEHOLDERS
    && (w.auth.Some? ==> HEADER_LEN <= w.auth.value.offset && w.auth.value.offset + 4 + |w.auth.value.body| <= offset)
  }

  lemma CollectKeepsSound(w: Walked, offset: nat, t: u16, body: seq<byte>)
    requires Sound(w, offset) && |body| % 4 == 0 && HEADER_LEN <= offset
    ensures Collect(w, offset, t, body).Ok? ==> Sound(Collect(w, offset, t, body).value, offset + 4 + |body|)
  {
    CollectedWeighs(w, offset, t, body);
    hide Weight;
  }

  lemma CollectedWeighs(w: Walked, offset: nat, t: u16, body: seq<byte>)
    ensures Collect(w, offset, t, body).Ok? ==> Weight(Collect(w, offset, t, body).value) <= Weight(w) + 4 + |body|
  {
    SumFieldsAppend(w.placeholders, |body|);
    hide SumFields;
  }

  lemma SumFieldsAppend(lens: seq<nat>, len: nat)
    ensures SumFields(lens + [len]) == SumFields(lens) + 4 + len
  {
    assert (lens + [len])[..|lens|] == lens;
  }

  lemma {:induction false} WalkKeepsSound(packet: seq<byte>, offset: nat, w: Walked)
    requires HEADER_LEN <= offset <= |packet| && Sound(w, offset)
    ensures Walk(packet, offset, w).Ok? ==> Sound(Walk(packet, offset, w).value, |packet|)
    decreases |packet| - offset
  {
    if offset < |packet| && FieldFits(packet, offset) {
      var len := Rd16(packet, offset + 2);
      var body := packet[offset + 4..offset + len];
      var next := Collect(w, offset, Rd16(packet, offset), body);
      CollectKeepsSound(w, offset, Rd16(packet, offset), body);
      if next.Ok? { WalkKeepsSound(packet, offset + len, next.value); }
    }
  }

  // ---------------------------------------------------------------- recognising an NTS request

  /** Some field the scan reaches has an NTS type. */
  predicate Present(packet: seq<byte>, offset: nat)
    requires offset <= |packet|
    decreases |packet| - offset
  {
    |packet| - offset >= 4
    && (IsNtsType(Rd16(packet, offset))
        || (FieldFits(packet, offset) && Present(packet, offset + Rd16(packet, offset + 2))))
  }

  method RequestPresent(packet: seq<byte>) returns (present: bool)
    ensures present <==> |packet| > HEADER_LEN && Present(packet, HEADER_LEN)
  {
    if |packet| <= HEADER_LEN { return false; }
    var offset := HEADER_LEN;
    while |packet| - offset >= 4
      invariant offset <= |packet|
      invariant Present(packet, HEADER_LEN) <==> Present(packet, offset)
    {
      var t := Rd16(packet, offset);
      var fieldLen := Rd16(packet, offset + 2);
      if IsNtsType(t) { return true; }
      if fieldLen < 4 || fieldLen % 4 != 0 || fieldLen > |packet| - offset { return false; }
      offset := offset + fieldLen;
    }
    return false;
  }

  /** A walk that gains anything started at a field sequence the scan recognises. */
  lemma {:induction false} WalkedIsPresent(packet: seq<byte>, offset: nat, w: Walked)
    requires offset <= |packet| && Walk(packet, offset, w).Ok? && Walk(packet, offset, w).value != w
    ensures Present(packet, offset)
    decreases |packet| - offset
  {
    var len := Rd16(packet, offset + 2);
    if !IsNtsType(Rd16(packet, offset)) {
      WalkedIsPresent(packet, offset + len, w);
    }
  }

  // ---------------------------------------------------------------- the authenticator body

  /** Nonce and ciphertext of an authenticator field body. */
  function AuthParts(body: seq<byte>): Result<(Block, seq<byte>)> {
    if |body| < 4 then Err(INVALID_SIZE)
    else
      var nonceLen, ciphertextLen := Rd16(body, 0), Rd16(body, 2);
      if nonceLen != NONCE_LEN || ciphertextLen < TAG_LEN
        || 4 + RoundUp4(nonceLen) + RoundUp4(ciphertextLen) > |body| then Err(INVALID_SIZE)
      else Ok((body[4..20], body[20..20 + ciphertextLen]))
  }

  function AuthBody(nonce: Block, ciphertext: seq<byte>): (b: seq<byte>)
    requires |ciphertext| < TWO_16
    ensures |b| == 20 + RoundUp4(|ciphertext|)
  {
    Be16(NONCE_LEN) + Be16(|ciphertext|) + nonce + ciphertext + Zeros(RoundUp4(|ciphertext|) - |ciphertext|)
  }

  lemma AuthPartsOfBody(nonce: Block, ciphertext: seq<byte>)
    requires TAG_LEN <= |ciphertext| < TWO_16
    ensures AuthParts(AuthBody(nonce, ciphertext)) == Ok((nonce, ciphertext))
  {
    var b := AuthBody(nonce, ciphertext);
    assert b[0..2] == Be16(NONCE_LEN);
    assert b[2..4] == Be16(|ciphertext|);
    Rd16Be16(b, 0, NONCE_LEN);
    Rd16Be16(b, 2, |ciphertext|);
    assert b[4..20] == nonce;
    assert b[20..20 + |ciphertext|] == ciphertext;
  }

  // ---------------------------------------------------------------- verifying a request

  datatype Context = Context(uid: seq<byte>, validPlaceholders: u16, requestLength: nat, keys: Keys)

  function CountEqual(lens: seq<nat>, len: nat): (n: nat)
    ensures n <= |lens|
  {
    if lens == [] then 0
    else CountEqual(lens[..|lens| - 1], len) + if lens[|lens| - 1] == len then 1 else 0
  }

  /** The part of verification after the walk, once the cookie has been unpacked to `keys`. */
  function Authenticated(p: Prims, packet: seq<byte>, w: Walked, keys: Keys): Result<Context>
    requires w.uid.Some? && w.cookie.Some? && w.auth.Some? && w.auth.value.offset <= |packet|
    requires |w.placeholders| <= MAX_PLACEHOLDERS && AuthParts(w.auth.value.body).Ok?
  {
    var (nonce, ciphertext) := AuthParts(w.auth.value.body).value;
    match Open(p, keys.c2s, packet[..w.auth.value.offset], nonce, ciphertext)
    case Err(e) => Err(e)
    case Ok(plaintext) =>
      if plaintext != [] then Err(NOT_SUPPORTED)
      else Ok(Context(w.uid.value, CountEqual(w.placeholders, |w.cookie.value|), |packet|, keys))
  }

  /** Result and stored ring after `verify_request_impl`. */
  function VerifyCall(p: Prims, stored: Option<Ring>, env: Env, packet: seq<byte>, now: Option<u32>)
    : (Result<Context>, Option<Ring>)
  {
    if |packet| < HEADER_LEN || |packet| > MAX_PACKET then (Err(INVALID_ARG), stored)
    else
      WalkKeepsSound(packet, HEADER_LEN, NOTHING);
      match Walk(packet, HEADER_LEN, NOTHING)
      case Err(e) => (Err(e), stored)
      case Ok(w) =>
        if w.uid.None? || w.cookie.None? || w.auth.None? then (Err(NOT_FOUND), stored)
        else if AuthParts(w.auth.value.body).Err? then (Err(INVALID_SIZE), stored)
        else
          var (keys, ring) := UnpackCall(p, stored, env, w.cookie.value, now);
          if keys.Err? then (Err(keys.error), ring) else (Authenticated(p, packet, w, keys.value), ring)
  }

  /** The out-parameter structure; all zero unless a verification has succeeded. */
  class AuthContext {
    var uid: seq<byte>
    var validPlaceholders: u16
    var requestLength: nat
    var keys: Keys
    var authenticated: bool

    constructor ()
      ensures Cleared()
    {
      uid, validPlaceholders, requestLength, keys, authenticated := [], 0, 0, NO_KEYS, false;
    }

    ghost predicate Cleared()
      reads this
    {
      uid == [] && validPlaceholders == 0 && requestLength == 0 && keys == NO_KEYS && !authenticated
    }

    function Value(): Context
      reads this
    {
      Context(uid, validPlaceholders, requestLength, keys)
    }

    method Clear()
      modifies this
      ensures Cleared()
    {
      uid, validPlaceholders, requestLength, keys, authenticated := [], 0, 0, NO_KEYS, false;
    }
  }

  method WalkRequest(packet: seq<byte>) returns (result: Result<Walked>)
    requires |packet| >= HEADER_LEN
    ensures result == Walk(packet, HEADER_LEN, NOTHING)
  {
    var w := NOTHING;
    var offset := HEADER_LEN;
    while offset < |packet|
      invariant offset <= |packet|
      invariant Walk(packet, HEADER_LEN, NOTHING) == Walk(packet, offset, w)
    {
      if |packet| - offset < 4 { return Err(INVALID_SIZE); }
      var t := Rd16(packet, offset);
      var fieldLen := Rd16(packet, offset + 2);
      if fieldLen < 4 || fieldLen % 4 != 0 || fieldLen > |packet| - offset { return Err(INVALID_SIZE); }
      var body := packet[offset + 4..offset + fieldLen];
      if w.auth.None? {
        if t == UNIQUE_IDENTIFIER {
          if w.uid.Some? || |body| < 32 || |body| > MAX_UID { return Err(INVALID_RESPONSE); }
          w := w.(uid := Some(body));
        } else if t == COOKIE {
          if w.cookie.Some? || |body| == 0 || |body| > COOKIE_MAX_LEN { return Err(INVALID_RESPONSE); }
          w := w.(cookie := Some(body));
        } else if t == COOKIE_PLACEHOLDER {
          if |w.placeholders| < MAX_PLACEHOLDERS { w := w.(placeholders := w.placeholders + [|body|]); }
        } else if t == AUTHENTICATOR {
          w := w.(auth := Some(Auth(offset, body)));
        }
      }
      offset := offset + fieldLen;
    }
    return Ok(w);
  }

  method CountValid(lens: seq<nat>, cookieLen: nat) returns (valid: nat)
    ensures valid == CountEqual(lens, cookieLen)
  {
    valid := 0;
    for i := 0 to |lens|
      invariant valid == CountEqual(lens[..i], cookieLen)
    {
      assert lens[..i + 1][..i] == lens[..i];
      if lens[i] == cookieLen { valid := valid + 1; }
    }
    assert lens[..|lens|] == lens;
  }

  /** Decrypts into the static plaintext buffer, of which only the length is used. */
  method OpenAuthenticator(p: Prims, key: Key, ad: seq<byte>, nonce: Block, ciphertext: seq<byte>)
    returns (err: EspErr, plaintextLen: nat)
    requires TAG_LEN <= |ciphertext| <= MAX_PACKET
    ensures match Open(p, key, ad, nonce, ciphertext)
      case Ok(text) => err == OK && plaintextLen == |text|
      case Err(e) => err == e != OK
  {
    var plaintext := new byte[MAX_PACKET](_ => 0);
    err, plaintextLen := Decrypt(p, key, ad, nonce, ciphertext, plaintext, MAX_PACKET);
  }

  method VerifyRequest(p: Prims, store: NtsStorage, env: Env, packet: seq<byte>, now: Option<u32>, context: AuthContext)
    returns (err: EspErr)
    modifies store, context
    ensures store.ring == VerifyCall(p, old(store.ring), env, packet, now).1
    ensures match VerifyCall(p, old(store.ring), env, packet, now).0
      case Ok(c) => err == OK && context.authenticated && context.Value() == c
      case Err(e) => err == e && if HEADER_LEN <= |packet| <= MAX_PACKET then context.Cleared() else unchanged(context)
  {
    hide Walk, Open, Maintained, Unpacked;
    if |packet| < HEADER_LEN || |packet| > MAX_PACKET { return INVALID_ARG; }
    context.Clear();
    WalkKeepsSound(packet, HEADER_LEN, NOTHING);
    var walked := WalkRequest(packet);
    if walked.Err? { return walked.error; }
    var w := walked.value;
    if w.uid.None? || w.cookie.None? || w.auth.None? { return NOT_FOUND; }
    var body := w.auth.value.body;
    if |body| < 4 { return INVALID_SIZE; }
    var nonceLen, ciphertextLen := Rd16(body, 0), Rd16(body, 2);
    var paddedNonceLen, paddedCiphertextLen := RoundUp4(nonceLen), RoundUp4(ciphertextLen);
    if nonceLen != NONCE_LEN || ciphertextLen < TAG_LEN || 4 + paddedNonceLen + paddedCiphertextLen > |body| {
      return INVALID_SIZE;
    }
    var nonce, ciphertext := body[4..20], body[4 + paddedNonceLen..4 + paddedNonceLen + ciphertextLen];
    var unpacked := Unpack(p, store, env, w.cookie.value, now);
    if unpacked.Err? { return unpacked.error; }
    context.keys := unpacked.value;
    var plaintextLen: nat;
    err, plaintextLen := OpenAuthenticator(p, context.keys.c2s, packet[..w.auth.value.offset], nonce, ciphertext);
    if err != OK {
      context.Clear();
      return;
    }
    if plaintextLen != 0 {
      context.Clear();
      return NOT_SUPPORTED;
    }
    var valid := CountValid(w.placeholders, |w.cookie.value|);
    context.uid := w.uid.value;
    context.validPlaceholders := valid;
    context.requestLength := |packet|;
    context.authenticated := true;
    return OK;
  }

  // ---------------------------------------------------------------- protecting a response

  /** What one cookie creation of a response finds: its environment and random nonce. */
  datatype Mint = Mint(env: Env, nonce: Block)

  type Mints = nat -> Mint

  /** The first `count` cookies of a response, each created on the ring the one before left. */
  function MintAll(p: Prims, stored: Option<Ring>, keys: Keys, mints: Mints, count: nat)
    : (r: (Result<seq<seq<byte>>>, Option<Ring>))
    ensures r.0.Ok? ==> |r.0.value| == count && forall j :: 0 <= j < count ==> |r.0.value[j]| == COOKIE_LEN
  {
    if count == 0 then (Ok([]), stored)
    else
      var (cookies, ring) := MintAll(p, stored, keys, mints, count - 1);
      if cookies.Err? then (cookies, ring)
      else
        var (last, next) := CreateCall(p, ring, mints(count - 1).env, keys, mints(count - 1).nonce);
        if last.Err? then (Err(last.error), next) else (Ok(cookies.value + [last.value]), next)
  }

  lemma {:induction false} MintErrorPersists(p: Prims, stored: Option<Ring>, keys: Keys, mints: Mints, i: nat, count: nat)
    requires i <= count && MintAll(p, stored, keys, mints, i).0.Err?
    ensures MintAll(p, stored, keys, mints, count) == MintAll(p, stored, keys, mints, i)
    decreases count - i
  {
    if i < count { MintErrorPersists(p, stored, keys, mints, i + 1, count); }
  }

  /** Concatenated fields of one type. */
  function Fields(t: u16, bodies: seq<seq<byte>>): (s: seq<byte>)
    requires forall j :: 0 <= j < |bodies| ==> |bodies[j]| == COOKIE_LEN
    ensures |s| == 132 * |bodies|
  {
    if bodies == [] then []
    else Fields(t, bodies[..|bodies| - 1]) + Field(t, bodies[|bodies| - 1])
  }

  function CookieCount(validPlaceholders: u16): (n: nat)
    ensures 1 <= n <= 1 + MAX_PLACEHOLDERS || n == 0
  {
    var count := (1 + validPlaceholders) % TWO_16;
    if count > 1 + MAX_PLACEHOLDERS then 1 + MAX_PLACEHOLDERS else count
  }

  /** The protected response for given cookies: header, identifier, authenticator. */
  function Response(p: Prims, c: Context, header: seq<byte>, cookies: seq<seq<byte>>, nonce: Block): seq<byte>
    requires |c.uid| + 4 < TWO_16
    requires |cookies| <= 1 + MAX_PLACEHOLDERS && forall j :: 0 <= j < |cookies| ==> |cookies[j]| == COOKIE_LEN
  {
    var base := header + Field(UNIQUE_IDENTIFIER, c.uid);
    base + Field(AUTHENTICATOR, AuthBody(nonce, Seal(p, c.keys.s2c, base, nonce, Fields(COOKIE, cookies))))
  }

  lemma ResponseIs(p: Prims, c: Context, header: seq<byte>, cookies: seq<seq<byte>>, nonce: Block)
    requires |header| == HEADER_LEN && |c.uid| + 4 < TWO_16
    requires |cookies| <= 1 + MAX_PLACEHOLDERS && forall j :: 0 <= j < |cookies| ==> |cookies[j]| == COOKIE_LEN
    ensures var base := header + Field(UNIQUE_IDENTIFIER, c.uid);
      var body := AuthBody(nonce, Seal(p, c.keys.s2c, base, nonce, Fields(COOKIE, cookies)));
      && |body| == 36 + 132 * |cookies|
      && Response(p, c, header, cookies, nonce) == base + Field(AUTHENTICATOR, body)
      && |Response(p, c, header, cookies, nonce)| == ResponseLength(|c.uid|, |cookies|)
  {
    hide Seal, Fields, Be16;
    assert RoundUp4(TAG_LEN + 132 * |cookies|) == TAG_LEN + 132 * |cookies|;
  }

  /** Length of a response with that many cookies. */
  function ResponseLength(uidLen: nat, cookies: nat): nat {
    92 + uidLen + 132 * cookies
  }

  /** Result and stored ring after `protect_response_impl` for a context marked authenticated. */
  function ProtectCall(p: Prims, stored: Option<Ring>, c: Context, header: seq<byte>, capacity: nat,
                       mints: Mints, nonce: Block)
    : (Result<seq<byte>>, Option<Ring>)
  {
    if |header| != HEADER_LEN || capacity < |header| || capacity > MAX_PACKET then (Err(INVALID_ARG), stored)
    else if !Appendable(|c.uid|, capacity - HEADER_LEN) then (Err(INVALID_SIZE), stored)
    else
      var count := CookieCount(c.validPlaceholders);
      var (cookies, ring) := MintAll(p, stored, c.keys, mints, count);
      if cookies.Err? then (Err(cookies.error), ring)
      else if ResponseLength(|c.uid|, count) > capacity then (Err(INVALID_SIZE), ring)
      else if ResponseLength(|c.uid|, count) > c.requestLength then (Err(INVALID_SIZE), ring)
      else (Ok(Response(p, c, header, cookies.value, nonce)), ring)
  }

  method AppendExtension(packet: array<byte>, capacity: nat, offset: nat, t: u16, body: seq<byte>)
    returns (err: EspErr, next: nat)
    requires offset <= capacity <= packet.Length
    modifies packet
    ensures err == if Appendable(|body|, capacity - offset) then OK else INVALID_SIZE
    ensures err != OK ==> next == offset && packet[..] == old(packet[..])
    ensures err == OK ==> next == offset + 4 + |body| && packet[..] == Splice(old(packet[..]), offset, Field(t, body))
  {
    next := offset;
    var fieldLen := 4 + |body|;
    if fieldLen > TWO_16 - 1 || fieldLen % 4 != 0 || fieldLen > capacity - offset {
      return INVALID_SIZE, next;
    }
    hide Be16, Splice, Field;
    ghost var before := packet[..];
    ghost var head := Be16(t) + Be16(fieldLen);
    FieldParts(t, body);
    CopyTo(packet, offset, Be16(t));
    CopyTo(packet, offset + 2, Be16(fieldLen));
    SpliceAdjacent(before, offset, Be16(t), Be16(fieldLen));
    assert packet[..] == Splice(before, offset, head);
    SpliceAdjacent(before, offset, head, body);
    if |body| != 0 {
      CopyTo(packet, offset + 4, body);
    } else {
      SpliceNothing(packet[..], offset + 4);
      assert body == [];
    }
    return OK, offset + fieldLen;
  }

  /** Fills the static plaintext buffer with cookie fields. */
  method WriteCookies(p: Prims, store: NtsStorage, keys: Keys, mints: Mints, count: nat, plaintext: array<byte>)
    returns (err: EspErr, plaintextLen: nat, ghost cookies: seq<seq<byte>>)
    requires count <= 1 + MAX_PLACEHOLDERS && plaintext.Length == MAX_PACKET
    modifies store, plaintext
    ensures store.ring == MintAll(p, old(store.ring), keys, mints, count).1
    ensures match MintAll(p, old(store.ring), keys, mints, count).0
      case Err(e) => err == e != OK
      case Ok(cs) =>
        err == OK && cookies == cs && plaintextLen == 132 * count && plaintext[..plaintextLen] == Fields(COOKIE, cs)
  {
    hide CreateCall, Field, Splice;
    plaintextLen, cookies := 0, [];
    for i := 0 to count
      invariant plaintextLen == 132 * i && |cookies| == i
      invariant forall j :: 0 <= j < i ==> |cookies[j]| == COOKIE_LEN
      invariant plaintext[..plaintextLen] == Fields(COOKIE, cookies)
      invariant MintAll(p, old(store.ring), keys, mints, i) == (Ok(cookies), store.ring)
    {
      ghost var created := CreateCall(p, store.ring, mints(i).env, keys, mints(i).nonce).0;
      var next: nat;
      err, next := WriteCookie(p, store, keys, mints(i), plaintext, plaintextLen);
      if err != OK {
        MintErrorPersists(p, old(store.ring), keys, mints, i + 1, count);
        return;
      }
      assert (cookies + [created.value])[..i] == cookies;
      plaintextLen := next;
      cookies := cookies + [created.value];
    }
    err := OK;
  }

  /** One cookie, created into a buffer of its own and appended as a field. */
  method WriteCookie(p: Prims, store: NtsStorage, keys: Keys, mint: Mint, plaintext: array<byte>, at: nat)
    returns (err: EspErr, next: nat)
    requires plaintext.Length == MAX_PACKET && at + 4 + COOKIE_LEN <= MAX_PACKET
    modifies store, plaintext
    ensures store.ring == CreateCall(p, old(store.ring), mint.env, keys, mint.nonce).1
    ensures match CreateCall(p, old(store.ring), mint.env, keys, mint.nonce).0
      case Err(e) => err == e != OK
      case Ok(c) => err == OK && next == at + 4 + COOKIE_LEN && plaintext[..next] == old(plaintext[..at]) + Field(COOKIE, c)
  {
    hide CreateCall, Field, Splice;
    ghost var created := CreateCall(p, store.ring, mint.env, keys, mint.nonce).0;
    var cookie := new byte[COOKIE_MAX_LEN](_ => 0);
    ghost var blank := cookie[..];
    var cookieLen: nat;
    err, cookieLen := Create(p, store, mint.env, keys, mint.nonce, cookie, COOKIE_MAX_LEN);
    if err != OK { return err, at; }
    SpliceAtStart(blank, created.value);
    assert cookie[..cookieLen] == created.value;
    ghost var text := plaintext[..];
    err, next := AppendExtension(plaintext, MAX_PACKET, at, COOKIE, cookie[..cookieLen]);
    SpliceFromStart(text, at, Field(COOKIE, created.value));
  }

  method ProtectResponse(p: Prims, store: NtsStorage, context: AuthContext, packet: array<byte>, basePacketLen: nat,
                         capacity: nat, mints: Mints, nonce: Block)
    returns (err: EspErr, packetLen: nat)
    requires basePacketLen <= packet.Length && capacity <= packet.Length
    modifies store, packet
    ensures !context.authenticated ==> err == INVALID_ARG && store.ring == old(store.ring) && packet[..] == old(packet[..])
    ensures context.authenticated ==>
      var (response, ring) :=
        ProtectCall(p, old(store.ring), context.Value(), old(packet[..basePacketLen]), capacity, mints, nonce);
      && store.ring == ring
      && match response
         case Ok(r) => err == OK && packetLen == |r| <= capacity && packet[..] == Splice(old(packet[..]), 0, r)
         case Err(e) => err == e != OK
  {
    if !context.authenticated || basePacketLen != HEADER_LEN || capacity < basePacketLen || capacity > MAX_PACKET {
      return INVALID_ARG, 0;
    }
    err, packetLen := ProtectAuthenticated(p, store, context.Value(), packet, capacity, mints, nonce);
  }

  /** The steps of protection after the argument checks. */
  method ProtectAuthenticated(p: Prims, store: NtsStorage, c: Context, packet: array<byte>,
                              capacity: nat, mints: Mints, nonce: Block)
    returns (err: EspErr, packetLen: nat)
    requires HEADER_LEN <= capacity <= packet.Length && capacity <= MAX_PACKET
    modifies store, packet
    ensures
      var (response, ring) := ProtectCall(p, old(store.ring), c, old(packet[..HEADER_LEN]), capacity, mints, nonce);
      && store.ring == ring
      && match response
         case Ok(r) => err == OK && packetLen == |r| <= capacity && packet[..] == Splice(old(packet[..]), 0, r)
         case Err(e) => err == e != OK
  {
    hide MintAll, Response, Seal, AuthBody, Fields, Field, Splice;
    packetLen := 0;
    ghost var before := packet[..];
    ghost var header := before[..HEADER_LEN];
    assert packet[..HEADER_LEN] == header;
    var offset := HEADER_LEN;
    err, offset := AppendExtension(packet, capacity, offset, UNIQUE_IDENTIFIER, c.uid);
    if err != OK { return; }
    ghost var uidField := Field(UNIQUE_IDENTIFIER, c.uid);
    SpliceFromStart(before, HEADER_LEN, uidField);
    assert packet[..offset] == header + uidField;
    var cookieCount := (1 + c.validPlaceholders) % TWO_16;
    if cookieCount > 1 + MAX_PLACEHOLDERS { cookieCount := 1 + MAX_PLACEHOLDERS; }
    assert cookieCount == CookieCount(c.validPlaceholders);
    var plaintext := new byte[MAX_PACKET](_ => 0);
    var plaintextLen: nat;
    ghost var cookies;
    err, plaintextLen, cookies := WriteCookies(p, store, c.keys, mints, cookieCount, plaintext);
    if err != OK { return; }
    ResponseIs(p, c, header, cookies, nonce);
    ghost var authField := AuthenticatorField(p, c.keys.s2c, header + uidField, nonce, Fields(COOKIE, cookies));
    err, offset := AppendAuthenticator(p, c.keys.s2c, packet, capacity, offset, nonce, plaintext[..plaintextLen]);
    if err != OK { return; }
    SpliceAdjacent(before, HEADER_LEN, uidField, authField);
    SpliceFromStart(before, HEADER_LEN, uidField + authField);
    assert header + (uidField + authField) == header + uidField + authField;
    if offset > c.requestLength { return INVALID_SIZE, 0; }
    packetLen := offset;
    return OK, packetLen;
  }

  /** The authenticator field that seals a plaintext over associated data. */
  function AuthenticatorField(p: Prims, key: Key, ad: seq<byte>, nonce: Block, plaintext: seq<byte>): (f: seq<byte>)
    requires |plaintext| <= 132 * (1 + MAX_PLACEHOLDERS) && |plaintext| % 4 == 0
    ensures |f| == 40 + |plaintext|
  {
    assert RoundUp4(TAG_LEN + |plaintext|) == TAG_LEN + |plaintext|;
    Field(AUTHENTICATOR, AuthBody(nonce, Seal(p, key, ad, nonce, plaintext)))
  }

  /** Seals the plaintext over all bytes so far and appends the authenticator field. */
  method AppendAuthenticator(p: Prims, key: Key, packet: array<byte>, capacity: nat, offset: nat, nonce: Block,
                             plaintext: seq<byte>)
    returns (err: EspErr, next: nat)
    requires offset <= capacity <= packet.Length
    requires |plaintext| <= 132 * (1 + MAX_PLACEHOLDERS) && |plaintext| % 4 == 0
    modifies packet
    ensures err == if 40 + |plaintext| <= capacity - offset then OK else INVALID_SIZE
    ensures err == OK ==> next == offset + 40 + |plaintext|
    ensures err == OK ==>
      packet[..] == Splice(old(packet[..]), offset, AuthenticatorField(p, key, old(packet[..offset]), nonce, plaintext))
  {
    hide Seal, Field, Splice;
    var body := SealCookies(p, key, packet[..offset], nonce, plaintext);
    err, next := AppendExtension(packet, capacity, offset, AUTHENTICATOR, body);
  }

  /** Encrypts the cookie fields and lays out the authenticator body. */
  method SealCookies(p: Prims, key: Key, ad: seq<byte>, nonce: Block, plaintext: seq<byte>) returns (body: seq<byte>)
    requires |plaintext| <= 132 * (1 + MAX_PLACEHOLDERS)
    ensures body == AuthBody(nonce, Seal(p, key, ad, nonce, plaintext))
  {
    hide Seal, AuthBody;
    var buffer := new byte[MAX_PACKET](_ => 0);
    ghost var blank := buffer[..];
    var err, ciphertextLen := Encrypt(p, key, ad, nonce, plaintext, buffer, 0, MAX_PACKET);
    SpliceAtStart(blank, Seal(p, key, ad, nonce, plaintext));
    body := LayOutAuthBody(nonce, buffer[..ciphertextLen]);
  }

  method LayOutAuthBody(nonce: Block, ciphertext: seq<byte>) returns (body: seq<byte>)
    requires 20 + RoundUp4(|ciphertext|) <= MAX_PACKET
    ensures body == AuthBody(nonce, ciphertext)
  {
    hide Splice, Be16;
    var ciphertextLen := |ciphertext|;
    var paddedNonceLen, paddedCiphertextLen := RoundUp4(NONCE_LEN), RoundUp4(ciphertextLen);
    var bodyLen := 4 + paddedNonceLen + paddedCiphertextLen;
    var authBody := new byte[MAX_PACKET](_ => 0);
    ghost var z := Zeros(MAX_PACKET);
    assert authBody[..] == z;
    ghost var a, b := Be16(NONCE_LEN), Be16(ciphertextLen);
    CopyTo(authBody, 0, Be16(NONCE_LEN));
    CopyTo(authBody, 2, Be16(ciphertextLen));
    SpliceAdjacent(z, 0, a, b);
    CopyTo(authBody, 4, nonce);
    SpliceAdjacent(z, 0, a + b, nonce);
    CopyTo(authBody, 4 + paddedNonceLen, ciphertext);
    SpliceAdjacent(z, 0, a + b + nonce, ciphertext);
    SpliceIntoZeros(MAX_PACKET, a + b + nonce + ciphertext, bodyLen);
    body := authBody[..bodyLen];
  }
}
