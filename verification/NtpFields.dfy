/** Requests as lists of extension fields: which bytes are walked to what, and which are accepted
    (main/nts_ntp_auth.c). */
module NtpFields {
  import opened Bytes
  import opened Esp
  import opened AesSiv
  import opened KeyRing
  import opened Cookie
  import opened NtpAuth
  import opened NtsExchange

  datatype Ext = Ext(t: u16, body: seq<byte>)

  /** Bodies fill whole words and their length with the four header bytes fits the length field. */
  predicate Writable(e: Ext) {
    |e.body| % 4 == 0 && |e.body| + 4 < TWO_16
  }

  predicate AllWritable(fields: seq<Ext>) {
    forall i :: 0 <= i < |fields| ==> Writable(fields[i])
  }

  /** Type and length most significant byte first, then the body. */
  function Bytes4(e: Ext): seq<byte>
    requires Writable(e)
  {
    [e.t / 256, e.t % 256, (4 + |e.body|) / 256, (4 + |e.body|) % 256] + e.body
  }

  function Wire(fields: seq<Ext>): seq<byte>
    requires AllWritable(fields)
  {
    if fields == [] then [] else Wire(fields[..|fields| - 1]) + Bytes4(fields[|fields| - 1])
  }

  /** No field can be read off the front of these bytes. */
  ghost predicate StartsNoField(s: seq<byte>) {
    forall e: Ext :: Writable(e) ==> !(Bytes4(e) <= s)
  }

  lemma FieldIsBytes(e: Ext)
    requires Writable(e)
    ensures Field(e.t, e.body) == Bytes4(e) && |Bytes4(e)| == 4 + |e.body|
  {}

  /** Where a field of legal length starts, one can be read off; and conversely. */
  lemma FieldFitsIff(packet: seq<byte>, offset: nat)
    requires offset <= |packet|
    ensures FieldFits(packet, offset) <==> !StartsNoField(packet[offset..])
    ensures FieldFits(packet, offset) ==>
      var e := FieldAt(packet, offset); Writable(e) && packet[offset..offset + 4 + |e.body|] == Bytes4(e)
  {
    var s := packet[offset..];
    if FieldFits(packet, offset) {
      FittingField(packet, offset);
      hide Bytes4, Writable, FieldFits, FieldAt;
      assert packet[offset..offset + 4 + |FieldAt(packet, offset).body|] <= s;
    }
    if e: Ext :| Writable(e) && Bytes4(e) <= s {
      ReadField(packet, offset, e);
    }
  }

  lemma FittingField(packet: seq<byte>, offset: nat)
    requires FieldFits(packet, offset)
    ensures var e := FieldAt(packet, offset);
      && Writable(e) && offset + 4 + |e.body| <= |packet| && packet[offset..offset + 4 + |e.body|] == Bytes4(e)
  {}

  lemma ReadField(packet: seq<byte>, offset: nat, e: Ext)
    requires offset <= |packet| && Writable(e) && Bytes4(e) <= packet[offset..]
    ensures FieldFits(packet, offset)
  {
    var s := packet[offset..];
    assert s[2] == Bytes4(e)[2] && s[3] == Bytes4(e)[3];
    assert Rd16(packet, offset + 2) == 4 + |e.body|;
  }

  /** The field that starts at an offset. */
  function FieldAt(packet: seq<byte>, offset: nat): Ext
    requires FieldFits(packet, offset)
  {
    Ext(Rd16(packet, offset), packet[offset + 4..offset + Rd16(packet, offset + 2)])
  }

  // ---------------------------------------------------------------- what a walk collects

  /** Bodies of the fields of one type, in order. */
  function Bodies(fields: seq<Ext>, t: u16): (r: seq<seq<byte>>)
    ensures |r| <= |fields|
  {
    if fields == [] then []
    else
      var last := fields[|fields| - 1];
      Bodies(fields[..|fields| - 1], t) + if last.t == t then [last.body] else []
  }

  /** The fields before the first authenticator: the only ones it can seal. */
  function Sealable(fields: seq<Ext>): (r: seq<Ext>)
    ensures r <= fields
    ensures forall i :: 0 <= i < |r| ==> r[i].t != AUTHENTICATOR
    ensures |r| < |fields| ==> fields[|r|].t == AUTHENTICATOR
  {
    if fields == [] then []
    else
      var init := fields[..|fields| - 1];
      var r := Sealable(init);
      if |r| < |init| || fields[|init|].t == AUTHENTICATOR then r else fields
  }

  /** At most one identifier and one cookie, of legal lengths. */
  predicate Lawful(fields: seq<Ext>) {
    var uids, cookies := Bodies(fields, UNIQUE_IDENTIFIER), Bodies(fields, NtpAuth.COOKIE);
    && |uids| <= 1 && (uids != [] ==> 32 <= |uids[0]| <= 256)
    && |cookies| <= 1 && (cookies != [] ==> 0 < |cookies[0]| <= 256)
  }

  function Lengths(bodies: seq<seq<byte>>): (r: seq<nat>)
    ensures |r| == |bodies|
  {
    seq(|bodies|, i requires 0 <= i < |bodies| => |bodies[i]|)
  }

  /** The lengths of the first seven placeholders, whatever they are. */
  function Placeholders(fields: seq<Ext>): seq<nat> {
    var lens := Lengths(Bodies(fields, COOKIE_PLACEHOLDER));
    if |lens| <= 7 then lens else lens[..7]
  }

  function First<T>(s: seq<T>): Option<T> {
    if s == [] then None else Some(s[0])
  }

  /** What a walk of these fields collects, `at` being the offset at which they start. */
  function Gathered(fields: seq<Ext>, at: nat): Walked
    requires AllWritable(fields)
  {
    var sealable := Sealable(fields);
    Walked(First(Bodies(sealable, UNIQUE_IDENTIFIER)), First(Bodies(sealable, NtpAuth.COOKIE)), Placeholders(sealable),
           if sealable == fields then None else Some(Auth(at + |Wire(sealable)|, fields[|sealable|].body)))
  }

  lemma BodiesAppend(fields: seq<Ext>, e: Ext, t: u16)
    ensures Bodies(fields + [e], t) == Bodies(fields, t) + if e.t == t then [e.body] else []
  {
    assert (fields + [e])[..|fields|] == fields;
  }

  lemma WireAppend(fields: seq<Ext>, e: Ext)
    requires AllWritable(fields) && Writable(e)
    ensures AllWritable(fields + [e]) && Wire(fields + [e]) == Wire(fields) + Bytes4(e)
  {
    assert (fields + [e])[..|fields|] == fields;
  }

  lemma SealableAppend(fields: seq<Ext>, e: Ext)
    ensures Sealable(fields + [e])
         == if Sealable(fields) == fields && e.t != AUTHENTICATOR then fields + [e] else Sealable(fields)
  {
    assert (fields + [e])[..|fields|] == fields;
  }

  /** One more field: collected, skipped or refused. */
  lemma GatheredAppend(fields: seq<Ext>, e: Ext, at: nat)
    requires AllWritable(fields) && Writable(e) && Lawful(Sealable(fields))
    ensures AllWritable(fields + [e])
    ensures Collect(Gathered(fields, at), at + |Wire(fields)|, e.t, e.body)
         == if Lawful(Sealable(fields + [e])) then Ok(Gathered(fields + [e], at)) else Err(INVALID_RESPONSE)
  {
    SealableAppend(fields, e);
    hide Wire, Sealable, Bodies, Lawful, Placeholders;
    if Sealable(fields) == fields && e.t != AUTHENTICATOR {
      OpenAppend(fields, e, at);
    } else {
      assert (fields + [e])[|Sealable(fields)|] == if Sealable(fields) == fields then e else fields[|Sealable(fields)|];
      SealedWire(fields, e);
    }
  }

  lemma SealedWire(fields: seq<Ext>, e: Ext)
    requires AllWritable(fields) && Writable(e)
    ensures Sealable(fields) == fields ==> Wire(Sealable(fields)) == Wire(fields)
    ensures AllWritable(Sealable(fields)) && AllWritable(fields + [e])
  {}

  /** A field before the authenticator. */
  lemma OpenAppend(fields: seq<Ext>, e: Ext, at: nat)
    requires AllWritable(fields) && Writable(e) && Lawful(fields) && e.t != AUTHENTICATOR
    requires Sealable(fields) == fields && Sealable(fields + [e]) == fields + [e]
    ensures AllWritable(fields + [e])
    ensures Collect(Gathered(fields, at), at + |Wire(fields)|, e.t, e.body)
         == if Lawful(fields + [e]) then Ok(Gathered(fields + [e], at)) else Err(INVALID_RESPONSE)
  {
    BodiesAppend(fields, e, UNIQUE_IDENTIFIER);
    BodiesAppend(fields, e, NtpAuth.COOKIE);
    PlaceholdersAppend(fields, e);
    hide Wire, Sealable, Bodies, Placeholders;
    var uids, cookies := Bodies(fields, UNIQUE_IDENTIFIER), Bodies(fields, NtpAuth.COOKIE);
    FirstAppend(uids, e.body);
    FirstAppend(cookies, e.body);
    assert uids + [] == uids && cookies + [] == cookies;
  }

  lemma FirstAppend(s: seq<seq<byte>>, x: seq<byte>)
    ensures First(s + [x]) == if s == [] then Some(x) else First(s)
  {}

  lemma PlaceholdersAppend(fields: seq<Ext>, e: Ext)
    ensures Placeholders(fields + [e])
         == if e.t == COOKIE_PLACEHOLDER && |Placeholders(fields)| < 7 then Placeholders(fields) + [|e.body|]
            else Placeholders(fields)
  {
    BodiesAppend(fields, e, COOKIE_PLACEHOLDER);
    hide Bodies;
    var before, after := Bodies(fields, COOKIE_PLACEHOLDER), Bodies(fields + [e], COOKIE_PLACEHOLDER);
    if e.t == COOKIE_PLACEHOLDER {
      assert Lengths(after) == Lengths(before) + [|e.body|];
    }
  }

  lemma SliceParts(s: seq<byte>, at: nat, a: seq<byte>, b: seq<byte>)
    requires at + |a| + |b| <= |s| && s[at..at + |a| + |b|] == a + b
    ensures s[at..at + |a|] == a && s[at + |a|..at + |a| + |b|] == b
  {
    assert s[at..at + |a|] == (a + b)[..|a|];
    assert s[at + |a|..at + |a| + |b|] == (a + b)[|a|..];
  }

  /** What the walk of a packet comes to once these fields have been read at `at`. */
  predicate WalkedTo(packet: seq<byte>, at: nat, fields: seq<Ext>)
    requires AllWritable(fields) && at + |Wire(fields)| <= |packet|
  {
    Walk(packet, at, NOTHING)
      == if Lawful(Sealable(fields)) then Walk(packet, at + |Wire(fields)|, Gathered(fields, at)) else Err(INVALID_RESPONSE)
  }

  lemma BodyIsWhole(e: Ext)
    requires Writable(e)
    ensures |e.body| % 4 == 0 && |e.body| + 4 < TWO_16
  {}

  lemma WalkStep(packet: seq<byte>, at: nat, fields: seq<Ext>, e: Ext)
    requires AllWritable(fields) && Writable(e) && at + |Wire(fields)| + |e.body| + 4 <= |packet|
    requires WalkedTo(packet, at, fields)
    requires packet[at + |Wire(fields)|..at + |Wire(fields)| + |e.body| + 4] == Bytes4(e)
    ensures AllWritable(fields + [e]) && |Wire(fields + [e])| == |Wire(fields)| + |e.body| + 4
    ensures WalkedTo(packet, at, fields + [e])
  {
    hide Wire, Walk, Collect, Gathered, Lawful, Bytes4, Sealable, Field;
    WireAppend(fields, e);
    FieldIsBytes(e);
    BodyIsWhole(e);
    if Lawful(Sealable(fields)) {
      WalkField(packet, at + |Wire(fields)|, Gathered(fields, at), e.t, e.body);
      GatheredAppend(fields, e, at);
    } else if Lawful(Sealable(fields + [e])) {
      LawfulShrinks(fields, e);
    }
  }

  lemma {:induction false} WalkOfFields(packet: seq<byte>, at: nat, fields: seq<Ext>)
    requires AllWritable(fields) && at + |Wire(fields)| <= |packet| && packet[at..at + |Wire(fields)|] == Wire(fields)
    ensures WalkedTo(packet, at, fields)
    decreases |fields|
  {
    hide Wire, WalkedTo, Bytes4, Writable;
    if fields == [] {
      NothingWalked(packet, at);
    } else {
      var init, e := fields[..|fields| - 1], fields[|fields| - 1];
      assert fields == init + [e];
      WireAppend(init, e);
      FieldIsBytes(e);
      SliceParts(packet, at, Wire(init), Bytes4(e));
      WalkOfFields(packet, at, init);
      WalkStep(packet, at, init, e);
    }
  }

  lemma NothingWalked(packet: seq<byte>, at: nat)
    requires at <= |packet|
    ensures |Wire([])| == 0 && WalkedTo(packet, at, [])
  {
    assert Gathered([], at) == NOTHING;
  }

  lemma LawfulShrinks(fields: seq<Ext>, e: Ext)
    requires Lawful(Sealable(fields + [e]))
    ensures Lawful(Sealable(fields))
  {
    SealableAppend(fields, e);
    BodiesAppend(fields, e, UNIQUE_IDENTIFIER);
    BodiesAppend(fields, e, NtpAuth.COOKIE);
    hide Sealable, Bodies;
  }

  /** The walk of any packet: header, fields and a rest that starts no field. It is refused for a second or
      illegal identifier or cookie before the authenticator, else for the rest, and otherwise collects what
      the fields say - of which fields of other types, and all fields after the authenticator, have no part. */
  lemma WalkIs(header: seq<byte>, fields: seq<Ext>, rest: seq<byte>)
    requires |header| == HEADER_LEN && AllWritable(fields) && StartsNoField(rest)
    ensures Walk(header + Wire(fields) + rest, HEADER_LEN, NOTHING)
         == if !Lawful(Sealable(fields)) then Err(INVALID_RESPONSE)
            else if rest != [] then Err(INVALID_SIZE) else Ok(Gathered(fields, HEADER_LEN))
  {
    hide Wire, Gathered, Lawful, StartsNoField, FieldFits, Sealable, Writable, Walk;
    var packet, end := header + Wire(fields) + rest, HEADER_LEN + |Wire(fields)|;
    MiddleAndEnd(header, Wire(fields), rest);
    WalkOfFields(packet, HEADER_LEN, fields);
    WalkEnds(packet, end, Gathered(fields, HEADER_LEN));
  }

  lemma MiddleAndEnd(a: seq<byte>, b: seq<byte>, c: seq<byte>)
    ensures (a + b + c)[|a|..|a| + |b|] == b && (a + b + c)[|a| + |b|..] == c
  {}

  /** A walk at the end of a packet, or at bytes that start no field. */
  lemma WalkEnds(packet: seq<byte>, end: nat, w: Walked)
    requires end <= |packet| && StartsNoField(packet[end..])
    ensures Walk(packet, end, w) == if end == |packet| then Ok(w) else Err(INVALID_SIZE)
  {
    FieldFitsIff(packet, end);
    hide FieldFits, StartsNoField;
  }

  /** And every packet is such a one. */
  lemma {:induction false} EveryPacketSplits(packet: seq<byte>, at: nat) returns (fields: seq<Ext>, rest: seq<byte>)
    requires at <= |packet|
    ensures AllWritable(fields) && StartsNoField(rest) && packet[at..] == Wire(fields) + rest
    decreases |packet| - at
  {
    hide Wire, StartsNoField, FieldFits, FieldAt, Bytes4, Writable;
    FieldFitsIff(packet, at);
    if FieldFits(packet, at) {
      FittingField(packet, at);
      var e := FieldAt(packet, at);
      var end := at + |Bytes4(e)|;
      FieldIsBytes(e);
      var tail;
      tail, rest := EveryPacketSplits(packet, end);
      fields := [e] + tail;
      WirePrepend(e, tail);
      assert packet[at..] == packet[at..end] + packet[end..];
      Regrouped(Bytes4(e), Wire(tail), rest);
    } else {
      fields, rest := [], packet[at..];
      WireNothing();
    }
  }

  lemma Regrouped(a: seq<byte>, b: seq<byte>, c: seq<byte>)
    ensures a + (b + c) == a + b + c
  {}

  lemma {:induction false} WirePrepend(e: Ext, fields: seq<Ext>)
    requires Writable(e) && AllWritable(fields)
    ensures AllWritable([e] + fields) && Wire([e] + fields) == Bytes4(e) + Wire(fields)
  {
    hide Wire, Bytes4, Writable;
    if fields == [] {
      assert [e] + fields == [] + [e];
      WireNothing();
      WireAppend([], e);
    } else {
      var init, last := fields[..|fields| - 1], fields[|fields| - 1];
      WirePrepend(e, init);
      assert [e] + fields == ([e] + init) + [last] && fields == init + [last];
      WireAppend([e] + init, last);
      WireAppend(init, last);
    }
  }

  // ---------------------------------------------------------------- which packets are accepted

  lemma {:induction false} CountIsMultiplicity(lens: seq<nat>, len: nat)
    ensures CountEqual(lens, len) == multiset(lens)[len]
  {
    if lens != [] {
      var init := lens[..|lens| - 1];
      CountIsMultiplicity(init, len);
      assert lens == init + [lens[|lens| - 1]];
    }
  }

  lemma {:induction false} WireConcat(a: seq<Ext>, b: seq<Ext>)
    requires AllWritable(a) && AllWritable(b)
    ensures AllWritable(a + b) && Wire(a + b) == Wire(a) + Wire(b)
    decreases |b|
  {
    hide Wire, Bytes4, Writable;
    if b == [] {
      assert a + b == a;
      WireNothing();
    } else {
      var init, last := b[..|b| - 1], b[|b| - 1];
      WireConcat(a, init);
      assert a + b == (a + init) + [last];
      assert b == init + [last];
      WireAppend(a + init, last);
      WireAppend(init, last);
    }
  }

  lemma WireNothing()
    ensures Wire([]) == []
  {}

  lemma {:induction false} SealableStops(before: seq<Ext>, after: seq<Ext>)
    requires Sealable(before) == before && after != [] && after[0].t == AUTHENTICATOR
    ensures Sealable(before + after) == before
    decreases |after|
  {
    var init, last := after[..|after| - 1], after[|after| - 1];
    assert before + after == (before + init) + [last];
    SealableAppend(before + init, last);
    if init == [] {
      assert before + init == before;
    } else {
      SealableStops(before, init);
    }
  }

  lemma {:induction false} NoneSealed(fields: seq<Ext>)
    requires forall i :: 0 <= i < |fields| ==> fields[i].t != AUTHENTICATOR
    ensures Sealable(fields) == fields
  {
    if fields != [] { NoneSealed(fields[..|fields| - 1]); }
  }

  /** An authenticator body: nonce and ciphertext lengths of sixteen, the nonce, the synthetic tag of the
      empty text, and any padding. */
  function AuthenticatorBody(nonce: Block, tag: Block, pad: seq<byte>): (b: seq<byte>)
    ensures |b| == 36 + |pad|
  {
    [0, 16, 0, 16] + nonce + tag + pad
  }

  lemma BodyParts(nonce: Block, tag: Block, pad: seq<byte>)
    ensures AuthParts(AuthenticatorBody(nonce, tag, pad)) == Ok((nonce, tag))
  {
    var b := AuthenticatorBody(nonce, tag, pad);
    assert b[4..20] == nonce && b[20..36] == tag;
  }

  lemma PartsBody(body: seq<byte>)
    requires AuthParts(body).Ok? && |AuthParts(body).value.1| == 16
    ensures |body| >= 36 && body == AuthenticatorBody(AuthParts(body).value.0, AuthParts(body).value.1, body[36..])
  {
    assert Rd16(body, 0) == 16 && Rd16(body, 2) == 16;
    assert body == body[..4] + body[4..20] + body[20..36] + body[36..];
  }

  /** The parts of a request: what comes before the authenticator, its nonce and padding, what comes after. */
  datatype Parts = Parts(header: seq<byte>, before: seq<Ext>, nonce: Block, pad: seq<byte>, after: seq<Ext>)

  predicate WellFormed(r: Parts) {
    && |r.header| == HEADER_LEN && AllWritable(r.before) && AllWritable(r.after)
    && (forall i :: 0 <= i < |r.before| ==> r.before[i].t != AUTHENTICATOR)
    && |r.pad| % 4 == 0 && |r.pad| + 40 < TWO_16
  }

  /** Everything the authenticator seals. */
  function SealedBytes(r: Parts): seq<byte>
    requires WellFormed(r)
  {
    r.header + Wire(r.before)
  }

  /** The authenticator seals the empty text over all bytes before it. */
  function Authenticator(p: Prims, c2s: Key, r: Parts): (e: Ext)
    requires WellFormed(r)
    ensures Writable(e) && e.t == AUTHENTICATOR
  {
    var tag := Seal(p, c2s, SealedBytes(r), r.nonce, []);
    AuthenticatorExt(r.nonce, tag, r.pad)
  }

  function AuthenticatorExt(nonce: Block, tag: Block, pad: seq<byte>): (e: Ext)
    requires |pad| % 4 == 0 && |pad| + 40 < TWO_16
    ensures Writable(e) && e.t == AUTHENTICATOR
  {
    Ext(AUTHENTICATOR, AuthenticatorBody(nonce, tag, pad))
  }

  function RequestBytes(p: Prims, c2s: Key, r: Parts): seq<byte>
    requires WellFormed(r)
  {
    SealedBytes(r) + Bytes4(Authenticator(p, c2s, r)) + Wire(r.after)
  }

  /** Before the authenticator there is just one identifier and one cookie, of legal lengths. Fields of any
      other type may be anywhere. */
  predicate Identifies(r: Parts, uid: seq<byte>, cookie: seq<byte>)
    requires WellFormed(r)
  {
    && Bodies(r.before, UNIQUE_IDENTIFIER) == [uid] && 32 <= |uid| <= 256
    && Bodies(r.before, NtpAuth.COOKIE) == [cookie] && 0 < |cookie| <= 256
  }

  /** The placeholders that count: as long as the cookie, and among the first seven before the authenticator. */
  function Counted(r: Parts, cookie: seq<byte>): nat
    requires WellFormed(r)
  {
    multiset(Placeholders(r.before))[|cookie|]
  }

  lemma Grouped(a: seq<byte>, b: seq<byte>, c: seq<byte>, d: seq<byte>)
    ensures a + (b + c + d) + [] == a + b + c + d
  {}

  lemma RequestFields(p: Prims, c2s: Key, r: Parts)
    requires WellFormed(r)
    ensures var fields := r.before + [Authenticator(p, c2s, r)] + r.after;
      && AllWritable(fields) && Sealable(fields) == r.before && |r.before| < |fields|
      && fields[|r.before|] == Authenticator(p, c2s, r)
      && r.header + Wire(fields) + [] == RequestBytes(p, c2s, r)
  {
    var auth := Authenticator(p, c2s, r);
    hide Authenticator, Sealable, Wire, Bytes4, Writable, Seal;
    FieldsAround(r.before, auth, r.after);
    Grouped(r.header, Wire(r.before), Bytes4(auth), Wire(r.after));
  }

  lemma FieldsAround(before: seq<Ext>, auth: Ext, after: seq<Ext>)
    requires AllWritable(before) && Writable(auth) && AllWritable(after) && auth.t == AUTHENTICATOR
    requires forall i :: 0 <= i < |before| ==> before[i].t != AUTHENTICATOR
    ensures var fields := before + [auth] + after;
      && AllWritable(fields) && Sealable(fields) == before && fields[|before|] == auth
      && Wire(fields) == Wire(before) + Bytes4(auth) + Wire(after)
  {
    hide Sealable, Wire, Bytes4, Writable;
    NoneSealed(before);
    SealableStops(before, [auth] + after);
    assert before + ([auth] + after) == before + [auth] + after;
    WireAppend(before, auth);
    WireConcat(before + [auth], after);
  }

  /** Such a packet walks to what its sealable part says. */
  lemma RequestWalks(p: Prims, c2s: Key, r: Parts, uid: seq<byte>, cookie: seq<byte>)
    requires WellFormed(r) && Identifies(r, uid, cookie)
    ensures var packet := RequestBytes(p, c2s, r);
      && |SealedBytes(r)| <= |packet| && packet[..|SealedBytes(r)|] == SealedBytes(r)
      && Walk(packet, HEADER_LEN, NOTHING)
           == Ok(Walked(Some(uid), Some(cookie), Placeholders(r.before),
                        Some(Auth(|SealedBytes(r)|, Authenticator(p, c2s, r).body))))
  {
    hide Sealable, Wire, Bytes4, Writable, Seal, Walk, Bodies, Placeholders, Authenticator;
    var auth := Authenticator(p, c2s, r);
    var fields := r.before + [auth] + r.after;
    RequestFields(p, c2s, r);
    NothingStarts();
    WalkIs(r.header, fields, []);
    GatheredFrom(fields, r.before, auth, uid, cookie);
    StartsWith(SealedBytes(r), Bytes4(auth), Wire(r.after));
    hide RequestBytes;
  }

  lemma StartsWith(a: seq<byte>, b: seq<byte>, c: seq<byte>)
    ensures (a + b + c)[..|a|] == a
  {}

  lemma NothingStarts()
    ensures StartsNoField([])
  {}

  lemma GatheredFrom(fields: seq<Ext>, before: seq<Ext>, auth: Ext, uid: seq<byte>, cookie: seq<byte>)
    requires AllWritable(fields) && AllWritable(before) && Sealable(fields) == before
    requires |before| < |fields| && fields[|before|] == auth
    requires Bodies(before, UNIQUE_IDENTIFIER) == [uid] && 32 <= |uid| <= 256
    requires Bodies(before, NtpAuth.COOKIE) == [cookie] && 0 < |cookie| <= 256
    ensures Lawful(before)
    ensures Gathered(fields, HEADER_LEN)
         == Walked(Some(uid), Some(cookie), Placeholders(before), Some(Auth(HEADER_LEN + |Wire(before)|, auth.body)))
  {
    hide Bodies, Wire, Sealable, Placeholders, Writable;
  }

  /** Any packet built this way is accepted with exactly its identifier, the placeholders that count and the
      keys its cookie unpacks to. */
  lemma RequestVerifies(p: Prims, stored: Option<Ring>, env: Env, now: Option<u32>, keys: Keys, r: Parts,
                        uid: seq<byte>, cookie: seq<byte>)
    requires WellFormed(r) && Identifies(r, uid, cookie)
    requires UnpackCall(p, stored, env, cookie, now).0 == Ok(keys) && |RequestBytes(p, keys.c2s, r)| <= MAX_PACKET
    ensures var packet := RequestBytes(p, keys.c2s, r);
      && |packet| >= HEADER_LEN && Counted(r, cookie) < TWO_16
      && VerifyCall(p, stored, env, packet, now).0 == Ok(Context(uid, Counted(r, cookie), |packet|, keys))
  {
    var packet := RequestBytes(p, keys.c2s, r);
    RequestWalks(p, keys.c2s, r, uid, cookie);
    CountIsMultiplicity(Placeholders(r.before), |cookie|);
    var tag := Seal(p, keys.c2s, SealedBytes(r), r.nonce, []);
    BodyParts(r.nonce, tag, r.pad);
    assert |Placeholders(r.before)| <= 7;
    hide Walk, Wire, Seal, UnpackCall, AuthParts, VerifyCall, Bodies, CountEqual, Placeholders, AuthenticatorBody, Bytes4;
    VerifiedIffAuthentic(p, stored, env, packet, now, Context(uid, Counted(r, cookie), |packet|, keys));
  }

  /** The packet is this request, and the context what it asks for: its cookie unpacks to the context's keys. */
  predicate Requests(p: Prims, stored: Option<Ring>, env: Env, packet: seq<byte>, now: Option<u32>, r: Parts, c: Context) {
    && WellFormed(r) && packet == RequestBytes(p, c.keys.c2s, r)
    && |Bodies(r.before, NtpAuth.COOKIE)| == 1
    && var cookie := Bodies(r.before, NtpAuth.COOKIE)[0];
       && Identifies(r, c.uid, cookie)
       && UnpackCall(p, stored, env, cookie, now).0 == Ok(c.keys)
       && c.validPlaceholders == Counted(r, cookie) && c.requestLength == |packet|
  }

  lemma OnlyBody(bodies: seq<seq<byte>>)
    requires |bodies| <= 1 && First(bodies).Some?
    ensures bodies == [First(bodies).value]
  {}

  /** The authenticator field of an accepted packet, taken apart. */
  lemma AuthenticatorOf(p: Prims, packet: seq<byte>, c2s: Key, header: seq<byte>, before: seq<Ext>, auth: Ext, after: seq<Ext>)
    returns (r: Parts)
    requires |header| == HEADER_LEN && AllWritable(before) && Writable(auth) && AllWritable(after)
    requires forall i :: 0 <= i < |before| ==> before[i].t != AUTHENTICATOR
    requires auth.t == AUTHENTICATOR && packet == header + Wire(before) + Bytes4(auth) + Wire(after)
    requires SealsPrefix(p, c2s, packet, Auth(HEADER_LEN + |Wire(before)|, auth.body))
    ensures WellFormed(r) && r.before == before && packet == RequestBytes(p, c2s, r)
  {
    hide Wire, Bytes4, AuthParts, Seal, AuthenticatorExt, Writable;
    var sealed := header + Wire(before);
    StartsWith(sealed, Bytes4(auth), Wire(after));
    var nonce, pad := SealedAuthenticator(p, c2s, sealed, auth);
    r := Parts(header, before, nonce, pad, after);
  }

  lemma SealedAuthenticator(p: Prims, c2s: Key, sealed: seq<byte>, auth: Ext) returns (nonce: Block, pad: seq<byte>)
    requires Writable(auth) && auth.t == AUTHENTICATOR && AuthParts(auth.body).Ok?
    requires AuthParts(auth.body).value.1 == Seal(p, c2s, sealed, AuthParts(auth.body).value.0, [])
    ensures |pad| % 4 == 0 && |pad| + 40 < TWO_16
    ensures auth == AuthenticatorExt(nonce, Seal(p, c2s, sealed, nonce, []), pad)
  {
    hide AuthParts, Seal, AuthenticatorBody, RoundUp4;
    nonce, pad := AuthParts(auth.body).value.0, [];
    assert |Seal(p, c2s, sealed, nonce, [])| == 16;
    PartsBody(auth.body);
    pad := auth.body[36..];
    PadLength(|auth.body|, |pad|);
  }

  lemma PadLength(body: nat, pad: nat)
    requires body == 36 + pad && body % 4 == 0
    ensures pad % 4 == 0
  {}

  /** Cutting the fields of a walked packet at the first authenticator. */
  lemma CutAtAuthenticator(header: seq<byte>, fields: seq<Ext>)
    requires AllWritable(fields) && |Sealable(fields)| < |fields|
    ensures var before := Sealable(fields);
      var auth, after := fields[|before|], fields[|before| + 1..];
      && AllWritable(before) && Writable(auth) && AllWritable(after) && auth.t == AUTHENTICATOR
      && header + Wire(fields) + [] == header + Wire(before) + Bytes4(auth) + Wire(after)
  {
    var before := Sealable(fields);
    var auth, after := fields[|before|], fields[|before| + 1..];
    assert fields == before + [auth] + after;
    hide Wire, Bytes4, Writable, Sealable;
    WireAppend(before, auth);
    WireConcat(before + [auth], after);
    Grouped(header, Wire(before), Bytes4(auth), Wire(after));
  }

  /** The fields of an accepted packet. */
  lemma AcceptedFields(p: Prims, stored: Option<Ring>, env: Env, packet: seq<byte>, now: Option<u32>, c: Context)
    returns (fields: seq<Ext>)
    requires HEADER_LEN <= |packet| && VerifyCall(p, stored, env, packet, now).0 == Ok(c)
    ensures |packet| <= MAX_PACKET && AllWritable(fields) && packet == packet[..HEADER_LEN] + Wire(fields) + []
    ensures Lawful(Sealable(fields)) && IsContextOf(p, stored, env, packet, now, Gathered(fields, HEADER_LEN), c)
  {
    var rest;
    fields, rest := EveryPacketSplits(packet, HEADER_LEN);
    assert packet == packet[..HEADER_LEN] + Wire(fields) + rest;
    hide Walk, Wire, VerifyCall, StartsNoField, Sealable, Lawful, Gathered, IsContextOf, Writable;
    WalkIs(packet[..HEADER_LEN], fields, rest);
    VerifiedIffAuthentic(p, stored, env, packet, now, c);
  }

  /** The parts of an accepted packet. */
  lemma AcceptedIsRequest(p: Prims, stored: Option<Ring>, env: Env, packet: seq<byte>, now: Option<u32>, c: Context)
    returns (r: Parts)
    requires HEADER_LEN <= |packet| && VerifyCall(p, stored, env, packet, now).0 == Ok(c)
    ensures |packet| <= MAX_PACKET && Requests(p, stored, env, packet, now, r, c)
  {
    hide Wire, UnpackCall, VerifyCall, Bodies, CountEqual, Placeholders, Bytes4, Sealable, SealsPrefix, RequestBytes, Writable;
    var fields := AcceptedFields(p, stored, env, packet, now, c);
    var before := Sealable(fields);
    GatheredAuth(fields);
    CutAtAuthenticator(packet[..HEADER_LEN], fields);
    r := AuthenticatorOf(p, packet, c.keys.c2s, packet[..HEADER_LEN], before, fields[|before|], fields[|before| + 1..]);
    OnlyBody(Bodies(before, UNIQUE_IDENTIFIER));
    OnlyBody(Bodies(before, NtpAuth.COOKIE));
    CountIsMultiplicity(Placeholders(before), |Bodies(before, NtpAuth.COOKIE)[0]|);
  }

  lemma GatheredAuth(fields: seq<Ext>)
    requires AllWritable(fields) && Gathered(fields, HEADER_LEN).auth.Some?
    ensures |Sealable(fields)| < |fields| && AllWritable(Sealable(fields))
    ensures Gathered(fields, HEADER_LEN).auth.value
         == Auth(HEADER_LEN + |Wire(Sealable(fields))|, fields[|Sealable(fields)|].body)
  {}

  /** Acceptance in terms of bytes: a packet is verified to a context if and only if it is of legal size and a
      request for that context - header, any fields but authenticators, with one identifier and one cookie
      among them, an authenticator that seals them under the key in the cookie, and any fields after it. */
  lemma VerifiesIff(p: Prims, stored: Option<Ring>, env: Env, packet: seq<byte>, now: Option<u32>, c: Context)
    requires HEADER_LEN <= |packet|
    ensures VerifyCall(p, stored, env, packet, now).0 == Ok(c)
      <==> |packet| <= MAX_PACKET && exists r: Parts :: Requests(p, stored, env, packet, now, r, c)
  {
    hide VerifyCall, Bodies, UnpackCall, RequestBytes, Identifies, Placeholders;
    if VerifyCall(p, stored, env, packet, now).0 == Ok(c) {
      var r := AcceptedIsRequest(p, stored, env, packet, now, c);
    }
    if r: Parts :| |packet| <= MAX_PACKET && Requests(p, stored, env, packet, now, r, c) {
      RequestVerifies(p, stored, env, now, c.keys, r, c.uid, Bodies(r.before, NtpAuth.COOKIE)[0]);
    }
  }

  lemma IllegalSizeIsRefused(p: Prims, stored: Option<Ring>, env: Env, now: Option<u32>, packet: seq<byte>)
    requires |packet| < 48 || |packet| > 1280
    ensures VerifyCall(p, stored, env, packet, now) == (Err(INVALID_ARG), stored)
  {}

  /** Why a packet that does not get as far as its cookie is refused - without touching the key ring - and
      that any other leaves the ring as unpacking the cookie does. */
  lemma RefusalIs(p: Prims, stored: Option<Ring>, env: Env, now: Option<u32>, header: seq<byte>, fields: seq<Ext>, rest: seq<byte>)
    requires |header| == HEADER_LEN && AllWritable(fields) && StartsNoField(rest)
    requires |header + Wire(fields) + rest| <= MAX_PACKET
    ensures var before := Sealable(fields);
      var uids, cookies := Bodies(before, UNIQUE_IDENTIFIER), Bodies(before, NtpAuth.COOKIE);
      var call := VerifyCall(p, stored, env, header + Wire(fields) + rest, now);
      if !Lawful(before) then call == (Err(INVALID_RESPONSE), stored)
      else if rest != [] then call == (Err(INVALID_SIZE), stored)
      else if uids == [] || cookies == [] || before == fields then call == (Err(NOT_FOUND), stored)
      else if AuthParts(fields[|before|].body).Err? then call == (Err(INVALID_SIZE), stored)
      else
        call.1 == UnpackCall(p, stored, env, cookies[0], now).1
        && (UnpackCall(p, stored, env, cookies[0], now).0.Err? ==>
              call.0 == Err(UnpackCall(p, stored, env, cookies[0], now).0.error))
  {
    var packet := header + Wire(fields) + rest;
    hide Walk, Wire, Seal, UnpackCall, AuthParts, Bodies, CountEqual, Placeholders, StartsNoField, Bytes4, Sealable, Writable,
         Lawful, Authenticated;
    WalkIs(header, fields, rest);
  }
}
