/** The binary payload of an NTDF token: reader, reference encoder, and their exact agreement. */
module NtdfToken {
  import opened Bytes
  import Utf8

  /** The bytes of a string; every string field is well-formed UTF-8. */
  type Text = seq<byte>

  datatype Attr = Attr(kind: byte, value: nat)

  datatype Payload = Payload(
    subId: seq<byte>,
    flags: nat,
    scopes: seq<Text>,
    attrs: seq<Attr>,
    dpopJti: Option<seq<byte>>,
    iat: int,
    exp: int,
    aud: Text,
    sessionId: Option<seq<byte>>,
    deviceId: Option<Text>,
    did: Option<Text>)

  datatype Field = Scope | Audience | DeviceId | Did

  datatype Error = PayloadTooShort | InvalidPayload(field: Field)

  /** A value read from the front of a byte string, with the bytes after it. */
  type Read<T> = Result<(T, seq<byte>), Error>

  // ---------------------------------------------------------------- reader

  function Take(s: seq<byte>, n: nat): Read<seq<byte>> {
    if n <= |s| then Ok((s[..n], s[n..])) else Err(PayloadTooShort)
  }

  function TakeNat(s: seq<byte>, width: nat): Read<nat> {
    var (b, rest) :- Take(s, width);
    Ok((LeValue(b), rest))
  }

  function TakeInt(s: seq<byte>): Read<int> {
    var (b, rest) :- Take(s, 8);
    LeCanonical(b);
    Ok((Signed(LeValue(b), 8), rest))
  }

  function TakeText(s: seq<byte>, width: nat, field: Field): Read<Text> {
    var (len, s1) :- TakeNat(s, width);
    var (b, rest) :- Take(s1, len);
    if Utf8.Valid(b) then Ok((b, rest)) else Err(InvalidPayload(field))
  }

  function TakeScopes(s: seq<byte>, count: nat): Read<seq<Text>>
    decreases count
  {
    if count == 0 then Ok(([], s)) else
    var (t, s1) :- TakeText(s, 1, Scope);
    var (ts, rest) :- TakeScopes(s1, count - 1);
    Ok(([t] + ts, rest))
  }

  function TakeAttr(s: seq<byte>): Read<Attr> {
    var (kind, s1) :- Take(s, 1);
    var (value, rest) :- TakeNat(s1, 4);
    Ok((Attr(kind[0], value), rest))
  }

  function TakeAttrs(s: seq<byte>, count: nat): Read<seq<Attr>>
    decreases count
  {
    if count == 0 then Ok(([], s)) else
    var (a, s1) :- TakeAttr(s);
    var (attrs, rest) :- TakeAttrs(s1, count - 1);
    Ok(([a] + attrs, rest))
  }

  function TakeOptionalId(s: seq<byte>): Read<Option<seq<byte>>> {
    var (mark, s1) :- Take(s, 1);
    if mark[0] == 0 then Ok((None, s1)) else
    var (id, rest) :- Take(s1, 16);
    Ok((Some(id), rest))
  }

  function TakeOptionalText(s: seq<byte>, width: nat, field: Field): Read<Option<Text>> {
    var (mark, s1) :- Take(s, 1);
    if mark[0] == 0 then Ok((None, s1)) else
    var (t, rest) :- TakeText(s1, width, field);
    Ok((Some(t), rest))
  }

  function Parse(s: seq<byte>): Read<Payload> {
    var (subId, s1) :- Take(s, 16);
    var (flags, s2) :- TakeNat(s1, 8);
    var (scopeCount, s3) :- TakeNat(s2, 2);
    var (scopes, s4) :- TakeScopes(s3, scopeCount);
    var (attrCount, s5) :- TakeNat(s4, 2);
    var (attrs, s6) :- TakeAttrs(s5, attrCount);
    TakeClaims(subId, flags, scopes, attrs, s6)
  }

  /** The fields after the attributes. */
  function TakeClaims(subId: seq<byte>, flags: nat, scopes: seq<Text>, attrs: seq<Attr>, s: seq<byte>): Read<Payload> {
    var (dpopJti, s7) :- TakeOptionalId(s);
    var (iat, s8) :- TakeInt(s7);
    var (exp, s9) :- TakeInt(s8);
    var (aud, s10) :- TakeText(s9, 2, Audience);
    var (sessionId, s11) :- TakeOptionalId(s10);
    var (deviceId, s12) :- TakeOptionalText(s11, 1, DeviceId);
    var (did, rest) :- TakeOptionalText(s12, 2, Did);
    Ok((Payload(subId, flags, scopes, attrs, dpopJti, iat, exp, aud, sessionId, deviceId, did), rest))
  }

  // ------------------------------------------------- reference encoder
  // Every encoder takes the bytes that follow, so that encodings compose without reassociation.

  function PutNat(n: nat, width: nat, rest: seq<byte>): seq<byte> {
    Le(n, width) + rest
  }

  function PutInt(i: int, rest: seq<byte>): seq<byte>
    requires FitsSigned(i, 8)
  {
    Le(Unsigned(i, 8), 8) + rest
  }

  function PutText(t: Text, width: nat, rest: seq<byte>): seq<byte> {
    PutNat(|t|, width, t + rest)
  }

  function PutScopes(ts: seq<Text>, rest: seq<byte>): seq<byte> {
    if ts == [] then rest else PutText(ts[0], 1, PutScopes(ts[1..], rest))
  }

  function PutAttrs(attrs: seq<Attr>, rest: seq<byte>): seq<byte> {
    if attrs == [] then rest
    else [attrs[0].kind] + PutNat(attrs[0].value, 4, PutAttrs(attrs[1..], rest))
  }

  function PutOptionalId(id: Option<seq<byte>>, mark: byte, rest: seq<byte>): seq<byte> {
    match id
    case None => [0] + rest
    case Some(b) => [mark] + (b + rest)
  }

  function PutOptionalText(t: Option<Text>, mark: byte, width: nat, rest: seq<byte>): seq<byte> {
    match t
    case None => [0] + rest
    case Some(b) => [mark] + PutText(b, width, rest)
  }

  predicate TextFits(t: Text, width: nat) {
    |t| < Pow256(width) && Utf8.Valid(t)
  }

  /** Every length fits its prefix, every integer its width, and every string is UTF-8. */
  predicate WellFormed(p: Payload) {
    && |p.subId| == 16
    && p.flags < Pow256(8)
    && |p.scopes| < Pow256(2)
    && (forall t | t in p.scopes :: TextFits(t, 1))
    && |p.attrs| < Pow256(2)
    && (forall a | a in p.attrs :: a.value < Pow256(4))
    && (p.dpopJti.Some? ==> |p.dpopJti.value| == 16)
    && FitsSigned(p.iat, 8)
    && FitsSigned(p.exp, 8)
    && TextFits(p.aud, 2)
    && (p.sessionId.Some? ==> |p.sessionId.value| == 16)
    && (p.deviceId.Some? ==> TextFits(p.deviceId.value, 1))
    && (p.did.Some? ==> TextFits(p.did.value, 2))
  }

  /** The byte that announces each optional field that is present; any nonzero value will do. */
  datatype Marks = Marks(jti: byte, session: byte, device: byte, did: byte)

  predicate Announces(m: Marks) {
    m.jti != 0 && m.session != 0 && m.device != 0 && m.did != 0
  }

  function EncodeWith(p: Payload, m: Marks, rest: seq<byte>): seq<byte>
    requires WellFormed(p)
  {
    p.subId +
    PutNat(p.flags, 8,
           PutNat(|p.scopes|, 2,
                  PutScopes(p.scopes,
                            PutNat(|p.attrs|, 2,
                                   PutAttrs(p.attrs, EncodeClaims(p, m, rest))))))
  }

  function EncodeClaims(p: Payload, m: Marks, rest: seq<byte>): seq<byte>
    requires WellFormed(p)
  {
    PutOptionalId(p.dpopJti, m.jti,
                  PutInt(p.iat,
                         PutInt(p.exp,
                                PutText(p.aud, 2,
                                        PutOptionalId(p.sessionId, m.session,
                                                      PutOptionalText(p.deviceId, m.device, 1,
                                                                      PutOptionalText(p.did, m.did, 2, rest)))))))
  }

  const CANONICAL := Marks(1, 1, 1, 1)

  function Encode(p: Payload): seq<byte>
    requires WellFormed(p)
  {
    EncodeWith(p, CANONICAL, [])
  }

  // ------------------------------------- each reader inverts its encoder

  lemma TakeAfterPut(b: seq<byte>, rest: seq<byte>)
    ensures Take(b + rest, |b|) == Ok((b, rest))
  {
    assert (b + rest)[..|b|] == b && (b + rest)[|b|..] == rest;
  }

  lemma TakeNatReads(n: nat, width: nat, rest: seq<byte>)
    requires n < Pow256(width)
    ensures TakeNat(PutNat(n, width, rest), width) == Ok((n, rest))
  {
    TakeAfterPut(Le(n, width), rest);
    LeRoundTrip(n, width);
  }

  lemma TakeIntReads(i: int, rest: seq<byte>)
    requires FitsSigned(i, 8)
    ensures TakeInt(PutInt(i, rest)) == Ok((i, rest))
  {
    SignedRoundTrip(i, 8);
    TakeAfterPut(Le(Unsigned(i, 8), 8), rest);
    LeRoundTrip(Unsigned(i, 8), 8);
  }

  lemma TakeTextReads(t: Text, width: nat, field: Field, rest: seq<byte>)
    requires TextFits(t, width)
    ensures TakeText(PutText(t, width, rest), width, field) == Ok((t, rest))
  {
    TakeNatReads(|t|, width, t + rest);
    TakeAfterPut(t, rest);
  }

  lemma {:induction false} TakeScopesReads(ts: seq<Text>, rest: seq<byte>)
    requires forall t | t in ts :: TextFits(t, 1)
    ensures TakeScopes(PutScopes(ts, rest), |ts|) == Ok((ts, rest))
  {
    if ts != [] {
      TakeTextReads(ts[0], 1, Scope, PutScopes(ts[1..], rest));
      TakeScopesReads(ts[1..], rest);
      assert [ts[0]] + ts[1..] == ts;
    }
  }

  lemma TakeAttrReads(a: Attr, rest: seq<byte>)
    requires a.value < Pow256(4)
    ensures TakeAttr([a.kind] + PutNat(a.value, 4, rest)) == Ok((a, rest))
  {
    TakeAfterPut([a.kind], PutNat(a.value, 4, rest));
    TakeNatReads(a.value, 4, rest);
  }

  lemma {:induction false} TakeAttrsReads(attrs: seq<Attr>, rest: seq<byte>)
    requires forall a | a in attrs :: a.value < Pow256(4)
    ensures TakeAttrs(PutAttrs(attrs, rest), |attrs|) == Ok((attrs, rest))
  {
    if attrs != [] {
      TakeAttrReads(attrs[0], PutAttrs(attrs[1..], rest));
      TakeAttrsReads(attrs[1..], rest);
      assert [attrs[0]] + attrs[1..] == attrs;
    }
  }

  lemma TakeOptionalIdReads(id: Option<seq<byte>>, mark: byte, rest: seq<byte>)
    requires mark != 0
    requires id.Some? ==> |id.value| == 16
    ensures TakeOptionalId(PutOptionalId(id, mark, rest)) == Ok((id, rest))
  {
    match id
    case None => TakeAfterPut([0], rest);
    case Some(b) =>
      TakeAfterPut([mark], b + rest);
      TakeAfterPut(b, rest);
  }

  lemma TakeOptionalTextReads(t: Option<Text>, mark: byte, width: nat, field: Field, rest: seq<byte>)
    requires mark != 0
    requires t.Some? ==> TextFits(t.value, width)
    ensures TakeOptionalText(PutOptionalText(t, mark, width, rest), width, field) == Ok((t, rest))
  {
    match t
    case None => TakeAfterPut([0], rest);
    case Some(b) =>
      TakeAfterPut([mark], PutText(b, width, rest));
      TakeTextReads(b, width, field, rest);
  }

  /** Reading back any encoding of p, whatever nonzero marks it uses and whatever follows it, gives p. */
  lemma ParseReads(p: Payload, m: Marks, rest: seq<byte>)
    requires WellFormed(p) && Announces(m)
    ensures Parse(EncodeWith(p, m, rest)) == Ok((p, rest))
  {
    var r7 := PutOptionalText(p.did, m.did, 2, rest);
    ParsePastSession(p, m, PutOptionalText(p.deviceId, m.device, 1, r7));
    TakeOptionalTextReads(p.deviceId, m.device, 1, DeviceId, r7);
    TakeOptionalTextReads(p.did, m.did, 2, Did, rest);
    assert EncodeWith(p, m, rest) == UpToDid(p, m, r7);
  }

  // ------------------------- every accepted input is such an encoding

  lemma TakeNatExact(s: seq<byte>, width: nat)
    requires TakeNat(s, width).Ok?
    ensures var (n, rest) := TakeNat(s, width).value;
            n < Pow256(width) && s == PutNat(n, width, rest)
  {
    LeCanonical(s[..width]);
  }

  lemma TakeIntExact(s: seq<byte>)
    requires TakeInt(s).Ok?
    ensures var (i, rest) := TakeInt(s).value;
            FitsSigned(i, 8) && s == PutInt(i, rest)
  {
    LeCanonical(s[..8]);
    UnsignedRoundTrip(LeValue(s[..8]), 8);
  }

  lemma TakeTextExact(s: seq<byte>, width: nat, field: Field)
    requires TakeText(s, width, field).Ok?
    ensures var (t, rest) := TakeText(s, width, field).value;
            TextFits(t, width) && s == PutText(t, width, rest)
  {
    TakeNatExact(s, width);
    var (len, s1) := TakeNat(s, width).value;
    PutAfterTake(s1, len);
  }

  lemma {:induction false} TakeScopesExact(s: seq<byte>, count: nat)
    requires TakeScopes(s, count).Ok?
    ensures var (ts, rest) := TakeScopes(s, count).value;
            |ts| == count && (forall t | t in ts :: TextFits(t, 1)) && s == PutScopes(ts, rest)
    decreases count
  {
    if count > 0 {
      TakeTextExact(s, 1, Scope);
      var (t, s1) := TakeText(s, 1, Scope).value;
      TakeScopesExact(s1, count - 1);
      var (ts, _) := TakeScopes(s1, count - 1).value;
      assert ([t] + ts)[1..] == ts;
    }
  }

  lemma {:induction false} TakeAttrsExact(s: seq<byte>, count: nat)
    requires TakeAttrs(s, count).Ok?
    ensures var (attrs, rest) := TakeAttrs(s, count).value;
            |attrs| == count && (forall a | a in attrs :: a.value < Pow256(4)) && s == PutAttrs(attrs, rest)
    decreases count
  {
    if count > 0 {
      TakeNatExact(s[1..], 4);
      var (a, s1) := TakeAttr(s).value;
      TakeAttrsExact(s1, count - 1);
      var (attrs, _) := TakeAttrs(s1, count - 1).value;
      assert ([a] + attrs)[1..] == attrs;
      PutAfterTake(s, 1);
    }
  }

  /** The mark to rebuild an optional field with: the one read, or 1 where the field is absent. */
  function MarkOf(s: seq<byte>): byte {
    if s == [] || s[0] == 0 then 1 else s[0]
  }

  lemma TakeOptionalIdExact(s: seq<byte>)
    requires TakeOptionalId(s).Ok?
    ensures var (id, rest) := TakeOptionalId(s).value;
            (id.Some? ==> |id.value| == 16) && s == PutOptionalId(id, MarkOf(s), rest)
  {
    PutAfterTake(s, 1);
    if s[0] != 0 {
      PutAfterTake(s[1..], 16);
    }
  }

  lemma TakeOptionalTextExact(s: seq<byte>, width: nat, field: Field)
    requires TakeOptionalText(s, width, field).Ok?
    ensures var (t, rest) := TakeOptionalText(s, width, field).value;
            (t.Some? ==> TextFits(t.value, width)) && s == PutOptionalText(t, MarkOf(s), width, rest)
  {
    PutAfterTake(s, 1);
    if s[0] != 0 {
      TakeTextExact(s[1..], width, field);
    }
  }

  /** Every accepted input is an encoding of the payload read, for some nonzero marks. */
  lemma ParseDecomposes(s: seq<byte>) returns (m: Marks)
    requires Parse(s).Ok?
    ensures var (p, rest) := Parse(s).value;
            WellFormed(p) && Announces(m) && s == EncodeWith(p, m, rest)
  {
    var (subId, s1) := Take(s, 16).value;
    PutAfterTake(s, 16);
    var (flags, s2) := TakeNat(s1, 8).value;
    TakeNatExact(s1, 8);
    var (scopeCount, s3) := TakeNat(s2, 2).value;
    TakeNatExact(s2, 2);
    var (scopes, s4) := TakeScopes(s3, scopeCount).value;
    TakeScopesExact(s3, scopeCount);
    var (attrCount, s5) := TakeNat(s4, 2).value;
    TakeNatExact(s4, 2);
    var (attrs, s6) := TakeAttrs(s5, attrCount).value;
    TakeAttrsExact(s5, attrCount);
    var (_, s7) := TakeOptionalId(s6).value;
    TakeOptionalIdExact(s6);
    var (_, s8) := TakeInt(s7).value;
    TakeIntExact(s7);
    var (_, s9) := TakeInt(s8).value;
    TakeIntExact(s8);
    var (_, s10) := TakeText(s9, 2, Audience).value;
    TakeTextExact(s9, 2, Audience);
    var (_, s11) := TakeOptionalId(s10).value;
    TakeOptionalIdExact(s10);
    var (_, s12) := TakeOptionalText(s11, 1, DeviceId).value;
    TakeOptionalTextExact(s11, 1, DeviceId);
    TakeOptionalTextExact(s12, 2, Did);
    m := Marks(MarkOf(s6), MarkOf(s10), MarkOf(s11), MarkOf(s12));
  }

  /** The accepted language, exactly: the encodings of well-formed payloads, with any nonzero marks. */
  lemma ParseExact(s: seq<byte>, p: Payload, rest: seq<byte>)
    ensures Parse(s) == Ok((p, rest)) <==>
            WellFormed(p) && exists m :: Announces(m) && s == EncodeWith(p, m, rest)
  {
    if Parse(s) == Ok((p, rest)) {
      var m := ParseDecomposes(s);
    }
    if WellFormed(p) && exists m :: Announces(m) && s == EncodeWith(p, m, rest) {
      var m :| Announces(m) && s == EncodeWith(p, m, rest);
      ParseReads(p, m, rest);
    }
  }

  // ------------------------------------------------- which field is reported

  /** A text whose length fits its prefix and whose bytes are not UTF-8. */
  predicate Malformed(t: Text, width: nat) {
    |t| < Pow256(width) && !Utf8.Valid(t)
  }

  lemma TextFailsExactly(s: seq<byte>, width: nat, field: Field, f: Field)
    ensures TakeText(s, width, field) == Err(InvalidPayload(f)) <==>
            f == field && exists t, rest :: Malformed(t, width) && s == PutText(t, width, rest)
  {
    if TakeText(s, width, field) == Err(InvalidPayload(f)) {
      TakeNatExact(s, width);
      var (len, s1) := TakeNat(s, width).value;
      PutAfterTake(s1, len);
      assert Malformed(s1[..len], width) && s == PutText(s1[..len], width, s1[len..]);
    }
    if t, rest :| Malformed(t, width) && s == PutText(t, width, rest) {
      TakeNatReads(|t|, width, t + rest);
      TakeAfterPut(t, rest);
    }
  }

  /** Some scope before the last one announced is malformed, and all before it are well-formed. */
  ghost predicate BadScope(s: seq<byte>, count: nat, ts: seq<Text>, t: Text, rest: seq<byte>) {
    && |ts| < count && (forall x | x in ts :: TextFits(x, 1))
    && Malformed(t, 1) && s == PutScopes(ts, PutText(t, 1, rest))
  }

  lemma {:induction false} ScopesFail(s: seq<byte>, count: nat)
    returns (ts: seq<Text>, t: Text, rest: seq<byte>)
    requires TakeScopes(s, count).Err? && TakeScopes(s, count).error.InvalidPayload?
    ensures TakeScopes(s, count).error.field == Scope && BadScope(s, count, ts, t, rest)
    decreases count
  {
    TextFailsExactly(s, 1, Scope, Scope);
    if TakeText(s, 1, Scope).Ok? {
      TakeTextExact(s, 1, Scope);
      var (first, s1) := TakeText(s, 1, Scope).value;
      var ts', t', rest' := ScopesFail(s1, count - 1);
      ts, t, rest := [first] + ts', t', rest';
      assert ts[1..] == ts';
    } else {
      t, rest :| Malformed(t, 1) && s == PutText(t, 1, rest);
      ts := [];
    }
  }

  lemma {:induction false} BadScopeFails(s: seq<byte>, count: nat, ts: seq<Text>, t: Text, rest: seq<byte>)
    requires BadScope(s, count, ts, t, rest)
    ensures TakeScopes(s, count) == Err(InvalidPayload(Scope))
    decreases count
  {
    if ts == [] {
      TextFailsExactly(s, 1, Scope, Scope);
    } else {
      var s1 := PutScopes(ts[1..], PutText(t, 1, rest));
      TakeTextReads(ts[0], 1, Scope, s1);
      BadScopeFails(s1, count - 1, ts[1..], t, rest);
    }
  }

  lemma {:induction false} AttrsOnlyRunShort(s: seq<byte>, count: nat)
    ensures TakeAttrs(s, count).Err? ==> TakeAttrs(s, count).error == PayloadTooShort
    decreases count
  {
    if count > 0 && TakeAttr(s).Ok? {
      AttrsOnlyRunShort(TakeAttr(s).value.1, count - 1);
    }
  }

  /** Everything before the audience, the device id and the identifier, followed by any bytes. */
  function UpToAudience(p: Payload, m: Marks, rest: seq<byte>): seq<byte>
    requires WellFormed(p)
  {
    p.subId +
    PutNat(p.flags, 8,
           PutNat(|p.scopes|, 2,
                  PutScopes(p.scopes,
                            PutNat(|p.attrs|, 2,
                                   PutAttrs(p.attrs,
                                            PutOptionalId(p.dpopJti, m.jti, PutInt(p.iat, PutInt(p.exp, rest))))))))
  }

  function UpToDevice(p: Payload, m: Marks, rest: seq<byte>): seq<byte>
    requires WellFormed(p)
  {
    UpToAudience(p, m, PutText(p.aud, 2, PutOptionalId(p.sessionId, m.session, rest)))
  }

  function UpToDid(p: Payload, m: Marks, rest: seq<byte>): seq<byte>
    requires WellFormed(p)
  {
    UpToDevice(p, m, PutOptionalText(p.deviceId, m.device, 1, rest))
  }

  /** What Parse makes of the bytes from the audience on. */
  function FromAudience(p: Payload, s: seq<byte>): Read<Payload> {
    var (aud, s10) :- TakeText(s, 2, Audience);
    FromSession(p.(aud := aud), s10)
  }

  function FromSession(p: Payload, s: seq<byte>): Read<Payload> {
    var (sessionId, s11) :- TakeOptionalId(s);
    FromDevice(p.(sessionId := sessionId), s11)
  }

  function FromDevice(p: Payload, s: seq<byte>): Read<Payload> {
    var (deviceId, s12) :- TakeOptionalText(s, 1, DeviceId);
    var (did, rest) :- TakeOptionalText(s12, 2, Did);
    Ok((p.(deviceId := deviceId, did := did), rest))
  }

  /** Reading the claims one part after another. */
  lemma ClaimsInParts(subId: seq<byte>, flags: nat, scopes: seq<Text>, attrs: seq<Attr>, s: seq<byte>)
    requires TakeOptionalId(s).Ok? && TakeInt(TakeOptionalId(s).value.1).Ok?
    requires TakeInt(TakeInt(TakeOptionalId(s).value.1).value.1).Ok?
    ensures var (jti, s7) := TakeOptionalId(s).value;
            var (iat, s8) := TakeInt(s7).value;
            var (exp, s9) := TakeInt(s8).value;
            forall aud, sessionId, deviceId, did ::
              TakeClaims(subId, flags, scopes, attrs, s) ==
              FromAudience(Payload(subId, flags, scopes, attrs, jti, iat, exp, aud, sessionId, deviceId, did), s9)
  {
  }

  lemma ClaimsFromAudience(p: Payload, m: Marks, s: seq<byte>)
    requires WellFormed(p) && Announces(m)
    ensures TakeClaims(p.subId, p.flags, p.scopes, p.attrs,
                       PutOptionalId(p.dpopJti, m.jti, PutInt(p.iat, PutInt(p.exp, s)))) == FromAudience(p, s)
  {
    var r3 := PutInt(p.exp, s);
    var r2 := PutInt(p.iat, r3);
    TakeOptionalIdReads(p.dpopJti, m.jti, r2);
    TakeIntReads(p.iat, r3);
    TakeIntReads(p.exp, s);
    ClaimsInParts(p.subId, p.flags, p.scopes, p.attrs, PutOptionalId(p.dpopJti, m.jti, r2));
    assert p == Payload(p.subId, p.flags, p.scopes, p.attrs, p.dpopJti, p.iat, p.exp,
                        p.aud, p.sessionId, p.deviceId, p.did);
  }

  lemma ParsePastAttrs(p: Payload, s: seq<byte>)
    requires WellFormed(p)
    ensures Parse(p.subId + PutNat(p.flags, 8, PutNat(|p.scopes|, 2, PutScopes(p.scopes,
                  PutNat(|p.attrs|, 2, PutAttrs(p.attrs, s)))))) ==
            TakeClaims(p.subId, p.flags, p.scopes, p.attrs, s)
  {
    var a := PutAttrs(p.attrs, s);
    var ac := PutNat(|p.attrs|, 2, a);
    var sc := PutScopes(p.scopes, ac);
    var n := PutNat(|p.scopes|, 2, sc);
    TakeAfterPut(p.subId, PutNat(p.flags, 8, n));
    TakeNatReads(p.flags, 8, n);
    TakeNatReads(|p.scopes|, 2, sc);
    TakeScopesReads(p.scopes, ac);
    TakeNatReads(|p.attrs|, 2, a);
    TakeAttrsReads(p.attrs, s);
  }

  lemma ParsePastExpiry(p: Payload, m: Marks, s: seq<byte>)
    requires WellFormed(p) && Announces(m)
    ensures Parse(UpToAudience(p, m, s)) == FromAudience(p, s)
  {
    ParsePastAttrs(p, PutOptionalId(p.dpopJti, m.jti, PutInt(p.iat, PutInt(p.exp, s))));
    ClaimsFromAudience(p, m, s);
  }

  lemma ParsePastSession(p: Payload, m: Marks, s: seq<byte>)
    requires WellFormed(p) && Announces(m)
    ensures Parse(UpToDevice(p, m, s)) == FromDevice(p, s)
  {
    var r5 := PutOptionalId(p.sessionId, m.session, s);
    ParsePastExpiry(p, m, PutText(p.aud, 2, r5));
    TakeTextReads(p.aud, 2, Audience, r5);
    TakeOptionalIdReads(p.sessionId, m.session, s);
  }

  /** The scopes, announced as so many, come after an id and the flags. */
  predicate ScopesAt(s: seq<byte>, count: nat, after: seq<byte>) {
    && count < Pow256(2) && |s| == 26 + |after|
    && s[24..] == PutNat(count, 2, after)
  }

  ghost predicate BadScopeAt(s: seq<byte>) {
    exists count, after, ts, t, rest :: ScopesAt(s, count, after) && BadScope(after, count, ts, t, rest)
  }

  ghost predicate BadAudienceAt(s: seq<byte>) {
    exists p, m, t, rest ::
      && WellFormed(p) && Announces(m) && Malformed(t, 2) && s == UpToAudience(p, m, PutText(t, 2, rest))
  }

  ghost predicate BadDeviceAt(s: seq<byte>) {
    exists p, m, mark: byte, t, rest ::
      && WellFormed(p) && Announces(m) && mark != 0 && Malformed(t, 1)
      && s == UpToDevice(p, m, PutOptionalText(Some(t), mark, 1, rest))
  }

  ghost predicate BadDidAt(s: seq<byte>) {
    exists p, m, mark: byte, t, rest ::
      && WellFormed(p) && Announces(m) && mark != 0 && Malformed(t, 2)
      && s == UpToDid(p, m, PutOptionalText(Some(t), mark, 2, rest))
  }

  /** The input is well-formed up to a string field that is malformed. */
  ghost predicate BadAt(s: seq<byte>, f: Field) {
    match f
    case Scope => BadScopeAt(s)
    case Audience => BadAudienceAt(s)
    case DeviceId => BadDeviceAt(s)
    case Did => BadDidAt(s)
  }

  lemma OptionalTextFails(s: seq<byte>, width: nat, field: Field) returns (t: Text, rest: seq<byte>)
    requires TakeOptionalText(s, width, field).Err? && TakeOptionalText(s, width, field).error.InvalidPayload?
    ensures TakeOptionalText(s, width, field).error.field == field
    ensures s != [] && s[0] != 0 && Malformed(t, width) && s == PutOptionalText(Some(t), s[0], width, rest)
  {
    PutAfterTake(s, 1);
    TextFailsExactly(s[1..], width, field, TakeOptionalText(s, width, field).error.field);
    t, rest :| Malformed(t, width) && s[1..] == PutText(t, width, rest);
  }

  lemma BadOptionalTextFails(t: Text, mark: byte, width: nat, field: Field, rest: seq<byte>)
    requires mark != 0 && Malformed(t, width)
    ensures TakeOptionalText(PutOptionalText(Some(t), mark, width, rest), width, field) == Err(InvalidPayload(field))
  {
    TakeAfterPut([mark], PutText(t, width, rest));
    TextFailsExactly(PutText(t, width, rest), width, field, field);
  }

  lemma BadScopeIsBlamed(s: seq<byte>)
    requires BadScopeAt(s)
    ensures Parse(s) == Err(InvalidPayload(Scope))
  {
    var count, after, ts, t, rest :| ScopesAt(s, count, after) && BadScope(after, count, ts, t, rest);
    BadScopeFails(after, count, ts, t, rest);
    ParsePastCount(s, count, after);
  }

  lemma ParsePastCount(s: seq<byte>, count: nat, after: seq<byte>)
    requires ScopesAt(s, count, after) && TakeScopes(after, count).Err?
    ensures Parse(s) == Err(TakeScopes(after, count).error)
  {
    assert s[16..][8..] == s[24..];
    TakeNatReads(count, 2, after);
  }

  lemma BadAudienceIsBlamed(s: seq<byte>)
    requires BadAudienceAt(s)
    ensures Parse(s) == Err(InvalidPayload(Audience))
  {
    var p, m, t, rest :|
      && WellFormed(p) && Announces(m) && Malformed(t, 2) && s == UpToAudience(p, m, PutText(t, 2, rest));
    ParsePastExpiry(p, m, PutText(t, 2, rest));
    TextFailsExactly(PutText(t, 2, rest), 2, Audience, Audience);
  }

  lemma BadDeviceIsBlamed(s: seq<byte>)
    requires BadDeviceAt(s)
    ensures Parse(s) == Err(InvalidPayload(DeviceId))
  {
    var p, m, mark: byte, t, rest :|
      && WellFormed(p) && Announces(m) && mark != 0 && Malformed(t, 1)
      && s == UpToDevice(p, m, PutOptionalText(Some(t), mark, 1, rest));
    ParsePastSession(p, m, PutOptionalText(Some(t), mark, 1, rest));
    BadOptionalTextFails(t, mark, 1, DeviceId, rest);
  }

  lemma BadDidIsBlamed(s: seq<byte>)
    requires BadDidAt(s)
    ensures Parse(s) == Err(InvalidPayload(Did))
  {
    var p, m, mark: byte, t, rest :|
      && WellFormed(p) && Announces(m) && mark != 0 && Malformed(t, 2)
      && s == UpToDid(p, m, PutOptionalText(Some(t), mark, 2, rest));
    var last := PutOptionalText(Some(t), mark, 2, rest);
    ParsePastSession(p, m, PutOptionalText(p.deviceId, m.device, 1, last));
    TakeOptionalTextReads(p.deviceId, m.device, 1, DeviceId, last);
    BadOptionalTextFails(t, mark, 2, Did, rest);
  }

  /** The parts before the audience, when all of them can be read. */
  lemma FrontDecomposes(s: seq<byte>) returns (p: Payload, m: Marks, s9: seq<byte>)
    requires Parse(s).Err? && Parse(s).error.InvalidPayload? && Parse(s).error.field != Scope
    ensures WellFormed(p) && Announces(m) && s == UpToAudience(p, m, s9) && Parse(s) == FromAudience(p, s9)
  {
    var (subId, s1) := Take(s, 16).value;
    PutAfterTake(s, 16);
    var (flags, s2) := TakeNat(s1, 8).value;
    TakeNatExact(s1, 8);
    var (scopeCount, s3) := TakeNat(s2, 2).value;
    TakeNatExact(s2, 2);
    if TakeScopes(s3, scopeCount).Err? {
      var _, _, _ := ScopesFail(s3, scopeCount);
      assert false;
    }
    var (scopes, s4) := TakeScopes(s3, scopeCount).value;
    TakeScopesExact(s3, scopeCount);
    var (attrCount, s5) := TakeNat(s4, 2).value;
    TakeNatExact(s4, 2);
    AttrsOnlyRunShort(s5, attrCount);
    var (attrs, s6) := TakeAttrs(s5, attrCount).value;
    TakeAttrsExact(s5, attrCount);
    var (jti, s7) := TakeOptionalId(s6).value;
    TakeOptionalIdExact(s6);
    var (iat, s8) := TakeInt(s7).value;
    TakeIntExact(s7);
    var (exp, s9') := TakeInt(s8).value;
    TakeIntExact(s8);
    s9 := s9';
    p := Payload(subId, flags, scopes, attrs, jti, iat, exp, [], None, None, None);
    m := Marks(MarkOf(s6), 1, 1, 1);
    assert s == UpToAudience(p, m, s9);
    ParsePastExpiry(p, m, s9);
  }

  lemma AfterFrontFails(p: Payload, m: Marks, s9: seq<byte>, f: Field)
    requires WellFormed(p) && Announces(m) && FromAudience(p, s9) == Err(InvalidPayload(f))
    ensures BadAt(UpToAudience(p, m, s9), f)
  {
    if TakeText(s9, 2, Audience).Err? {
      TextFailsExactly(s9, 2, Audience, f);
      var t, rest :| Malformed(t, 2) && s9 == PutText(t, 2, rest);
      assert BadAudienceAt(UpToAudience(p, m, PutText(t, 2, rest)));
    } else {
      TakeTextExact(s9, 2, Audience);
      var (aud, s10) := TakeText(s9, 2, Audience).value;
      TakeOptionalIdExact(s10);
      var (sessionId, s11) := TakeOptionalId(s10).value;
      var p', m' := p.(aud := aud, sessionId := sessionId), m.(session := MarkOf(s10));
      assert UpToAudience(p, m, s9) == UpToDevice(p', m', s11);
      AfterSessionFails(p', m', s11, f);
    }
  }

  lemma AfterSessionFails(p: Payload, m: Marks, s11: seq<byte>, f: Field)
    requires WellFormed(p) && Announces(m) && FromDevice(p, s11) == Err(InvalidPayload(f))
    ensures BadAt(UpToDevice(p, m, s11), f)
  {
    if TakeOptionalText(s11, 1, DeviceId).Err? {
      var t, rest := OptionalTextFails(s11, 1, DeviceId);
      assert BadDeviceAt(UpToDevice(p, m, PutOptionalText(Some(t), s11[0], 1, rest)));
    } else {
      TakeOptionalTextExact(s11, 1, DeviceId);
      var (deviceId, s12) := TakeOptionalText(s11, 1, DeviceId).value;
      var t, rest := OptionalTextFails(s12, 2, Did);
      DidIsBad(p.(deviceId := deviceId), m.(device := MarkOf(s11)), s12, t, rest);
    }
  }

  lemma DidIsBad(p: Payload, m: Marks, s: seq<byte>, t: Text, rest: seq<byte>)
    requires WellFormed(p) && Announces(m)
    requires s != [] && s[0] != 0 && Malformed(t, 2) && s == PutOptionalText(Some(t), s[0], 2, rest)
    ensures BadDidAt(UpToDid(p, m, s))
  {
    assert UpToDid(p, m, s) == UpToDid(p, m, PutOptionalText(Some(t), s[0], 2, rest));
  }

  /** A field is reported invalid exactly when the input is well-formed up to it and its bytes, all there, are not
      UTF-8; every other refusal is for shortness. */
  lemma InvalidFieldExactly(s: seq<byte>, f: Field)
    ensures Parse(s) == Err(InvalidPayload(f)) <==> BadAt(s, f)
  {
    if BadAt(s, f) {
      match f
      case Scope => BadScopeIsBlamed(s);
      case Audience => BadAudienceIsBlamed(s);
      case DeviceId => BadDeviceIsBlamed(s);
      case Did => BadDidIsBlamed(s);
    }
    if Parse(s) == Err(InvalidPayload(f)) {
      if f == Scope {
        ScopeDecomposes(s);
      } else {
        var p, m, s9 := FrontDecomposes(s);
        AfterFrontFails(p, m, s9, f);
      }
    }
  }

  lemma ScopeDecomposes(s: seq<byte>)
    requires Parse(s) == Err(InvalidPayload(Scope))
    ensures BadScopeAt(s)
  {
    var (subId, s1) := Take(s, 16).value;
    var (flags, s2) := TakeNat(s1, 8).value;
    var (count, s3) := TakeNat(s2, 2).value;
    TakeNatExact(s2, 2);
    assert s2 == s[24..];
    if TakeScopes(s3, count).Ok? {
      var (scopes, s4) := TakeScopes(s3, count).value;
      var (n, s5) := TakeNat(s4, 2).value;
      AttrsOnlyRunShort(s5, n);
      var (attrs, s6) := TakeAttrs(s5, n).value;
      ClaimsBlameNoScope(subId, flags, scopes, attrs, s6);
      assert false;
    }
    var ts, t, rest := ScopesFail(s3, count);
    assert ScopesAt(s, count, s3);
  }

  lemma FromAudienceBlamesNoScope(p: Payload, s: seq<byte>)
    ensures FromAudience(p, s) != Err(InvalidPayload(Scope))
  {
  }

  lemma ClaimsBlameNoScope(subId: seq<byte>, flags: nat, scopes: seq<Text>, attrs: seq<Attr>, s: seq<byte>)
    ensures TakeClaims(subId, flags, scopes, attrs, s) != Err(InvalidPayload(Scope))
  {
    if && TakeOptionalId(s).Ok? && TakeInt(TakeOptionalId(s).value.1).Ok?
       && TakeInt(TakeInt(TakeOptionalId(s).value.1).value.1).Ok? {
      ClaimsInParts(subId, flags, scopes, attrs, s);
      var (jti, s7) := TakeOptionalId(s).value;
      var (iat, s8) := TakeInt(s7).value;
      var (exp, s9) := TakeInt(s8).value;
      FromAudienceBlamesNoScope(Payload(subId, flags, scopes, attrs, jti, iat, exp, [], None, None, None), s9);
    }
  }

  // ------------------------------------------------- trailing bytes

  lemma {:induction false} PutScopesAppend(ts: seq<Text>, a: seq<byte>, b: seq<byte>)
    ensures PutScopes(ts, a + b) == PutScopes(ts, a) + b
  {
    if ts != [] {
      PutScopesAppend(ts[1..], a, b);
    }
  }

  lemma {:induction false} PutAttrsAppend(attrs: seq<Attr>, a: seq<byte>, b: seq<byte>)
    ensures PutAttrs(attrs, a + b) == PutAttrs(attrs, a) + b
  {
    if attrs != [] {
      PutAttrsAppend(attrs[1..], a, b);
    }
  }

  lemma PutTextAppend(t: Text, width: nat, a: seq<byte>, b: seq<byte>)
    ensures PutText(t, width, a + b) == PutText(t, width, a) + b
  {
  }

  lemma PutOptionalAppend(o: Option<seq<byte>>, mark: byte, width: nat, a: seq<byte>, b: seq<byte>)
    ensures PutOptionalId(o, mark, a + b) == PutOptionalId(o, mark, a) + b
    ensures PutOptionalText(o, mark, width, a + b) == PutOptionalText(o, mark, width, a) + b
  {
    if o.Some? {
      PutTextAppend(o.value, width, a, b);
    }
  }

  lemma PutIntAppend(i: int, a: seq<byte>, b: seq<byte>)
    requires FitsSigned(i, 8)
    ensures PutInt(i, a + b) == PutInt(i, a) + b
  {
  }

  lemma EncodeClaimsAppend(p: Payload, m: Marks, rest: seq<byte>)
    requires WellFormed(p)
    ensures EncodeClaims(p, m, rest) == EncodeClaims(p, m, []) + rest
  {
    assert [] + rest == rest;
    PutOptionalAppend(p.did, m.did, 2, [], rest);
    var q7 := PutOptionalText(p.did, m.did, 2, []);
    PutOptionalAppend(p.deviceId, m.device, 1, q7, rest);
    var q6 := PutOptionalText(p.deviceId, m.device, 1, q7);
    PutOptionalAppend(p.sessionId, m.session, 0, q6, rest);
    var q5 := PutOptionalId(p.sessionId, m.session, q6);
    PutTextAppend(p.aud, 2, q5, rest);
    var q4 := PutText(p.aud, 2, q5);
    PutIntAppend(p.exp, q4, rest);
    PutIntAppend(p.iat, PutInt(p.exp, q4), rest);
    PutOptionalAppend(p.dpopJti, m.jti, 0, PutInt(p.iat, PutInt(p.exp, q4)), rest);
  }

  lemma PutNatAppend(n: nat, width: nat, s: seq<byte>, rest: seq<byte>)
    ensures PutNat(n, width, s + rest) == PutNat(n, width, s) + rest
  {
  }

  lemma EncodeAppend(p: Payload, m: Marks, rest: seq<byte>)
    requires WellFormed(p)
    ensures EncodeWith(p, m, rest) == EncodeWith(p, m, []) + rest
  {
    EncodeClaimsAppend(p, m, rest);
    var claims := EncodeClaims(p, m, []);
    PutAttrsAppend(p.attrs, claims, rest);
    var attrs := PutAttrs(p.attrs, claims);
    PutNatAppend(|p.attrs|, 2, attrs, rest);
    var attrCount := PutNat(|p.attrs|, 2, attrs);
    PutScopesAppend(p.scopes, attrCount, rest);
    var scopes := PutScopes(p.scopes, attrCount);
    PutNatAppend(|p.scopes|, 2, scopes, rest);
    var scopeCount := PutNat(|p.scopes|, 2, scopes);
    PutNatAppend(p.flags, 8, scopeCount, rest);
    assert p.subId + (PutNat(p.flags, 8, scopeCount) + rest) == p.subId + PutNat(p.flags, 8, scopeCount) + rest;
  }

  /** The round trip: a payload survives encoding, whatever bytes follow it. */
  lemma RoundTrip(p: Payload, rest: seq<byte>)
    requires WellFormed(p)
    ensures Parse(Encode(p) + rest) == Ok((p, rest))
  {
    EncodeAppend(p, CANONICAL, rest);
    ParseReads(p, CANONICAL, rest);
  }

  /** Bytes after the ones that decided the outcome never change it. */
  ghost predicate Stable<T(!new)>(short: Read<T>, long: Read<T>, t: seq<byte>) {
    match short
    case Ok((v, rest)) => long == Ok((v, rest + t))
    case Err(InvalidPayload(f)) => long == Err(InvalidPayload(f))
    case Err(PayloadTooShort) => true
  }

  lemma TakeStable(s: seq<byte>, n: nat, t: seq<byte>)
    ensures Stable(Take(s, n), Take(s + t, n), t)
  {
    if n <= |s| {
      assert (s + t)[..n] == s[..n] && (s + t)[n..] == s[n..] + t;
    }
  }

  lemma TakeTextStable(s: seq<byte>, width: nat, field: Field, t: seq<byte>)
    ensures Stable(TakeText(s, width, field), TakeText(s + t, width, field), t)
  {
    TakeStable(s, width, t);
    if width <= |s| {
      TakeStable(s[width..], LeValue(s[..width]), t);
    }
  }

  lemma {:induction false} TakeScopesStable(s: seq<byte>, count: nat, t: seq<byte>)
    ensures Stable(TakeScopes(s, count), TakeScopes(s + t, count), t)
    decreases count
  {
    if count > 0 {
      TakeTextStable(s, 1, Scope, t);
      if TakeText(s, 1, Scope).Ok? {
        TakeScopesStable(TakeText(s, 1, Scope).value.1, count - 1, t);
      }
    }
  }

  lemma {:induction false} TakeAttrsStable(s: seq<byte>, count: nat, t: seq<byte>)
    ensures Stable(TakeAttrs(s, count), TakeAttrs(s + t, count), t)
    decreases count
  {
    if count > 0 {
      TakeStable(s, 1, t);
      if |s| >= 1 {
        TakeStable(s[1..], 4, t);
        if |s| >= 5 {
          TakeAttrsStable(s[1..][4..], count - 1, t);
        }
      }
    }
  }

  lemma TakeOptionalStable(s: seq<byte>, width: nat, field: Field, t: seq<byte>)
    ensures Stable(TakeOptionalId(s), TakeOptionalId(s + t), t)
    ensures Stable(TakeOptionalText(s, width, field), TakeOptionalText(s + t, width, field), t)
  {
    TakeStable(s, 1, t);
    if |s| >= 1 {
      TakeStable(s[1..], 16, t);
      TakeTextStable(s[1..], width, field, t);
    }
  }

  lemma ParseStable(s: seq<byte>, t: seq<byte>)
    ensures Stable(Parse(s), Parse(s + t), t)
  {
    TakeStable(s, 16, t);
    if |s| < 16 { return; }
    var s1 := s[16..];
    TakeStable(s1, 8, t);
    if |s1| < 8 { return; }
    var s2 := s1[8..];
    TakeStable(s2, 2, t);
    if |s2| < 2 { return; }
    var (n, s3) := TakeNat(s2, 2).value;
    TakeScopesStable(s3, n, t);
    if TakeScopes(s3, n).Err? { return; }
    var s4 := TakeScopes(s3, n).value.1;
    TakeStable(s4, 2, t);
    if |s4| < 2 { return; }
    var (k, s5) := TakeNat(s4, 2).value;
    TakeAttrsStable(s5, k, t);
    if TakeAttrs(s5, k).Err? { return; }
    var s6 := TakeAttrs(s5, k).value.1;
    TakeOptionalStable(s6, 1, DeviceId, t);
    if TakeOptionalId(s6).Err? { return; }
    var s7 := TakeOptionalId(s6).value.1;
    TakeStable(s7, 8, t);
    if |s7| < 8 { return; }
    TakeStable(s7[8..], 8, t);
    if |s7[8..]| < 8 { return; }
    var s9 := s7[8..][8..];
    TakeTextStable(s9, 2, Audience, t);
    if TakeText(s9, 2, Audience).Err? { return; }
    var s10 := TakeText(s9, 2, Audience).value.1;
    TakeOptionalStable(s10, 1, DeviceId, t);
    if TakeOptionalId(s10).Err? { return; }
    var s11 := TakeOptionalId(s10).value.1;
    TakeOptionalStable(s11, 1, DeviceId, t);
    if TakeOptionalText(s11, 1, DeviceId).Err? { return; }
    TakeOptionalStable(TakeOptionalText(s11, 1, DeviceId).value.1, 2, Did, t);
  }

  /** Cutting an accepted input anywhere inside the bytes it consumed is always reported as too short. */
  lemma TruncationIsTooShort(s: seq<byte>, t: seq<byte>)
    requires Parse(s + t).Ok?
    requires |Parse(s + t).value.1| < |t|
    ensures Parse(s) == Err(PayloadTooShort)
  {
    ParseStable(s, t);
  }

  // ------------------------------------------------ the cursor-driven reader

  class Cursor {
    const data: seq<byte>
    var pos: nat

    ghost predicate Valid()
      reads this
    {
      pos <= |data|
    }

    ghost function Rest(): seq<byte>
      requires Valid()
      reads this
    {
      data[pos..]
    }

    constructor (data: seq<byte>)
      ensures Valid() && this.data == data && Rest() == data
    {
      this.data := data;
      pos := 0;
    }

    method ReadExact(n: nat) returns (r: Result<seq<byte>, Error>)
      requires Valid()
      modifies this
      ensures Valid()
      ensures Tracks(Take(old(Rest()), n), r, Rest())
    {
      if pos + n > |data| {
        return Err(PayloadTooShort);
      }
      r := Ok(data[pos..pos + n]);
      assert data[pos..][..n] == data[pos..pos + n];
      pos := pos + n;
    }

    method ReadText(width: nat, field: Field) returns (r: Result<Text, Error>)
      requires Valid()
      modifies this
      ensures Valid()
      ensures Tracks(TakeText(old(Rest()), width, field), r, Rest())
    {
      var lenBytes :- ReadExact(width);
      var bytes :- ReadExact(LeValue(lenBytes));
      if !Utf8.Valid(bytes) {
        return Err(InvalidPayload(field));
      }
      return Ok(bytes);
    }

    method ReadScopes(count: nat) returns (r: Result<seq<Text>, Error>)
      requires Valid()
      modifies this
      ensures Valid()
      ensures Tracks(TakeScopes(old(Rest()), count), r, Rest())
    {
      var scopes: seq<Text> := [];
      PrependNothing(TakeScopes(Rest(), count));
      for i := 0 to count
        invariant Valid()
        invariant TakeScopes(old(Rest()), count) == Prepend(scopes, TakeScopes(Rest(), count - i))
      {
        TakeScopesStep(Rest(), count - i);
        var scope :- ReadText(1, Scope);
        PrependTwice(scopes, scope, TakeScopes(Rest(), count - i - 1));
        scopes := scopes + [scope];
      }
      assert scopes + [] == scopes;
      return Ok(scopes);
    }

    method ReadAttrs(count: nat) returns (r: Result<seq<Attr>, Error>)
      requires Valid()
      modifies this
      ensures Valid()
      ensures Tracks(TakeAttrs(old(Rest()), count), r, Rest())
    {
      var attrs: seq<Attr> := [];
      PrependNothing(TakeAttrs(Rest(), count));
      for i := 0 to count
        invariant Valid()
        invariant TakeAttrs(old(Rest()), count) == Prepend(attrs, TakeAttrs(Rest(), count - i))
      {
        ghost var tail := TakeAttrs(Rest(), count - i);
        var kind :- ReadExact(1);
        var value :- ReadExact(4);
        var attr := Attr(kind[0], LeValue(value));
        ghost var remaining := TakeAttrs(Rest(), count - i - 1);
        assert tail == Prepend([attr], remaining);
        PrependTwice(attrs, attr, remaining);
        attrs := attrs + [attr];
      }
      assert attrs + [] == attrs;
      return Ok(attrs);
    }

    method ReadOptionalId() returns (r: Result<Option<seq<byte>>, Error>)
      requires Valid()
      modifies this
      ensures Valid()
      ensures Tracks(TakeOptionalId(old(Rest())), r, Rest())
    {
      var mark :- ReadExact(1);
      if mark[0] == 0 {
        return Ok(None);
      }
      var id :- ReadExact(16);
      return Ok(Some(id));
    }

    method ReadOptionalText(width: nat, field: Field) returns (r: Result<Option<Text>, Error>)
      requires Valid()
      modifies this
      ensures Valid()
      ensures Tracks(TakeOptionalText(old(Rest()), width, field), r, Rest())
    {
      var mark :- ReadExact(1);
      if mark[0] == 0 {
        return Ok(None);
      }
      var t :- ReadText(width, field);
      return Ok(Some(t));
    }

    method ReadPayload() returns (r: Result<Payload, Error>)
      requires Valid()
      modifies this
      ensures Valid()
      ensures Tracks(Parse(old(Rest())), r, Rest())
    {
      var subId :- ReadExact(16);
      var flags :- ReadExact(8);
      var scopeCount :- ReadExact(2);
      var scopes :- ReadScopes(LeValue(scopeCount));
      var attrCount :- ReadExact(2);
      var attrs :- ReadAttrs(LeValue(attrCount));
      r := ReadClaims(subId, LeValue(flags), scopes, attrs);
    }

    method ReadClaims(subId: seq<byte>, flags: nat, scopes: seq<Text>, attrs: seq<Attr>)
      returns (r: Result<Payload, Error>)
      requires Valid()
      modifies this
      ensures Valid()
      ensures Tracks(TakeClaims(subId, flags, scopes, attrs, old(Rest())), r, Rest())
    {
      var dpopJti :- ReadOptionalId();
      var iat :- ReadExact(8);
      LeCanonical(iat);
      var exp :- ReadExact(8);
      LeCanonical(exp);
      var aud :- ReadText(2, Audience);
      var sessionId :- ReadOptionalId();
      var deviceId :- ReadOptionalText(1, DeviceId);
      var did :- ReadOptionalText(2, Did);
      return Ok(Payload(subId, flags, scopes, attrs, dpopJti,
                        Signed(LeValue(iat), 8), Signed(LeValue(exp), 8),
                        aud, sessionId, deviceId, did));
    }
  }

  /** A cursor read agrees with the pure read: same value and remaining bytes, or the same error. */
  ghost predicate Tracks<T(!new)>(spec: Read<T>, r: Result<T, Error>, rest: seq<byte>) {
    match spec
    case Ok((v, after)) => r == Ok(v) && rest == after
    case Err(e) => r == Err(e)
  }

  ghost function Prepend<T>(xs: seq<T>, r: Read<seq<T>>): Read<seq<T>> {
    match r
    case Ok((ys, rest)) => Ok((xs + ys, rest))
    case Err(e) => Err(e)
  }

  lemma TakeScopesStep(s: seq<byte>, count: nat)
    requires count > 0
    ensures TakeScopes(s, count) == match TakeText(s, 1, Scope)
                                    case Ok((t, s1)) => Prepend([t], TakeScopes(s1, count - 1))
                                    case Err(e) => Err(e)
  {
  }

  lemma PrependNothing<T>(r: Read<seq<T>>)
    ensures Prepend([], r) == r
  {
    if r.Ok? {
      assert [] + r.value.0 == r.value.0;
    }
  }

  lemma PrependTwice<T>(xs: seq<T>, x: T, r: Read<seq<T>>)
    ensures Prepend(xs, Prepend([x], r)) == Prepend(xs + [x], r)
  {
    if r.Ok? {
      assert xs + ([x] + r.value.0) == xs + [x] + r.value.0;
    }
  }

  method FromBytes(data: seq<byte>) returns (r: Result<Payload, Error>)
    ensures r == match Parse(data) case Ok((p, _)) => Ok(p) case Err(e) => Err(e)
  {
    var cursor := new Cursor(data);
    r := cursor.ReadPayload();
  }
}
