/** One WebSocket connection: key agreement, legacy rewrap and chain rewrap over one state.
    Messages of a connection are handled one after another. Cryptographic primitives, FlatBuffers and CBOR
    decoding and the content contracts are given functions; the chain validator is the machine of ChainValidator. */
module Connection {
  import opened Bytes
  import Hex
  import ChainValidator
  import NanoTdf

  const MAX_NANOTDF_SIZE := 16 * 1024 * 1024

  type Secret = seq<byte>

  datatype Claims = Claims(sub: string, age: string)

  datatype AgeLevel = Kids | Adults

  datatype Rating = Rating(levels: seq<nat>)

  /** A policy body that reads as metadata, with the rating it may carry. */
  datatype Metadata = Metadata(rating: Option<Rating>)

  datatype CborRequest =
    | ChainRewrap(
        header: seq<byte>,
        sessionId: seq<byte>,
        headerHash: seq<byte>,
        signature: seq<byte>,
        algorithm: ChainValidator.Algorithm,
        nonce: nat)
    | KeyExchange(publicKey: seq<byte>)
    | OtherRequest

  datatype Server = Server(
    readMetadata: seq<byte> -> Option<Metadata>,
    ratingAllowed: (AgeLevel, Rating) -> bool,
    abacAllowed: (string, seq<byte>) -> bool,
    isPoint: seq<byte> -> bool,
    kasKey: Option<seq<byte>>,
    kasPublicKey: seq<byte>,
    isScalar: seq<byte> -> bool,
    ecdh: (seq<byte>, seq<byte>) -> Option<Secret>,
    agree: (seq<byte>, seq<byte>) -> Secret,
    sessionKey: (seq<byte>, Secret) -> Secret,
    dekSalt: seq<byte> -> seq<byte>,
    rewrapDek: (Secret, Secret, seq<byte>, seq<byte>) -> Option<seq<byte>>,
    sha256: seq<byte> -> seq<byte>,
    decodeCbor: seq<byte> -> Option<CborRequest>,
    hasValidator: bool)

  /** What the stores and queues behind an event message make of it. */
  datatype EventOutcome = EventSilent | EventAnswered(data: seq<byte>) | EventPanics

  /** What handling one message takes from outside: random values, the outcome of an event, and what the chain validator
      says to the request it is given. The validator's task for this message, and the time the message arrived, are
      history. */
  datatype Draw = Draw(
    ephemeral: seq<byte>,
    salt: seq<byte>,
    nonce: seq<byte>,
    event: EventOutcome,
    validates: ChainValidator.Request -> bool,
    task: ChainValidator.TaskId,
    arrived: nat)

  /** A connection; one opened with an NTDF token never takes claims from text messages. */
  datatype Conn = Conn(ntdf: bool, salt: Option<seq<byte>>, secret: Option<Secret>, claims: Option<Claims>, closed: bool)

  datatype Incoming = Text(claims: Option<Claims>) | Binary(data: seq<byte>) | CloseFrame

  datatype ErrorKind = InvalidFormat | PolicyDenied | CryptoError | CborError

  datatype Reply =
    | NoReply
    | ErrorReply(kind: ErrorKind)
    | KeyAgreed
    | RewrappedKey(ephemeralKey: seq<byte>, nonce: seq<byte>, wrapped: seq<byte>)
    | KasPublicKey(key: seq<byte>)
    | EventReply(data: seq<byte>)

  /** A panic ends the connection. */
  datatype Outcome = Answer(reply: Reply) | Panic

  // ---------------------------------------------------------- contract ids

  datatype Contract = Geofence | ContentRating | SimpleAbac

  function Id(k: Contract): string {
    match k
    case Geofence => "5H6sLwXKBv3cdm5VVRxrvA8p5cux2Rrni5CQ4GRyYKo4b9B4"
    case ContentRating => "5HKLo6CKbt1Z5dU4wZ3MiufeZzjM6JGwKUWUQ6a91fmuA6RB"
    case SimpleAbac => "5Cqk3ERPToSMuY8UoKJtcmo4fs1iVyQpq6ndzWzpzWezAF1W"
  }

  function CharByte(c: char): byte {
    c as int % 256
  }

  /** The bytes of an ASCII text. */
  function Ascii(s: string): seq<byte> {
    seq(|s|, i requires 0 <= i < |s| => CharByte(s[i]))
  }

  predicate IsAt(text: seq<byte>, part: seq<byte>, i: nat) {
    i + |part| <= |text| && text[i..i + |part|] == part
  }

  predicate Contains(text: seq<byte>, part: seq<byte>) {
    exists i: nat | i <= |text| :: IsAt(text, part, i)
  }

  /** A locator body names a contract when the contract's account occurs anywhere in it. */
  predicate Names(body: seq<byte>, k: Contract) {
    Contains(body, Ascii(Id(k)))
  }

  // ------------------------------------------------------------ legacy rewrap

  /** The contract that governs a policy, or the reply that ends the request before any contract is consulted. */
  function GoverningLocator(v: Server, body: NanoTdf.PolicyBody): Result<Option<NanoTdf.Locator>, Reply> {
    match body
    case Remote(l) =>
      if l.protocol == NanoTdf.Http || l.protocol == NanoTdf.Https then Err(ErrorReply(InvalidFormat))
      else Ok(Some(l))
    case Embedded(b) =>
      match v.readMetadata(b)
      case None => Err(ErrorReply(InvalidFormat))
      case Some(m) =>
        Ok(if m.rating.Some? then Some(NanoTdf.Locator(NanoTdf.SharedResource, Ascii(Id(ContentRating)))) else None)
  }

  predicate BindingSizeAccepted(mode: NanoTdf.EccMode, binding: seq<byte>) {
    if mode.ecdsaBinding then
      |binding| == (match mode.curve
                    case Secp256r1 => 64
                    case Secp256k1 => 64
                    case Secp384r1 => 96
                    case Secp521r1 => 132)
    else |binding| == 16
  }

  function AgeOf(claims: Option<Claims>): AgeLevel {
    if claims.Some? && claims.value.age == "Verified 18+" then Adults else Kids
  }

  /** Consulting the contract: None lets the request go on. */
  function ContractObjection(
      v: Server, claims: Option<Claims>, body: NanoTdf.PolicyBody, l: Option<NanoTdf.Locator>): Option<Reply>
  {
    if l.None? || l.value.protocol != NanoTdf.SharedResource || l.value.body == [] then None
    else if Names(l.value.body, Geofence) then Some(ErrorReply(InvalidFormat))
    else if Names(l.value.body, ContentRating) then
      match body
      case Remote(_) => Some(NoReply)
      case Embedded(b) =>
        var m := v.readMetadata(b);
        if m.None? || m.value.rating.None? then Some(NoReply)
        else if !v.ratingAllowed(AgeOf(claims), m.value.rating.value) then Some(ErrorReply(PolicyDenied))
        else None
    else if Names(l.value.body, SimpleAbac) then
      if claims.Some? && !v.abacAllowed(claims.value.sub, l.value.body) then Some(ErrorReply(PolicyDenied)) else None
    else None
  }

  /** The key shared with the TDF's creator, or why there is none. */
  function DekSecret(v: Server, ephemeralKey: seq<byte>): Result<Secret, Outcome> {
    if !v.isPoint(ephemeralKey) then Err(Answer(NoReply))
    else if v.kasKey.None? then Err(Panic)
    else if |v.kasKey.value| != 32 || !v.isScalar(v.kasKey.value) then Err(Answer(NoReply))
    else match v.ecdh(v.kasKey.value, ephemeralKey)
      case None => Err(Answer(NoReply))
      case Some(dek) => Ok(dek)
  }

  /** What stands in the way of a parsed header, in the order of the checks: locator, binding size, contract. */
  function PolicyObjection(v: Server, claims: Option<Claims>, h: NanoTdf.Header): Option<Reply> {
    match GoverningLocator(v, h.policy.body)
    case Err(reply) => Some(reply)
    case Ok(l) =>
      if !BindingSizeAccepted(h.ecc, h.policy.binding) then Some(ErrorReply(InvalidFormat))
      else ContractObjection(v, claims, h.policy.body, l)
  }

  /** Deriving the data key and wrapping it anew. */
  function Release(v: Server, secret: Secret, key: seq<byte>, salt: seq<byte>, nonce: seq<byte>): Outcome {
    match DekSecret(v, key)
    case Err(o) => o
    case Ok(dek) =>
      match v.rewrapDek(dek, secret, salt, nonce)
      case None => Answer(ErrorReply(CryptoError))
      case Some(wrapped) => Answer(RewrappedKey(key, nonce, wrapped))
  }

  function Rewrap(v: Server, c: Conn, payload: seq<byte>, d: Draw): Outcome {
    if |payload| > MAX_NANOTDF_SIZE then Answer(ErrorReply(InvalidFormat)) else
    if c.secret.None? then Answer(ErrorReply(InvalidFormat)) else
    match NanoTdf.Parse(payload)
    case Fail(_) => Answer(ErrorReply(InvalidFormat))
    case Abort => Panic
    case Done((h, _)) =>
      if |h.ephemeralKey| != 33 then Answer(ErrorReply(InvalidFormat)) else
      match PolicyObjection(v, c.claims, h)
      case Some(reply) => Answer(reply)
      case None => Release(v, c.secret.value, h.ephemeralKey, v.dekSalt(payload), d.nonce)
  }

  // ------------------------------------------------------- the flat decision

  predicate SpelledAt(body: seq<byte>, account: string, i: nat) {
    i + |account| <= |body| && forall j | 0 <= j < |account| :: body[i + j] == account[j] as int % 256
  }

  /** The account is spelled out somewhere in the body. */
  ghost predicate Mentions(body: seq<byte>, account: string) {
    exists i: nat :: SpelledAt(body, account, i)
  }

  /** What the policy demands, independently of the order in which it is checked. Only claims of the age "Verified 18+"
      are judged as an adult's; all others, and none, as a child's. */
  ghost predicate PolicyAllows(v: Server, claims: Option<Claims>, body: NanoTdf.PolicyBody) {
    match body
    case Embedded(b) =>
      && v.readMetadata(b).Some?
      && (v.readMetadata(b).value.rating.Some? ==>
            v.ratingAllowed(if claims.Some? && claims.value.age == "Verified 18+" then Adults else Kids,
                            v.readMetadata(b).value.rating.value))
    case Remote(l) =>
      && l.protocol != NanoTdf.Http && l.protocol != NanoTdf.Https
      && (l.protocol == NanoTdf.SharedResource ==>
            && !Mentions(l.body, "5H6sLwXKBv3cdm5VVRxrvA8p5cux2Rrni5CQ4GRyYKo4b9B4")
            && !Mentions(l.body, "5HKLo6CKbt1Z5dU4wZ3MiufeZzjM6JGwKUWUQ6a91fmuA6RB")
            && (Mentions(l.body, "5Cqk3ERPToSMuY8UoKJtcmo4fs1iVyQpq6ndzWzpzWezAF1W") && claims.Some? ==>
                  v.abacAllowed(claims.value.sub, l.body)))
  }

  /** A policy that was consulted and refused, as opposed to one that could not be. */
  ghost predicate PolicyDenies(v: Server, claims: Option<Claims>, body: NanoTdf.PolicyBody) {
    match body
    case Embedded(b) =>
      && v.readMetadata(b).Some? && v.readMetadata(b).value.rating.Some?
      && !v.ratingAllowed(if claims.Some? && claims.value.age == "Verified 18+" then Adults else Kids,
                          v.readMetadata(b).value.rating.value)
    case Remote(l) =>
      && l.protocol == NanoTdf.SharedResource
      && !Mentions(l.body, "5H6sLwXKBv3cdm5VVRxrvA8p5cux2Rrni5CQ4GRyYKo4b9B4")
      && !Mentions(l.body, "5HKLo6CKbt1Z5dU4wZ3MiufeZzjM6JGwKUWUQ6a91fmuA6RB")
      && Mentions(l.body, "5Cqk3ERPToSMuY8UoKJtcmo4fs1iVyQpq6ndzWzpzWezAF1W")
      && claims.Some? && !v.abacAllowed(claims.value.sub, l.body)
  }

  /** A policy that asks for a rating by locator alone, with no metadata to rate: it gets no answer. */
  ghost predicate RatingUnknown(body: NanoTdf.PolicyBody) {
    && body.Remote? && body.locator.protocol == NanoTdf.SharedResource
    && !Mentions(body.locator.body, "5H6sLwXKBv3cdm5VVRxrvA8p5cux2Rrni5CQ4GRyYKo4b9B4")
    && Mentions(body.locator.body, "5HKLo6CKbt1Z5dU4wZ3MiufeZzjM6JGwKUWUQ6a91fmuA6RB")
  }

  /** The server can derive the data key and wrap it under the connection's secret as `wrapped`. */
  predicate Wraps(
      v: Server, secret: Secret, ephemeralKey: seq<byte>, salt: seq<byte>, nonce: seq<byte>, wrapped: seq<byte>)
  {
    && v.isPoint(ephemeralKey)
    && v.kasKey.Some? && |v.kasKey.value| == 32 && v.isScalar(v.kasKey.value)
    && v.ecdh(v.kasKey.value, ephemeralKey).Some?
    && v.rewrapDek(v.ecdh(v.kasKey.value, ephemeralKey).value, secret, salt, nonce) == Some(wrapped)
  }

  /** Texts of one length contain each other only when they are equal. */
  lemma ContainsSameLength(a: seq<byte>, b: seq<byte>)
    requires |a| == |b|
    ensures Contains(a, b) <==> a == b
  {
    assert a[0..|b|] == a;
    assert IsAt(a, b, 0) <==> a == b;
  }

  lemma RatingIsNotGeofence()
    ensures Names(Ascii(Id(ContentRating)), ContentRating)
    ensures !Names(Ascii(Id(ContentRating)), Geofence)
  {
    var rating, fence := Ascii(Id(ContentRating)), Ascii(Id(Geofence));
    ContainsSameLength(rating, rating);
    ContainsSameLength(rating, fence);
    assert Id(ContentRating)[47] == 'B' && Id(Geofence)[47] == '4';
    assert rating[47] == CharByte('B') && fence[47] == CharByte('4');
  }

  lemma NamesExactly(body: seq<byte>, k: Contract)
    ensures Names(body, k) <==> Mentions(body, Id(k))
  {
    forall i: nat
      ensures IsAt(body, Ascii(Id(k)), i) <==> SpelledAt(body, Id(k), i)
    {
      SpellsExactly(body, Id(k), i);
    }
  }

  lemma SpellsExactly(body: seq<byte>, account: string, i: nat)
    ensures IsAt(body, Ascii(account), i) <==> SpelledAt(body, account, i)
  {
    if SpelledAt(body, account, i) {
      assert body[i..i + |account|] == Ascii(account);
    }
    if IsAt(body, Ascii(account), i) {
      forall j | 0 <= j < |account|
        ensures body[i + j] == account[j] as int % 256
      {
        assert body[i..i + |account|][j] == Ascii(account)[j];
      }
    }
  }

  lemma EmptyNamesNothing(k: Contract)
    ensures |Ascii(Id(k))| == 48 && !Names([], k)
  {
    assert |Id(k)| == 48;
  }

  lemma RemoteContractIsFlat(v: Server, claims: Option<Claims>, l: NanoTdf.Locator)
    requires l.protocol == NanoTdf.SharedResource
    ensures var o := ContractObjection(v, claims, NanoTdf.Remote(l), Some(l));
            && (o == None <==> PolicyAllows(v, claims, NanoTdf.Remote(l)))
            && (o == Some(ErrorReply(PolicyDenied)) <==> PolicyDenies(v, claims, NanoTdf.Remote(l)))
            && (o == Some(NoReply) <==> RatingUnknown(NanoTdf.Remote(l)))
  {
    NamesExactly(l.body, Geofence);
    NamesExactly(l.body, ContentRating);
    NamesExactly(l.body, SimpleAbac);
    EmptyNamesNothing(Geofence);
    EmptyNamesNothing(ContentRating);
    EmptyNamesNothing(SimpleAbac);
  }

  lemma EmbeddedContractIsFlat(v: Server, claims: Option<Claims>, b: seq<byte>)
    requires v.readMetadata(b).Some? && v.readMetadata(b).value.rating.Some?
    ensures var l := Some(NanoTdf.Locator(NanoTdf.SharedResource, Ascii(Id(ContentRating))));
            ContractObjection(v, claims, NanoTdf.Embedded(b), l) ==
            if v.ratingAllowed(if claims.Some? && claims.value.age == "Verified 18+" then Adults else Kids,
                               v.readMetadata(b).value.rating.value) then None
            else Some(ErrorReply(PolicyDenied))
  {
    RatingIsNotGeofence();
  }

  /** The locator and contract checks together are the flat policy predicates. */
  lemma ContractsAreFlat(v: Server, claims: Option<Claims>, body: NanoTdf.PolicyBody)
    ensures PolicyAllows(v, claims, body) <==>
            && GoverningLocator(v, body).Ok?
            && ContractObjection(v, claims, body, GoverningLocator(v, body).value) == None
    ensures PolicyDenies(v, claims, body) <==>
            && GoverningLocator(v, body).Ok?
            && ContractObjection(v, claims, body, GoverningLocator(v, body).value) == Some(ErrorReply(PolicyDenied))
    ensures RatingUnknown(body) <==>
            && GoverningLocator(v, body).Ok?
            && ContractObjection(v, claims, body, GoverningLocator(v, body).value) == Some(NoReply)
  {
    match body
    case Remote(l) =>
      if l.protocol == NanoTdf.SharedResource {
        RemoteContractIsFlat(v, claims, l);
      }
    case Embedded(b) =>
      if v.readMetadata(b).Some? && v.readMetadata(b).value.rating.Some? {
        EmbeddedContractIsFlat(v, claims, b);
      }
  }

  /** The parser hands over bindings of the printed size, so only GMAC bindings are ever refused for size. */
  lemma BindingSizeIsMode(payload: seq<byte>)
    requires NanoTdf.Parse(payload).Done?
    ensures var h := NanoTdf.Parse(payload).value.0;
            |h.ephemeralKey| == 33 && (BindingSizeAccepted(h.ecc, h.policy.binding) <==> h.ecc.ecdsaBinding)
  {
    var (h, rest) := NanoTdf.Parse(payload).value;
    NanoTdf.ParseExact(payload, h, rest);
  }

  lemma NoObjection(v: Server, claims: Option<Claims>, h: NanoTdf.Header)
    requires BindingSizeAccepted(h.ecc, h.policy.binding) <==> h.ecc.ecdsaBinding
    ensures PolicyObjection(v, claims, h) == None <==> h.ecc.ecdsaBinding && PolicyAllows(v, claims, h.policy.body)
    ensures PolicyObjection(v, claims, h).Some? ==> !PolicyObjection(v, claims, h).value.RewrappedKey?
  {
    ContractsAreFlat(v, claims, h.policy.body);
  }

  lemma ReleaseExactly(
      v: Server, secret: Secret, key: seq<byte>, salt: seq<byte>, nonce: seq<byte>, key': seq<byte>, wrapped: seq<byte>)
    ensures Release(v, secret, key, salt, nonce) == Answer(RewrappedKey(key', nonce, wrapped)) <==>
            key' == key && Wraps(v, secret, key, salt, nonce, wrapped)
  {
  }

  /** The whole decision tree, composed with the parser, is one condition: a key is rewrapped exactly when the
      secret is agreed, the header parses with an ECDSA binding, the policy allows it, and the key can be wrapped. */
  lemma RewrapDecision(v: Server, c: Conn, payload: seq<byte>, d: Draw, key: seq<byte>, wrapped: seq<byte>)
    ensures Rewrap(v, c, payload, d) == Answer(RewrappedKey(key, d.nonce, wrapped)) <==>
            && |payload| <= 16_777_216
            && c.secret.Some?
            && NanoTdf.Parse(payload).Done?
            && var h := NanoTdf.Parse(payload).value.0;
               && h.ephemeralKey == key
               && h.ecc.ecdsaBinding
               && PolicyAllows(v, c.claims, h.policy.body)
               && Wraps(v, c.secret.value, key, v.dekSalt(payload), d.nonce, wrapped)
  {
    if c.secret.Some? && NanoTdf.Parse(payload).Done? {
      var h := NanoTdf.Parse(payload).value.0;
      BindingSizeIsMode(payload);
      NoObjection(v, c.claims, h);
      ReleaseExactly(v, c.secret.value, h.ephemeralKey, v.dekSalt(payload), d.nonce, key, wrapped);
    }
  }

  lemma DeniedObjection(v: Server, claims: Option<Claims>, h: NanoTdf.Header)
    requires BindingSizeAccepted(h.ecc, h.policy.binding) <==> h.ecc.ecdsaBinding
    ensures PolicyObjection(v, claims, h) == Some(ErrorReply(PolicyDenied)) <==>
            h.ecc.ecdsaBinding && PolicyDenies(v, claims, h.policy.body)
  {
    ContractsAreFlat(v, claims, h.policy.body);
  }

  lemma ReleaseFailures(v: Server, secret: Secret, key: seq<byte>, salt: seq<byte>, nonce: seq<byte>)
    ensures Release(v, secret, key, salt, nonce) == Panic <==> v.isPoint(key) && v.kasKey.None?
    ensures Release(v, secret, key, salt, nonce) != Answer(ErrorReply(PolicyDenied))
  {
  }

  /** Access is denied exactly when the header could be judged and its rating or attribute check failed. */
  lemma RewrapDeniesExactly(v: Server, c: Conn, payload: seq<byte>, d: Draw)
    ensures Rewrap(v, c, payload, d) == Answer(ErrorReply(PolicyDenied)) <==>
            && |payload| <= 16_777_216
            && c.secret.Some?
            && NanoTdf.Parse(payload).Done?
            && var h := NanoTdf.Parse(payload).value.0;
               h.ecc.ecdsaBinding && PolicyDenies(v, c.claims, h.policy.body)
  {
    if c.secret.Some? && NanoTdf.Parse(payload).Done? {
      var h := NanoTdf.Parse(payload).value.0;
      BindingSizeIsMode(payload);
      DeniedObjection(v, c.claims, h);
      ReleaseFailures(v, c.secret.value, h.ephemeralKey, v.dekSalt(payload), d.nonce);
    }
  }

  /** Handling panics exactly when the parser does, or when a key would be released and the server has none of its own. */
  lemma RewrapPanicsExactly(v: Server, c: Conn, payload: seq<byte>, d: Draw)
    ensures Rewrap(v, c, payload, d) == Panic <==>
            && |payload| <= 16_777_216
            && c.secret.Some?
            && (|| NanoTdf.Parse(payload).Abort?
                || (&& NanoTdf.Parse(payload).Done?
                    && var h := NanoTdf.Parse(payload).value.0;
                       && h.ecc.ecdsaBinding && PolicyAllows(v, c.claims, h.policy.body)
                       && v.isPoint(h.ephemeralKey) && v.kasKey.None?))
  {
    if c.secret.Some? && NanoTdf.Parse(payload).Done? {
      var h := NanoTdf.Parse(payload).value.0;
      BindingSizeIsMode(payload);
      NoObjection(v, c.claims, h);
      ReleaseFailures(v, c.secret.value, h.ephemeralKey, v.dekSalt(payload), d.nonce);
    }
  }

  lemma Objections(v: Server, claims: Option<Claims>, h: NanoTdf.Header)
    requires BindingSizeAccepted(h.ecc, h.policy.binding) <==> h.ecc.ecdsaBinding
    ensures var o := PolicyObjection(v, claims, h);
            && (o == Some(NoReply) <==> h.ecc.ecdsaBinding && RatingUnknown(h.policy.body))
            && (|| o == None || o == Some(NoReply)
                || o == Some(ErrorReply(PolicyDenied)) || o == Some(ErrorReply(InvalidFormat)))
  {
    ContractsAreFlat(v, claims, h.policy.body);
  }

  lemma ReleaseAnswers(v: Server, secret: Secret, key: seq<byte>, salt: seq<byte>, nonce: seq<byte>)
    ensures var o, k := Release(v, secret, key, salt, nonce), v.kasKey;
            var derived := v.isPoint(key) && k.Some? && |k.value| == 32 && v.isScalar(k.value) && v.ecdh(k.value, key).Some?;
            && (o == Answer(NoReply) <==> !derived && !(v.isPoint(key) && k.None?))
            && (o == Answer(ErrorReply(CryptoError)) <==>
                derived && v.rewrapDek(v.ecdh(k.value, key).value, secret, salt, nonce).None?)
            && o != Answer(ErrorReply(InvalidFormat))
  {
  }

  /** The remaining answers. There is none for a rating asked for by locator alone, or when an allowed key cannot be
      derived; a crypto error when it can be derived and not wrapped; everything else that is not a key, a denial or a
      panic is a format error. */
  lemma RewrapAnswersExactly(v: Server, c: Conn, payload: seq<byte>, d: Draw)
    ensures var o, k := Rewrap(v, c, payload, d), v.kasKey;
            if |payload| > 16_777_216 || c.secret.None? || NanoTdf.Parse(payload).Fail?
            then o == Answer(ErrorReply(InvalidFormat))
            else NanoTdf.Parse(payload).Done? ==>
              var h := NanoTdf.Parse(payload).value.0;
              var key, allowed := h.ephemeralKey, h.ecc.ecdsaBinding && PolicyAllows(v, c.claims, h.policy.body);
              var derived :=
                v.isPoint(key) && k.Some? && |k.value| == 32 && v.isScalar(k.value) && v.ecdh(k.value, key).Some?;
              && (o == Answer(NoReply) <==>
                  || (h.ecc.ecdsaBinding && RatingUnknown(h.policy.body))
                  || (allowed && !derived && !(v.isPoint(key) && k.None?)))
              && (o == Answer(ErrorReply(CryptoError)) <==>
                  && allowed && derived
                  && v.rewrapDek(v.ecdh(k.value, key).value, c.secret.value, v.dekSalt(payload), d.nonce).None?)
              && (o == Answer(ErrorReply(InvalidFormat)) <==>
                  && !allowed
                  && !(h.ecc.ecdsaBinding && (PolicyDenies(v, c.claims, h.policy.body) || RatingUnknown(h.policy.body))))
  {
    if c.secret.Some? && NanoTdf.Parse(payload).Done? {
      var h := NanoTdf.Parse(payload).value.0;
      BindingSizeIsMode(payload);
      NoObjection(v, c.claims, h);
      DeniedObjection(v, c.claims, h);
      Objections(v, c.claims, h);
      ReleaseAnswers(v, c.secret.value, h.ephemeralKey, v.dekSalt(payload), d.nonce);
    }
  }

  /** A GMAC-mode header never yields a key. */
  lemma GmacNeverRewraps(v: Server, c: Conn, payload: seq<byte>, d: Draw)
    requires NanoTdf.Parse(payload).Done? && !NanoTdf.Parse(payload).value.0.ecc.ecdsaBinding
    ensures Rewrap(v, c, payload, d).Answer? && !Rewrap(v, c, payload, d).reply.RewrappedKey?
  {
    BindingSizeIsMode(payload);
    NoObjection(v, c.claims, NanoTdf.Parse(payload).value.0);
  }

  // -------------------------------------------------------------- chain rewrap

  /** The request the handler puts to the chain validator, with the hash it has computed itself. */
  function ValidationRequest(v: Server, r: CborRequest): ChainValidator.Request
    requires r.ChainRewrap?
  {
    ChainValidator.Request(Hex.Encode(r.sessionId), v.sha256(r.header), r.signature, r.algorithm, r.nonce)
  }

  function ChainRewrapped(v: Server, c: Conn, r: CborRequest, d: Draw): Outcome
    requires r.ChainRewrap?
  {
    if c.secret.None? then Answer(ErrorReply(CborError)) else
    if !v.hasValidator then Answer(ErrorReply(CborError)) else
    if |r.sessionId| != 32 then Answer(ErrorReply(CborError)) else
    if |r.headerHash| != 32 || r.headerHash != v.sha256(r.header) then Answer(ErrorReply(CborError)) else
    if !d.validates(ValidationRequest(v, r)) then Answer(ErrorReply(CborError)) else
    match NanoTdf.Parse(r.header)
    case Fail(_) => Answer(ErrorReply(CborError))
    case Abort => Panic
    case Done((h, _)) =>
      if |h.ephemeralKey| != 33 || !v.isPoint(h.ephemeralKey) then Answer(ErrorReply(CborError)) else
      if v.kasKey.None? || |v.kasKey.value| != 32 || !v.isScalar(v.kasKey.value) then Answer(ErrorReply(CborError)) else
      match v.ecdh(v.kasKey.value, h.ephemeralKey)
      case None => Answer(ErrorReply(CborError))
      case Some(dek) =>
        match v.rewrapDek(dek, c.secret.value, v.dekSalt(r.header), d.nonce)
        case None => Answer(ErrorReply(CborError))
        case Some(wrapped) => Answer(RewrappedKey(h.ephemeralKey, d.nonce, wrapped))
  }

  lemma ChainWrapsExactly(v: Server, c: Conn, r: CborRequest, d: Draw, key: seq<byte>, wrapped: seq<byte>)
    requires r.ChainRewrap? && c.secret.Some?
    requires v.hasValidator && d.validates(ValidationRequest(v, r))
    requires |r.sessionId| == 32 && |r.headerHash| == 32 && r.headerHash == v.sha256(r.header)
    ensures ChainRewrapped(v, c, r, d) == Answer(RewrappedKey(key, d.nonce, wrapped)) <==>
            && NanoTdf.Parse(r.header).Done?
            && NanoTdf.Parse(r.header).value.0.ephemeralKey == key
            && Wraps(v, c.secret.value, key, v.dekSalt(r.header), d.nonce, wrapped)
  {
    if NanoTdf.Parse(r.header).Done? {
      BindingSizeIsMode(r.header);
    }
  }

  /** The chain path demands the validator's consent to exactly these header bytes, and no policy of the header's own. */
  lemma ChainRewrapDecision(v: Server, c: Conn, r: CborRequest, d: Draw, key: seq<byte>, wrapped: seq<byte>)
    requires r.ChainRewrap?
    ensures ChainRewrapped(v, c, r, d) == Answer(RewrappedKey(key, d.nonce, wrapped)) <==>
            && c.secret.Some?
            && v.hasValidator
            && d.validates(ChainValidator.Request(
                 Hex.Encode(r.sessionId), v.sha256(r.header), r.signature, r.algorithm, r.nonce))
            && |r.sessionId| == 32 && |r.headerHash| == 32 && r.headerHash == v.sha256(r.header)
            && NanoTdf.Parse(r.header).Done?
            && NanoTdf.Parse(r.header).value.0.ephemeralKey == key
            && Wraps(v, c.secret.value, key, v.dekSalt(r.header), d.nonce, wrapped)
  {
    if && c.secret.Some? && v.hasValidator && d.validates(ValidationRequest(v, r))
       && |r.sessionId| == 32 && |r.headerHash| == 32 && r.headerHash == v.sha256(r.header) {
      ChainWrapsExactly(v, c, r, d, key, wrapped);
    }
  }

  /** Every other chain rewrap is answered with an error, except that a header which aborts the parser, once the
      validator has consented to it, panics. */
  lemma ChainRewrapFailsExactly(v: Server, c: Conn, r: CborRequest, d: Draw)
    requires r.ChainRewrap?
    ensures var o := ChainRewrapped(v, c, r, d);
            && (o == Panic <==>
                && c.secret.Some?
                && v.hasValidator
                && d.validates(ChainValidator.Request(
                     Hex.Encode(r.sessionId), v.sha256(r.header), r.signature, r.algorithm, r.nonce))
                && |r.sessionId| == 32 && |r.headerHash| == 32 && r.headerHash == v.sha256(r.header)
                && NanoTdf.Parse(r.header).Abort?)
            && (o.Answer? && !o.reply.RewrappedKey? ==> o.reply == ErrorReply(CborError))
  {
  }

  // --------------------------------------------------------------- the machine

  function AgreeKey(v: Server, c: Conn, key: seq<byte>, d: Draw): (Conn, Outcome) {
    if c.secret.Some? then (c, Answer(NoReply))
    else if |key| != 33 then (c, Answer(ErrorReply(InvalidFormat)))
    else if !v.isPoint(key) then (c, Answer(ErrorReply(CryptoError)))
    else (c.(secret := Some(v.agree(d.ephemeral, key)), salt := Some(d.salt)), Answer(KeyAgreed))
  }

  function CborAgreeKey(v: Server, c: Conn, key: seq<byte>, d: Draw): (Conn, Outcome) {
    if c.secret.Some? then (c, Answer(NoReply))
    else if (|key| != 33 && |key| != 65) || !v.isPoint(key) then (c, Answer(ErrorReply(CborError)))
    else (c.(secret := Some(v.sessionKey(d.salt, v.agree(d.ephemeral, key)))), Answer(KeyAgreed))
  }

  function HandleCbor(v: Server, c: Conn, payload: seq<byte>, d: Draw): (Conn, Outcome) {
    match v.decodeCbor(payload)
    case None => (c, Answer(ErrorReply(CborError)))
    case Some(r) =>
      match r
      case ChainRewrap(_, _, _, _, _, _) => (c, ChainRewrapped(v, c, r, d))
      case KeyExchange(key) => CborAgreeKey(v, c, key, d)
      case OtherRequest => (c, Answer(ErrorReply(CborError)))
  }

  function PublicKeyReply(v: Server): Reply {
    if v.kasKey.Some? then KasPublicKey(v.kasPublicKey) else NoReply
  }

  const MAX_EVENT_SIZE := 2000

  function HandleEvent(payload: seq<byte>, d: Draw): Outcome {
    if |payload| > MAX_EVENT_SIZE then Answer(NoReply) else
    match d.event
    case EventSilent => Answer(NoReply)
    case EventAnswered(data) => Answer(EventReply(data))
    case EventPanics => Panic
  }

  function HandleBinary(v: Server, c: Conn, data: seq<byte>, d: Draw): (Conn, Outcome) {
    if data == [] then (c, Answer(NoReply)) else
    var payload := data[1..];
    match data[0]
    case 0x01 => AgreeKey(v, c, payload, d)
    case 0x02 => (c, Answer(PublicKeyReply(v)))
    case 0x03 => (c, Rewrap(v, c, payload, d))
    case 0x05 => (c, Answer(NoReply))
    case 0x06 => (c, HandleEvent(payload, d))
    case 0x08 => HandleCbor(v, c, payload, d)
    case _ => (c, Answer(NoReply))
  }

  datatype Event = Event(message: Incoming, draw: Draw)

  /** One message; after a close or a panic nothing happens any more. */
  function Handle(v: Server, c: Conn, e: Event): (Conn, Reply) {
    if c.closed then (c, NoReply) else
    match e.message
    case CloseFrame => (c.(closed := true), NoReply)
    case Text(claims) => (if claims.Some? && !c.ntdf then c.(claims := claims) else c, NoReply)
    case Binary(data) =>
      var (c', o) := HandleBinary(v, c, data, e.draw);
      if o.Panic? then (c'.(closed := true), NoReply) else (c', o.reply)
  }

  function Opened(ntdf: bool): Conn {
    Conn(ntdf, None, None, None, false)
  }

  /** What was received, the state before and after each message, and what each was answered with. */
  datatype Conversation = Conversation(events: seq<Event>, states: seq<Conn>, replies: seq<Reply>)

  ghost predicate IsConversation(v: Server, ntdf: bool, t: Conversation) {
    && |t.states| == |t.events| + 1 && |t.replies| == |t.events|
    && t.states[0] == Opened(ntdf)
    && forall i {:trigger Handle(v, t.states[i], t.events[i])} | 0 <= i < |t.events| ::
         (t.states[i + 1], t.replies[i]) == Handle(v, t.states[i], t.events[i])
  }

  lemma HandleKeepsSecret(v: Server, c: Conn, e: Event)
    ensures c.secret.Some? ==> Handle(v, c, e).0.secret == c.secret && Handle(v, c, e).0.salt == c.salt
    ensures (c.salt.Some? ==> c.secret.Some?) ==> (Handle(v, c, e).0.salt.Some? ==> Handle(v, c, e).0.secret.Some?)
  {
  }

  /** The shared secret changes at most once, from unset to set, whatever messages arrive in whatever order. */
  lemma {:induction false} SecretIsSetOnce(v: Server, ntdf: bool, t: Conversation, i: nat, n: nat)
    requires IsConversation(v, ntdf, t) && i <= n < |t.states| && t.states[i].secret.Some?
    ensures t.states[n].secret == t.states[i].secret && t.states[n].salt == t.states[i].salt
  {
    if i < n {
      SecretIsSetOnce(v, ntdf, t, i, n - 1);
      HandleKeepsSecret(v, t.states[n - 1], t.events[n - 1]);
    }
  }

  /** A stored salt always comes with a secret. */
  lemma {:induction false} SaltImpliesSecret(v: Server, ntdf: bool, t: Conversation, n: nat)
    requires IsConversation(v, ntdf, t) && n < |t.states|
    ensures t.states[n].salt.Some? ==> t.states[n].secret.Some?
  {
    if n > 0 {
      SaltImpliesSecret(v, ntdf, t, n - 1);
      HandleKeepsSecret(v, t.states[n - 1], t.events[n - 1]);
    }
  }

  // ------------------------------------------------- what a conversation comes to

  /** A message that offers a public key of the legacy exchange: type 1, then a 33-byte point. */
  predicate OffersKey(v: Server, m: Incoming) {
    m.Binary? && |m.data| == 34 && m.data[0] == 0x01 && v.isPoint(m.data[1..])
  }

  /** The same in CBOR: type 8, then a key exchange with a point of 33 or 65 bytes. */
  predicate OffersCborKey(v: Server, m: Incoming) {
    && m.Binary? && m.data != [] && m.data[0] == 0x08
    && v.decodeCbor(m.data[1..]).Some? && v.decodeCbor(m.data[1..]).value.KeyExchange?
    && var key := v.decodeCbor(m.data[1..]).value.publicKey; (|key| == 33 || |key| == 65) && v.isPoint(key)
  }

  predicate Offers(v: Server, m: Incoming) {
    OffersKey(v, m) || OffersCborKey(v, m)
  }

  /** What one message does to a connection without a secret. */
  lemma OfferIsTaken(v: Server, c: Conn, e: Event)
    requires c.secret.None?
    ensures var (c', reply) := Handle(v, c, e);
            && (c'.secret.Some? <==> !c.closed && Offers(v, e.message))
            && (reply == KeyAgreed <==> c'.secret.Some?)
            && (c'.secret.None? ==> c'.salt == c.salt)
            && (c'.secret.Some? && OffersKey(v, e.message) ==>
                  && c'.secret == Some(v.agree(e.draw.ephemeral, e.message.data[1..]))
                  && c'.salt == Some(e.draw.salt))
            && (c'.secret.Some? && OffersCborKey(v, e.message) ==>
                  var key := v.decodeCbor(e.message.data[1..]).value.publicKey;
                  && c'.secret == Some(v.sessionKey(e.draw.salt, v.agree(e.draw.ephemeral, key)))
                  && c'.salt == c.salt)
  {
    var m := e.message;
    if !c.closed && m.Binary? && m.data != [] {
      assert |m.data[1..]| == |m.data| - 1;
      if m.data[0] == 0x03 {
        RewrapReplies(v, c, m.data[1..], e.draw);
      }
    }
  }

  /** How a legacy key that is not taken is answered: silence once there is a secret, otherwise what is wrong with it. */
  lemma OfferIsRefused(v: Server, c: Conn, e: Event)
    requires !c.closed && e.message.Binary? && e.message.data != [] && e.message.data[0] == 0x01
    ensures var data, (c', reply) := e.message.data, Handle(v, c, e);
            && (c.secret.Some? ==> reply == NoReply && c' == c)
            && (c.secret.None? && |data| != 34 ==> reply == ErrorReply(InvalidFormat) && c' == c)
            && (c.secret.None? && |data| == 34 && !v.isPoint(data[1..]) ==> reply == ErrorReply(CryptoError) && c' == c)
  {
  }

  /** The same in CBOR, where everything that is not taken and not a rewrap is one error. */
  lemma CborOfferIsRefused(v: Server, c: Conn, e: Event)
    requires !c.closed && e.message.Binary? && e.message.data != [] && e.message.data[0] == 0x08
    ensures var r, (c', reply) := v.decodeCbor(e.message.data[1..]), Handle(v, c, e);
            && (r.None? || r.value.OtherRequest? ==> reply == ErrorReply(CborError) && c' == c)
            && (r.Some? && r.value.KeyExchange? && c.secret.Some? ==> reply == NoReply && c' == c)
            && (r.Some? && r.value.KeyExchange? && c.secret.None? && !OffersCborKey(v, e.message) ==>
                  reply == ErrorReply(CborError) && c' == c)
  {
  }

  /** Messages of any other type are dropped, as are empty ones. */
  lemma OtherTypesAreIgnored(v: Server, c: Conn, e: Event)
    requires e.message.Binary? && (e.message.data != [] ==> e.message.data[0] !in {0x01, 0x02, 0x03, 0x06, 0x08})
    ensures Handle(v, c, e) == (c, NoReply)
  {
  }

  lemma RewrapReplies(v: Server, c: Conn, payload: seq<byte>, d: Draw)
    ensures var o := Rewrap(v, c, payload, d);
            o.Answer? ==> o.reply.NoReply? || o.reply.ErrorReply? || o.reply.RewrappedKey?
  {
    if c.secret.Some? && NanoTdf.Parse(payload).Done? {
      var h := NanoTdf.Parse(payload).value.0;
      BindingSizeIsMode(payload);
      Objections(v, c.claims, h);
    }
  }

  /** Message i comes while the connection is open, and is the first key offered. */
  ghost predicate FirstOffer(v: Server, t: Conversation, i: nat) {
    && i < |t.events| && i < |t.states| && !t.states[i].closed && Offers(v, t.events[i].message)
    && forall j | 0 <= j < i :: !Offers(v, t.events[j].message)
  }

  /** Nothing changes once a connection is closed. */
  lemma {:induction false} ClosedStays(v: Server, ntdf: bool, t: Conversation, i: nat, n: nat)
    requires IsConversation(v, ntdf, t) && i <= n < |t.states| && t.states[i].closed
    ensures t.states[n] == t.states[i]
  {
    if i < n {
      ClosedStays(v, ntdf, t, i, n - 1);
      assert t.states[n] == Handle(v, t.states[n - 1], t.events[n - 1]).0;
    }
  }

  /** As long as no key has been offered there is neither secret nor salt. */
  lemma {:induction false} NoOfferNoSecret(v: Server, ntdf: bool, t: Conversation, n: nat)
    requires IsConversation(v, ntdf, t) && n < |t.states|
    requires forall i | 0 <= i < n && !t.states[i].closed :: !Offers(v, t.events[i].message)
    ensures t.states[n].secret == None && t.states[n].salt == None
  {
    if n > 0 {
      NoOfferNoSecret(v, ntdf, t, n - 1);
      OfferIsTaken(v, t.states[n - 1], t.events[n - 1]);
    }
  }

  lemma {:induction false} SomeOfferIsFirst(v: Server, ntdf: bool, t: Conversation, i: nat) returns (first: nat)
    requires IsConversation(v, ntdf, t) && i < |t.events| && !t.states[i].closed && Offers(v, t.events[i].message)
    ensures first <= i && FirstOffer(v, t, first)
  {
    if j :| 0 <= j < i && Offers(v, t.events[j].message) {
      if t.states[j].closed {
        ClosedStays(v, ntdf, t, j, i);
      }
      first := SomeOfferIsFirst(v, ntdf, t, j);
    } else {
      first := i;
    }
  }

  /** Over every conversation, the first key offered while the connection is open decides the secret and the salt for
      good, and is answered with an agreement. */
  lemma FirstOfferDecides(v: Server, ntdf: bool, t: Conversation, i: nat, n: nat)
    requires IsConversation(v, ntdf, t) && FirstOffer(v, t, i) && i < n < |t.states|
    ensures t.replies[i] == KeyAgreed
    ensures var m, d, c := t.events[i].message, t.events[i].draw, t.states[n];
            if m.data[0] == 0x01
            then c.secret == Some(v.agree(d.ephemeral, m.data[1..])) && c.salt == Some(d.salt)
            else && v.decodeCbor(m.data[1..]).Some? && v.decodeCbor(m.data[1..]).value.KeyExchange?
                 && var key := v.decodeCbor(m.data[1..]).value.publicKey;
                    c.secret == Some(v.sessionKey(d.salt, v.agree(d.ephemeral, key))) && c.salt == None
  {
    NoOfferNoSecret(v, ntdf, t, i);
    OfferIsTaken(v, t.states[i], t.events[i]);
    SecretIsSetOnce(v, ntdf, t, i + 1, n);
  }

  /** Over every conversation, there is a secret exactly when a key was offered while the connection was open. */
  lemma SecretIsAgreedExactly(v: Server, ntdf: bool, t: Conversation, n: nat)
    requires IsConversation(v, ntdf, t) && n < |t.states|
    ensures t.states[n].secret.Some? <==>
            exists i | 0 <= i < n :: !t.states[i].closed && Offers(v, t.events[i].message)
  {
    if i :| 0 <= i < n && !t.states[i].closed && Offers(v, t.events[i].message) {
      var first := SomeOfferIsFirst(v, ntdf, t, i);
      FirstOfferDecides(v, ntdf, t, first, n);
    } else {
      NoOfferNoSecret(v, ntdf, t, n);
    }
  }

  /** No message but the first offer is answered with an agreement. */
  lemma AgreedOnce(v: Server, ntdf: bool, t: Conversation, i: nat)
    requires IsConversation(v, ntdf, t) && i < |t.events|
    ensures t.replies[i] == KeyAgreed <==> FirstOffer(v, t, i)
  {
    if FirstOffer(v, t, i) {
      FirstOfferDecides(v, ntdf, t, i, i + 1);
    } else if t.replies[i] == KeyAgreed {
      AgreesOnlyAtFirst(v, t.states[i], t.events[i]);
      OfferIsTaken(v, t.states[i], t.events[i]);
      var j :| 0 <= j < i && Offers(v, t.events[j].message);
      if t.states[j].closed {
        ClosedStays(v, ntdf, t, j, i);
      }
      SecretIsAgreedExactly(v, ntdf, t, i);
      assert false;
    }
  }

  lemma AgreesOnlyAtFirst(v: Server, c: Conn, e: Event)
    ensures Handle(v, c, e).1 == KeyAgreed ==> c.secret.None?
  {
    var m := e.message;
    if m.Binary? && m.data != [] && m.data[0] == 0x03 {
      RewrapReplies(v, c, m.data[1..], e.draw);
    }
  }

  /** Message i is the last text message with claims among the first n, and carries these. */
  ghost predicate LastClaims(t: Conversation, n: nat, i: nat, claims: Claims) {
    && i < n <= |t.events| < |t.states| && !t.states[i].closed && t.events[i].message == Text(Some(claims))
    && forall j | i < j < n && !t.states[j].closed :: !(t.events[j].message.Text? && t.events[j].message.claims.Some?)
  }

  lemma HandleClaims(v: Server, c: Conn, e: Event)
    ensures Handle(v, c, e).0.ntdf == c.ntdf
    ensures Handle(v, c, e).0.claims ==
            if !c.closed && e.message.Text? && e.message.claims.Some? && !c.ntdf then e.message.claims else c.claims
  {
  }

  lemma SomeClaimsOneMore(t: Conversation, n: nat, n': nat, claims: Claims)
    requires n < n' == n + 1 <= |t.events| < |t.states|
    ensures (exists i: nat :: LastClaims(t, n', i, claims)) <==>
            if !t.states[n].closed && t.events[n].message.Text? && t.events[n].message.claims.Some?
            then t.events[n].message.claims == Some(claims)
            else exists i: nat :: LastClaims(t, n, i, claims)
  {
    if !t.states[n].closed && t.events[n].message.Text? && t.events[n].message.claims == Some(claims) {
      assert LastClaims(t, n', n, claims);
    }
    if i: nat :| LastClaims(t, n', i, claims) {
      assert i == n || LastClaims(t, n, i, claims);
    }
    if i: nat :| LastClaims(t, n, i, claims) {
      assert LastClaims(t, n', i, claims)
          || (!t.states[n].closed && t.events[n].message.Text? && t.events[n].message.claims.Some?);
    }
  }

  /** Over every conversation, the claims are those of the last text message that carried some, and a connection opened
      with an NTDF token has none. */
  lemma {:induction false} ClaimsAreLast(v: Server, ntdf: bool, t: Conversation, n: nat, claims: Claims)
    requires IsConversation(v, ntdf, t) && n < |t.states|
    ensures t.states[n].ntdf == ntdf
    ensures t.states[n].claims == Some(claims) <==> !ntdf && exists i: nat :: LastClaims(t, n, i, claims)
  {
    if n > 0 {
      ClaimsAreLast(v, ntdf, t, n - 1, claims);
      HandleClaims(v, t.states[n - 1], t.events[n - 1]);
      SomeClaimsOneMore(t, n - 1, n, claims);
    }
  }

  /** The message panics its handler: a header aborts the parser, a key would be released without a server key, or the
      handling of an event does. */
  ghost predicate Panics(v: Server, c: Conn, e: Event) {
    && e.message.Binary? && e.message.data != []
    && var kind, payload := e.message.data[0], e.message.data[1..];
       || (&& kind == 0x03 && |payload| <= 16_777_216 && c.secret.Some?
           && (|| NanoTdf.Parse(payload).Abort?
               || (&& NanoTdf.Parse(payload).Done?
                   && var h := NanoTdf.Parse(payload).value.0;
                      && h.ecc.ecdsaBinding && PolicyAllows(v, c.claims, h.policy.body)
                      && v.isPoint(h.ephemeralKey) && v.kasKey.None?)))
       || (kind == 0x06 && |payload| <= 2000 && e.draw.event == EventPanics)
       || (&& kind == 0x08 && v.decodeCbor(payload).Some? && v.decodeCbor(payload).value.ChainRewrap?
           && var r := v.decodeCbor(payload).value;
              && c.secret.Some? && v.hasValidator
              && e.draw.validates(ChainValidator.Request(
                   Hex.Encode(r.sessionId), v.sha256(r.header), r.signature, r.algorithm, r.nonce))
              && |r.sessionId| == 32 && |r.headerHash| == 32 && r.headerHash == v.sha256(r.header)
              && NanoTdf.Parse(r.header).Abort?)
  }

  lemma ClosesExactly(v: Server, c: Conn, e: Event)
    ensures Handle(v, c, e).0.closed <==> c.closed || e.message.CloseFrame? || Panics(v, c, e)
  {
    if e.message.Binary? && e.message.data != [] {
      var data := e.message.data;
      if data[0] == 0x03 {
        RewrapPanicsExactly(v, c, data[1..], e.draw);
      } else if data[0] == 0x08 && v.decodeCbor(data[1..]).Some? && v.decodeCbor(data[1..]).value.ChainRewrap? {
        ChainRewrapFailsExactly(v, c, v.decodeCbor(data[1..]).value, e.draw);
      }
    }
  }

  /** Over every conversation, the connection has ended exactly when a close frame or a panicking message has come. */
  lemma {:induction false} EndedExactly(v: Server, ntdf: bool, t: Conversation, n: nat)
    requires IsConversation(v, ntdf, t) && n < |t.states|
    ensures t.states[n].closed <==>
            exists i | 0 <= i < n :: t.events[i].message.CloseFrame? || Panics(v, t.states[i], t.events[i])
  {
    if n > 0 {
      EndedExactly(v, ntdf, t, n - 1);
      var c, e := t.states[n - 1], t.events[n - 1];
      assert t.states[n] == Handle(v, c, e).0;
      ClosesExactly(v, c, e);
    }
  }

  /** Which messages are answered with the server's public key, and which with what an event came to. */
  lemma OtherAnswersExactly(v: Server, c: Conn, e: Event, x: seq<byte>)
    ensures var reply := Handle(v, c, e).1;
            var binary := !c.closed && e.message.Binary? && e.message.data != [];
            && (reply == KasPublicKey(x) <==>
                binary && e.message.data[0] == 0x02 && v.kasKey.Some? && x == v.kasPublicKey)
            && (reply == EventReply(x) <==>
                binary && e.message.data[0] == 0x06 && |e.message.data| <= 2001 && e.draw.event == EventAnswered(x))
  {
    if !c.closed && e.message.Binary? && e.message.data != [] {
      var data := e.message.data;
      if data[0] == 0x03 {
        RewrapReplies(v, c, data[1..], e.draw);
      }
    }
  }

  /** The NanoTDF bytes that a rewrap message, legacy or chain, is about. */
  function HeaderBytes(v: Server, data: seq<byte>): Option<seq<byte>> {
    if data == [] then None
    else if data[0] == 0x03 then Some(data[1..])
    else if data[0] == 0x08 && v.decodeCbor(data[1..]).Some? && v.decodeCbor(data[1..]).value.ChainRewrap?
    then Some(v.decodeCbor(data[1..]).value.header)
    else None
  }

  lemma RewrappedUnderSecret(v: Server, c: Conn, e: Event)
    ensures var reply := Handle(v, c, e).1;
            reply.RewrappedKey? ==>
              && c.secret.Some? && e.message.Binary? && HeaderBytes(v, e.message.data).Some?
              && Wraps(v, c.secret.value, reply.ephemeralKey, v.dekSalt(HeaderBytes(v, e.message.data).value),
                       reply.nonce, reply.wrapped)
  {
    var reply := Handle(v, c, e).1;
    if reply.RewrappedKey? {
      var data := e.message.data;
      if data[0] == 0x03 {
        RewrapDecision(v, c, data[1..], e.draw, reply.ephemeralKey, reply.wrapped);
      } else {
        ChainRewrapDecision(v, c, v.decodeCbor(data[1..]).value, e.draw, reply.ephemeralKey, reply.wrapped);
      }
    }
  }

  /** Every rewrapped key in a conversation, legacy or chain, comes after key agreement and is wrapped under the
      one secret that the conversation ends with. */
  lemma RewrapsUnderOneSecret(v: Server, ntdf: bool, t: Conversation, i: nat)
    requires IsConversation(v, ntdf, t) && i < |t.events| && t.replies[i].RewrappedKey?
    ensures t.states[i].secret.Some? && t.states[|t.events|].secret == t.states[i].secret
    ensures t.events[i].message.Binary? && HeaderBytes(v, t.events[i].message.data).Some?
    ensures Wraps(v, t.states[|t.events|].secret.value, t.replies[i].ephemeralKey,
                  v.dekSalt(HeaderBytes(v, t.events[i].message.data).value), t.replies[i].nonce, t.replies[i].wrapped)
  {
    RewrappedUnderSecret(v, t.states[i], t.events[i]);
    SecretIsSetOnce(v, ntdf, t, i, |t.events|);
  }

  /** The per-connection state that the message handlers write, and its receive loop. */
  class ConnectionState {
    const ntdf: bool
    var salt: Option<seq<byte>>
    var secret: Option<Secret>
    var claims: Option<Claims>
    var closed: bool

    ghost function State(): Conn
      reads this
    {
      Conn(ntdf, salt, secret, claims, closed)
    }

    constructor (ntdf: bool)
      ensures State() == Opened(ntdf)
    {
      this.ntdf, salt, secret, claims, closed := ntdf, None, None, None, false;
    }

    method HandlePublicKey(v: Server, key: seq<byte>, d: Draw) returns (reply: Reply)
      modifies this
      ensures (State(), Answer(reply)) == AgreeKey(v, old(State()), key, d)
    {
      if secret.Some? {
        return NoReply;
      }
      if |key| != 33 {
        return ErrorReply(InvalidFormat);
      }
      if !v.isPoint(key) {
        return ErrorReply(CryptoError);
      }
      secret := Some(v.agree(d.ephemeral, key));
      salt := Some(d.salt);
      return KeyAgreed;
    }

    method HandleCborKeyExchange(v: Server, key: seq<byte>, d: Draw) returns (reply: Reply)
      modifies this
      ensures (State(), Answer(reply)) == CborAgreeKey(v, old(State()), key, d)
    {
      if secret.Some? {
        return NoReply;
      }
      if |key| != 33 && |key| != 65 {
        return ErrorReply(CborError);
      }
      if !v.isPoint(key) {
        return ErrorReply(CborError);
      }
      secret := Some(v.sessionKey(d.salt, v.agree(d.ephemeral, key)));
      return KeyAgreed;
    }

    method HandleBinaryMessage(v: Server, data: seq<byte>, d: Draw) returns (o: Outcome)
      modifies this
      ensures (State(), o) == HandleBinary(v, old(State()), data, d)
    {
      o := Answer(NoReply);
      if data == [] {
        return;
      }
      var payload, state := data[1..], Conn(ntdf, salt, secret, claims, closed);
      match data[0]
      case 0x01 =>
        var reply := HandlePublicKey(v, payload, d);
        o := Answer(reply);
      case 0x02 => o := Answer(PublicKeyReply(v));
      case 0x03 => o := Rewrap(v, state, payload, d);
      case 0x06 => o := HandleEvent(payload, d);
      case 0x08 =>
        var request := v.decodeCbor(payload);
        if request.Some? && request.value.KeyExchange? {
          var reply := HandleCborKeyExchange(v, request.value.publicKey, d);
          o := Answer(reply);
        } else if request.Some? && request.value.ChainRewrap? {
          o := ChainRewrapped(v, state, request.value, d);
        } else {
          o := Answer(ErrorReply(CborError));
        }
      case _ =>
    }

    /** The receive loop: the conversation over the messages up to and including the one that ends the connection. */
    method Serve(v: Server, es: seq<Event>) returns (replies: seq<Reply>, ghost states: seq<Conn>)
      requires State() == Opened(ntdf)
      modifies this
      ensures |replies| <= |es| && IsConversation(v, ntdf, Conversation(es[..|replies|], states, replies))
      ensures states[|replies|] == State() && (|replies| < |es| ==> State().closed)
    {
      replies, states := [], [State()];
      while |replies| < |es| && !closed
        invariant |replies| <= |es| && IsConversation(v, ntdf, Conversation(es[..|replies|], states, replies))
        invariant states[|replies|] == State()
        decreases |es| - |replies|
      {
        var e := es[|replies|];
        var reply := Receive(v, e);
        OneMore(v, ntdf, Conversation(es[..|replies|], states, replies), e, State(), reply);
        assert es[..|replies|] + [e] == es[..|replies| + 1];
        replies, states := replies + [reply], states + [State()];
      }
    }

    method Receive(v: Server, e: Event) returns (reply: Reply)
      requires !closed
      modifies this
      ensures (State(), reply) == Handle(v, old(State()), e)
    {
      reply := NoReply;
      match e.message
      case CloseFrame => closed := true;
      case Text(verified) =>
        if verified.Some? && !ntdf {
          claims := verified;
        }
      case Binary(data) =>
        var o := HandleBinaryMessage(v, data, e.draw);
        if o.Panic? {
          closed := true;
        } else {
          reply := o.reply;
        }
    }
  }

  lemma OneMore(v: Server, ntdf: bool, t: Conversation, e: Event, c: Conn, reply: Reply)
    requires IsConversation(v, ntdf, t) && (c, reply) == Handle(v, t.states[|t.events|], e)
    ensures IsConversation(v, ntdf, Conversation(t.events + [e], t.states + [c], t.replies + [reply]))
  {
    var handle := (c: Conn, e: Event) => Handle(v, c, e);
    forall i | 0 <= i < |t.events|
      ensures (t.states[i + 1], t.replies[i]) == handle(t.states[i], t.events[i])
    {
    }
    FollowsOneMore(handle, t, e, c, reply);
  }

  lemma FollowsOneMore(handle: (Conn, Event) -> (Conn, Reply), t: Conversation, e: Event, c: Conn, reply: Reply)
    requires |t.states| == |t.events| + 1 && |t.replies| == |t.events|
    requires forall i | 0 <= i < |t.events| :: (t.states[i + 1], t.replies[i]) == handle(t.states[i], t.events[i])
    requires (c, reply) == handle(t.states[|t.events|], e)
    ensures var t' := Conversation(t.events + [e], t.states + [c], t.replies + [reply]);
            forall i | 0 <= i < |t'.events| :: (t'.states[i + 1], t'.replies[i]) == handle(t'.states[i], t'.events[i])
  {
  }
}
