/** The NanoTDF header: parser with its three outcomes, reference printer, and their exact agreement. */
module NanoTdf {
  import opened Bytes
  import Utf8

  datatype Protocol = Http | Https | Ws | Wss | SharedResource

  datatype Locator = Locator(protocol: Protocol, body: seq<byte>)

  datatype Curve = Secp256r1 | Secp384r1 | Secp521r1 | Secp256k1

  datatype EccMode = EccMode(ecdsaBinding: bool, curve: Curve)

  datatype Cipher = Gcm64 | Gcm96 | Gcm104 | Gcm112 | Gcm120 | Gcm128

  datatype PayloadConfig = PayloadConfig(hasSignature: bool, signatureCurve: Option<Curve>, cipher: Option<Cipher>)

  datatype PolicyBody = Remote(locator: Locator) | Embedded(body: seq<byte>)

  datatype Policy = Policy(body: PolicyBody, binding: seq<byte>)

  datatype Header = Header(
    magic: seq<byte>,
    version: seq<byte>,
    kas: Locator,
    ecc: EccMode,
    config: PayloadConfig,
    policy: Policy,
    ephemeralKey: seq<byte>)

  datatype ParsingError = InvalidFormat | InvalidKas | InvalidEccMode | InvalidPolicy

  /** Abort is the process panic of an unwrapped failure, which no caller can catch as an error. */
  datatype Outcome<+T> = Done(value: T) | Fail(error: ParsingError) | Abort
  {
    predicate IsFailure() {
      !Done?
    }

    function PropagateFailure<U>(): Outcome<U>
      requires !Done?
    {
      if Fail? then Fail(error) else Abort
    }

    function Extract(): T
      requires Done?
    {
      value
    }

    function Unwrap(): Outcome<T> {
      if Done? then this else Abort
    }
  }

  type Read<T> = Outcome<(T, seq<byte>)>

  const MAGIC_NUMBER_SIZE := 2
  const VERSION_SIZE := 1
  const MIN_EPHEMERAL_KEY_SIZE := 33

  // ---------------------------------------------------------------- parser

  function Take(s: seq<byte>, n: nat): Read<seq<byte>> {
    if n <= |s| then Done((s[..n], s[n..])) else Fail(InvalidFormat)
  }

  function ProtocolOf(b: byte): Option<Protocol> {
    match b
    case 0x00 => Some(Http)
    case 0x01 => Some(Https)
    case 0x02 => Some(Ws)
    case 0x03 => Some(Wss)
    case 0xFF => Some(SharedResource)
    case _ => None
  }

  function CurveOf(code: nat): Option<Curve> {
    match code
    case 0 => Some(Secp256r1)
    case 1 => Some(Secp384r1)
    case 2 => Some(Secp521r1)
    case 3 => Some(Secp256k1)
    case _ => None
  }

  function CipherOf(code: nat): Option<Cipher> {
    match code
    case 0 => Some(Gcm64)
    case 1 => Some(Gcm96)
    case 2 => Some(Gcm104)
    case 3 => Some(Gcm112)
    case 4 => Some(Gcm120)
    case 5 => Some(Gcm128)
    case _ => None
  }

  /** Bit 7 selects ECDSA binding, bits 0-2 the curve; bits 3-6 are ignored. */
  function EccModeOf(b: byte): Option<EccMode> {
    match CurveOf(b % 8)
    case Some(curve) => Some(EccMode(b / 128 != 0, curve))
    case None => None
  }

  /** Bit 7 announces a signature, bits 4-6 its curve, bits 0-3 the cipher. */
  function PayloadConfigOf(b: byte): PayloadConfig {
    PayloadConfig(b / 128 != 0, CurveOf(b / 16 % 8), CipherOf(b % 16))
  }

  function BindingSize(mode: EccMode): nat {
    if mode.ecdsaBinding then
      match mode.curve
      case Secp256r1 => 64
      case Secp256k1 => 64
      case Secp384r1 => 96
      case Secp521r1 => 132
    else 8
  }

  function TakeLocator(s: seq<byte>): (r: Read<Locator>)
    ensures !r.Abort?
  {
    var (b, s1) :- Take(s, 1);
    match ProtocolOf(b[0])
    case None => Fail(InvalidKas)
    case Some(protocol) =>
      var (len, s2) :- Take(s1, 1);
      var (body, rest) :- Take(s2, len[0]);
      if Utf8.Valid(body) then Done((Locator(protocol, body), rest)) else Fail(InvalidKas)
  }

  function TakeEccMode(s: seq<byte>): (r: Read<EccMode>)
    ensures !r.Abort?
  {
    var (b, rest) :- Take(s, 1);
    match EccModeOf(b[0])
    case None => Fail(InvalidEccMode)
    case Some(mode) => Done((mode, rest))
  }

  function TakePayloadConfig(s: seq<byte>): (r: Read<PayloadConfig>)
    ensures !r.Abort?
  {
    var (b, rest) :- Take(s, 1);
    Done((PayloadConfigOf(b[0]), rest))
  }

  function TakePolicyBody(s: seq<byte>): (r: Read<PolicyBody>)
    ensures !r.Abort?
  {
    var (b, s1) :- Take(s, 1);
    if b[0] == 0x00 then
      var (locator, rest) :- TakeLocator(s1);
      Done((Remote(locator), rest))
    else if b[0] == 0x01 then
      var (len, s2) :- Take(s1, 2);
      var (body, rest) :- Take(s2, BeValue(len));
      Done((Embedded(body), rest))
    else
      Fail(InvalidPolicy)
  }

  function TakePolicy(s: seq<byte>, mode: EccMode): Read<Policy> {
    var (body, s1) :- TakePolicyBody(s);
    var (binding, rest) :- Take(s1, BindingSize(mode)).Unwrap();
    Done((Policy(body, binding), rest))
  }

  function Parse(s: seq<byte>): Read<Header> {
    var (magic, s1) :- Take(s, MAGIC_NUMBER_SIZE);
    var (version, s2) :- Take(s1, VERSION_SIZE);
    var (kas, s3) :- TakeLocator(s2);
    var (ecc, s4) :- TakeEccMode(s3);
    var (config, s5) :- TakePayloadConfig(s4);
    var (policy, s6) :- TakePolicy(s5, ecc);
    var (key, rest) :- Take(s6, MIN_EPHEMERAL_KEY_SIZE);
    Done((Header(magic, version, kas, ecc, config, policy, key), rest))
  }

  // ------------------------------------------------------ reference printer

  function ProtocolByte(p: Protocol): byte {
    match p
    case Http => 0x00
    case Https => 0x01
    case Ws => 0x02
    case Wss => 0x03
    case SharedResource => 0xFF
  }

  function CurveCode(c: Curve): byte {
    match c
    case Secp256r1 => 0
    case Secp384r1 => 1
    case Secp521r1 => 2
    case Secp256k1 => 3
  }

  function CipherCode(c: Cipher): byte {
    match c
    case Gcm64 => 0
    case Gcm96 => 1
    case Gcm104 => 2
    case Gcm112 => 3
    case Gcm120 => 4
    case Gcm128 => 5
  }

  function EccByte(m: EccMode): byte {
    (if m.ecdsaBinding then 128 else 0) + CurveCode(m.curve)
  }

  /** An unknown curve prints as code 4 and an unknown cipher as code 6, the first codes that mean neither. */
  function ConfigByte(c: PayloadConfig): byte {
    (if c.hasSignature then 128 else 0)
    + 16 * (match c.signatureCurve case Some(k) => CurveCode(k) case None => 4)
    + (match c.cipher case Some(k) => CipherCode(k) case None => 6)
  }

  function PutLocator(l: Locator, rest: seq<byte>): seq<byte>
    requires |l.body| < 256
  {
    [ProtocolByte(l.protocol)] + ([|l.body|] + (l.body + rest))
  }

  function PutPolicyBody(p: PolicyBody, rest: seq<byte>): seq<byte>
    requires BodyWellFormed(p)
  {
    match p
    case Remote(l) => [0x00] + PutLocator(l, rest)
    case Embedded(b) => [0x01] + (Be(|b|, 2) + (b + rest))
  }

  predicate LocatorWellFormed(l: Locator) {
    |l.body| < 256 && Utf8.Valid(l.body)
  }

  predicate BodyWellFormed(p: PolicyBody) {
    match p
    case Remote(l) => LocatorWellFormed(l)
    case Embedded(b) => |b| < Pow256(2)
  }

  /** Everything before the policy binding, with the two mode bytes as they appear on the wire. */
  datatype Front = Front(
    magic: seq<byte>,
    version: seq<byte>,
    kas: Locator,
    eccByte: byte,
    configByte: byte,
    body: PolicyBody)

  predicate FrontWellFormed(f: Front) {
    && |f.magic| == 2
    && |f.version| == 1
    && LocatorWellFormed(f.kas)
    && EccModeOf(f.eccByte).Some?
    && BodyWellFormed(f.body)
  }

  function PutFront(f: Front, rest: seq<byte>): seq<byte>
    requires FrontWellFormed(f)
  {
    f.magic + (f.version + PutLocator(f.kas, [f.eccByte] + ([f.configByte] + PutPolicyBody(f.body, rest))))
  }

  predicate WellFormed(h: Header) {
    && |h.magic| == 2
    && |h.version| == 1
    && LocatorWellFormed(h.kas)
    && BodyWellFormed(h.policy.body)
    && |h.policy.binding| == BindingSize(h.ecc)
    && |h.ephemeralKey| == 33
  }

  /** The wire form of h with given mode bytes; several bytes can stand for one mode. */
  function PrintWith(h: Header, eccByte: byte, configByte: byte, rest: seq<byte>): seq<byte>
    requires WellFormed(h) && EccModeOf(eccByte) == Some(h.ecc)
  {
    PutFront(Front(h.magic, h.version, h.kas, eccByte, configByte, h.policy.body),
             h.policy.binding + (h.ephemeralKey + rest))
  }

  predicate ModeBytes(h: Header, eccByte: byte, configByte: byte) {
    EccModeOf(eccByte) == Some(h.ecc) && PayloadConfigOf(configByte) == h.config
  }

  lemma ModeBytesRead(h: Header)
    ensures ModeBytes(h, EccByte(h.ecc), ConfigByte(h.config))
  {
    var c := h.config;
    var sig: byte := match c.signatureCurve case Some(k) => CurveCode(k) case None => 4;
    var cipher: byte := match c.cipher case Some(k) => CipherCode(k) case None => 6;
    assert ConfigByte(c) == (if c.hasSignature then 128 else 0) + 16 * sig + cipher;
    assert ConfigByte(c) / 16 == (if c.hasSignature then 8 else 0) + sig;
  }

  /** Exactly which bits of the mode bytes are read: bit 7 and bits 0 to 2 of the first, all of the second; codes past
      the last one known are an error in the first and stand for none in the second. */
  lemma ModeBytesExactly(b: byte)
    ensures EccModeOf(b) ==
            if b % 8 > 3 then None
            else Some(EccMode(b >= 128, [Secp256r1, Secp384r1, Secp521r1, Secp256k1][b % 8]))
    ensures var c := PayloadConfigOf(b);
            && c.hasSignature == (b >= 128)
            && c.signatureCurve == (if b / 16 % 8 > 3 then None
                                    else Some([Secp256r1, Secp384r1, Secp521r1, Secp256k1][b / 16 % 8]))
            && c.cipher == (if b % 16 > 5 then None
                            else Some([Gcm64, Gcm96, Gcm104, Gcm112, Gcm120, Gcm128][b % 16]))
  {
  }

  function Print(h: Header): seq<byte>
    requires WellFormed(h)
  {
    ModeBytesRead(h);
    PrintWith(h, EccByte(h.ecc), ConfigByte(h.config), [])
  }

  // -------------------------------------------- the parser inverts the printer

  lemma TakeAfterPut(b: seq<byte>, rest: seq<byte>)
    ensures Take(b + rest, |b|) == Done((b, rest))
  {
    assert (b + rest)[..|b|] == b && (b + rest)[|b|..] == rest;
  }

  lemma TakeLocatorReads(l: Locator, rest: seq<byte>)
    requires LocatorWellFormed(l)
    ensures TakeLocator(PutLocator(l, rest)) == Done((l, rest))
  {
    TakeAfterPut([ProtocolByte(l.protocol)], [|l.body|] + (l.body + rest));
    TakeAfterPut([|l.body|], l.body + rest);
    TakeAfterPut(l.body, rest);
  }

  lemma TakePolicyBodyReads(p: PolicyBody, rest: seq<byte>)
    requires BodyWellFormed(p)
    ensures TakePolicyBody(PutPolicyBody(p, rest)) == Done((p, rest))
  {
    match p
    case Remote(l) =>
      TakeAfterPut([0x00], PutLocator(l, rest));
      TakeLocatorReads(l, rest);
    case Embedded(b) =>
      TakeAfterPut([0x01], Be(|b|, 2) + (b + rest));
      TakeAfterPut(Be(|b|, 2), b + rest);
      BeRoundTrip(|b|, 2);
      TakeAfterPut(b, rest);
  }

  /** What Parse makes of a well-formed front followed by any bytes. */
  function ParseAfter(f: Front, s: seq<byte>): Read<Header>
    requires EccModeOf(f.eccByte).Some?
  {
    var ecc := EccModeOf(f.eccByte).value;
    var (binding, s1) :- Take(s, BindingSize(ecc)).Unwrap();
    var (key, rest) :- Take(s1, MIN_EPHEMERAL_KEY_SIZE);
    Done((Header(f.magic, f.version, f.kas, ecc, PayloadConfigOf(f.configByte), Policy(f.body, binding), key), rest))
  }

  lemma ParsePastFront(f: Front, s: seq<byte>)
    requires FrontWellFormed(f)
    ensures Parse(PutFront(f, s)) == ParseAfter(f, s)
  {
    var s5 := PutPolicyBody(f.body, s);
    var s3 := [f.eccByte] + ([f.configByte] + s5);
    TakeAfterPut(f.magic, f.version + PutLocator(f.kas, s3));
    TakeAfterPut(f.version, PutLocator(f.kas, s3));
    TakeLocatorReads(f.kas, s3);
    TakeAfterPut([f.eccByte], [f.configByte] + s5);
    TakeAfterPut([f.configByte], s5);
    TakePolicyBodyReads(f.body, s);
  }

  lemma ParseReads(h: Header, eccByte: byte, configByte: byte, rest: seq<byte>)
    requires WellFormed(h) && ModeBytes(h, eccByte, configByte)
    ensures Parse(PrintWith(h, eccByte, configByte, rest)) == Done((h, rest))
  {
    ParsePastFront(Front(h.magic, h.version, h.kas, eccByte, configByte, h.policy.body),
                   h.policy.binding + (h.ephemeralKey + rest));
    TakeAfterPut(h.policy.binding, h.ephemeralKey + rest);
    TakeAfterPut(h.ephemeralKey, rest);
  }

  // ---------------------------------- everything past the front is such a print

  lemma LocatorLayout(s: seq<byte>, n: nat)
    requires 2 + n <= |s|
    ensures s[1..][1..] == s[2..]
    ensures s == [s[0]] + ([s[1]] + (s[2..][..n] + s[2..][n..]))
  {
    assert s[2..][..n] + s[2..][n..] == s[2..];
    assert [s[1]] + s[2..] == s[1..];
  }

  lemma TakeLocatorExact(s: seq<byte>)
    requires TakeLocator(s).Done?
    ensures var (l, rest) := TakeLocator(s).value;
            LocatorWellFormed(l) && s == PutLocator(l, rest)
  {
    PutAfterTakeOne(s);
    PutAfterTakeOne(s[1..]);
    LocatorLayout(s, s[1]);
  }

  lemma TakePolicyBodyExact(s: seq<byte>)
    requires TakePolicyBody(s).Done?
    ensures var (p, rest) := TakePolicyBody(s).value;
            BodyWellFormed(p) && s == PutPolicyBody(p, rest)
  {
    PutAfterTake(s, 1);
    var s1 := s[1..];
    if s[0] == 0x00 {
      TakeLocatorExact(s1);
    } else {
      PutAfterTake(s1, 2);
      BeCanonical(s1[..2]);
      PutAfterTake(s1[2..], BeValue(s1[..2]));
    }
  }

  function TakeFront(s: seq<byte>): (r: Read<Front>)
    ensures !r.Abort?
    ensures r.Done? ==> EccModeOf(r.value.0.eccByte).Some?
  {
    var (magic, s1) :- Take(s, MAGIC_NUMBER_SIZE);
    var (version, s2) :- Take(s1, VERSION_SIZE);
    var (kas, s3) :- TakeLocator(s2);
    var (e, s4) :- Take(s3, 1);
    if EccModeOf(e[0]).None? then Fail(InvalidEccMode) else
    var (c, s5) :- Take(s4, 1);
    var (body, rest) :- TakePolicyBody(s5);
    Done((Front(magic, version, kas, e[0], c[0], body), rest))
  }

  lemma ParseInTwoParts(s: seq<byte>)
    ensures Parse(s) == match TakeFront(s)
                        case Done((f, rest)) => ParseAfter(f, rest)
                        case Fail(e) => Fail(e)
                        case Abort => Abort
  {
    if |s| < 3 { return; }
    var kas := TakeLocator(s[2..][1..]);
    if !kas.Done? { return; }
    var s3 := kas.value.1;
    if s3 == [] || EccModeOf(s3[0]).None? { return; }
    var s4 := s3[1..];
    if s4 == [] { return; }
    var body := TakePolicyBody(s4[1..]);
  }

  lemma PutAfterTakeOne(s: seq<byte>)
    requires s != []
    ensures Take(s, 1) == Done(([s[0]], s[1..]))
    ensures [s[0]] + s[1..] == s
  {
    assert s[..1] == [s[0]];
  }

  lemma TakeFrontExact(s: seq<byte>)
    requires TakeFront(s).Done?
    ensures var (f, rest) := TakeFront(s).value;
            FrontWellFormed(f) && s == PutFront(f, rest)
  {
    var (magic, s1) := Take(s, MAGIC_NUMBER_SIZE).value;
    var (version, s2) := Take(s1, VERSION_SIZE).value;
    var (kas, s3) := TakeLocator(s2).value;
    PutAfterTakeOne(s3);
    var s4 := s3[1..];
    PutAfterTakeOne(s4);
    var s5 := s4[1..];
    var (body, rest) := TakePolicyBody(s5).value;
    assert TakeFront(s) == Done((Front(magic, version, kas, s3[0], s4[0], body), rest));
    TakePolicyBodyExact(s5);
    TakeLocatorExact(s2);
    assert s1 == version + s2 by { PutAfterTake(s1, VERSION_SIZE); }
    assert s == magic + s1 by { PutAfterTake(s, MAGIC_NUMBER_SIZE); }
  }

  /** Parsing gets as far as the binding only on a well-formed front, and then goes on as ParseAfter. */
  lemma FrontOf(s: seq<byte>) returns (f: Front, rest: seq<byte>)
    requires TakeFront(s).Done?
    ensures FrontWellFormed(f) && s == PutFront(f, rest)
    ensures Parse(s) == ParseAfter(f, rest)
  {
    ParseInTwoParts(s);
    TakeFrontExact(s);
    f, rest := TakeFront(s).value.0, TakeFront(s).value.1;
  }

  // ------------------------------------------------- which error is reported

  /** An unknown protocol, or a body that is all there and not UTF-8. */
  predicate BadLocator(s: seq<byte>) {
    && s != []
    && (|| s[0] !in {0x00, 0x01, 0x02, 0x03, 0xFF}
        || (|s| >= 2 && 2 + s[1] <= |s| && !Utf8.Valid(s[2..2 + s[1]])))
  }

  lemma LocatorFailsExactly(s: seq<byte>)
    ensures TakeLocator(s) == Fail(InvalidKas) <==> BadLocator(s)
    ensures TakeLocator(s).Fail? ==> TakeLocator(s).error == InvalidKas || TakeLocator(s).error == InvalidFormat
  {
    if |s| >= 2 && 2 + s[1] <= |s| {
      assert s[1..][1..] == s[2..] && s[2..][..s[1]] == s[2..2 + s[1]];
    }
  }

  /** Behind the magic number and the version comes this locator, and then these bytes. */
  predicate KasThen(s: seq<byte>, kas: Locator, x: seq<byte>) {
    |s| >= 3 && LocatorWellFormed(kas) && s[3..] == PutLocator(kas, x)
  }

  lemma KasIsRead(s: seq<byte>, kas: Locator, x: seq<byte>)
    requires KasThen(s, kas, x)
    ensures Take(s, 2).Done? && Take(s[2..], 1).Done? && s[2..][1..] == s[3..]
    ensures TakeLocator(s[3..]) == Done((kas, x))
  {
    TakeLocatorReads(kas, x);
  }

  /** Behind the locator and the mode bytes, these bytes. */
  predicate ModesThen(s: seq<byte>, kas: Locator, e: byte, c: byte, x: seq<byte>) {
    e % 8 <= 3 && KasThen(s, kas, [e] + ([c] + x))
  }

  /** The mode byte asks for a curve that is none. */
  ghost predicate BadMode(s: seq<byte>) {
    exists kas, e: byte, x :: KasThen(s, kas, [e] + x) && e % 8 > 3
  }

  /** The policy is of a type that is none. */
  ghost predicate BadPolicy(s: seq<byte>) {
    exists kas, e: byte, c: byte, b: byte, x :: ModesThen(s, kas, e, c, [b] + x) && b > 1
  }

  /** The locator of the server, or that of a remote policy, is bad. */
  ghost predicate BadKas(s: seq<byte>) {
    || (|s| >= 3 && BadLocator(s[3..]))
    || exists kas, e: byte, c: byte, x :: ModesThen(s, kas, e, c, [0x00] + x) && BadLocator(x)
  }

  /** What the front makes of the bytes behind the mode bytes. */
  lemma FrontPastModes(s: seq<byte>, kas: Locator, e: byte, c: byte, x: seq<byte>)
    requires ModesThen(s, kas, e, c, x)
    ensures Parse(s).Fail? ==> TakePolicyBody(x).Done? ==> Parse(s).error == InvalidFormat
    ensures TakePolicyBody(x).Fail? ==> Parse(s) == Fail(TakePolicyBody(x).error)
  {
    KasIsRead(s, kas, [e] + ([c] + x));
    TakeAfterPut([e], [c] + x);
    TakeAfterPut([c], x);
    ModeBytesExactly(e);
  }

  lemma FrontPastKas(s: seq<byte>, kas: Locator, e: byte, x: seq<byte>)
    requires KasThen(s, kas, [e] + x) && e % 8 > 3
    ensures Parse(s) == Fail(InvalidEccMode)
  {
    KasIsRead(s, kas, [e] + x);
    TakeAfterPut([e], x);
    ModeBytesExactly(e);
  }

  lemma PolicyBodyFails(x: seq<byte>)
    ensures TakePolicyBody(x) == Fail(InvalidPolicy) <==> x != [] && x[0] > 1
    ensures TakePolicyBody(x) == Fail(InvalidKas) <==> x != [] && x[0] == 0x00 && BadLocator(x[1..])
    ensures TakePolicyBody(x) != Fail(InvalidEccMode)
  {
    if x != [] {
      LocatorFailsExactly(x[1..]);
    }
  }

  lemma BadIsBlamed(s: seq<byte>)
    ensures BadMode(s) ==> Parse(s) == Fail(InvalidEccMode)
    ensures BadPolicy(s) ==> Parse(s) == Fail(InvalidPolicy)
    ensures BadKas(s) ==> Parse(s) == Fail(InvalidKas)
  {
    if kas, e: byte, x :| KasThen(s, kas, [e] + x) && e % 8 > 3 {
      FrontPastKas(s, kas, e, x);
    }
    if kas, e: byte, c: byte, b: byte, x :| ModesThen(s, kas, e, c, [b] + x) && b > 1 {
      FrontPastModes(s, kas, e, c, [b] + x);
      PolicyBodyFails([b] + x);
    }
    if |s| >= 3 && BadLocator(s[3..]) {
      assert s[2..][1..] == s[3..];
      LocatorFailsExactly(s[3..]);
    }
    if kas, e: byte, c: byte, x :| ModesThen(s, kas, e, c, [0x00] + x) && BadLocator(x) {
      FrontPastModes(s, kas, e, c, [0x00] + x);
      assert ([0x00] + x)[1..] == x;
      PolicyBodyFails([0x00] + x);
    }
  }

  lemma BlamedIsBad(s: seq<byte>)
    requires Parse(s).Fail? && Parse(s).error != InvalidFormat
    ensures match Parse(s).error
            case InvalidKas => BadKas(s)
            case InvalidEccMode => BadMode(s)
            case InvalidPolicy => BadPolicy(s)
            case InvalidFormat => true
  {
    ParseInTwoParts(s);
    assert s[2..][1..] == s[3..];
    LocatorFailsExactly(s[3..]);
    if TakeLocator(s[3..]).Done? {
      TakeLocatorExact(s[3..]);
      var (kas, x) := TakeLocator(s[3..]).value;
      PutAfterTakeOne(x);
      ModeBytesExactly(x[0]);
      if x[0] % 8 > 3 {
        assert KasThen(s, kas, [x[0]] + x[1..]);
      } else {
        PutAfterTakeOne(x[1..]);
        BlamedPastModes(s, kas, x[0], x[1], x[1..][1..]);
      }
    }
  }

  lemma BlamedPastModes(s: seq<byte>, kas: Locator, e: byte, c: byte, x: seq<byte>)
    requires ModesThen(s, kas, e, c, x) && Parse(s).Fail? && Parse(s).error != InvalidFormat
    ensures match Parse(s).error
            case InvalidKas => BadKas(s)
            case InvalidEccMode => false
            case InvalidPolicy => BadPolicy(s)
            case InvalidFormat => true
  {
    FrontPastModes(s, kas, e, c, x);
    PolicyBodyFails(x);
    if x != [] {
      PutAfterTakeOne(x);
      assert ModesThen(s, kas, e, c, [x[0]] + x[1..]);
    }
  }

  /** Which error a refused header gets: each of the three is reported exactly when everything before the faulty part is
      well-formed, and all else that is refused is a format error. */
  lemma FailsExactly(s: seq<byte>)
    ensures Parse(s) == Fail(InvalidKas) <==> BadKas(s)
    ensures Parse(s) == Fail(InvalidEccMode) <==> BadMode(s)
    ensures Parse(s) == Fail(InvalidPolicy) <==> BadPolicy(s)
  {
    BadIsBlamed(s);
    if Parse(s).Fail? && Parse(s).error != InvalidFormat {
      BlamedIsBad(s);
    }
  }

  /** The accepted language, exactly. */
  lemma ParseExact(s: seq<byte>, h: Header, rest: seq<byte>)
    ensures Parse(s) == Done((h, rest)) <==>
            WellFormed(h) && exists e: byte, c: byte :: ModeBytes(h, e, c) && s == PrintWith(h, e, c, rest)
  {
    if Parse(s) == Done((h, rest)) {
      assert TakeFront(s).Done? by { ParseInTwoParts(s); }
      var f, after := FrontOf(s);
      PutAfterTake(after, BindingSize(h.ecc));
      PutAfterTake(after[BindingSize(h.ecc)..], MIN_EPHEMERAL_KEY_SIZE);
      assert ModeBytes(h, f.eccByte, f.configByte) && s == PrintWith(h, f.eccByte, f.configByte, rest);
    }
    if WellFormed(h) && exists e: byte, c: byte :: ModeBytes(h, e, c) && s == PrintWith(h, e, c, rest) {
      var e: byte, c: byte :| ModeBytes(h, e, c) && s == PrintWith(h, e, c, rest);
      ParseReads(h, e, c, rest);
    }
  }

  /** Parsing panics exactly when the front is well formed and the binding after it is cut short. */
  lemma AbortsExactly(s: seq<byte>)
    ensures Parse(s) == Abort <==>
            exists f, short :: FrontWellFormed(f) && s == PutFront(f, short)
                            && |short| < BindingSize(EccModeOf(f.eccByte).value)
  {
    if Parse(s) == Abort {
      assert TakeFront(s).Done? by { ParseInTwoParts(s); }
      var f, short := FrontOf(s);
    }
    if f, short :| FrontWellFormed(f) && s == PutFront(f, short)
                   && |short| < BindingSize(EccModeOf(f.eccByte).value) {
      ParsePastFront(f, short);
    }
  }

  // -------------------------------------------------------- trailing bytes

  lemma PutLocatorAppend(l: Locator, a: seq<byte>, b: seq<byte>)
    requires |l.body| < 256
    ensures PutLocator(l, a + b) == PutLocator(l, a) + b
  {
    assert l.body + (a + b) == (l.body + a) + b;
  }

  lemma PutFrontAppend(f: Front, a: seq<byte>, b: seq<byte>)
    requires FrontWellFormed(f)
    ensures PutFront(f, a + b) == PutFront(f, a) + b
  {
    var p := PutPolicyBody(f.body, a);
    assert PutPolicyBody(f.body, a + b) == p + b by {
      match f.body
      case Remote(l) => PutLocatorAppend(l, a, b);
      case Embedded(e) => assert e + (a + b) == (e + a) + b;
    }
    var m := [f.eccByte] + ([f.configByte] + p);
    assert [f.eccByte] + ([f.configByte] + (p + b)) == m + b;
    PutLocatorAppend(f.kas, m, b);
  }

  /** The round trip: every well-formed header survives printing, and parsing stops at the end of its print. */
  lemma RoundTrip(h: Header, rest: seq<byte>)
    requires WellFormed(h)
    ensures Parse(Print(h) + rest) == Done((h, rest))
  {
    ModeBytesRead(h);
    var e, c := EccByte(h.ecc), ConfigByte(h.config);
    var f := Front(h.magic, h.version, h.kas, e, c, h.policy.body);
    PutFrontAppend(f, h.policy.binding + (h.ephemeralKey + []), rest);
    assert h.policy.binding + (h.ephemeralKey + []) + rest == h.policy.binding + (h.ephemeralKey + rest);
    ParseReads(h, e, c, rest);
  }

  /** No strict prefix of the bytes that a successful parse consumed parses successfully. */
  lemma NoStrictPrefixParses(s: seq<byte>, t: seq<byte>)
    requires Parse(s + t).Done?
    requires |Parse(s + t).value.1| < |t|
    ensures !Parse(s).Done?
  {
    if Parse(s).Done? {
      assert TakeFront(s).Done? by { ParseInTwoParts(s); }
      var f, after := FrontOf(s);
      PutFrontAppend(f, after, t);
      ParsePastFront(f, after + t);
    }
  }

  // --------------------------------------------- the position-driven parser

  /** A positioned read agrees with the pure read. */
  ghost predicate Tracks<T(!new)>(spec: Read<T>, r: Outcome<T>, rest: seq<byte>) {
    match spec
    case Done((v, after)) => r == Done(v) && rest == after
    case Fail(e) => r == Fail(e)
    case Abort => r == Abort
  }

  class BinaryParser {
    const data: seq<byte>
    var position: nat

    ghost predicate Valid()
      reads this
    {
      position <= |data|
    }

    ghost function Rest(): seq<byte>
      requires Valid()
      reads this
    {
      data[position..]
    }

    constructor (data: seq<byte>)
      ensures Valid() && this.data == data && position == 0
    {
      this.data := data;
      position := 0;
    }

    method Read(length: nat) returns (r: Outcome<seq<byte>>)
      requires Valid()
      modifies this
      ensures Valid() && old(position) <= position
      ensures Tracks(Take(old(Rest()), length), r, Rest())
    {
      if position + length > |data| {
        return Fail(InvalidFormat);
      }
      r := Done(data[position..position + length]);
      assert data[position..][..length] == data[position..position + length];
      position := position + length;
    }

    method ReadLocator() returns (r: Outcome<Locator>)
      requires Valid()
      modifies this
      ensures Valid() && old(position) <= position
      ensures Tracks(TakeLocator(old(Rest())), r, Rest())
    {
      var b :- Read(1);
      var protocol := ProtocolOf(b[0]);
      if protocol.None? {
        return Fail(InvalidKas);
      }
      var len :- Read(1);
      var body :- Read(len[0]);
      if !Utf8.Valid(body) {
        return Fail(InvalidKas);
      }
      return Done(Locator(protocol.value, body));
    }

    method ReadEccMode() returns (r: Outcome<EccMode>)
      requires Valid()
      modifies this
      ensures Valid() && old(position) <= position
      ensures Tracks(TakeEccMode(old(Rest())), r, Rest())
    {
      var b :- Read(1);
      var mode := EccModeOf(b[0]);
      if mode.None? {
        return Fail(InvalidEccMode);
      }
      return Done(mode.value);
    }

    method ReadPolicy(mode: EccMode) returns (r: Outcome<Policy>)
      requires Valid()
      modifies this
      ensures Valid() && old(position) <= position
      ensures Tracks(TakePolicy(old(Rest()), mode), r, Rest())
    {
      var b :- Read(1);
      var body;
      if b[0] == 0x00 {
        var locator :- ReadLocator();
        body := Remote(locator);
      } else if b[0] == 0x01 {
        var len :- Read(2);
        var bytes :- Read(BeValue(len));
        body := Embedded(bytes);
      } else {
        return Fail(InvalidPolicy);
      }
      var binding := Read(BindingSize(mode));
      if !binding.Done? {
        return Abort;
      }
      return Done(Policy(body, binding.value));
    }

    method ParseHeader() returns (r: Outcome<Header>)
      requires Valid()
      modifies this
      ensures Valid() && old(position) <= position
      ensures Tracks(Parse(old(Rest())), r, Rest())
      ensures r.Done? ==> WellFormed(r.value)
    {
      ghost var s := Rest();
      var magic :- Read(MAGIC_NUMBER_SIZE);
      var version :- Read(VERSION_SIZE);
      var kas :- ReadLocator();
      var ecc :- ReadEccMode();
      var config :- Read(1);
      var policy :- ReadPolicy(ecc);
      var key :- Read(MIN_EPHEMERAL_KEY_SIZE);
      r := Done(Header(magic, version, kas, ecc, PayloadConfigOf(config[0]), policy, key));
      ParseExact(s, r.value, Rest());
    }
  }
}
