/** RPC messages (RFC 1057): their types, their codec and the reply constructors. */
module Rpc {
  import opened Bytes
  import opened Streams
  import opened Xdr

  type AuthFlavor = x: int | 0 <= x <= 3
  type AuthStat = x: int | 1 <= x <= 5 witness 1

  const AUTH_NULL: AuthFlavor := 0
  const AUTH_UNIX: AuthFlavor := 1

  datatype OpaqueAuth = OpaqueAuth(flavor: AuthFlavor, body: seq<byte>)
  datatype CallBody = CallBody(rpcvers: u32, prog: u32, vers: u32, procedure: u32, cred: OpaqueAuth, verf: OpaqueAuth)
  datatype MismatchInfo = MismatchInfo(low: u32, high: u32)
  datatype AcceptBody = Success | ProgUnavail | ProgMismatch(info: MismatchInfo) | ProcUnavail | GarbageArgs
  datatype AcceptedReply = AcceptedReply(verf: OpaqueAuth, data: AcceptBody)
  datatype RejectedReply = RpcMismatch(info: MismatchInfo) | AuthError(stat: AuthStat)
  datatype ReplyBody = MsgAccepted(accepted: AcceptedReply) | MsgDenied(rejected: RejectedReply)
  datatype RpcBody = Call(call: CallBody) | Reply(reply: ReplyBody)
  datatype RpcMsg = RpcMsg(xid: u32, body: RpcBody)

  const DEFAULT_AUTH := OpaqueAuth(AUTH_NULL, [])
  const DEFAULT_CALL := CallBody(0, 0, 0, 0, DEFAULT_AUTH, DEFAULT_AUTH)

  // ---- schemas; a union's Become value is the default its deserialize leaves in place ----

  function OpaqueAuthXdr(): Schema { Then(Enum({0, 1, 2, 3}), Opaque) }
  function CallBodyXdr(): Schema { Then(U32, Then(U32, Then(U32, Then(U32, Then(OpaqueAuthXdr(), OpaqueAuthXdr()))))) }
  function MismatchInfoXdr(): Schema { Then(U32, U32) }
  function AuthStatXdr(): Schema { Enum({1, 2, 3, 4, 5}) }
  function AcceptBodyXdr(): Schema {
    Switch(Arm(0, Void, Arm(1, Void, Arm(2, MismatchInfoXdr(), Arm(3, Void, Arm(4, Void, NoArms))))),
           Become(AcceptValue(GarbageArgs)))
  }
  function AcceptedReplyXdr(): Schema { Then(OpaqueAuthXdr(), AcceptBodyXdr()) }
  function RejectedReplyXdr(): Schema {
    Switch(Arm(0, MismatchInfoXdr(), Arm(1, AuthStatXdr(), NoArms)),
           Become(RejectedValue(RpcMismatch(MismatchInfo(0, 0)))))
  }
  function ReplyBodyXdr(): Schema {
    Switch(Arm(0, AcceptedReplyXdr(), Arm(1, RejectedReplyXdr(), NoArms)),
           Become(ReplyValue(MsgAccepted(AcceptedReply(DEFAULT_AUTH, Success)))))
  }
  function RpcBodyXdr(): Schema {
    Switch(Arm(0, CallBodyXdr(), Arm(1, ReplyBodyXdr(), NoArms)), Become(BodyValue(Call(DEFAULT_CALL))))
  }
  function RpcMsgXdr(): Schema { Then(U32, RpcBodyXdr()) }

  /** The credentials a call with flavour AUTH_UNIX carries: stamp, machine name, uid, gid, gids. */
  function AuthUnixBodyXdr(): Schema { Then(U32, Then(Opaque, Then(U32, Then(U32, Words)))) }

  function AuthValue(a: OpaqueAuth): Value { Both(Num(a.flavor), Blob(a.body)) }

  function CallValue(c: CallBody): Value
  {
    Both(Num(c.rpcvers), Both(Num(c.prog), Both(Num(c.vers), Both(Num(c.procedure),
      Both(AuthValue(c.cred), AuthValue(c.verf))))))
  }

  function MismatchValue(m: MismatchInfo): Value { Both(Num(m.low), Num(m.high)) }

  function AcceptValue(a: AcceptBody): Value
  {
    match a
    case Success => Case(0, Unit)
    case ProgUnavail => Case(1, Unit)
    case ProgMismatch(m) => Case(2, MismatchValue(m))
    case ProcUnavail => Case(3, Unit)
    case GarbageArgs => Case(4, Unit)
  }

  function RejectedValue(r: RejectedReply): Value
  {
    match r
    case RpcMismatch(m) => Case(0, MismatchValue(m))
    case AuthError(stat) => Case(1, Num(stat))
  }

  function ReplyValue(r: ReplyBody): Value
  {
    match r
    case MsgAccepted(a) => Case(0, Both(AuthValue(a.verf), AcceptValue(a.data)))
    case MsgDenied(d) => Case(1, RejectedValue(d))
  }

  function BodyValue(b: RpcBody): Value
  {
    match b
    case Call(c) => Case(0, CallValue(c))
    case Reply(r) => Case(1, ReplyValue(r))
  }

  function MsgValue(m: RpcMsg): Value { Both(Num(m.xid), BodyValue(m.body)) }

  /** Opaque fields no longer than a length word can say. */
  predicate FitsAuth(a: OpaqueAuth) { |a.body| <= U32_MAX }

  predicate Encodable(m: RpcMsg)
  {
    match m.body
    case Call(c) => FitsAuth(c.cred) && FitsAuth(c.verf)
    case Reply(MsgAccepted(a)) => FitsAuth(a.verf)
    case Reply(MsgDenied(_)) => true
  }

  lemma MsgValueHasType(m: RpcMsg)
    requires Encodable(m)
    ensures HasType(RpcMsgXdr(), MsgValue(m))
  {
    match m
    case RpcMsg(xid, Call(CallBody(rpcvers, prog, vers, procedure, OpaqueAuth(f, b), OpaqueAuth(f', b')))) =>
      hide ReplyBodyXdr;
    case RpcMsg(xid, Reply(MsgAccepted(AcceptedReply(OpaqueAuth(f, b), data)))) =>
      hide CallBodyXdr, RejectedReplyXdr;
      match data { case ProgMismatch(MismatchInfo(low, high)) => case _ => }
    case RpcMsg(xid, Reply(MsgDenied(RpcMismatch(MismatchInfo(low, high))))) =>
    case RpcMsg(xid, Reply(MsgDenied(AuthError(stat)))) =>
  }

  /** A discriminant none of the unions lists leaves a default that is itself a message. */
  lemma RpcMsgWellFormed()
    ensures WellFormed(RpcMsgXdr()) && Aligned(RpcMsgXdr())
  {
    ReplyBodyWellFormed();
    hide ReplyBodyXdr;
  }

  lemma ReplyBodyWellFormed()
    ensures WellFormed(ReplyBodyXdr()) && Aligned(ReplyBodyXdr())
  {}

  // ---- reading values back as messages ----

  function AuthOf(v: Value): OpaqueAuth
    requires HasType(OpaqueAuthXdr(), v)
  {
    OpaqueAuth(v.first.n, v.rest.bytes)
  }

  function CallOf(v: Value): CallBody
    requires HasType(CallBodyXdr(), v)
  {
    var v1 := v.rest;
    var v2 := v1.rest;
    var v3 := v2.rest;
    var v4 := v3.rest;
    CallBody(v.first.n, v1.first.n, v2.first.n, v3.first.n, AuthOf(v4.first), AuthOf(v4.rest))
  }

  function MismatchOf(v: Value): MismatchInfo
    requires HasType(MismatchInfoXdr(), v)
  {
    MismatchInfo(v.first.n, v.rest.n)
  }

  function AcceptOf(v: Value): AcceptBody
    requires HasType(AcceptBodyXdr(), v)
  {
    if v.tag == 0 then Success
    else if v.tag == 1 then ProgUnavail
    else if v.tag == 2 then ProgMismatch(MismatchOf(v.v))
    else if v.tag == 3 then ProcUnavail
    else GarbageArgs
  }

  function RejectedOf(v: Value): RejectedReply
    requires HasType(RejectedReplyXdr(), v)
  {
    if v.tag == 0 then RpcMismatch(MismatchOf(v.v))
    else AuthError(v.v.n)
  }

  function ReplyOf(v: Value): ReplyBody
    requires HasType(ReplyBodyXdr(), v)
  {
    if v.tag == 0 then MsgAccepted(AcceptedReply(AuthOf(v.v.first), AcceptOf(v.v.rest)))
    else MsgDenied(RejectedOf(v.v))
  }

  function BodyOf(v: Value): RpcBody
    requires HasType(RpcBodyXdr(), v)
  {
    if v.tag == 0 then Call(CallOf(v.v))
    else Reply(ReplyOf(v.v))
  }

  function MsgOf(v: Value): RpcMsg
    requires HasType(RpcMsgXdr(), v)
  {
    RpcMsg(v.first.n, BodyOf(v.rest))
  }

  lemma MsgOfInverse(m: RpcMsg)
    requires Encodable(m)
    ensures HasType(RpcMsgXdr(), MsgValue(m)) && MsgOf(MsgValue(m)) == m
  {
    MsgValueHasType(m);
    match m.body
    case Call(c) => assert CallOf(CallValue(c)) == c;
    case Reply(MsgAccepted(a)) => assert AcceptOf(AcceptValue(a.data)) == a.data;
    case Reply(MsgDenied(d)) => assert RejectedOf(RejectedValue(d)) == d;
  }

  // ---- the codec on messages ----

  function EncodeMsg(m: RpcMsg): seq<byte>
    requires Encodable(m)
  {
    MsgValueHasType(m);
    Encode(RpcMsgXdr(), MsgValue(m))
  }

  function DecodeMsg(b: seq<byte>): Option<(RpcMsg, seq<byte>)>
  {
    RpcMsgWellFormed();
    match Decode(RpcMsgXdr(), b)
    case Err => None
    case Ok(v, rest) =>
      DecodeParsed(RpcMsgXdr(), b);
      Some((MsgOf(v), rest))
  }

  lemma MsgRoundTrip(m: RpcMsg, rest: seq<byte>)
    requires Encodable(m)
    ensures DecodeMsg(EncodeMsg(m) + rest) == Some((m, rest))
  {
    hide Encode, Decode;
    MsgOfInverse(m);
    RoundTrip(RpcMsgXdr(), MsgValue(m), rest);
  }

  lemma MsgIsAligned(m: RpcMsg)
    requires Encodable(m)
    ensures |EncodeMsg(m)| % 4 == 0
  {
    MsgValueHasType(m);
    RpcMsgWellFormed();
    EncodingIsAligned(RpcMsgXdr(), MsgValue(m));
  }

  method SerializeMsg(m: RpcMsg, dest: WriteCounter)
    requires Encodable(m) && Serializable(MsgValue(m))
    modifies dest
    ensures dest.inner == old(dest.inner) + EncodeMsg(m)
    ensures dest.count == old(dest.count) + |EncodeMsg(m)|
  {
    hide HasType, Encode, MsgValue, RpcMsgXdr;
    MsgValueHasType(m);
    Serialize(RpcMsgXdr(), MsgValue(m), dest);
  }

  method DeserializeMsg(input: Reader) returns (m: Option<RpcMsg>)
    requires input.Valid()
    modifies input
    ensures input.Valid()
    ensures match DecodeMsg(old(input.Rest()))
            case Some((msg, rest)) => m == Some(msg) && input.Rest() == rest
            case None => m == None
  {
    hide Decode, HasType;
    RpcMsgWellFormed();
    if Decode(RpcMsgXdr(), input.Rest()).Ok? { DecodeParsed(RpcMsgXdr(), input.Rest()); }
    var v := Deserialize(RpcMsgXdr(), input);
    m := if v.None? then None else Some(MsgOf(v.value));
  }

  // ---- replies ----

  function Accepted(xid: u32, data: AcceptBody): RpcMsg
  {
    RpcMsg(xid, Reply(MsgAccepted(AcceptedReply(DEFAULT_AUTH, data))))
  }

  function ProgUnavailReply(xid: u32): RpcMsg { Accepted(xid, ProgUnavail) }

  function RpcVersMismatch(xid: u32): RpcMsg
  {
    RpcMsg(xid, Reply(MsgDenied(RpcMismatch(MismatchInfo(0, 0)))))
  }

  function MakeSuccessReply(xid: u32): RpcMsg { Accepted(xid, Success) }

  /** The acceptance status, and the versions of a mismatch. */
  function AcceptBytes(a: AcceptBody): seq<byte>
  {
    match a
    case Success => Be32(0)
    case ProgUnavail => Be32(1)
    case ProgMismatch(m) => Be32(2) + (Be32(m.low) + Be32(m.high))
    case ProcUnavail => Be32(3)
    case GarbageArgs => Be32(4)
  }

  /** The reason of a rejection, and the versions of a mismatch or the status of an authentication error. */
  function RejectedBytes(r: RejectedReply): seq<byte>
  {
    match r
    case RpcMismatch(m) => Be32(0) + (Be32(m.low) + Be32(m.high))
    case AuthError(stat) => Be32(1) + Be32(stat)
  }

  /** An accepted reply is its xid, REPLY, MSG_ACCEPTED, an empty AUTH_NULL verifier, and its status. */
  lemma AcceptedLayout(xid: u32, data: AcceptBody)
    ensures EncodeMsg(Accepted(xid, data)) == Be32(xid) + Be32(1) + Be32(0) + Be32(0) + Be32(0) + AcceptBytes(data)
  {
    hide Be32;
    MsgValueHasType(Accepted(xid, data));
    AcceptEncoding(data);
    hide AcceptBodyXdr, AcceptValue, AcceptBytes;
    assert Zeros(Pad(0)) == [];
    assert EncodeMsg(Accepted(xid, data))
        == Be32(xid) + (Be32(1) + (Be32(0) + ((Be32(0) + (Be32(0) + [] + [])) + AcceptBytes(data))));
  }

  lemma AcceptEncoding(data: AcceptBody)
    ensures HasType(AcceptBodyXdr(), AcceptValue(data))
    ensures Encode(AcceptBodyXdr(), AcceptValue(data)) == AcceptBytes(data)
  {
    hide Be32;
    match data
    case ProgMismatch(MismatchInfo(low, high)) =>
    case _ => assert forall w: seq<byte> :: w + [] == w;
  }

  /** A rejection is its xid, REPLY, MSG_DENIED, and its reason. */
  lemma DeniedLayout(xid: u32, rejected: RejectedReply)
    ensures EncodeMsg(RpcMsg(xid, Reply(MsgDenied(rejected))))
         == Be32(xid) + Be32(1) + Be32(1) + RejectedBytes(rejected)
  {
    hide Be32;
    MsgValueHasType(RpcMsg(xid, Reply(MsgDenied(rejected))));
    assert EncodeMsg(RpcMsg(xid, Reply(MsgDenied(rejected))))
        == Be32(xid) + (Be32(1) + (Be32(1) + RejectedBytes(rejected)));
  }

  /** The success header: xid, REPLY, MSG_ACCEPTED, an empty AUTH_NULL verifier, SUCCESS. */
  lemma SuccessHeader(xid: u32)
    ensures EncodeMsg(MakeSuccessReply(xid)) == Be32(xid) + Be32(1) + Be32(0) + Be32(0) + Be32(0) + Be32(0)
    ensures |EncodeMsg(MakeSuccessReply(xid))| == 24
  {
    hide Be32, EncodeMsg;
    AcceptedLayout(xid, Success);
  }

  /** A call of an unknown program is accepted, and its status is PROG_UNAVAIL. */
  lemma ProgUnavailWords(xid: u32)
    ensures EncodeMsg(ProgUnavailReply(xid)) == Be32(xid) + Be32(1) + Be32(0) + Be32(0) + Be32(0) + Be32(1)
  {
    hide Be32, EncodeMsg;
    AcceptedLayout(xid, ProgUnavail);
  }

  /** A call of another RPC version is denied: RPC_MISMATCH, between versions 0 and 0. */
  lemma VersMismatchWords(xid: u32)
    ensures EncodeMsg(RpcVersMismatch(xid)) == Be32(xid) + Be32(1) + Be32(1) + Be32(0) + Be32(0) + Be32(0)
  {
    hide Be32, EncodeMsg;
    DeniedLayout(xid, RpcMismatch(MismatchInfo(0, 0)));
  }

  /** A flavour and a counted body, filled up with zeros to whole words. */
  function AuthBytes(a: OpaqueAuth): seq<byte>
    requires FitsAuth(a)
  {
    Be32(a.flavor) + (Be32(|a.body|) + a.body + Zeros(4 * ((|a.body| + 3) / 4) - |a.body|))
  }

  lemma AuthEncoding(a: OpaqueAuth)
    requires FitsAuth(a)
    ensures HasType(OpaqueAuthXdr(), AuthValue(a)) && Encode(OpaqueAuthXdr(), AuthValue(a)) == AuthBytes(a)
  {
    hide Be32;
    OpaqueLayout(a.body);
    var e, n := Encode(Opaque, Blob(a.body)), |a.body|;
    assert e == e[..4] + e[4..4 + n] + e[4 + n..];
  }

  /** A call is its xid, CALL, the RPC version, program, version and procedure, the credentials and the verifier. */
  lemma CallLayout(xid: u32, c: CallBody)
    requires FitsAuth(c.cred) && FitsAuth(c.verf)
    ensures EncodeMsg(RpcMsg(xid, Call(c)))
         == Be32(xid) + Be32(0) + Be32(c.rpcvers) + Be32(c.prog) + Be32(c.vers) + Be32(c.procedure)
            + AuthBytes(c.cred) + AuthBytes(c.verf)
  {
    MsgValueHasType(RpcMsg(xid, Call(c)));
    AuthEncoding(c.cred);
    AuthEncoding(c.verf);
    hide Be32, AuthBytes, OpaqueAuthXdr, AuthValue;
    assert EncodeMsg(RpcMsg(xid, Call(c)))
        == Be32(xid) + (Be32(0) + (Be32(c.rpcvers) + (Be32(c.prog) + (Be32(c.vers) + (Be32(c.procedure)
             + (AuthBytes(c.cred) + AuthBytes(c.verf)))))));
  }

  /** The body of AUTH_UNIX credentials: stamp, machine name, uid, gid and the other gids. */
  function AuthUnixBytes(stamp: u32, machine: seq<byte>, uid: u32, gid: u32, gids: seq<u32>): seq<byte>
    requires |machine| <= U32_MAX && |gids| <= U32_MAX
  {
    Be32(stamp) + (Be32(|machine|) + machine + Zeros(4 * ((|machine| + 3) / 4) - |machine|)
                   + (Be32(uid) + (Be32(gid) + (Be32(|gids|) + EncodeWords(gids)))))
  }

  /** Such a body is readable, and reads back as its fields. */
  lemma {:induction false} AuthUnixReadsBack(stamp: u32, machine: seq<byte>, uid: u32, gid: u32, gids: seq<u32>,
                                             rest: seq<byte>)
    requires |machine| <= U32_MAX && |gids| <= U32_MAX
    ensures Decode(AuthUnixBodyXdr(), AuthUnixBytes(stamp, machine, uid, gid, gids) + rest)
         == Ok(Both(Num(stamp), Both(Blob(machine), Both(Num(uid), Both(Num(gid), Nums(gids))))), rest)
  {
    hide Be32, Decode;
    OpaqueLayout(machine);
    var v := Both(Num(stamp), Both(Blob(machine), Both(Num(uid), Both(Num(gid), Nums(gids)))));
    var e, n := Encode(Opaque, Blob(machine)), |machine|;
    assert e == e[..4] + e[4..4 + n] + e[4 + n..];
    assert Encode(AuthUnixBodyXdr(), v) == AuthUnixBytes(stamp, machine, uid, gid, gids);
    RoundTrip(AuthUnixBodyXdr(), v, rest);
  }

  /**
   A message type other than CALL and REPLY is not rejected: the body stays the default call, whose
   RPC version is 0, and nothing after the discriminant is consumed.
   */
  lemma UnknownMessageType(xid: u32, kind: u32, rest: seq<byte>)
    requires kind >= 2
    ensures DecodeMsg(Be32(xid) + Be32(kind) + rest)
         == Some((RpcMsg(xid, Call(CallBody(0, 0, 0, 0, OpaqueAuth(0, []), OpaqueAuth(0, [])))), rest))
  {
    var b := Be32(xid) + Be32(kind) + rest;
    assert b == Be32(xid) + (Be32(kind) + rest);
    FirstWord(Be32(xid), Be32(kind) + rest);
    FirstWord(Be32(kind), rest);
    Be32Inverse(xid, Be32(xid));
    Be32Inverse(kind, Be32(kind));
    assert !HasArm(NoArms, kind) && !HasArm(RpcBodyXdr().arms.rest, kind) && !HasArm(RpcBodyXdr().arms, kind);
    assert Decode(RpcBodyXdr(), Be32(kind) + rest) == Ok(BodyValue(Call(DEFAULT_CALL)), rest);
    DecodeThen(U32, RpcBodyXdr(), b);
    MsgOfInverse(RpcMsg(xid, Call(DEFAULT_CALL)));
  }

  lemma {:induction false} UnlistedDiscriminant(arms: Arms, v: Value, kind: u32, rest: seq<byte>)
    requires !HasArm(arms, kind)
    ensures Decode(Switch(arms, Become(v)), Be32(kind) + rest) == Ok(v, rest)
  {
    hide Be32, OfBe32;
    FirstWord(Be32(kind), rest);
    Be32Inverse(kind, Be32(kind));
    DecodeSwitch(arms, Become(v), Be32(kind) + rest);
  }

  /**
   The unions inside a reply are as lenient: an unlisted reply or rejection keeps the default in place, and every
   acceptance status from 4 on reads as GARBAGE_ARGS; nothing after the discriminant is consumed.
   */
  lemma {:induction false} UnknownReplyTypes(kind: u32, rest: seq<byte>)
    ensures kind >= 2 ==> Decode(ReplyBodyXdr(), Be32(kind) + rest)
                          == Ok(ReplyValue(MsgAccepted(AcceptedReply(DEFAULT_AUTH, Success))), rest)
    ensures kind >= 2 ==> Decode(RejectedReplyXdr(), Be32(kind) + rest)
                          == Ok(RejectedValue(RpcMismatch(MismatchInfo(0, 0))), rest)
    ensures kind >= 5 ==> Decode(AcceptBodyXdr(), Be32(kind) + rest) == Ok(AcceptValue(GarbageArgs), rest)
  {
    hide Decode;
    var replies, rejections, accepts := ReplyBodyXdr(), RejectedReplyXdr(), AcceptBodyXdr();
    assert !HasArm(NoArms, kind);
    if kind >= 2 {
      assert !HasArm(replies.arms.rest, kind) && !HasArm(rejections.arms.rest, kind);
      UnlistedDiscriminant(replies.arms, replies.unknown.v, kind, rest);
      UnlistedDiscriminant(rejections.arms, rejections.unknown.v, kind, rest);
    }
    if kind >= 5 {
      NoAcceptArm(kind);
      UnlistedDiscriminant(accepts.arms, accepts.unknown.v, kind, rest);
    }
  }

  lemma {:induction false} NoAcceptArm(kind: u32)
    requires kind >= 5
    ensures !HasArm(AcceptBodyXdr().arms, kind)
  {
    var arms := AcceptBodyXdr().arms;
    assert !HasArm(NoArms, kind) && !HasArm(arms.rest.rest.rest.rest, kind) && !HasArm(arms.rest.rest.rest, kind);
    assert !HasArm(arms.rest.rest, kind) && !HasArm(arms.rest, kind);
  }
}
