/** What becomes of one record: rejected, answered with a version mismatch, dropped, or executed. */
module RpcWire {
  import opened Bytes
  import opened Xdr
  import opened Streams
  import opened Rpc
  import opened Tracker

  const NFS_PROGRAM: u32 := 100003
  const PORTMAP_PROGRAM: u32 := 100000
  const MOUNT_PROGRAM: u32 := 100005

  datatype Verdict = Broken | VersionMismatch(xid: u32) | Tracked(xid: u32, prog: u32)

  /** Everything decided before the retransmission check. Credentials are decoded before the version is checked. */
  function Classify(record: seq<byte>): Verdict
  {
    match DecodeMsg(record)
    case None => Broken
    case Some((m, args)) =>
      match m.body
      case Reply(_) => Broken
      case Call(call) =>
        if call.cred.flavor == AUTH_UNIX && Decode(AuthUnixBodyXdr(), call.cred.body).Err? then Broken
        else if call.rpcvers != 2 then VersionMismatch(m.xid)
        else Tracked(m.xid, call.prog)
  }

  /** A record that is neither a call nor a reply is answered as a call of a wrong RPC version. */
  lemma UnknownTypeMismatches(xid: u32, kind: u32, rest: seq<byte>)
    requires kind >= 2
    ensures Classify(Be32(xid) + Be32(kind) + rest) == VersionMismatch(xid)
  {
    hide DecodeMsg, Decode, Be32;
    UnknownMessageType(xid, kind, rest);
  }

  // ---- which records are tracked ----

  predicate Readable(call: CallBody)
  {
    call.cred.flavor == AUTH_UNIX ==> Decode(AuthUnixBodyXdr(), call.cred.body).Ok?
  }

  /** Calls alone, without the defaults that other discriminants leave. */
  function CallXdr(): Schema { Then(U32, Switch(Arm(0, CallBodyXdr(), NoArms), Reject)) }

  lemma CallXdrIsStrict()
    ensures Strict(CallXdr())
  {}

  /** The first n bytes are the call's encoding, up to pad bytes. */
  ghost predicate EncodesCall(b: seq<byte>, n: nat, xid: u32, call: CallBody)
  {
    var m := RpcMsg(xid, Call(call));
    n <= |b| && Encodable(m) && HasType(CallXdr(), MsgValue(m))
    && Tolerates(b[..n], EncodeMsg(m), Labels(CallXdr(), MsgValue(m)))
  }

  lemma {:induction false} CallValueInverse(v: Value)
    requires HasType(CallBodyXdr(), v)
    ensures CallValue(CallOf(v)) == v && FitsAuth(CallOf(v).cred) && FitsAuth(CallOf(v).verf)
  {
    var v3 := v.rest.rest.rest;
    assert AuthValue(AuthOf(v3.rest.first)) == v3.rest.first && AuthValue(AuthOf(v3.rest.rest)) == v3.rest.rest;
  }

  lemma {:induction false} DecodeOneArm(body: Schema, unknown: Unknown, b: seq<byte>)
    ensures Decode(Switch(Arm(0, body, NoArms), unknown), b)
         == if |b| < 4 then Err
            else if OfBe32(b[..4]) == 0 then
              (match Decode(body, b[4..]) case Err => Err case Ok(v, rest) => Ok(Case(0, v), rest))
            else if unknown.Become? then Ok(unknown.v, b[4..])
            else Err
  {
    hide OfBe32;
    DecodeSwitch(Arm(0, body, NoArms), unknown, b);
  }

  /** The record starts with the xid and a message type that is neither CALL nor REPLY. */
  predicate OfNoType(b: seq<byte>, xid: u32)
  {
    |b| >= 8 && OfBe32(b[..4]) == xid && OfBe32(b[4..8]) >= 2
  }

  /** A message body reads as a call where a bare call does, and otherwise as a reply or as the default call. */
  lemma {:induction false} BodyReadsAsCall(b: seq<byte>)
    ensures var r, c := Decode(RpcBodyXdr(), b), Decode(CallXdr().rest, b);
            && (c.Ok? ==> r == c && c.v.Case? && c.v.tag == 0)
            && (r.Ok? && !c.Ok? ==>
                  || (r.v == BodyValue(Call(DEFAULT_CALL)) && |b| >= 4 && OfBe32(b[..4]) >= 2)
                  || (r.v.Case? && r.v.tag == 1))
  {
    hide Decode, OfBe32, CallBodyXdr, ReplyBodyXdr;
    DecodeOneArm(CallBodyXdr(), Reject, b);
    DecodeSwitch(RpcBodyXdr().arms, RpcBodyXdr().unknown, b);
    if |b| >= 4 {
      var w, arms := OfBe32(b[..4]), RpcBodyXdr().arms;
      assert !HasArm(NoArms, w);
      assert HasArm(arms.rest, w) <==> w == 1;
      assert HasArm(arms, w) <==> w == 0 || w == 1;
      if w == 1 { assert DecodeArm(arms, w, b[4..]) == DecodeArm(arms.rest, w, b[4..]); }
    }
  }

  lemma {:induction false} MsgReadsAsCall(b: seq<byte>)
    ensures var r, c := Decode(RpcMsgXdr(), b), Decode(CallXdr(), b);
            && (c.Ok? ==> r == c && c.v.Both? && c.v.rest.Case? && c.v.rest.tag == 0)
            && (r.Ok? && !c.Ok? ==>
                  && r.v.Both?
                  && ((r.v.rest == BodyValue(Call(DEFAULT_CALL)) && r.v.first.Num? && r.v.first.n < 0x1_0000_0000
                       && OfNoType(b, r.v.first.n))
                      || (r.v.rest.Case? && r.v.rest.tag == 1)))
  {
    hide RpcBodyXdr, CallBodyXdr, OfBe32;
    DecodeThen(U32, RpcBodyXdr(), b);
    DecodeThen(U32, CallXdr().rest, b);
    if |b| >= 4 {
      BodyReadsAsCall(b[4..]);
      if |b| >= 8 { assert b[4..][..4] == b[4..8]; }
    }
  }

  /** The value of a bare call and the call determine each other. */
  lemma {:induction false} CallsReadBack(v: Value, xid: u32, call: CallBody)
    requires HasType(RpcMsgXdr(), v) && v.rest.tag == 0
    ensures MsgOf(v) == RpcMsg(xid, Call(call)) <==> v == MsgValue(RpcMsg(xid, Call(call)))
  {
    assert HasType(CallBodyXdr(), v.rest.v);
    CallValueInverse(v.rest.v);
    hide HasType, CallBodyXdr, CallOf, CallValue;
    if v == MsgValue(RpcMsg(xid, Call(call))) { CallOfInverse(call); }
  }

  lemma {:induction false} CallOfInverse(call: CallBody)
    requires HasType(CallBodyXdr(), CallValue(call))
    ensures CallOf(CallValue(call)) == call
  {}

  /** Where no bare call is read, what is read is a reply or the default call. */
  lemma {:induction false} OtherReadings(v: Value)
    requires HasType(RpcMsgXdr(), v)
    requires v.rest == BodyValue(Call(DEFAULT_CALL)) || v.rest.tag == 1
    ensures MsgOf(v).body == Call(DEFAULT_CALL) || MsgOf(v).body.Reply?
    ensures v.rest == BodyValue(Call(DEFAULT_CALL)) ==> MsgOf(v) == RpcMsg(v.first.n, Call(DEFAULT_CALL))
    ensures v.rest != BodyValue(Call(DEFAULT_CALL)) ==> MsgOf(v).body.Reply?
  {
    if v.rest == BodyValue(Call(DEFAULT_CALL)) { CallOfInverse(DEFAULT_CALL); }
  }

  /** A record reads as this call, with some arguments after it. */
  ghost predicate ReadsAs(b: seq<byte>, xid: u32, call: CallBody)
  {
    DecodeMsg(b).Some? && DecodeMsg(b).value.0 == RpcMsg(xid, Call(call))
  }

  lemma {:induction false} SameCallEncoding(m: RpcMsg)
    requires m.body.Call?
    ensures HasType(CallXdr(), MsgValue(m)) ==> Encodable(m)
    ensures Encodable(m) ==> HasType(CallXdr(), MsgValue(m)) && EncodeMsg(m) == Encode(CallXdr(), MsgValue(m))
  {
    if Encodable(m) {
      MsgValueHasType(m);
      hide CallBodyXdr, CallValue;
      assert EncodeMsg(m) == Encode(CallXdr(), MsgValue(m));
    }
  }

  /** A record reads as a call if and only if it is one up to pad bytes; or as the default call, if of no known type. */
  lemma {:induction false} CallsReadExactly(b: seq<byte>, xid: u32, call: CallBody)
    ensures ReadsAs(b, xid, call)
       <==> (exists n: nat :: EncodesCall(b, n, xid, call)) || (call == DEFAULT_CALL && OfNoType(b, xid))
  {
    hide Decode, Encode, EncodeMsg, HasType, RpcMsgXdr, CallXdr, MsgOf, MsgValue, Tolerates, Labels, Strict, OfBe32;
    var m := RpcMsg(xid, Call(call));
    CallXdrIsStrict();
    StrictIsWellFormed(CallXdr());
    RpcMsgWellFormed();
    MsgReadsAsCall(b);
    SameCallEncoding(m);
    if ReadsAs(b, xid, call) {
      DecodeParsed(RpcMsgXdr(), b);
      var v := Decode(RpcMsgXdr(), b).v;
      if Decode(CallXdr(), b).Ok? {
        CallsReadBack(v, xid, call);
        DecodeParsed(CallXdr(), b);
        assert EncodesCall(b, |b| - |Decode(CallXdr(), b).rest|, xid, call);
      } else {
        OtherReadings(v);
      }
    }
    forall n: nat | EncodesCall(b, n, xid, call) ensures ReadsAs(b, xid, call) {
      assert b == b[..n] + b[n..];
      DecodesExactly(CallXdr(), MsgValue(m), b[..n], b[n..]);
      MsgOfInverse(m);
    }
    if call == DEFAULT_CALL && OfNoType(b, xid) {
      Be32Inverse(xid, b[..4]);
      Be32Inverse(xid, b[4..8]);
      assert b == b[..4] + b[4..8] + b[8..];
      UnknownMessageType(xid, OfBe32(b[4..8]), b[8..]);
    }
  }

  /**
   A record reaches the retransmission check under an xid and a program if and only if it is, up to pad bytes, the
   encoding of a version 2 call with that xid and program and readable credentials, followed by any arguments.
   */
  lemma {:induction false} TrackedExactly(b: seq<byte>, xid: u32, prog: u32)
    ensures Classify(b) == Tracked(xid, prog)
       <==> exists call, n: nat ::
              EncodesCall(b, n, xid, call) && call.rpcvers == 2 && call.prog == prog && Readable(call)
  {
    hide DecodeMsg, Decode, EncodesCall, OfNoType;
    if Classify(b) == Tracked(xid, prog) { CallsReadExactly(b, xid, DecodeMsg(b).value.0.body.call); }
    forall call, n: nat | EncodesCall(b, n, xid, call) && call.rpcvers == 2 && call.prog == prog && Readable(call)
      ensures Classify(b) == Tracked(xid, prog)
    {
      CallsReadExactly(b, xid, call);
    }
  }

  /**
   It is answered with a version mismatch if and only if it is the encoding of a call of another version with
   readable credentials, or of neither a call nor a reply.
   */
  lemma {:induction false} MismatchedExactly(b: seq<byte>, xid: u32)
    ensures Classify(b) == VersionMismatch(xid)
       <==> (exists call, n: nat :: EncodesCall(b, n, xid, call) && call.rpcvers != 2 && Readable(call))
            || OfNoType(b, xid)
  {
    hide DecodeMsg, Decode, EncodesCall, OfNoType;
    if Classify(b) == VersionMismatch(xid) { CallsReadExactly(b, xid, DecodeMsg(b).value.0.body.call); }
    forall call, n: nat | EncodesCall(b, n, xid, call) && call.rpcvers != 2 && Readable(call)
      ensures Classify(b) == VersionMismatch(xid)
    {
      CallsReadExactly(b, xid, call);
    }
    if OfNoType(b, xid) { CallsReadExactly(b, xid, DEFAULT_CALL); }
  }

  /** Everything else is an error: replies, calls with unreadable credentials, and what is no message. */
  lemma {:induction false} BrokenOtherwise(b: seq<byte>)
    ensures Classify(b) == Broken
       <==> (forall xid :: !OfNoType(b, xid))
            && forall xid, call, n: nat | EncodesCall(b, n, xid, call) :: !Readable(call)
  {
    hide Classify, EncodesCall, OfNoType, Readable;
    if Classify(b) == Broken {
      forall xid ensures !OfNoType(b, xid) {
        MismatchedExactly(b, xid);
      }
      forall xid, call, n: nat | EncodesCall(b, n, xid, call) ensures !Readable(call) {
        MismatchedExactly(b, xid);
        TrackedExactly(b, xid, call.prog);
      }
    } else if Classify(b).Tracked? {
      TrackedExactly(b, Classify(b).xid, Classify(b).prog);
    } else {
      MismatchedExactly(b, Classify(b).xid);
    }
  }

  /** In particular a version 2 call is tracked, whatever its arguments. */
  lemma CallsAreTracked(xid: u32, call: CallBody, args: seq<byte>)
    requires Encodable(RpcMsg(xid, Call(call))) && call.rpcvers == 2 && Readable(call)
    ensures Classify(EncodeMsg(RpcMsg(xid, Call(call))) + args) == Tracked(xid, call.prog)
  {
    hide DecodeMsg, EncodeMsg, Decode;
    MsgRoundTrip(RpcMsg(xid, Call(call)), args);
  }

  /** So is the usual call, byte by byte: AUTH_UNIX credentials and an empty AUTH_NULL verifier. */
  lemma UnixCallsAreTracked(xid: u32, prog: u32, vers: u32, procedure: u32, stamp: u32, machine: seq<byte>, uid: u32,
                            gid: u32, gids: seq<u32>, args: seq<byte>)
    requires |machine| <= U32_MAX && |gids| <= U32_MAX && |AuthUnixBytes(stamp, machine, uid, gid, gids)| <= U32_MAX
    ensures var cred := OpaqueAuth(1, AuthUnixBytes(stamp, machine, uid, gid, gids));
            Classify(Be32(xid) + Be32(0) + Be32(2) + Be32(prog) + Be32(vers) + Be32(procedure)
                     + AuthBytes(cred) + (Be32(0) + Be32(0)) + args) == Tracked(xid, prog)
  {
    hide DecodeMsg, EncodeMsg, Decode, Be32, EncodeWords;
    var body := AuthUnixBytes(stamp, machine, uid, gid, gids);
    var call := CallBody(2, prog, vers, procedure, OpaqueAuth(AUTH_UNIX, body), DEFAULT_AUTH);
    AuthUnixReadsBack(stamp, machine, uid, gid, gids, []);
    assert body + [] == body;
    CallLayout(xid, call);
    assert AuthBytes(DEFAULT_AUTH) == Be32(0) + Be32(0);
    CallsAreTracked(xid, call, args);
  }

  /** A reply is never executed. */
  lemma RepliesAreBroken(xid: u32, reply: ReplyBody, rest: seq<byte>)
    requires Encodable(RpcMsg(xid, Reply(reply)))
    ensures Classify(EncodeMsg(RpcMsg(xid, Reply(reply))) + rest) == Broken
  {
    hide DecodeMsg, EncodeMsg, Decode;
    MsgRoundTrip(RpcMsg(xid, Reply(reply)), rest);
  }

  // ---- as it runs ----

  datatype Handled = Error | Replied(reply: bool)

  predicate Served(prog: u32) { prog == NFS_PROGRAM || prog == PORTMAP_PROGRAM || prog == MOUNT_PROGRAM }

  /** The port mapper, NFS and the mount protocol, by their assigned numbers. */
  lemma ServedPrograms(prog: u32)
    ensures Served(prog) <==> prog == 100000 || prog == 100003 || prog == 100005
  {}

  /**
   start and finish are the clock's readings at the check and at completion; written and handled are what the
   program's handler does with the arguments.
   */
  method HandleRpc(input: Reader, output: WriteCounter, tracker: TransactionTracker, clientAddr: string,
                   start: Time, finish: Time, written: seq<byte>, handled: Handled)
    returns (r: Handled)
    requires input.Valid() && handled != Replied(false)
    modifies input, output, tracker
    ensures match Classify(old(input.Rest()))
            case Broken =>
              r == Error && output.inner == old(output.inner) && tracker.transactions == old(tracker.transactions)
            case VersionMismatch(xid) =>
              && r == Replied(true) && output.inner == old(output.inner) + EncodeMsg(RpcVersMismatch(xid))
              && tracker.transactions == old(tracker.transactions)
            case Tracked(xid, prog) =>
              var (table, seen) :=
                Arrived(old(tracker.transactions), (xid, clientAddr), tracker.retentionPeriod, start);
              if seen then
                r == Replied(false) && output.inner == old(output.inner) && tracker.transactions == table
              else
                && tracker.transactions == table[(xid, clientAddr) := Completed(finish)]
                && r == (if Served(prog) then handled else Replied(true))
                && output.inner == old(output.inner)
                     + (if Served(prog) then written else EncodeMsg(ProgUnavailReply(xid)))
  {
    hide DecodeMsg, EncodeMsg, Decode;
    var recv := DeserializeMsg(input);
    if recv.None? { return Error; }
    var xid := recv.value.xid;
    match recv.value.body
    case Reply(_) => return Error;
    case Call(call) =>
      if call.cred.flavor == AUTH_UNIX {
        var cursor := new Reader(call.cred.body);
        assert cursor.Rest() == call.cred.body;
        var auth := Deserialize(AuthUnixBodyXdr(), cursor);
        if auth.None? { return Error; }
      }
      if call.rpcvers != 2 {
        SerializeMsg(RpcVersMismatch(xid), output);
        return Replied(true);
      }
      var seen := tracker.IsRetransmission(xid, clientAddr, start);
      if seen { return Replied(false); }
      if Served(call.prog) {
        output.WriteAll(written);
        r := handled;
      } else {
        SerializeMsg(ProgUnavailReply(xid), output);
        r := Replied(true);
      }
      tracker.MarkProcessed(xid, clientAddr, finish);
  }
}
