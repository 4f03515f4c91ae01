/** Writers and readers, and the serialize and deserialize methods that run on them. */
module Streams {
  import opened Bytes
  import opened Xdr

  /** A writer over a growing buffer that counts the bytes written through it. */
  class WriteCounter {
    var inner: seq<byte>
    var count: nat

    constructor (inner: seq<byte>)
      ensures this.inner == inner && count == 0
    {
      this.inner, count := inner, 0;
    }

    method WriteAll(buf: seq<byte>)
      modifies this
      ensures inner == old(inner) + buf && count == old(count) + |buf|
    {
      inner := inner + buf;
      count := count + |buf|;
    }

    function BytesWritten(): nat
      reads this
    {
      count
    }
  }

  class Reader {
    const data: seq<byte>
    var pos: nat

    constructor (data: seq<byte>)
      ensures this.data == data && pos == 0 && Valid()
    {
      this.data, pos := data, 0;
    }

    ghost predicate Valid()
      reads this
    {
      pos <= |data|
    }

    /** The bytes not read yet. */
    ghost function Rest(): seq<byte>
      requires Valid()
      reads this
    {
      data[pos..]
    }

    /** All n bytes, or nothing when fewer are left. */
    method ReadExact(n: nat) returns (r: Option<seq<byte>>)
      requires Valid()
      modifies this
      ensures Valid()
      ensures n <= |old(Rest())| ==> r == Some(old(Rest())[..n]) && Rest() == old(Rest())[n..]
      ensures n > |old(Rest())| ==> r == None
    {
      if pos + n > |data| { return None; }
      r := Some(data[pos..pos + n]);
      assert r.value == Rest()[..n] && data[pos + n..] == Rest()[n..];
      pos := pos + n;
    }
  }

  method Serialize(s: Schema, v: Value, dest: WriteCounter)
    requires HasType(s, v) && Serializable(v)
    modifies dest
    ensures dest.inner == old(dest.inner) + Encode(s, v)
    ensures dest.count == old(dest.count) + |Encode(s, v)|
    decreases s, 1
  {
    hide Be32, Be64, Zeros, Pad;
    match s
    case Void =>
    case U32 => dest.WriteAll(Be32(v.n));
    case U64 => dest.WriteAll(Be64(v.n));
    case Bool => dest.WriteAll(Be32(if v.b then 1 else 0));
    case Enum(_) => dest.WriteAll(Be32(v.n));
    case Fixed(_) => dest.WriteAll(v.bytes);
    case Opaque =>
      PadFills(|v.bytes|);
      SerializeBlob(v.bytes, dest);
    case Words => SerializeWords(v.words, dest);
    case Then(s1, s2) => SerializeThen(s1, s2, v.first, v.rest, dest);
    case Optional(t) => SerializeOptional(t, v, dest);
    case Switch(arms, _) => SerializeSwitch(arms, v.tag, v.v, dest);
  }

  method SerializeOptional(t: Schema, v: Value, dest: WriteCounter)
    requires HasType(Optional(t), v) && Serializable(v)
    modifies dest
    ensures dest.inner == old(dest.inner) + Encode(Optional(t), v)
    ensures dest.count == old(dest.count) + |Encode(Optional(t), v)|
    decreases Optional(t), 0
  {
    hide Be32;
    if v.Absent? {
      dest.WriteAll(Be32(0));
    } else {
      dest.WriteAll(Be32(1));
      Serialize(t, v.v, dest);
      assert dest.inner == old(dest.inner) + (Be32(1) + Encode(t, v.v));
    }
  }

  method SerializeSwitch(arms: Arms, tag: u32, v: Value, dest: WriteCounter)
    requires ArmHasType(arms, tag, v) && Serializable(v)
    modifies dest
    ensures dest.inner == old(dest.inner) + (Be32(tag) + EncodeArm(arms, tag, v))
    ensures dest.count == old(dest.count) + 4 + |EncodeArm(arms, tag, v)|
    decreases arms, 2
  {
    hide *;
    dest.WriteAll(Be32(tag));
    SerializeArm(arms, tag, v, dest);
    assert dest.inner == old(dest.inner) + (Be32(tag) + EncodeArm(arms, tag, v));
  }

  method SerializeThen(s1: Schema, s2: Schema, v1: Value, v2: Value, dest: WriteCounter)
    requires HasType(s1, v1) && HasType(s2, v2) && Serializable(v1) && Serializable(v2)
    modifies dest
    ensures dest.inner == old(dest.inner) + (Encode(s1, v1) + Encode(s2, v2))
    ensures dest.count == old(dest.count) + |Encode(s1, v1)| + |Encode(s2, v2)|
    decreases Then(s1, s2), 0
  {
    hide *;
    Serialize(s1, v1, dest);
    Serialize(s2, v2, dest);
    assert dest.inner == old(dest.inner) + (Encode(s1, v1) + Encode(s2, v2));
  }

  method SerializeBlob(bytes: seq<byte>, dest: WriteCounter)
    requires |bytes| < U32_MAX
    modifies dest
    ensures dest.inner == old(dest.inner) + (Be32(|bytes|) + bytes + Zeros(4 * ((|bytes| + 3) / 4) - |bytes|))
    ensures dest.count == old(dest.count) + 4 + 4 * ((|bytes| + 3) / 4)
  {
    hide Be32, Pad;
    PadFills(|bytes|);
    dest.WriteAll(Be32(|bytes|));
    dest.WriteAll(bytes);
    var pad := Pad(|bytes|);
    if pad > 0 { dest.WriteAll(Zeros(pad)); }
  }

  method SerializeArm(arms: Arms, tag: u32, v: Value, dest: WriteCounter)
    requires ArmHasType(arms, tag, v) && Serializable(v)
    modifies dest
    ensures dest.inner == old(dest.inner) + EncodeArm(arms, tag, v)
    ensures dest.count == old(dest.count) + |EncodeArm(arms, tag, v)|
    decreases arms, 1
  {
    if arms.tag == tag { Serialize(arms.body, v, dest); } else { SerializeArm(arms.rest, tag, v, dest); }
  }

  lemma {:induction false} EncodeWordsAppend(ws: seq<u32>, w: u32)
    ensures EncodeWords(ws + [w]) == EncodeWords(ws) + Be32(w)
  {
    if ws == [] {
      assert [w][1..] == [];
    } else {
      EncodeWordsAppend(ws[1..], w);
      assert (ws + [w])[1..] == ws[1..] + [w];
    }
  }

  method SerializeWords(ws: seq<u32>, dest: WriteCounter)
    requires |ws| < U32_MAX
    modifies dest
    ensures dest.inner == old(dest.inner) + (Be32(|ws|) + EncodeWords(ws))
    ensures dest.count == old(dest.count) + 4 + 4 * |ws|
  {
    dest.WriteAll(Be32(|ws|));
    for i := 0 to |ws|
      invariant dest.inner == old(dest.inner) + (Be32(|ws|) + EncodeWords(ws[..i]))
      invariant dest.count == old(dest.count) + 4 + 4 * i
    {
      dest.WriteAll(Be32(ws[i]));
      EncodeWordsAppend(ws[..i], ws[i]);
      assert ws[..i + 1] == ws[..i] + [ws[i]];
    }
    assert ws[..|ws|] == ws;
  }

  /** On success: the decoded value, with exactly its bytes consumed. */
  method Deserialize(s: Schema, src: Reader) returns (r: Option<Value>)
    requires src.Valid()
    modifies src
    ensures src.Valid()
    ensures match Decode(s, old(src.Rest()))
            case Ok(v, rest) => r == Some(v) && src.Rest() == rest
            case Err => r == None
    decreases s, 1
  {
    match s
    case Void => r := Some(Unit);
    case U64 =>
      var b := src.ReadExact(8);
      r := if b.None? then None else Some(Num(OfBe64(b.value)));
    case Fixed(n) =>
      var b := src.ReadExact(n);
      r := if b.None? then None else Some(Blob(b.value));
    case Then(s1, s2) =>
      var v1 := Deserialize(s1, src);
      if v1.None? { return None; }
      var v2 := Deserialize(s2, src);
      r := if v2.None? then None else Some(Both(v1.value, v2.value));
    case _ =>
      var b := src.ReadExact(4);
      if b.None? { return None; }
      r := DeserializeTagged(s, OfBe32(b.value), src);
  }

  method DeserializeTagged(s: Schema, w: u32, src: Reader) returns (r: Option<Value>)
    requires !s.Void? && !s.U64? && !s.Fixed? && !s.Then?
    requires src.Valid()
    modifies src
    ensures src.Valid()
    ensures match DecodeTagged(s, w, old(src.Rest()))
            case Ok(v, rest) => r == Some(v) && src.Rest() == rest
            case Err => r == None
    decreases s, 0
  {
    match s
    case U32 => r := Some(Num(w));
    case Bool => r := Some(Flag(w > 0));
    case Enum(tags) => r := if w in tags then Some(Num(w)) else None;
    case Opaque =>
      var b := src.ReadExact(w);
      if b.None? { return None; }
      var padding := src.ReadExact(Pad(w));
      r := if padding.None? then None else Some(Blob(b.value));
    case Words =>
      var ws := DeserializeWords(w, src);
      r := if ws.None? then None else Some(Nums(ws.value));
    case Optional(t) =>
      if w == 0 { return Some(Absent); }
      var v := Deserialize(t, src);
      r := if v.None? then None else Some(Present(v.value));
    case Switch(arms, unknown) =>
      if HasArm(arms, w) {
        r := DeserializeArm(arms, w, src);
      } else {
        r := if unknown.Become? then Some(unknown.v) else None;
      }
  }

  method DeserializeArm(arms: Arms, tag: u32, src: Reader) returns (r: Option<Value>)
    requires HasArm(arms, tag)
    requires src.Valid()
    modifies src
    ensures src.Valid()
    ensures match DecodeArm(arms, tag, old(src.Rest()))
            case Ok(v, rest) => r == Some(v) && src.Rest() == rest
            case Err => r == None
    decreases arms, 0
  {
    if arms.tag == tag {
      var v := Deserialize(arms.body, src);
      r := if v.None? then None else Some(Case(tag, v.value));
    } else {
      r := DeserializeArm(arms.rest, tag, src);
    }
  }

  /** The element loop of Vec<u32>: words read so far, then the rest of the count. */
  method DeserializeWords(n: nat, src: Reader) returns (r: Option<seq<u32>>)
    requires src.Valid()
    modifies src
    ensures src.Valid()
    ensures match DecodeWords(n, old(src.Rest()))
            case Some((ws, rest)) => r == Some(ws) && src.Rest() == rest
            case None => r == None
  {
    var ws: seq<u32> := [];
    ghost var all := DecodeWords(n, src.Rest());
    assert all.Some? ==> ws + all.value.0 == all.value.0;
    for i := 0 to n
      invariant src.Valid()
      invariant match DecodeWords(n - i, src.Rest())
                case Some((tail, rest)) => all == Some((ws + tail, rest))
                case None => all == None
    {
      var b := src.ReadExact(4);
      if b.None? { return None; }
      ws := ws + [OfBe32(b.value)];
      ghost var next := DecodeWords(n - i - 1, src.Rest());
      if next.Some? {
        assert ws[..|ws| - 1] + ([OfBe32(b.value)] + next.value.0) == ws + next.value.0;
      }
    }
    assert ws + [] == ws;
    r := Some(ws);
  }
}
