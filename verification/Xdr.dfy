/**
 The External Data Representation codec (RFC 1014) as the server implements it.

 A Schema is what the codec macros and hand-written impls are applied to; a Value is what a field
 holds. Encode and Decode are the byte-level meaning of serialize and deserialize.
 */
module Xdr {
  import opened Bytes

  datatype Schema =
    | Void
    | U32
    | U64
    | Bool
    | Enum(tags: set<u32>)                  // XDREnumSerde
    | Fixed(n: nat)                         // [u8; N]
    | Opaque                                // Vec<u8> and nfsstring
    | Words                                 // Vec<u32>
    | Then(first: Schema, rest: Schema)     // XDRStruct
    | Optional(some: Schema)                // XDRBoolUnion
    | Switch(arms: Arms, unknown: Unknown)  // a union over a u32 discriminant

  datatype Arms = NoArms | Arm(tag: u32, body: Schema, rest: Arms)

  /** What a union does with a discriminant it does not list: fail, or leave this value in place. */
  datatype Unknown = Reject | Become(v: Value)

  datatype Value =
    | Unit
    | Num(n: nat)
    | Flag(b: bool)
    | Blob(bytes: seq<byte>)
    | Nums(words: seq<u32>)
    | Both(first: Value, rest: Value)
    | Absent
    | Present(v: Value)
    | Case(tag: u32, v: Value)

  datatype Result = Ok(v: Value, rest: seq<byte>) | Err

  // ---- typing ----

  predicate HasType(s: Schema, v: Value)
    decreases s
  {
    match s
    case Void => v.Unit?
    case U32 => v.Num? && v.n < 0x1_0000_0000
    case U64 => v.Num? && v.n < 0x1_0000_0000_0000_0000
    case Bool => v.Flag?
    case Enum(tags) => v.Num? && v.n in tags
    case Fixed(n) => v.Blob? && |v.bytes| == n
    case Opaque => v.Blob? && |v.bytes| <= U32_MAX
    case Words => v.Nums? && |v.words| <= U32_MAX
    case Then(s1, s2) => v.Both? && HasType(s1, v.first) && HasType(s2, v.rest)
    case Optional(t) => v.Absent? || (v.Present? && HasType(t, v.v))
    case Switch(arms, _) => v.Case? && ArmHasType(arms, v.tag, v.v)
  }

  predicate ArmHasType(arms: Arms, tag: u32, v: Value)
    decreases arms
  {
    match arms
    case NoArms => false
    case Arm(t, body, rest) => if t == tag then HasType(body, v) else ArmHasType(rest, tag, v)
  }

  /** The values a union falls back on are values of that union. */
  predicate WellFormed(s: Schema)
  {
    match s
    case Then(s1, s2) => WellFormed(s1) && WellFormed(s2)
    case Optional(t) => WellFormed(t)
    case Switch(arms, unknown) =>
      ArmsWellFormed(arms) && (unknown.Become? ==> HasType(s, unknown.v))
    case _ => true
  }

  predicate ArmsWellFormed(arms: Arms)
  {
    match arms
    case NoArms => true
    case Arm(_, body, rest) => WellFormed(body) && ArmsWellFormed(rest)
  }

  /** Every union in the schema fails on a discriminant it does not list. */
  predicate Strict(s: Schema)
  {
    match s
    case Then(s1, s2) => Strict(s1) && Strict(s2)
    case Optional(t) => Strict(t)
    case Switch(arms, unknown) => unknown.Reject? && ArmsStrict(arms)
    case _ => true
  }

  predicate ArmsStrict(arms: Arms)
  {
    match arms
    case NoArms => true
    case Arm(_, body, rest) => Strict(body) && ArmsStrict(rest)
  }

  /** The lengths serialize asserts: every vector is shorter than u32::MAX. */
  predicate Serializable(v: Value)
  {
    match v
    case Blob(bytes) => |bytes| < U32_MAX
    case Nums(words) => |words| < U32_MAX
    case Both(v1, v2) => Serializable(v1) && Serializable(v2)
    case Present(w) => Serializable(w)
    case Case(_, w) => Serializable(w)
    case _ => true
  }

  // ---- encoding ----

  function Pad(n: nat): nat { (4 - n % 4) % 4 }

  function EncodeWords(ws: seq<u32>): (b: seq<byte>)
    ensures |b| == 4 * |ws|
  {
    if ws == [] then [] else Be32(ws[0]) + EncodeWords(ws[1..])
  }

  function Encode(s: Schema, v: Value): seq<byte>
    requires HasType(s, v)
    decreases s
  {
    match s
    case Void => []
    case U32 => Be32(v.n)
    case U64 => Be64(v.n)
    case Bool => Be32(if v.b then 1 else 0)
    case Enum(_) => Be32(v.n)
    case Fixed(_) => v.bytes
    case Opaque => Be32(|v.bytes|) + v.bytes + Zeros(Pad(|v.bytes|))
    case Words => Be32(|v.words|) + EncodeWords(v.words)
    case Then(s1, s2) => Encode(s1, v.first) + Encode(s2, v.rest)
    case Optional(t) => if v.Absent? then Be32(0) else Be32(1) + Encode(t, v.v)
    case Switch(arms, _) => Be32(v.tag) + EncodeArm(arms, v.tag, v.v)
  }

  function EncodeArm(arms: Arms, tag: u32, v: Value): seq<byte>
    requires ArmHasType(arms, tag, v)
    decreases arms
  {
    if arms.tag == tag then Encode(arms.body, v) else EncodeArm(arms.rest, tag, v)
  }

  /** Padding fills up to the next whole word. */
  lemma PadFills(n: nat)
    ensures n + Pad(n) == 4 * ((n + 3) / 4)
  {}

  /** An opaque is its length, its bytes, and zeros up to the next whole word. */
  lemma OpaqueLayout(bytes: seq<byte>)
    requires |bytes| <= U32_MAX
    ensures HasType(Opaque, Blob(bytes))
    ensures var e, n := Encode(Opaque, Blob(bytes)), |bytes|;
            && |e| == 4 + 4 * ((n + 3) / 4) && e[..4] == Be32(n) && e[4..4 + n] == bytes
            && forall i | 4 + n <= i < |e| :: e[i] == 0
  {
    hide Be32, Pad;
    PadFills(|bytes|);
  }

  // ---- decoding ----

  function DecodeWords(n: nat, b: seq<byte>): Option<(seq<u32>, seq<byte>)>
    decreases n
  {
    if n == 0 then Some(([], b))
    else if |b| < 4 then None
    else
      match DecodeWords(n - 1, b[4..])
      case None => None
      case Some((ws, rest)) => Some(([OfBe32(b[..4])] + ws, rest))
  }

  function Decode(s: Schema, b: seq<byte>): Result
    decreases s, 1
  {
    match s
    case Void => Ok(Unit, b)
    case U64 => if |b| < 8 then Err else Ok(Num(OfBe64(b[..8])), b[8..])
    case Fixed(n) => if |b| < n then Err else Ok(Blob(b[..n]), b[n..])
    case Then(s1, s2) =>
      (match Decode(s1, b)
       case Err => Err
       case Ok(v1, b1) =>
         match Decode(s2, b1)
         case Err => Err
         case Ok(v2, b2) => Ok(Both(v1, v2), b2))
    case _ =>
      if |b| < 4 then Err else DecodeTagged(s, OfBe32(b[..4]), b[4..])
  }

  /** The schemas that start with one word w, which has been read already. */
  function DecodeTagged(s: Schema, w: u32, b: seq<byte>): Result
    requires !s.Void? && !s.U64? && !s.Fixed? && !s.Then?
    decreases s, 0
  {
    match s
    case U32 => Ok(Num(w), b)
    case Bool => Ok(Flag(w > 0), b)
    case Enum(tags) => if w in tags then Ok(Num(w), b) else Err
    case Opaque =>
      if |b| < w + Pad(w) then Err else Ok(Blob(b[..w]), b[w + Pad(w)..])
    case Words =>
      (match DecodeWords(w, b)
       case None => Err
       case Some((ws, rest)) => Ok(Nums(ws), rest))
    case Optional(t) =>
      if w == 0 then Ok(Absent, b)
      else
        (match Decode(t, b)
         case Err => Err
         case Ok(v, rest) => Ok(Present(v), rest))
    case Switch(arms, unknown) =>
      if HasArm(arms, w) then DecodeArm(arms, w, b)
      else if unknown.Become? then Ok(unknown.v, b)
      else Err
  }

  predicate HasArm(arms: Arms, tag: u32)
  {
    arms.Arm? && (arms.tag == tag || HasArm(arms.rest, tag))
  }

  function DecodeArm(arms: Arms, tag: u32, b: seq<byte>): Result
    requires HasArm(arms, tag)
    decreases arms, 1
  {
    if arms.tag == tag then
      match Decode(arms.body, b)
      case Err => Err
      case Ok(v, rest) => Ok(Case(tag, v), rest)
    else DecodeArm(arms.rest, tag, b)
  }

  // ---- which bytes of an encoding the decoder looks at, and how closely ----

  /** Exact: must match. Truth: starts a word that must not be zero. Slack: any byte will do. */
  datatype Label = Exact | Truth | Slack

  function Exacts(n: nat): (l: seq<Label>)
    ensures |l| == n && forall i | 0 <= i < n :: l[i] == Exact
  {
    seq(n, _ => Exact)
  }

  function Slacks(n: nat): (l: seq<Label>)
    ensures |l| == n && forall i | 0 <= i < n :: l[i] == Slack
  {
    seq(n, _ => Slack)
  }

  const TRUE_WORD: seq<Label> := [Truth, Slack, Slack, Slack]

  function Labels(s: Schema, v: Value): seq<Label>
    requires HasType(s, v)
  {
    match s
    case Void => []
    case U32 => Exacts(4)
    case U64 => Exacts(8)
    case Bool => if v.b then TRUE_WORD else Exacts(4)
    case Enum(_) => Exacts(4)
    case Fixed(n) => Exacts(n)
    case Opaque => Exacts(4 + |v.bytes|) + Slacks(Pad(|v.bytes|))
    case Words => Exacts(4 + 4 * |v.words|)
    case Then(s1, s2) => Labels(s1, v.first) + Labels(s2, v.rest)
    case Optional(t) => if v.Absent? then Exacts(4) else TRUE_WORD + Labels(t, v.v)
    case Switch(arms, _) => Exacts(4) + ArmLabels(arms, v.tag, v.v)
  }

  function ArmLabels(arms: Arms, tag: u32, v: Value): seq<Label>
    requires ArmHasType(arms, tag, v)
  {
    if arms.tag == tag then Labels(arms.body, v) else ArmLabels(arms.rest, tag, v)
  }

  ghost predicate Whole(l: seq<Label>)
  {
    forall i | 0 <= i < |l| && l[i] == Truth :: i + 4 <= |l|
  }

  /** p differs from the encoding e only where the labels allow it. */
  ghost predicate Tolerates(p: seq<byte>, e: seq<byte>, l: seq<Label>)
  {
    && |p| == |e| == |l|
    && (forall i | 0 <= i < |l| && l[i] == Exact :: p[i] == e[i])
    && (forall i | 0 <= i < |l| && l[i] == Truth :: i + 4 <= |p| && p[i..i + 4] != Be32(0))
  }

  lemma WordAt(p: seq<byte>, n: nat, i: nat)
    requires n <= |p|
    ensures i + 4 <= n ==> p[..n][i..i + 4] == p[i..i + 4]
    ensures n + i + 4 <= |p| ==> p[n..][i..i + 4] == p[n + i..n + i + 4]
  {}

  /** A tolerated concatenation splits where its encoding does. */
  lemma ToleratesParts(p: seq<byte>, e1: seq<byte>, e2: seq<byte>, l1: seq<Label>, l2: seq<Label>)
    requires |e1| == |l1| && |e2| == |l2| && Whole(l1)
    requires Tolerates(p, e1 + e2, l1 + l2)
    ensures |p| == |e1| + |e2|
    ensures Tolerates(p[..|e1|], e1, l1) && Tolerates(p[|e1|..], e2, l2)
  {
    var n, e, l := |e1|, e1 + e2, l1 + l2;
    var p1, p2 := p[..n], p[n..];
    forall i | 0 <= i < n
      ensures l1[i] == Exact ==> p1[i] == e1[i]
      ensures l1[i] == Truth ==> i + 4 <= n && p1[i..i + 4] != Be32(0)
    {
      assert l[i] == l1[i] && e[i] == e1[i] && p1[i] == p[i];
      WordAt(p, n, i);
    }
    forall i | 0 <= i < |l2|
      ensures l2[i] == Exact ==> p2[i] == e2[i]
      ensures l2[i] == Truth ==> i + 4 <= |p2| && p2[i..i + 4] != Be32(0)
    {
      assert l[n + i] == l2[i] && e[n + i] == e2[i] && p2[i] == p[n + i];
      WordAt(p, n, i);
    }
  }

  lemma ToleratesJoin(p1: seq<byte>, p2: seq<byte>, e1: seq<byte>, e2: seq<byte>, l1: seq<Label>, l2: seq<Label>)
    requires Tolerates(p1, e1, l1) && Tolerates(p2, e2, l2)
    ensures Tolerates(p1 + p2, e1 + e2, l1 + l2)
  {
    var n, p, e, l := |e1|, p1 + p2, e1 + e2, l1 + l2;
    assert p[..n] == p1 && p[n..] == p2;
    forall i | 0 <= i < |l|
      ensures l[i] == Exact ==> p[i] == e[i]
      ensures l[i] == Truth ==> i + 4 <= |p| && p[i..i + 4] != Be32(0)
    {
      if i < n {
        assert l[i] == l1[i] && e[i] == e1[i];
        WordAt(p, n, i);
      } else {
        assert l[i] == l2[i - n] && e[i] == e2[i - n];
        WordAt(p, n, i - n);
      }
    }
  }

  lemma ToleratesExact(p: seq<byte>, e: seq<byte>)
    ensures Tolerates(p, e, Exacts(|e|)) <==> p == e
  {}

  lemma {:induction false} LabelsShape(s: Schema, v: Value)
    requires HasType(s, v)
    ensures |Labels(s, v)| == |Encode(s, v)| && Whole(Labels(s, v))
  {
    match s
    case Then(s1, s2) => LabelsShape(s1, v.first); LabelsShape(s2, v.rest);
    case Optional(t) => if v.Present? { LabelsShape(t, v.v); }
    case Switch(arms, _) => ArmLabelsShape(arms, v.tag, v.v);
    case _ =>
  }

  lemma {:induction false} ArmLabelsShape(arms: Arms, tag: u32, v: Value)
    requires ArmHasType(arms, tag, v)
    ensures |ArmLabels(arms, tag, v)| == |EncodeArm(arms, tag, v)| && Whole(ArmLabels(arms, tag, v))
  {
    if arms.tag == tag { LabelsShape(arms.body, v); } else { ArmLabelsShape(arms.rest, tag, v); }
  }

  // ---- the decoder accepts exactly what the labels tolerate ----

  lemma FirstWord(p: seq<byte>, rest: seq<byte>)
    requires |p| == 4
    ensures (p + rest)[..4] == p && (p + rest)[4..] == rest
    ensures OfBe32(p) == 0 <==> p == Be32(0)
  {
    Be32Inverse(0, p);
  }

  lemma {:induction false} DecodeWordsInverse(ws: seq<u32>, rest: seq<byte>)
    ensures DecodeWords(|ws|, EncodeWords(ws) + rest) == Some((ws, rest))
  {
    if ws == [] {
      assert EncodeWords(ws) + rest == rest;
    } else {
      var tail := EncodeWords(ws[1..]) + rest;
      assert EncodeWords(ws) + rest == Be32(ws[0]) + tail;
      FirstWord(Be32(ws[0]), tail);
      Be32Inverse(ws[0], Be32(ws[0]));
      DecodeWordsInverse(ws[1..], rest);
      assert [ws[0]] + ws[1..] == ws;
    }
  }

  lemma {:induction false} DecodeWordsParsed(n: nat, b: seq<byte>)
    requires DecodeWords(n, b).Some?
    ensures var (ws, rest) := DecodeWords(n, b).value;
            |ws| == n && b == EncodeWords(ws) + rest
    decreases n
  {
    if n > 0 {
      DecodeWordsParsed(n - 1, b[4..]);
      Be32Inverse(0, b[..4]);
      var (ws, rest) := DecodeWords(n, b).value;
      assert ws[1..] == DecodeWords(n - 1, b[4..]).value.0;
      assert b == b[..4] + b[4..];
    }
  }

  /** Whatever the labels tolerate decodes to the value, for every schema. */
  lemma {:induction false} DecodeTolerates(s: Schema, v: Value, p: seq<byte>, rest: seq<byte>)
    requires HasType(s, v) && Tolerates(p, Encode(s, v), Labels(s, v))
    ensures Decode(s, p + rest) == Ok(v, rest)
    decreases s, 1
  {
    match s
    case Void =>
      assert p + rest == rest;
    case U64 =>
      Be64Inverse(v.n, p);
      assert p == Be64(v.n) && (p + rest)[..8] == p && (p + rest)[8..] == rest;
    case Fixed(n) =>
      assert p == v.bytes && (p + rest)[..n] == p && (p + rest)[n..] == rest;
    case Then(s1, s2) =>
      ThenTolerates(s1, s2, v.first, v.rest, p, rest);
    case _ =>
      LabelsShape(s, v);
      var w, tail := p[..4], p[4..];
      assert p + rest == w + (tail + rest);
      FirstWord(w, tail + rest);
      TaggedTolerates(s, v, p, rest);
  }

  lemma {:induction false} ThenTolerates(s1: Schema, s2: Schema, v1: Value, v2: Value, p: seq<byte>, rest: seq<byte>)
    requires HasType(s1, v1) && HasType(s2, v2)
    requires Tolerates(p, Encode(s1, v1) + Encode(s2, v2), Labels(s1, v1) + Labels(s2, v2))
    ensures Decode(Then(s1, s2), p + rest) == Ok(Both(v1, v2), rest)
    decreases Then(s1, s2), 0
  {
    hide *;
    LabelsShape(s1, v1);
    LabelsShape(s2, v2);
    ToleratesParts(p, Encode(s1, v1), Encode(s2, v2), Labels(s1, v1), Labels(s2, v2));
    var p1, p2 := p[..|Encode(s1, v1)|], p[|Encode(s1, v1)|..];
    DecodeTolerates(s1, v1, p1, p2 + rest);
    DecodeTolerates(s2, v2, p2, rest);
    assert p + rest == p1 + (p2 + rest);
    DecodeThen(s1, s2, p + rest);
  }

  lemma {:induction false} DecodeThen(s1: Schema, s2: Schema, b: seq<byte>)
    ensures Decode(Then(s1, s2), b)
         == (match Decode(s1, b)
             case Err => Err
             case Ok(v1, b1) =>
               match Decode(s2, b1)
               case Err => Err
               case Ok(v2, b2) => Ok(Both(v1, v2), b2))
  {}

  lemma {:induction false} TaggedTolerates(s: Schema, v: Value, p: seq<byte>, rest: seq<byte>)
    requires !s.Void? && !s.U64? && !s.Fixed? && !s.Then?
    requires HasType(s, v) && Tolerates(p, Encode(s, v), Labels(s, v)) && |p| >= 4
    ensures DecodeTagged(s, OfBe32(p[..4]), p[4..] + rest) == Ok(v, rest)
    decreases s, 0
  {
    hide Tolerates;
    match s
    case Opaque => OpaqueTolerates(v.bytes, p, rest);
    case Words =>
      ToleratesExact(p, Encode(s, v));
      assert p[..4] == Be32(|v.words|) && p[4..] == EncodeWords(v.words);
      Be32Inverse(|v.words|, p[..4]);
      DecodeWordsInverse(v.words, rest);
    case Optional(t) => OptionalTolerates(t, v, p, rest);
    case Switch(arms, _) =>
      hide Be32, OfBe32;
      ArmLabelsShape(arms, v.tag, v.v);
      ToleratesParts(p, Be32(v.tag), EncodeArm(arms, v.tag, v.v), Exacts(4), ArmLabels(arms, v.tag, v.v));
      ToleratesExact(p[..4], Be32(v.tag));
      WordIs(p[..4], v.tag);
      ArmTolerates(arms, v.tag, v.v, p[4..], rest);
    case _ => WordTolerates(s, v, p, rest);
  }

  lemma {:induction false} WordTolerates(s: Schema, v: Value, p: seq<byte>, rest: seq<byte>)
    requires s.U32? || s.Enum? || s.Bool?
    requires HasType(s, v) && Tolerates(p, Encode(s, v), Labels(s, v))
    ensures |p| == 4 && DecodeTagged(s, OfBe32(p[..4]), p[4..] + rest) == Ok(v, rest)
  {
    assert p[..4] == p && p[4..] + rest == rest;
    FirstWord(p, rest);
    ToleratesExact(p, Encode(s, v));
    TrueWord(p);
    if v.Num? { WordIs(p, v.n); }
  }

  lemma {:induction false} OpaqueTolerates(bytes: seq<byte>, p: seq<byte>, rest: seq<byte>)
    requires |bytes| <= U32_MAX
    requires Tolerates(p, Encode(Opaque, Blob(bytes)), Labels(Opaque, Blob(bytes)))
    ensures |p| >= 4 && DecodeTagged(Opaque, OfBe32(p[..4]), p[4..] + rest) == Ok(Blob(bytes), rest)
  {
    var n, w, tail := |bytes|, p[..4], p[4..];
    assert w == Be32(n);
    Be32Inverse(n, w);
    assert (tail + rest)[..n] == bytes && (tail + rest)[n + Pad(n)..] == rest;
  }

  lemma {:induction false} OptionalTolerates(t: Schema, v: Value, p: seq<byte>, rest: seq<byte>)
    requires HasType(Optional(t), v) && |p| >= 4
    requires Tolerates(p, Encode(Optional(t), v), Labels(Optional(t), v))
    ensures DecodeTagged(Optional(t), OfBe32(p[..4]), p[4..] + rest) == Ok(v, rest)
    decreases t, 2
  {
    hide Tolerates, Be32, OfBe32;
    var w := p[..4];
    FirstWord(w, rest);
    if v.Absent? {
      ToleratesExact(p, Be32(0));
      assert w == p && p[4..] + rest == rest;
    } else {
      LabelsShape(t, v.v);
      ToleratesParts(p, Be32(1), Encode(t, v.v), TRUE_WORD, Labels(t, v.v));
      TrueWord(w);
      DecodeTolerates(t, v.v, p[4..], rest);
    }
  }

  lemma TrueWord(w: seq<byte>)
    requires |w| == 4
    ensures Tolerates(w, Be32(1), TRUE_WORD) <==> w != Be32(0)
  {
    assert w[0..4] == w && TRUE_WORD[0] == Truth;
  }

  lemma WordIs(p: seq<byte>, n: u32)
    requires |p| >= 4 && p[..4] == Be32(n)
    ensures OfBe32(p[..4]) == n
    ensures |p| == 4 ==> p == Be32(n) && forall rest: seq<byte> :: p[4..] + rest == rest
  {
    Be32Inverse(n, p[..4]);
    if |p| == 4 { assert p == p[..4]; }
  }

  lemma {:induction false} ArmTolerates(arms: Arms, tag: u32, v: Value, p: seq<byte>, rest: seq<byte>)
    requires ArmHasType(arms, tag, v) && Tolerates(p, EncodeArm(arms, tag, v), ArmLabels(arms, tag, v))
    ensures HasArm(arms, tag) && DecodeArm(arms, tag, p + rest) == Ok(Case(tag, v), rest)
    decreases arms
  {
    if arms.tag == tag {
      DecodeTolerates(arms.body, v, p, rest);
    } else {
      ArmTolerates(arms.rest, tag, v, p, rest);
    }
  }

  /** What a successful decode says about its input: b is some bytes p followed by rest. */
  ghost predicate Parsed(s: Schema, b: seq<byte>, v: Value, rest: seq<byte>)
  {
    && HasType(s, v)
    && |rest| <= |b| && b[|b| - |rest|..] == rest
    && (Strict(s) ==> Tolerates(b[..|b| - |rest|], Encode(s, v), Labels(s, v)))
  }

  /** Two consecutive parses make one. */
  lemma ParsedJoin(b: seq<byte>, b1: seq<byte>, rest: seq<byte>, e1: seq<byte>, e2: seq<byte>,
                   l1: seq<Label>, l2: seq<Label>)
    requires |rest| <= |b1| <= |b| && b[|b| - |b1|..] == b1 && b1[|b1| - |rest|..] == rest
    requires Tolerates(b[..|b| - |b1|], e1, l1) && Tolerates(b1[..|b1| - |rest|], e2, l2)
    ensures b[|b| - |rest|..] == rest
    ensures Tolerates(b[..|b| - |rest|], e1 + e2, l1 + l2)
  {
    var p1, p2 := b[..|b| - |b1|], b1[..|b1| - |rest|];
    ToleratesJoin(p1, p2, e1, e2, l1, l2);
    assert b == p1 + b1;
    assert p1 + p2 == b[..|b| - |rest|];
  }

  lemma {:induction false} DecodeParsed(s: Schema, b: seq<byte>)
    requires WellFormed(s) && Decode(s, b).Ok?
    ensures Parsed(s, b, Decode(s, b).v, Decode(s, b).rest)
    decreases s, 1
  {
    match s
    case Void =>
    case U64 => Be64Inverse(0, b[..8]); assert |Labels(s, Decode(s, b).v)| == 8;
    case Fixed(n) =>
    case Then(s1, s2) => ThenParsed(s1, s2, b);
    case _ => TaggedParsed(s, b);
  }

  lemma {:induction false} ThenParsed(s1: Schema, s2: Schema, b: seq<byte>)
    requires WellFormed(s1) && WellFormed(s2) && Decode(Then(s1, s2), b).Ok?
    ensures Parsed(Then(s1, s2), b, Decode(Then(s1, s2), b).v, Decode(Then(s1, s2), b).rest)
    decreases Then(s1, s2), 0
  {
    hide Decode, Tolerates;
    DecodeThen(s1, s2, b);
    var r1 := Decode(s1, b);
    var r2 := Decode(s2, r1.rest);
    DecodeParsed(s1, b);
    DecodeParsed(s2, r1.rest);
    if Strict(s1) && Strict(s2) {
      ParsedJoin(b, r1.rest, r2.rest, Encode(s1, r1.v), Encode(s2, r2.v), Labels(s1, r1.v), Labels(s2, r2.v));
    }
  }

  lemma {:induction false} TaggedParsed(s: Schema, b: seq<byte>)
    requires !s.Void? && !s.U64? && !s.Fixed? && !s.Then?
    requires WellFormed(s) && Decode(s, b).Ok?
    ensures Parsed(s, b, Decode(s, b).v, Decode(s, b).rest)
    decreases s, 0
  {
    hide Parsed, Decode, Encode, Labels, HasType;
    match s
    case Opaque => OpaqueParsed(b);
    case Words => WordsParsed(b);
    case Optional(t) => OptionalParsed(t, b);
    case Switch(arms, unknown) => SwitchParsed(arms, unknown, b);
    case _ => WordParsed(s, b);
  }

  lemma {:induction false} WordParsed(s: Schema, b: seq<byte>)
    requires s.U32? || s.Enum? || s.Bool?
    requires Decode(s, b).Ok?
    ensures Parsed(s, b, Decode(s, b).v, Decode(s, b).rest)
  {
    var w := b[..4];
    FirstWord(w, b[4..]);
    Be32Inverse(0, w);
    TrueWord(w);
    ToleratesExact(w, w);
  }

  lemma {:induction false} WordsParsed(b: seq<byte>)
    requires Decode(Words, b).Ok?
    ensures Parsed(Words, b, Decode(Words, b).v, Decode(Words, b).rest)
  {
    hide Be32, OfBe32, Tolerates;
    var r, w := Decode(Words, b), b[..4];
    Be32Inverse(0, w);
    DecodeWordsParsed(OfBe32(w), b[4..]);
    var e := w + EncodeWords(r.v.words);
    assert b == e + r.rest;
    assert b[..|b| - |r.rest|] == e;
    ToleratesExact(e, e);
  }

  lemma {:induction false} DecodeSwitch(arms: Arms, unknown: Unknown, b: seq<byte>)
    ensures Decode(Switch(arms, unknown), b)
         == if |b| < 4 then Err
            else if HasArm(arms, OfBe32(b[..4])) then DecodeArm(arms, OfBe32(b[..4]), b[4..])
            else if unknown.Become? then Ok(unknown.v, b[4..])
            else Err
  {}

  lemma {:induction false} SwitchParsed(arms: Arms, unknown: Unknown, b: seq<byte>)
    requires WellFormed(Switch(arms, unknown)) && Decode(Switch(arms, unknown), b).Ok?
    ensures Parsed(Switch(arms, unknown), b, Decode(Switch(arms, unknown), b).v, Decode(Switch(arms, unknown), b).rest)
    decreases arms, 2
  {
    hide Decode, DecodeTagged, DecodeArm, Tolerates, Be32, OfBe32;
    DecodeSwitch(arms, unknown, b);
    var r, w := Decode(Switch(arms, unknown), b), b[..4];
    FirstWord(w, b[4..]);
    Be32Inverse(0, w);
    ToleratesExact(w, w);
    if HasArm(arms, OfBe32(w)) {
      ArmParsed(arms, OfBe32(w), b[4..]);
      if ArmsStrict(arms) {
        ParsedJoin(b, b[4..], r.rest, w, EncodeArm(arms, r.v.tag, r.v.v), Exacts(4), ArmLabels(arms, r.v.tag, r.v.v));
      }
    }
  }

  lemma {:induction false} OpaqueParsed(b: seq<byte>)
    requires Decode(Opaque, b).Ok?
    ensures Parsed(Opaque, b, Decode(Opaque, b).v, Decode(Opaque, b).rest)
  {
    var r := Decode(Opaque, b);
    var n := OfBe32(b[..4]);
    Be32Inverse(0, b[..4]);
    assert b[..|b| - |r.rest|][..4 + n] == Be32(n) + r.v.bytes;
  }

  lemma {:induction false} DecodeOptional(t: Schema, b: seq<byte>)
    ensures Decode(Optional(t), b)
         == if |b| < 4 then Err
            else if OfBe32(b[..4]) == 0 then Ok(Absent, b[4..])
            else
              match Decode(t, b[4..])
              case Err => Err
              case Ok(v, rest) => Ok(Present(v), rest)
  {}

  lemma {:induction false} OptionalParsed(t: Schema, b: seq<byte>)
    requires WellFormed(t) && Decode(Optional(t), b).Ok?
    ensures Parsed(Optional(t), b, Decode(Optional(t), b).v, Decode(Optional(t), b).rest)
    decreases t, 2
  {
    hide Decode, DecodeTagged, Tolerates;
    DecodeOptional(t, b);
    var r, w := Decode(Optional(t), b), b[..4];
    FirstWord(w, b[4..]);
    Be32Inverse(0, w);
    if r.v.Present? {
      DecodeParsed(t, b[4..]);
      if Strict(t) {
        TrueWord(w);
        ParsedJoin(b, b[4..], r.rest, Be32(1), Encode(t, r.v.v), TRUE_WORD, Labels(t, r.v.v));
      }
    } else {
      ToleratesExact(w, Be32(0));
    }
  }

  lemma {:induction false} ArmParsed(arms: Arms, tag: u32, b: seq<byte>)
    requires ArmsWellFormed(arms) && HasArm(arms, tag) && DecodeArm(arms, tag, b).Ok?
    ensures var r := DecodeArm(arms, tag, b);
            && r.v.Case? && r.v.tag == tag && ArmHasType(arms, tag, r.v.v)
            && |r.rest| <= |b| && b[|b| - |r.rest|..] == r.rest
            && (ArmsStrict(arms) ==>
                  Tolerates(b[..|b| - |r.rest|], EncodeArm(arms, tag, r.v.v), ArmLabels(arms, tag, r.v.v)))
    decreases arms, 0
  {
    if arms.tag == tag { DecodeParsed(arms.body, b); } else { ArmParsed(arms.rest, tag, b); }
  }

  // ---- main results ----

  lemma {:induction false} EncodingTolerated(s: Schema, v: Value)
    requires HasType(s, v)
    ensures Tolerates(Encode(s, v), Encode(s, v), Labels(s, v))
  {
    LabelsShape(s, v);
    match s
    case Then(s1, s2) =>
      EncodingTolerated(s1, v.first);
      EncodingTolerated(s2, v.rest);
      ToleratesJoin(Encode(s1, v.first), Encode(s2, v.rest), Encode(s1, v.first), Encode(s2, v.rest),
                    Labels(s1, v.first), Labels(s2, v.rest));
    case Optional(t) =>
      if v.Present? {
        EncodingTolerated(t, v.v);
        TrueWord(Be32(1));
        ToleratesJoin(Be32(1), Encode(t, v.v), Be32(1), Encode(t, v.v), TRUE_WORD, Labels(t, v.v));
      }
    case Switch(arms, _) =>
      ArmEncodingTolerated(arms, v.tag, v.v);
      ToleratesJoin(Be32(v.tag), EncodeArm(arms, v.tag, v.v), Be32(v.tag), EncodeArm(arms, v.tag, v.v),
                    Exacts(4), ArmLabels(arms, v.tag, v.v));
    case Bool =>
      TrueWord(Be32(1));
    case _ =>
  }

  lemma {:induction false} ArmEncodingTolerated(arms: Arms, tag: u32, v: Value)
    requires ArmHasType(arms, tag, v)
    ensures Tolerates(EncodeArm(arms, tag, v), EncodeArm(arms, tag, v), ArmLabels(arms, tag, v))
  {
    if arms.tag == tag { EncodingTolerated(arms.body, v); } else { ArmEncodingTolerated(arms.rest, tag, v); }
  }

  /** Decoding an encoding followed by anything gives the value back and leaves exactly the rest. */
  lemma {:induction false} RoundTrip(s: Schema, v: Value, rest: seq<byte>)
    requires HasType(s, v)
    ensures Decode(s, Encode(s, v) + rest) == Ok(v, rest)
  {
    EncodingTolerated(s, v);
    DecodeTolerates(s, v, Encode(s, v), rest);
  }

  /** No encoding is a prefix of the encoding of another value. */
  lemma {:induction false} PrefixFree(s: Schema, v1: Value, v2: Value)
    requires HasType(s, v1) && HasType(s, v2)
    requires Encode(s, v1) <= Encode(s, v2)
    ensures v1 == v2
  {
    RoundTrip(s, v1, Encode(s, v2)[|Encode(s, v1)|..]);
    RoundTrip(s, v2, []);
    assert Encode(s, v2) + [] == Encode(s, v1) + Encode(s, v2)[|Encode(s, v1)|..];
  }

  /**
   For a strict schema, the exact set of inputs that decode to v: same length as the encoding of v,
   nonzero words where it says TRUE, anything in the pad bytes, and equal to it everywhere else.
   */
  lemma {:induction false} DecodesExactly(s: Schema, v: Value, p: seq<byte>, rest: seq<byte>)
    requires Strict(s)
    ensures Decode(s, p + rest) == Ok(v, rest)
       <==> HasType(s, v) && Tolerates(p, Encode(s, v), Labels(s, v))
  {
    if Decode(s, p + rest) == Ok(v, rest) {
      StrictIsWellFormed(s);
      DecodeParsed(s, p + rest);
      assert (p + rest)[..|p|] == p;
    }
    if HasType(s, v) && Tolerates(p, Encode(s, v), Labels(s, v)) {
      DecodeTolerates(s, v, p, rest);
    }
  }

  /** Strict schemas are well formed, so the theorem above needs strictness alone. */
  lemma {:induction false} StrictIsWellFormed(s: Schema)
    requires Strict(s)
    ensures WellFormed(s)
  {
    match s
    case Then(s1, s2) => StrictIsWellFormed(s1); StrictIsWellFormed(s2);
    case Optional(t) => StrictIsWellFormed(t);
    case Switch(arms, _) => ArmsStrictIsWellFormed(arms);
    case _ =>
  }

  lemma {:induction false} ArmsStrictIsWellFormed(arms: Arms)
    requires ArmsStrict(arms)
    ensures ArmsWellFormed(arms)
  {
    match arms
    case NoArms =>
    case Arm(_, body, rest) => StrictIsWellFormed(body); ArmsStrictIsWellFormed(rest);
  }

  /** Fixed-length opaques, which are written without padding, have word lengths. */
  predicate Aligned(s: Schema)
  {
    match s
    case Fixed(n) => n % 4 == 0
    case Then(s1, s2) => Aligned(s1) && Aligned(s2)
    case Optional(t) => Aligned(t)
    case Switch(arms, _) => ArmsAligned(arms)
    case _ => true
  }

  predicate ArmsAligned(arms: Arms)
  {
    arms.Arm? ==> Aligned(arms.body) && ArmsAligned(arms.rest)
  }

  predicate WholeWords(n: nat) { n % 4 == 0 }

  lemma WordSums(m: nat, n: nat)
    requires WholeWords(m) && WholeWords(n)
    ensures WholeWords(m + n)
  {}

  lemma WordMultiples(n: nat)
    ensures WholeWords(4 + 4 * n)
  {}

  lemma PaddedWords(n: nat)
    ensures WholeWords(4 + n + Pad(n))
  {
    assert n == n / 4 * 4 + n % 4;
  }

  lemma {:induction false} EncodingIsAligned(s: Schema, v: Value)
    requires HasType(s, v) && Aligned(s)
    ensures WholeWords(|Encode(s, v)|)
    decreases s, 1
  {
    assert WholeWords(4) && WholeWords(8);
    hide Pad;
    match s
    case Then(s1, s2) =>
      ThenIsAligned(s1, s2, v.first, v.rest);
    case Optional(t) =>
      if v.Present? { EncodingIsAligned(t, v.v); WordSums(4, |Encode(t, v.v)|); }
    case Switch(arms, _) =>
      ArmEncodingIsAligned(arms, v.tag, v.v);
      WordSums(4, |EncodeArm(arms, v.tag, v.v)|);
    case Opaque => PaddedWords(|v.bytes|);
    case Words => WordMultiples(|v.words|);
    case _ =>
  }

  lemma {:induction false} ThenIsAligned(s1: Schema, s2: Schema, v1: Value, v2: Value)
    requires HasType(s1, v1) && HasType(s2, v2) && Aligned(s1) && Aligned(s2)
    ensures WholeWords(|Encode(s1, v1) + Encode(s2, v2)|)
    decreases Then(s1, s2), 0
  {
    hide *;
    EncodingIsAligned(s1, v1);
    EncodingIsAligned(s2, v2);
    WordSums(|Encode(s1, v1)|, |Encode(s2, v2)|);
  }

  lemma {:induction false} ArmEncodingIsAligned(arms: Arms, tag: u32, v: Value)
    requires ArmHasType(arms, tag, v) && ArmsAligned(arms)
    ensures WholeWords(|EncodeArm(arms, tag, v)|)
    decreases arms, 1
  {
    if arms.tag == tag { EncodingIsAligned(arms.body, v); } else { ArmEncodingIsAligned(arms.rest, tag, v); }
  }

  /** The length of every encoding of a schema without variable parts. */
  function FixedSize(s: Schema): Option<nat>
  {
    match s
    case Void => Some(0)
    case U32 => Some(4)
    case U64 => Some(8)
    case Bool => Some(4)
    case Enum(_) => Some(4)
    case Fixed(n) => Some(n)
    case Then(s1, s2) =>
      var m, n := FixedSize(s1), FixedSize(s2);
      if m.Some? && n.Some? then Some(m.value + n.value) else None
    case _ => None
  }

  lemma {:induction false} FixedSizeIsSize(s: Schema, v: Value)
    requires HasType(s, v) && FixedSize(s).Some?
    ensures |Encode(s, v)| == FixedSize(s).value
  {
    match s
    case Then(s1, s2) => FixedSizeIsSize(s1, v.first); FixedSizeIsSize(s2, v.rest);
    case _ =>
  }

  lemma {:induction false} FixedSizeSerializes(s: Schema, v: Value)
    requires HasType(s, v) && FixedSize(s).Some? && FixedSize(s).value < U32_MAX
    ensures Serializable(v)
  {
    match s
    case Then(s1, s2) => FixedSizeSerializes(s1, v.first); FixedSizeSerializes(s2, v.rest);
    case _ =>
  }
}
