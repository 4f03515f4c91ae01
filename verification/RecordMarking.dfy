/**
 Record marking (section 10 of RFC 1057): records cut into fragments on a byte stream, and the message
 handler that puts them together again as bytes arrive.
 */
module RecordMarking {
  import opened Bytes
  import opened Streams

  const LAST_FRAGMENT: u32 := 0x8000_0000

  datatype Fragment = Fragment(data: seq<byte>, last: bool)

  /** A fragment's length is 31 bits. */
  predicate Sendable(f: Fragment) { |f.data| < LAST_FRAGMENT }

  function Header(f: Fragment): (h: seq<byte>)
    requires Sendable(f)
    ensures |h| == 4
  {
    Be32(|f.data| + if f.last then LAST_FRAGMENT else 0)
  }

  /** The header's first bit says whether the fragment is the last; the other 31 are its length. */
  lemma HeaderBits(f: Fragment)
    requires Sendable(f)
    ensures var h := Header(f);
            (f.last <==> h[0] >= 0x80) && Numeral([h[0] % 0x80, h[1], h[2], h[3]]) == |f.data| < 0x8000_0000
  {
    hide Be32, OfBe32;
    var h := Header(f);
    Be32Inverse(|f.data| + if f.last then LAST_FRAGMENT else 0, h);
    WordBits(h);
    NumeralOfFour([h[0] % 0x80, h[1], h[2], h[3]]);
  }

  lemma WordBits(h: seq<byte>)
    requires |h| == 4
    ensures OfBe32(h) >= 0x8000_0000 <==> h[0] >= 0x80
    ensures OfBe32([h[0] % 0x80, h[1], h[2], h[3]]) == OfBe32(h) % 0x8000_0000
  {
    var high: int, low: int := h[0], OfBe32([0, h[1], h[2], h[3]]);
    assert OfBe32(h) == high * 0x100_0000 + low && 0 <= low < 0x100_0000;
    assert high == high / 0x80 * 0x80 + high % 0x80 && 0 <= high / 0x80 <= 1;
  }

  /** Fragments as they travel. */
  function Wire(fs: seq<Fragment>): seq<byte>
    requires forall f | f in fs :: Sendable(f)
  {
    if fs == [] then [] else Header(fs[0]) + fs[0].data + Wire(fs[1..])
  }

  // ---- what a byte stream holds ----

  /** The first fragment, if all of it is there, and what follows it. */
  function Take(b: seq<byte>): Option<(Fragment, seq<byte>)>
  {
    if |b| < 4 then None
    else
      var header := OfBe32(b[..4]);
      var length := header % LAST_FRAGMENT;
      if |b| - 4 < length then None
      else Some((Fragment(b[4..4 + length], header >= LAST_FRAGMENT), b[4 + length..]))
  }

  /** Records completed, the completed fragments of the unfinished record, and bytes short of a fragment. */
  datatype Contents = Contents(records: seq<seq<byte>>, cur: seq<byte>, unread: seq<byte>)

  /** What a stream holds when cur was read before it. */
  function Drain(cur: seq<byte>, b: seq<byte>): Contents
    decreases |b|
  {
    match Take(b)
    case None => Contents([], cur, b)
    case Some((f, rest)) =>
      if f.last then
        var d := Drain([], rest);
        Contents([cur + f.data] + d.records, d.cur, d.unread)
      else Drain(cur + f.data, rest)
  }

  lemma TakeFirst(f: Fragment, rest: seq<byte>)
    requires Sendable(f)
    ensures Take(Header(f) + f.data + rest) == Some((f, rest))
  {
    hide Be32, OfBe32;
    var word := |f.data| + if f.last then LAST_FRAGMENT else 0;
    var b := Header(f) + f.data + rest;
    assert b[..4] == Be32(word);
    Be32Inverse(word, Be32(word));
    assert b[4..4 + |f.data|] == f.data && b[4 + |f.data|..] == rest;
  }

  /** More bytes after a whole fragment do not change it. */
  lemma TakeMore(b: seq<byte>, more: seq<byte>)
    requires Take(b).Some?
    ensures Take(b + more) == Some((Take(b).value.0, Take(b).value.1 + more))
  {
    hide OfBe32;
    var length := OfBe32(b[..4]) % LAST_FRAGMENT;
    assert (b + more)[..4] == b[..4];
    assert (b + more)[4..4 + length] == b[4..4 + length];
    assert (b + more)[4 + length..] == b[4 + length..] + more;
  }

  /** Bytes may arrive in any pieces: what is left of the first continues in the second. */
  lemma {:induction false} DrainSplit(cur: seq<byte>, a: seq<byte>, b: seq<byte>)
    ensures var d1 := Drain(cur, a);
            var d2 := Drain(d1.cur, d1.unread + b);
            Drain(cur, a + b) == Contents(d1.records + d2.records, d2.cur, d2.unread)
    decreases |a|
  {
    hide Take;
    if Take(a).Some? {
      var (f, rest) := Take(a).value;
      TakeMore(a, b);
      TakeShortens(a);
      DrainSplit(if f.last then [] else cur + f.data, rest, b);
      if f.last {
        var d1 := Drain([], rest);
        var d2 := Drain(d1.cur, d1.unread + b);
        assert [cur + f.data] + (d1.records + d2.records) == ([cur + f.data] + d1.records) + d2.records;
      }
    } else {
      var d2 := Drain(cur, a + b);
      assert [] + d2.records == d2.records;
    }
  }

  lemma TakeShortens(b: seq<byte>)
    ensures Take(b).Some? ==> |Take(b).value.1| < |b|
  {}

  lemma {:induction false} DrainLeavesPart(cur: seq<byte>, b: seq<byte>)
    ensures Take(Drain(cur, b).unread).None?
    decreases |b|
  {
    hide Take;
    TakeShortens(b);
    if Take(b).Some? {
      var (f, rest) := Take(b).value;
      DrainLeavesPart(if f.last then [] else cur + f.data, rest);
    }
  }

  // ---- records cut into fragments ----

  /** One record: its pieces in order, of which the final one is marked last. */
  function Cut(pieces: seq<seq<byte>>): (fs: seq<Fragment>)
    ensures |fs| == |pieces|
  {
    seq(|pieces|, i requires 0 <= i < |pieces| => Fragment(pieces[i], i == |pieces| - 1))
  }

  function Joined(pieces: seq<seq<byte>>): seq<byte>
  {
    if pieces == [] then [] else pieces[0] + Joined(pieces[1..])
  }

  predicate Sent(pieces: seq<seq<byte>>)
  {
    pieces != [] && forall p | p in pieces :: |p| < LAST_FRAGMENT
  }

  function WireRecord(pieces: seq<seq<byte>>): seq<byte>
    requires Sent(pieces)
  {
    assert forall f | f in Cut(pieces) :: Sendable(f);
    Wire(Cut(pieces))
  }

  function WireRecords(cuts: seq<seq<seq<byte>>>): seq<byte>
    requires forall c | c in cuts :: Sent(c)
  {
    if cuts == [] then [] else WireRecord(cuts[0]) + WireRecords(cuts[1..])
  }

  function Records(cuts: seq<seq<seq<byte>>>): (rs: seq<seq<byte>>)
    ensures |rs| == |cuts| && forall i | 0 <= i < |cuts| :: rs[i] == Joined(cuts[i])
  {
    seq(|cuts|, i requires 0 <= i < |cuts| => Joined(cuts[i]))
  }

  lemma WireRecordUnfolds(pieces: seq<seq<byte>>)
    requires Sent(pieces)
    ensures |pieces| == 1 ==> WireRecord(pieces) == Header(Fragment(pieces[0], true)) + pieces[0]
    ensures |pieces| > 1 ==>
              WireRecord(pieces) == Header(Fragment(pieces[0], false)) + pieces[0] + WireRecord(pieces[1..])
  {
    if |pieces| > 1 {
      assert Cut(pieces)[1..] == Cut(pieces[1..]);
    } else {
      var f := Fragment(pieces[0], true);
      assert Cut(pieces) == [f] && [f][1..] == [] && Wire([]) == [];
      assert Header(f) + f.data + [] == Header(f) + f.data;
    }
  }

  /** However a record is cut, its fragments join up to it, after those already read. */
  lemma {:induction false} DrainRecord(cur: seq<byte>, pieces: seq<seq<byte>>, rest: seq<byte>)
    requires Sent(pieces)
    ensures Drain(cur, WireRecord(pieces) + rest)
         == var d := Drain([], rest); Contents([cur + Joined(pieces)] + d.records, d.cur, d.unread)
    decreases |pieces|
  {
    hide Take, Header, WireRecord;
    WireRecordUnfolds(pieces);
    if |pieces| == 1 {
      TakeFirst(Fragment(pieces[0], true), rest);
      assert Joined(pieces[1..]) == [] && pieces[0] + [] == pieces[0];
    } else {
      TakeFirst(Fragment(pieces[0], false), WireRecord(pieces[1..]) + rest);
      DrainRecord(cur + pieces[0], pieces[1..], rest);
      assert WireRecord(pieces) + rest
          == Header(Fragment(pieces[0], false)) + pieces[0] + (WireRecord(pieces[1..]) + rest);
      assert cur + pieces[0] + Joined(pieces[1..]) == cur + Joined(pieces);
    }
  }

  lemma RecordsUnfold(cuts: seq<seq<seq<byte>>>)
    requires cuts != []
    ensures Records(cuts) == [Joined(cuts[0])] + Records(cuts[1..])
  {}

  /** A stream of records holds exactly those records, in order, then whatever the rest holds. */
  lemma {:induction false} DrainRecords(cuts: seq<seq<seq<byte>>>, rest: seq<byte>)
    requires forall c | c in cuts :: Sent(c)
    ensures Drain([], WireRecords(cuts) + rest)
         == var d := Drain([], rest); Contents(Records(cuts) + d.records, d.cur, d.unread)
    decreases |cuts|
  {
    hide Drain, WireRecord, Records, Joined;
    var d := Drain([], rest);
    if cuts == [] {
      assert WireRecords(cuts) + rest == rest && Records(cuts) + d.records == d.records;
    } else {
      RecordsUnfold(cuts);
      DrainRecords(cuts[1..], rest);
      DrainRecord([], cuts[0], WireRecords(cuts[1..]) + rest);
      assert WireRecords(cuts) + rest == WireRecord(cuts[0]) + (WireRecords(cuts[1..]) + rest);
      assert [] + Joined(cuts[0]) == Joined(cuts[0]);
      assert [Joined(cuts[0])] + (Records(cuts[1..]) + d.records) == Records(cuts) + d.records;
    }
  }

  /** The fragments of an unfinished record are kept in cur. */
  lemma {:induction false} DrainUnfinished(cur: seq<byte>, pieces: seq<seq<byte>>, part: seq<byte>)
    requires (forall p | p in pieces :: |p| < LAST_FRAGMENT) && Take(part).None?
    ensures Drain(cur, Wire(Unfinished(pieces)) + part) == Contents([], cur + Joined(pieces), part)
    decreases |pieces|
  {
    hide Take, Header;
    if pieces == [] {
      assert cur + [] == cur && [] + part == part;
    } else {
      var f := Fragment(pieces[0], false);
      assert Unfinished(pieces)[1..] == Unfinished(pieces[1..]);
      DrainUnfinished(cur + pieces[0], pieces[1..], part);
      TakeFirst(f, Wire(Unfinished(pieces[1..])) + part);
      assert Wire(Unfinished(pieces)) + part == Header(f) + f.data + (Wire(Unfinished(pieces[1..])) + part);
      assert cur + pieces[0] + Joined(pieces[1..]) == cur + Joined(pieces);
    }
  }

  function Unfinished(pieces: seq<seq<byte>>): (fs: seq<Fragment>)
    ensures (forall p | p in pieces :: |p| < LAST_FRAGMENT) ==> forall f | f in fs :: Sendable(f)
  {
    seq(|pieces|, i requires 0 <= i < |pieces| => Fragment(pieces[i], false))
  }

  // ---- the message handler, step by step ----

  /**
   The unread stream, the fragments read so far, and the records handed to tasks. While a fragment's body is
   awaited, cur already has room for it: body is the last-fragment flag and the offset where it goes.
   */
  datatype Conn = Conn(stream: seq<byte>, cur: seq<byte>, body: Option<(bool, nat)>, spawned: seq<seq<byte>>)
  {
    predicate Valid() { body.Some? ==> body.value.1 <= |cur| < body.value.1 + LAST_FRAGMENT }

    /** The completed fragments of the unfinished record. */
    function Completed(): seq<byte>
      requires Valid()
    {
      if body.Some? then cur[..body.value.1] else cur
    }

    /** The stream as if the header read last were still there. */
    function Unread(): seq<byte>
      requires Valid()
    {
      if body.None? then stream
      else Be32(|cur| - body.value.1 + if body.value.0 then LAST_FRAGMENT else 0) + stream
    }
  }

  datatype Event = Deliver(piece: seq<byte>) | Poll

  /** Bytes arrive, or the handler makes its next read if the bytes it waits for are there. */
  function Next(c: Conn, e: Event): (c': Conn)
    requires c.Valid()
    ensures c'.Valid()
  {
    match e
    case Deliver(piece) => c.(stream := c.stream + piece)
    case Poll =>
      match c.body
      case None =>
        if |c.stream| < 4 then c
        else
          var header := OfBe32(c.stream[..4]);
          c.(stream := c.stream[4..], cur := c.cur + Zeros(header % LAST_FRAGMENT),
             body := Some((header >= LAST_FRAGMENT, |c.cur|)))
      case Some((last, offset)) =>
        var length := |c.cur| - offset;
        if |c.stream| < length then c
        else
          var cur := c.cur[..offset] + c.stream[..length];
          if last then Conn(c.stream[length..], [], None, c.spawned + [cur])
          else Conn(c.stream[length..], cur, None, c.spawned)
  }

  function NextAll(c: Conn, es: seq<Event>): (c': Conn)
    requires c.Valid()
    ensures c'.Valid()
    decreases |es|
  {
    if es == [] then c else NextAll(Next(c, es[0]), es[1..])
  }

  function Delivered(es: seq<Event>): seq<byte>
  {
    if es == [] then [] else (if es[0].Deliver? then es[0].piece else []) + Delivered(es[1..])
  }

  const START := Conn([], [], None, [])

  /** The connection has done, of what the bytes hold, exactly a part. */
  ghost predicate Tracks(c: Conn, bytes: seq<byte>)
    requires c.Valid()
  {
    var d := Drain(c.Completed(), c.Unread());
    Drain([], bytes) == Contents(c.spawned + d.records, d.cur, d.unread)
  }

  lemma DeliverTracks(c: Conn, bytes: seq<byte>, piece: seq<byte>)
    requires c.Valid() && Tracks(c, bytes)
    ensures Tracks(Next(c, Deliver(piece)), bytes + piece)
  {
    hide Drain, Be32;
    DrainSplit([], bytes, piece);
    DrainSplit(c.Completed(), c.Unread(), piece);
    var c' := Next(c, Deliver(piece));
    assert c'.Unread() == c.Unread() + piece;
    var d1 := Drain(c.Completed(), c.Unread());
    var d2 := Drain(d1.cur, d1.unread + piece);
    assert (c.spawned + d1.records) + d2.records == c.spawned + (d1.records + d2.records);
  }

  lemma HeaderRead(c: Conn)
    requires c.Valid() && c.body.None? && |c.stream| >= 4
    ensures Next(c, Poll).Completed() == c.Completed() && Next(c, Poll).Unread() == c.Unread()
  {
    hide Be32, OfBe32;
    var header := OfBe32(c.stream[..4]);
    Be32Inverse(header, c.stream[..4]);
    var c' := Next(c, Poll);
    assert c'.cur[..|c.cur|] == c.cur;
    assert |c'.cur| - |c.cur| + (if header >= LAST_FRAGMENT then LAST_FRAGMENT else 0) == header;
    assert c.stream == c.stream[..4] + c.stream[4..];
  }

  /** Reading a body that is there takes one fragment off the unread stream. */
  lemma BodyRead(c: Conn)
    requires c.Valid() && c.body.Some? && |c.stream| >= |c.cur| - c.body.value.1
    ensures var (last, offset) := c.body.value;
            var data := c.stream[..|c.cur| - offset];
            Take(c.Unread()) == Some((Fragment(data, last), c.stream[|data|..]))
  {
    var (last, offset) := c.body.value;
    var data := c.stream[..|c.cur| - offset];
    TakeFirst(Fragment(data, last), c.stream[|data|..]);
    assert c.Unread() == Header(Fragment(data, last)) + data + c.stream[|data|..];
  }

  lemma PollTracks(c: Conn, bytes: seq<byte>)
    requires c.Valid() && Tracks(c, bytes)
    ensures Tracks(Next(c, Poll), bytes)
  {
    hide Take, Be32, OfBe32;
    if c.body.None? {
      if |c.stream| >= 4 { HeaderRead(c); }
    } else if |c.stream| >= |c.cur| - c.body.value.1 {
      BodyRead(c);
      var data := c.stream[..|c.cur| - c.body.value.1];
      if c.body.value.0 {
        var d := Drain([], c.stream[|data|..]);
        assert c.spawned + ([c.Completed() + data] + d.records) == (c.spawned + [c.Completed() + data]) + d.records;
      }
    }
  }

  lemma {:induction false} RunTracks(c: Conn, bytes: seq<byte>, es: seq<Event>)
    requires c.Valid() && Tracks(c, bytes)
    ensures Tracks(NextAll(c, es), bytes + Delivered(es))
    decreases |es|
  {
    hide Tracks, Next;
    if es == [] {
      assert bytes + [] == bytes;
    } else {
      var c' := Next(c, es[0]);
      if es[0].Deliver? {
        DeliverTracks(c, bytes, es[0].piece);
        RunTracks(c', bytes + es[0].piece, es[1..]);
        assert bytes + es[0].piece + Delivered(es[1..]) == bytes + Delivered(es);
      } else {
        PollTracks(c, bytes);
        RunTracks(c', bytes, es[1..]);
        assert bytes + Delivered(es) == bytes + Delivered(es[1..]);
      }
    }
  }

  /** A handler that cannot go on lacks bytes of the fragment it is reading. */
  lemma BlockedHasNone(c: Conn)
    requires c.Valid() && Next(c, Poll) == c
    ensures Take(c.Unread()).None?
  {
    hide Be32, OfBe32;
    if c.body.Some? {
      var (last, offset) := c.body.value;
      var word := |c.cur| - offset + if last then LAST_FRAGMENT else 0;
      Be32Inverse(word, Be32(word));
      assert c.Unread()[..4] == Be32(word);
    }
  }

  /**
   In every run, whatever pieces the bytes arrive in and whenever the handler runs: the tasks spawned are a
   prefix of the records the delivered bytes hold. Once the handler can go no further they are all of those
   records, and what it keeps is exactly the completed fragments of the unfinished record.
   */
  lemma {:induction false} RunReassembles(es: seq<Event>)
    ensures var c, held := NextAll(START, es), Drain([], Delivered(es));
            && c.spawned <= held.records
            && (Next(c, Poll) == c ==>
                  c.spawned == held.records && c.Completed() == held.cur && c.Unread() == held.unread)
  {
    hide Take, Next;
    var c := NextAll(START, es);
    assert Drain([], []) == Contents([], [], []) by { TakeNothing(); }
    RunTracks(START, [], es);
    assert [] + Delivered(es) == Delivered(es);
    if Next(c, Poll) == c { BlockedHasNone(c); }
  }

  lemma TakeNothing()
    ensures Take([]) == None
  {}

  /**
   Any records, each cut into any fragments, empty ones included, and delivered in any pieces: once all bytes
   are in and read, exactly those records have been handed on, in order; before that, a prefix of them.
   */
  lemma {:induction false} RecordsArrive(cuts: seq<seq<seq<byte>>>, es: seq<Event>)
    requires (forall c | c in cuts :: Sent(c)) && Delivered(es) <= WireRecords(cuts)
    ensures var c := NextAll(START, es);
            && c.spawned <= Records(cuts)
            && (Next(c, Poll) == c && Delivered(es) == WireRecords(cuts) ==>
                  c.spawned == Records(cuts) && c.Completed() == [] && c.Unread() == [])
  {
    hide Drain, Next, NextAll, WireRecords;
    var sent, got := WireRecords(cuts), Delivered(es);
    RunReassembles(es);
    DrainSplit([], got, sent[|got|..]);
    DrainRecords(cuts, []);
    assert got + sent[|got|..] == sent && sent + [] == sent;
    assert Drain([], []) == Contents([], [], []) by { DrainNothing(); }
    assert Records(cuts) + [] == Records(cuts);
  }

  lemma DrainNothing()
    ensures Drain([], []) == Contents([], [], [])
  {}

  // ---- the handler and the writer as they run ----

  class SocketMessageHandler {
    var stream: seq<byte>
    var curFragment: seq<byte>
    var body: Option<(bool, nat)>
    var spawned: seq<seq<byte>>

    ghost function View(): Conn
      reads this
    {
      Conn(stream, curFragment, body, spawned)
    }

    constructor ()
      ensures View() == START
    {
      stream, curFragment, body, spawned := [], [], None, [];
    }

    method Receive(piece: seq<byte>)
      requires View().Valid()
      modifies this`stream
      ensures View() == Next(old(View()), Deliver(piece))
    {
      stream := stream + piece;
    }

    /** The next read of a fragment: its header, or its body, unless the bytes are missing. */
    method ReadFragment()
      requires View().Valid()
      modifies this
      ensures View() == Next(old(View()), Poll)
    {
      if body.None? {
        if |stream| < 4 { return; }
        var header := OfBe32(stream[..4]);
        stream := stream[4..];
        var startOffset := |curFragment|;
        curFragment := curFragment + Zeros(header % LAST_FRAGMENT);
        body := Some((header >= LAST_FRAGMENT, startOffset));
      } else {
        var (last, startOffset) := body.value;
        var length := |curFragment| - startOffset;
        if |stream| < length { return; }
        curFragment := curFragment[..startOffset] + stream[..length];
        stream := stream[length..];
        body := None;
        if last {
          spawned := spawned + [curFragment];
          curFragment := [];
        }
      }
    }

    /** Reads on until the bytes for the next step are missing. */
    method Loop()
      requires View().Valid()
      modifies this
      ensures View().Valid() && Next(View(), Poll) == View()
      ensures exists n: nat :: View() == NextAll(old(View()), Polls(n))
    {
      ghost var n := 0;
      ghost var from := View();
      assert NextAll(from, Polls(0)) == from;
      while |stream| >= (if body.None? then 4 else |curFragment| - body.value.1)
        invariant View().Valid() && View() == NextAll(from, Polls(n))
        decreases |stream|, if body.None? then 0 else 1
      {
        PollOnce(from, n);
        ReadFragment();
        n := n + 1;
      }
    }
  }

  function Polls(n: nat): (es: seq<Event>)
    ensures |es| == n
  {
    seq(n, _ => Poll)
  }

  lemma {:induction false} PollOnce(c: Conn, n: nat)
    requires c.Valid()
    ensures NextAll(c, Polls(n + 1)) == Next(NextAll(c, Polls(n)), Poll)
    decreases n
  {
    hide Next;
    assert Polls(n + 1)[1..] == Polls(n);
    if n > 0 {
      PollOnce(Next(c, Poll), n - 1);
      assert Polls(n)[1..] == Polls(n - 1);
    } else {
      assert NextAll(c, Polls(0)) == c;
    }
  }

  /** Writes a reply as one last fragment. */
  method WriteFragment(socket: WriteCounter, buf: seq<byte>)
    requires |buf| < LAST_FRAGMENT
    modifies socket
    ensures socket.inner == old(socket.inner) + WireRecord([buf])
  {
    WireRecordUnfolds([buf]);
    var fragmentHeader := |buf| + LAST_FRAGMENT;
    socket.WriteAll(Be32(fragmentHeader));
    socket.WriteAll(buf);
    assert socket.inner == old(socket.inner) + (Header(Fragment(buf, true)) + buf);
  }

  /** A written reply reads back as one record, and nothing but it is taken. */
  lemma {:induction false} WrittenReadsBack(buf: seq<byte>, rest: seq<byte>)
    requires |buf| < LAST_FRAGMENT
    ensures Drain([], WireRecord([buf]) + rest)
         == var d := Drain([], rest); Contents([buf] + d.records, d.cur, d.unread)
  {
    hide Drain;
    DrainRecord([], [buf], rest);
    assert [] + Joined([buf]) == buf by { assert Joined([buf][1..]) == []; }
  }
}
