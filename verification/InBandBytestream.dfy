/** In-Band Bytestreams (XEP-0047): cutting data into numbered chunks, and putting the chunks together. */
module InBandBytestream {
  import opened Base64
  import opened CxxString
  import opened Decimal
  import opened XmlTag

  const XMLNS_IBB := "http://jabber.org/protocol/ibb"

  datatype IbbType = Open | Data | Close | Invalid

  datatype Ibb = Ibb(sid: string, seq_: int, blockSize: int, data: string, kind: IbbType)

  function DataChunk(sid: string, n: nat, data: string): Ibb {
    Ibb(sid, n, 0, data, Data)
  }

  // The element

  function TypeName(kind: IbbType): string {
    match kind case Open => "open" case Data => "data" case Close => "close" case Invalid => ""
  }

  function TypeOf(name: string): IbbType {
    if name == "open" then Open else if name == "data" then Data else if name == "close" then Close else Invalid
  }

  /** IBB::tag, for any type but Invalid. */
  function ToTag(i: Ibb): Tag
    requires i.kind != Invalid && Bytes(i.data)
  {
    var t := WithAttribute(Element(TypeName(i.kind), "").(xmlns := XMLNS_IBB), "sid", i.sid);
    match i.kind
    case Data => WithAttribute(WithCData(t, Encoded(i.data)), "seq", IntText(i.seq_))
    case Open => WithAttribute(t, "block-size", IntText(i.blockSize))
    case _ => t
  }

  /** IBB::IBB( const Tag* ). */
  function FromTag(t: Tag): Ibb {
    if t.xmlns != XMLNS_IBB then Ibb("", 0, 0, "", Invalid)
    else Ibb(FindAttribute(t, "sid"), Atoi(FindAttribute(t, "seq")), Atoi(FindAttribute(t, "block-size")),
             Decoded(t.cdata), TypeOf(t.name))
  }

  /** What each type of element carries. */
  predicate Proper(i: Ibb) {
    IsInt(i.seq_) && IsInt(i.blockSize) &&
    match i.kind
    case Open => i.seq_ == 0 && i.data == ""
    case Data => i.blockSize == 0 && Bytes(i.data)
    case Close => i.seq_ == 0 && i.blockSize == 0 && i.data == ""
    case Invalid => false
  }

  /** The element tells everything about the chunk, but for a stream id that must not be in XML. */
  lemma FromToTag(i: Ibb)
    requires Proper(i)
    ensures FromTag(ToTag(i)) == i.(sid := Checked(i.sid))
  {
    hide Replaced, Found, Encoded, Decoded, IntText, Atoi, Checked, ValidText, IsInt;
    var e := Element(TypeName(i.kind), "").(xmlns := XMLNS_IBB);
    var t := WithAttribute(e, "sid", i.sid);
    NoAttributes(e, i.sid);
    CheckedTwice("");
    DecodeEncode(i.data);
    EmptyTexts();
    AtoiIntText(i.seq_, "");
    AtoiIntText(i.blockSize, "");
    assert IntText(i.seq_) + "" == IntText(i.seq_) && IntText(i.blockSize) + "" == IntText(i.blockSize);
    match i.kind
    case Open => NumberAdded(t, "block-size", i.blockSize);
    case Data =>
      EncodedText(i.data);
      var u := if Encoded(i.data) == "" then t else t.(cdata := Encoded(i.data));
      assert WithCData(t, Encoded(i.data)) == u;
      NumberAdded(u, "seq", i.seq_);
    case _ =>
  }

  /** The element is one of section 2 of XEP-0047, with everything where other implementations look for it. */
  lemma AsSpecified(i: Ibb)
    requires Proper(i) && ValidText(i.sid)
    ensures
      var t := ToTag(i);
      && t.xmlns == "http://jabber.org/protocol/ibb" && FindAttribute(t, "sid") == i.sid
      && match i.kind
         case Open => t.name == "open" && FindAttribute(t, "block-size") == IntText(i.blockSize)
         case Data => t.name == "data" && FindAttribute(t, "seq") == IntText(i.seq_) && t.cdata == Encoded(i.data)
         case _ => t.name == "close"
  {
    hide Replaced, Found, Encoded, IntText, ValidText, IsInt;
    var e := Element(TypeName(i.kind), "").(xmlns := XMLNS_IBB);
    var t := WithAttribute(e, "sid", i.sid);
    NoAttributes(e, i.sid);
    match i.kind
    case Open => NumberAdded(t, "block-size", i.blockSize);
    case Data =>
      EncodedText(i.data);
      CheckedTwice("");
      var u := if Encoded(i.data) == "" then t else t.(cdata := Encoded(i.data));
      assert WithCData(t, Encoded(i.data)) == u;
      NumberAdded(u, "seq", i.seq_);
    case _ =>
  }

  lemma NoAttributes(e: Tag, sid: string)
    requires e.attributes == []
    ensures
      var t := WithAttribute(e, "sid", sid);
      FindAttribute(t, "sid") == Checked(sid) && FindAttribute(t, "seq") == "" && FindAttribute(t, "block-size") == ""
  {
    hide ValidText;
    NewAttribute(e, "sid", sid, "sid");
    NewAttribute(e, "sid", sid, "seq");
    NewAttribute(e, "sid", sid, "block-size");
  }

  lemma NumberAdded(t: Tag, name: string, value: int)
    requires name in {"seq", "block-size"} && FindAttribute(t, name) == ""
    ensures
      var u := WithAttribute(t, name, IntText(value));
      && u.cdata == t.cdata && u.xmlns == t.xmlns && u.name == t.name
      && forall k :: FindAttribute(u, k) == if k == name then IntText(value) else FindAttribute(t, k)
  {
    hide ValidText, IntText, Found;
    IntTextValid(value);
    forall k
      ensures FindAttribute(WithAttribute(t, name, IntText(value)), k) ==
              if k == name then IntText(value) else FindAttribute(t, k)
    {
      NewAttribute(t, name, IntText(value), k);
    }
  }

  lemma IntTextValid(value: int)
    ensures Checked(IntText(value)) == IntText(value)
  {
    hide NumeralIn;
    var n := if value < 0 then -value else value;
    NumeralDigits(n);
    DigitsValid(Numeral(n), IntText(value));
  }

  lemma DigitsValid(digits: string, s: string)
    requires AllDigits(digits) && (s == digits || s == "-" + digits || s == "0")
    ensures ValidText(s)
  {
  }

  /** Base64 text may always be in XML. */
  lemma EncodedText(b: string)
    requires Bytes(b)
    ensures ValidText(Encoded(b))
  {
    EncodedIsCanonical(b);
    CanonicalText(Encoded(b));
  }

  lemma {:induction false} CanonicalText(s: string)
    requires Canonical(s)
    ensures ValidText(s)
  {
    if s == "" {
    } else {
      forall i | 0 <= i < 4
        ensures ValidChar(s[i])
      {
        assert InAlphabet(s[i]) || s[i] == PAD;
      }
      if |s| > 4 || s[3] != PAD {
        CanonicalText(s[4..]);
        assert s == s[..4] + s[4..];
      }
    }
  }

  lemma EmptyTexts()
    ensures Atoi("") == 0 && Decoded("") == "" && Encoded("") == ""
  {
  }

  // Sending

  /** Full blocks and the rest; no data at all is one empty chunk. */
  function Chunks(data: string, blockSize: nat): seq<string>
    requires blockSize > 0
    decreases |data|
  {
    if |data| <= blockSize then [data] else [data[..blockSize]] + Chunks(data[blockSize..], blockSize)
  }

  /** The chunks with their numbers, counted on from `n` and modulo 65536. */
  function Numbered(sid: string, chunks: seq<string>, n: nat): (r: seq<Ibb>)
    ensures |r| == |chunks|
  {
    seq(|chunks|, k requires 0 <= k < |chunks| => DataChunk(sid, (n + k) % 65536, chunks[k]))
  }

  lemma NumberedCons(sid: string, c: string, chunks: seq<string>, n: nat)
    ensures Numbered(sid, [c] + chunks, n) == [DataChunk(sid, n % 65536, c)] + Numbered(sid, chunks, n + 1)
  {
  }

  lemma NumberedAppend(sid: string, a: seq<string>, b: seq<string>, n: nat)
    ensures Numbered(sid, a + b, n) == Numbered(sid, a, n) + Numbered(sid, b, n + |a|)
  {
  }

  // Receiving

  /** The receiver's side of the stream: open or not, the last number, and the data handed to the handler. */
  datatype Receiver = Receiver(open: bool, last: int, delivered: seq<string>)

  /** handleIq on an element of this stream. */
  function AfterIbb(r: Receiver, i: Ibb): Receiver {
    if !r.open then (if i.kind == Open then r.(open := true) else r)
    else if i.kind == Close then r.(open := false)
    else if r.last + 1 != i.seq_ then r.(open := false, last := r.last + 1)
    else
      var r := r.(last := if r.last + 1 == 65535 then -1 else r.last + 1);
      if i.data == "" then r.(open := false) else r.(delivered := r.delivered + [i.data])
  }

  /** Whether handleIq accepts such an element. */
  predicate Accepts(r: Receiver, i: Ibb) {
    if !r.open then i.kind == Open else i.kind == Close || (r.last + 1 == i.seq_ && i.data != "")
  }

  /** handleIq on any element; those of other streams are not for this object. */
  function AfterIq(r: Receiver, sid: string, i: Ibb): Receiver {
    if i.sid == sid then AfterIbb(r, i) else r
  }

  function AfterAll(r: Receiver, sid: string, ibbs: seq<Ibb>): Receiver
    decreases |ibbs|
  {
    if ibbs == [] then r else AfterAll(AfterIq(r, sid, ibbs[0]), sid, ibbs[1..])
  }

  class Bytestream {
    const sid: string
    const blockSize: nat
    var sequence: int
    var lastChunkReceived: int
    var open: bool
    var sent: seq<Ibb>
    var delivered: seq<string>

    /** The numbering of what was sent: chunk k carries k modulo 65536, and the field is ready for the next. */
    ghost predicate Valid()
      reads this
    {
      blockSize > 0 && sequence == |sent| % 65536 - 1
    }

    function State(): Receiver
      reads this
    {
      Receiver(open, lastChunkReceived, delivered)
    }

    constructor (sid: string, blockSize: nat)
      requires blockSize > 0
      ensures Valid() && sent == [] && this.sid == sid && this.blockSize == blockSize
      ensures State() == Receiver(false, -1, [])
    {
      this.sid, this.blockSize := sid, blockSize;
      sequence, lastChunkReceived, open, sent, delivered := -1, -1, false, [], [];
    }

    /** InBandBytestream::send. */
    method Send(data: string) returns (ok: bool)
      requires Valid()
      modifies this
      ensures Valid() && ok == old(open) && State() == old(State())
      ensures sent == old(sent) + if ok then Numbered(sid, Chunks(data, blockSize), |old(sent)|) else []
    {
      hide Chunks, Numbered, Substr;
      if !open {
        return false;
      }
      var pos, len := 0, |data|;
      var more := true;
      ghost var goal := sent + Numbered(sid, Chunks(data, blockSize), |sent|);
      assert data[0..] == data;
      while more
        invariant sequence == |sent| % 65536 - 1
        invariant open == old(open) && lastChunkReceived == old(lastChunkReceived) && delivered == old(delivered)
        invariant more ==> pos <= len && sent + Numbered(sid, Chunks(data[pos..], blockSize), |sent|) == goal
        invariant !more ==> sent == goal
        decreases more, len - pos
      {
        ChunkStep(sid, data, pos, blockSize, sent);
        NextNumber(|sent|);
        sequence := sequence + 1;
        sent := sent + [DataChunk(sid, sequence, Substr(data, pos, blockSize))];
        pos := pos + blockSize;
        if sequence == 65535 {
          sequence := -1;
        }
        more := pos < len;
      }
      return true;
    }

    /** InBandBytestream::handleIq, on an IQ of type set with an element of this stream. */
    method HandleIq(i: Ibb) returns (ok: bool)
      requires Valid()
      modifies this
      ensures Valid() && sent == old(sent)
      ensures State() == AfterIq(old(State()), sid, i)
      ensures ok <==> i.sid == sid && Accepts(old(State()), i)
    {
      if i.sid != sid {
        return false;
      }
      if !open {
        if i.kind == Open {
          open := true;
          return true;
        }
        return false;
      }
      if i.kind == Close {
        open := false;
        return true;
      }
      lastChunkReceived := lastChunkReceived + 1;
      if lastChunkReceived != i.seq_ {
        open := false;
        return false;
      }
      if lastChunkReceived == 65535 {
        lastChunkReceived := -1;
      }
      if i.data == "" {
        open := false;
        return false;
      }
      delivered := delivered + [i.data];
      return true;
    }
  }

  /** One turn of the sending loop. */
  lemma ChunkStep(sid: string, data: string, pos: nat, blockSize: nat, sent: seq<Ibb>)
    requires blockSize > 0 && pos <= |data|
    ensures
      var next := sent + [DataChunk(sid, |sent| % 65536, Substr(data, pos, blockSize))];
      sent + Numbered(sid, Chunks(data[pos..], blockSize), |sent|) ==
      if pos + blockSize < |data| then next + Numbered(sid, Chunks(data[pos + blockSize..], blockSize), |next|)
      else next
  {
    var rest := data[pos..];
    var chunk := Substr(data, pos, blockSize);
    hide Numbered;
    if |rest| <= blockSize {
      assert chunk == rest && [rest] == [chunk] + [];
      NumberedCons(sid, chunk, [], |sent|);
    } else {
      assert rest[..blockSize] == chunk && rest[blockSize..] == data[pos + blockSize..];
      NumberedCons(sid, chunk, Chunks(data[pos + blockSize..], blockSize), |sent|);
    }
    NumberedNone(sid, |sent| + 1);
  }

  lemma NextNumber(n: nat)
    ensures (n + 1) % 65536 == if n % 65536 == 65535 then 0 else n % 65536 + 1
  {
  }

  lemma NumberedNone(sid: string, n: nat)
    ensures Numbered(sid, [], n) == []
  {
  }

  // A channel that loses, repeats and reorders

  /** The chunk that arrives when the channel delivers number `k` of the chunks that were sent. */
  function Arrival(sid: string, chunks: seq<string>, k: nat): Ibb
    requires k < |chunks|
  {
    DataChunk(sid, k % 65536, chunks[k])
  }

  /** The receiver is open and has been handed the first chunks, and its field is ready for the next. */
  predicate InStep(r: Receiver, chunks: seq<string>) {
    r.delivered <= chunks && r.last == |r.delivered| % 65536 - 1
  }

  /** An open receiver takes an arriving chunk just if its distance from the expected one is a multiple of 65536. */
  lemma Taken(r: Receiver, sid: string, chunks: seq<string>, k: nat)
    requires r.open && InStep(r, chunks) && k < |chunks| && chunks[k] != ""
    ensures
      var a := AfterIbb(r, Arrival(sid, chunks, k));
      if (k - |r.delivered|) % 65536 == 0 then a.open && a.delivered == r.delivered + [chunks[k]]
      else !a.open && a.delivered == r.delivered
  {
    SameNumber(k, |r.delivered|);
  }

  lemma SameNumber(k: nat, n: nat)
    ensures k % 65536 == n % 65536 <==> (k - n) % 65536 == 0
  {
  }

  function Arrivals(sid: string, chunks: seq<string>, ks: seq<nat>): (r: seq<Ibb>)
    requires forall i | 0 <= i < |ks| :: ks[i] < |chunks|
    ensures |r| == |ks|
  {
    if ks == [] then [] else [Arrival(sid, chunks, ks[0])] + Arrivals(sid, chunks, ks[1..])
  }

  /** As long as the stream is open, every arriving chunk is less than 65536 positions off the expected one. */
  predicate Near(r: Receiver, sid: string, chunks: seq<string>, ks: seq<nat>)
    requires forall i | 0 <= i < |ks| :: ks[i] < |chunks|
    decreases |ks|
  {
    ks == [] || !r.open
    || (-65536 < ks[0] - |r.delivered| < 65536 && Near(AfterIbb(r, Arrival(sid, chunks, ks[0])), sid, chunks, ks[1..]))
  }

  /** How many chunks arrive as they were sent before the first that does not. */
  function InOrder(ks: seq<nat>, n: nat): nat
    decreases |ks|
  {
    if ks == [] || ks[0] != n then 0 else 1 + InOrder(ks[1..], n + 1)
  }

  lemma FirstArrival(r: Receiver, sid: string, chunks: seq<string>, ks: seq<nat>)
    requires forall i | 0 <= i < |ks| :: ks[i] < |chunks|
    ensures AfterAll(r, sid, Arrivals(sid, chunks, ks)) ==
            if ks == [] then r
            else AfterAll(AfterIbb(r, Arrival(sid, chunks, ks[0])), sid, Arrivals(sid, chunks, ks[1..]))
  {
    hide AfterIbb;
    if ks != [] {
      assert Arrivals(sid, chunks, ks)[1..] == Arrivals(sid, chunks, ks[1..]);
    }
  }

  /**
   * Whatever the channel loses, repeats or reorders: what the handler is given is a prefix of what was
   * sent, just up to the first chunk that is not the expected one, and after that nothing.
   */
  lemma {:induction false} FaultyChannel(r: Receiver, sid: string, chunks: seq<string>, ks: seq<nat>)
    requires (forall i | 0 <= i < |ks| :: ks[i] < |chunks|) && (forall i | 0 <= i < |chunks| :: chunks[i] != "")
    requires r.open && InStep(r, chunks) && Near(r, sid, chunks, ks)
    ensures
      var a := AfterAll(r, sid, Arrivals(sid, chunks, ks));
      var n := |r.delivered| + InOrder(ks, |r.delivered|);
      n <= |chunks| && a.delivered == chunks[..n] && (a.open <==> n == |r.delivered| + |ks|)
    decreases |ks|
  {
    hide AfterAll, AfterIq, Arrivals, Arrival;
    FirstArrival(r, sid, chunks, ks);
    if ks == [] {
    } else {
      Taken(r, sid, chunks, ks[0]);
      var first := AfterIbb(r, Arrival(sid, chunks, ks[0]));
      if ks[0] == |r.delivered| {
        NextNumber(|r.delivered|);
        assert first.delivered <= chunks;
        FaultyChannel(first, sid, chunks, ks[1..]);
      } else {
        assert (ks[0] - |r.delivered|) % 65536 != 0;
        StaysClosed(first, sid, chunks, ks[1..]);
        OrderBound(ks[1..], 0);
      }
    }
  }

  lemma {:induction false} StaysClosed(r: Receiver, sid: string, chunks: seq<string>, ks: seq<nat>)
    requires !r.open && forall i | 0 <= i < |ks| :: ks[i] < |chunks|
    ensures AfterAll(r, sid, Arrivals(sid, chunks, ks)) == r
    decreases |ks|
  {
    if ks == [] {
    } else {
      assert Arrivals(sid, chunks, ks)[1..] == Arrivals(sid, chunks, ks[1..]);
      StaysClosed(r, sid, chunks, ks[1..]);
    }
  }

  lemma {:induction false} OrderBound(ks: seq<nat>, n: nat)
    ensures InOrder(ks, n) <= |ks|
    decreases |ks|
  {
    if ks == [] || ks[0] != n {
    } else {
      OrderBound(ks[1..], n + 1);
    }
  }

  // From end to end

  function AllChunks(writes: seq<string>, blockSize: nat): seq<string>
    requires blockSize > 0
  {
    if writes == [] then [] else Chunks(writes[0], blockSize) + AllChunks(writes[1..], blockSize)
  }

  /** The texts before the first empty one. */
  function BeforeEmpty(texts: seq<string>): seq<string> {
    if texts == [] || texts[0] == "" then [] else [texts[0]] + BeforeEmpty(texts[1..])
  }

  /** The chunks of a write make up the write; none is larger than a block, or empty unless the write is. */
  lemma {:induction false} ChunksMakeUp(data: string, blockSize: nat)
    requires blockSize > 0
    ensures Joined(Chunks(data, blockSize)) == data
    ensures forall i | 0 <= i < |Chunks(data, blockSize)| ::
      |Chunks(data, blockSize)[i]| <= blockSize && (Chunks(data, blockSize)[i] == "" <==> data == "")
    decreases |data|
  {
    if |data| <= blockSize {
      assert Joined([data]) == data + Joined([]);
    } else {
      ChunksMakeUp(data[blockSize..], blockSize);
      assert data == data[..blockSize] + data[blockSize..];
    }
  }

  lemma {:induction false} BeforeEmptyAppend(a: seq<string>, b: seq<string>)
    ensures "" !in a ==> BeforeEmpty(a + b) == a + BeforeEmpty(b)
    ensures a != [] && a[0] == "" ==> BeforeEmpty(a + b) == []
  {
    if a == [] {
      assert a + b == b;
    } else {
      assert (a + b)[1..] == a[1..] + b;
      BeforeEmptyAppend(a[1..], b);
    }
  }

  /** What Send adds for one more write, counting on, is what the chunks of all writes together are. */
  lemma SendsAddUp(sid: string, writes: seq<string>, data: string, blockSize: nat)
    requires blockSize > 0
    ensures
      var all := AllChunks(writes, blockSize);
      Numbered(sid, AllChunks(writes + [data], blockSize), 0) ==
      Numbered(sid, all, 0) + Numbered(sid, Chunks(data, blockSize), |Numbered(sid, all, 0)|)
  {
    hide Chunks, AllChunks, Numbered;
    AllChunksAppend(writes, data, blockSize);
    NumberedAppend(sid, AllChunks(writes, blockSize), Chunks(data, blockSize), 0);
  }

  lemma {:induction false} AllChunksAppend(writes: seq<string>, data: string, blockSize: nat)
    requires blockSize > 0
    ensures AllChunks(writes + [data], blockSize) == AllChunks(writes, blockSize) + Chunks(data, blockSize)
  {
    if writes == [] {
      assert AllChunks([data], blockSize) == Chunks(data, blockSize) + [];
    } else {
      assert (writes + [data])[1..] == writes[1..] + [data];
      AllChunksAppend(writes[1..], data, blockSize);
    }
  }

  lemma {:induction false} ChunksBeforeEmpty(writes: seq<string>, blockSize: nat)
    requires blockSize > 0
    ensures Joined(BeforeEmpty(AllChunks(writes, blockSize))) == Joined(BeforeEmpty(writes))
    ensures "" in AllChunks(writes, blockSize) <==> "" in writes
  {
    if writes == [] {
    } else {
      var chunks, rest := Chunks(writes[0], blockSize), AllChunks(writes[1..], blockSize);
      ChunksMakeUp(writes[0], blockSize);
      BeforeEmptyAppend(chunks, rest);
      ChunksBeforeEmpty(writes[1..], blockSize);
      if writes[0] == "" {
        assert chunks[0] == "";
      } else {
        JoinedAppend(chunks, BeforeEmpty(rest));
        assert writes == [writes[0]] + writes[1..];
      }
    }
  }

  /** The elements of all chunks, as the receiver reads them. */
  function Read(ibbs: seq<Ibb>): seq<Ibb>
    requires forall i | 0 <= i < |ibbs| :: Proper(ibbs[i])
  {
    if ibbs == [] then []
    else
      assert Proper(ibbs[0]);
      [FromTag(ToTag(ibbs[0]))] + Read(ibbs[1..])
  }

  lemma NumberedProper(sid: string, chunks: seq<string>, n: nat)
    requires forall i | 0 <= i < |chunks| :: Bytes(chunks[i])
    ensures forall i | 0 <= i < |chunks| :: Proper(Numbered(sid, chunks, n)[i])
  {
    hide Bytes;
  }

  lemma {:induction false} ReadBack(sid: string, chunks: seq<string>, n: nat)
    requires forall i | 0 <= i < |chunks| :: Bytes(chunks[i])
    ensures (NumberedProper(sid, chunks, n); Read(Numbered(sid, chunks, n)) == Numbered(Checked(sid), chunks, n))
    decreases |chunks|
  {
    hide FromTag, ToTag, Checked, Proper, Numbered, Bytes;
    NumberedProper(sid, chunks, n);
    if chunks == [] {
      NumberedNone(sid, n);
      NumberedNone(Checked(sid), n);
    } else {
      assert chunks == [chunks[0]] + chunks[1..];
      NumberedCons(sid, chunks[0], chunks[1..], n);
      NumberedCons(Checked(sid), chunks[0], chunks[1..], n);
      FromToTag(Numbered(sid, chunks, n)[0]);
      NumberedProper(sid, chunks[1..], n + 1);
      ReadBack(sid, chunks[1..], n + 1);
      assert Numbered(sid, chunks, n)[1..] == Numbered(sid, chunks[1..], n + 1);
    }
  }

  /** Chunks of another stream. */
  lemma {:induction false} NotForThis(r: Receiver, sid: string, other: string, chunks: seq<string>, n: nat)
    requires sid != other
    ensures AfterAll(r, sid, Numbered(other, chunks, n)) == r
    decreases |chunks|
  {
    if chunks == [] {
    } else {
      assert chunks == [chunks[0]] + chunks[1..];
      NumberedCons(other, chunks[0], chunks[1..], n);
      NotForThis(r, sid, other, chunks[1..], n + 1);
    }
  }

  lemma {:induction false} InOrderDelivery(r: Receiver, sid: string, chunks: seq<string>, n: nat)
    requires r.open && r.last == n % 65536 - 1
    ensures
      var a := AfterAll(r, sid, Numbered(sid, chunks, n));
      a.delivered == r.delivered + BeforeEmpty(chunks) && (a.open <==> "" !in chunks)
    decreases |chunks|
  {
    if chunks == [] {
      assert r.delivered + [] == r.delivered;
    } else {
      assert chunks == [chunks[0]] + chunks[1..];
      NumberedCons(sid, chunks[0], chunks[1..], n);
      var first := AfterIbb(r, DataChunk(sid, n % 65536, chunks[0]));
      NextNumber(n);
      if chunks[0] == "" {
        ClosedForGood(first, sid, chunks[1..], n + 1);
      } else {
        InOrderDelivery(first, sid, chunks[1..], n + 1);
        assert r.delivered + [chunks[0]] + BeforeEmpty(chunks[1..]) == r.delivered + BeforeEmpty(chunks);
      }
    }
  }

  lemma {:induction false} ClosedForGood(r: Receiver, sid: string, chunks: seq<string>, n: nat)
    requires !r.open
    ensures AfterAll(r, sid, Numbered(sid, chunks, n)) == r
    decreases |chunks|
  {
    if chunks == [] {
    } else {
      assert chunks == [chunks[0]] + chunks[1..];
      NumberedCons(sid, chunks[0], chunks[1..], n);
      ClosedForGood(r, sid, chunks[1..], n + 1);
    }
  }

  /**
   * Over a channel that keeps everything in order the receiver is handed the writes, chunk by chunk and
   * through their elements, up to the first empty one: an empty write sends an empty chunk, which closes
   * the stream at the receiver. It gets all of the data and stays open if and only if no write is empty. With
   * a stream id that must not be in XML it gets nothing.
   */
  lemma EndToEnd(sid: string, writes: seq<string>, blockSize: nat)
    requires blockSize > 0 && forall i | 0 <= i < |writes| :: Bytes(writes[i])
    ensures
      var sent := Numbered(sid, AllChunks(writes, blockSize), 0);
      && (forall i | 0 <= i < |sent| :: Proper(sent[i]))
      && var a := AfterAll(Receiver(true, -1, []), sid, Read(sent));
         if ValidText(sid) then
           && Joined(a.delivered) == Joined(BeforeEmpty(writes)) && (a.open <==> "" !in writes)
           && ("" !in writes ==> Joined(a.delivered) == Joined(writes))
         else a == Receiver(true, -1, [])
  {
    hide ValidText, Chunks, AllChunks, Numbered, Bytes, Joined, BeforeEmpty, Proper, AfterIq, AfterAll, Read;
    var chunks := AllChunks(writes, blockSize);
    AllBytes(writes, blockSize);
    NumberedProper(sid, chunks, 0);
    ReadBack(sid, chunks, 0);
    CheckedTwice(sid);
    if ValidText(sid) {
      InOrderDelivery(Receiver(true, -1, []), sid, chunks, 0);
      ChunksBeforeEmpty(writes, blockSize);
      NoneEmpty(writes);
      assert [] + BeforeEmpty(chunks) == BeforeEmpty(chunks);
    } else {
      NotForThis(Receiver(true, -1, []), sid, Checked(sid), chunks, 0);
    }
  }

  lemma {:induction false} AllBytes(writes: seq<string>, blockSize: nat)
    requires blockSize > 0 && forall i | 0 <= i < |writes| :: Bytes(writes[i])
    ensures forall i | 0 <= i < |AllChunks(writes, blockSize)| :: Bytes(AllChunks(writes, blockSize)[i])
  {
    if writes == [] {
    } else {
      ChunkBytes(writes[0], blockSize);
      AllBytes(writes[1..], blockSize);
    }
  }

  lemma {:induction false} ChunkBytes(data: string, blockSize: nat)
    requires blockSize > 0 && Bytes(data)
    ensures forall i | 0 <= i < |Chunks(data, blockSize)| :: Bytes(Chunks(data, blockSize)[i])
    decreases |data|
  {
    if |data| <= blockSize {
    } else {
      ChunkBytes(data[blockSize..], blockSize);
    }
  }

  lemma {:induction false} NoneEmpty(writes: seq<string>)
    ensures "" !in writes ==> BeforeEmpty(writes) == writes
  {
    if writes == [] || writes[0] == "" {
    } else {
      NoneEmpty(writes[1..]);
    }
  }

  // A whole session

  function OpenElement(sid: string, blockSize: int): Ibb {
    Ibb(sid, 0, blockSize, "", Open)
  }

  function CloseElement(sid: string): Ibb {
    Ibb(sid, 0, 0, "", Close)
  }

  /** Everything that goes over the channel from open to close. */
  function Session(sid: string, writes: seq<string>, blockSize: nat): seq<Ibb>
    requires blockSize > 0
  {
    [OpenElement(sid, blockSize)] + Numbered(sid, AllChunks(writes, blockSize), 0) + [CloseElement(sid)]
  }

  /** No element opens the stream. */
  predicate NoOpen(sid: string, ibbs: seq<Ibb>) {
    forall i | 0 <= i < |ibbs| :: ibbs[i].kind == Open ==> ibbs[i].sid != sid
  }

  lemma {:induction false} AfterAllAppend(r: Receiver, sid: string, a: seq<Ibb>, b: seq<Ibb>)
    ensures AfterAll(r, sid, a + b) == AfterAll(AfterAll(r, sid, a), sid, b)
    decreases |a|
  {
    hide AfterIq;
    if a == [] {
      assert a + b == b;
    } else {
      assert (a + b)[1..] == a[1..] + b;
      AfterAllAppend(AfterIq(r, sid, a[0]), sid, a[1..], b);
    }
  }

  /** A closed stream takes nothing, whatever arrives, until it is opened. */
  lemma {:induction false} TakesNothing(r: Receiver, sid: string, ibbs: seq<Ibb>)
    requires !r.open && NoOpen(sid, ibbs)
    ensures AfterAll(r, sid, ibbs) == r
    decreases |ibbs|
  {
    if ibbs == [] {
    } else {
      TakesNothing(r, sid, ibbs[1..]);
    }
  }

  lemma AfterOne(r: Receiver, sid: string, i: Ibb)
    ensures AfterAll(r, sid, [i]) == AfterIq(r, sid, i)
  {
    assert [i][1..] == [];
  }

  lemma {:induction false} ReadAppend(a: seq<Ibb>, b: seq<Ibb>)
    requires (forall i | 0 <= i < |a| :: Proper(a[i])) && (forall i | 0 <= i < |b| :: Proper(b[i]))
    ensures Read(a + b) == Read(a) + Read(b)
  {
    hide Proper, FromTag, ToTag;
    if a == [] {
      assert a + b == b;
    } else {
      assert (a + b)[1..] == a[1..] + b;
      ReadAppend(a[1..], b);
    }
  }

  lemma EndsProper(sid: string, blockSize: int)
    requires IsInt(blockSize) && ValidText(sid)
    ensures Proper(OpenElement(sid, blockSize)) && Proper(CloseElement(sid))
    ensures Read([OpenElement(sid, blockSize)]) == [OpenElement(sid, blockSize)]
    ensures Read([CloseElement(sid)]) == [CloseElement(sid)]
  {
    hide FromTag, ToTag, Checked, ValidText;
    var open, close := OpenElement(sid, blockSize), CloseElement(sid);
    FromToTag(open);
    FromToTag(close);
    CheckedTwice(sid);
    assert [open][1..] == [] && [close][1..] == [];
  }

  lemma SessionRead(sid: string, writes: seq<string>, blockSize: nat)
    requires blockSize > 0 && IsInt(blockSize) && ValidText(sid)
    requires forall i | 0 <= i < |writes| :: Bytes(writes[i])
    ensures forall i | 0 <= i < |Session(sid, writes, blockSize)| :: Proper(Session(sid, writes, blockSize)[i])
    ensures Read(Session(sid, writes, blockSize)) == Session(sid, writes, blockSize)
  {
    hide ValidText, AllChunks, Numbered, Bytes, Proper, Read;
    var chunks := AllChunks(writes, blockSize);
    AllBytes(writes, blockSize);
    NumberedProper(sid, chunks, 0);
    ReadBack(sid, chunks, 0);
    CheckedTwice(sid);
    EndsProper(sid, blockSize);
    ReadAppend([OpenElement(sid, blockSize)], Numbered(sid, chunks, 0));
    ReadAppend([OpenElement(sid, blockSize)] + Numbered(sid, chunks, 0), [CloseElement(sid)]);
  }

  /**
   * A session through its elements, at a receiver that has never been open: whatever arrives before the open
   * element or behind the close element, unless it opens the stream again, the handler is given the writes up to
   * the first empty one, all of them if none is empty, and the stream is closed at the end.
   */
  lemma WholeSession(sid: string, writes: seq<string>, blockSize: nat, before: seq<Ibb>, behind: seq<Ibb>)
    requires blockSize > 0 && IsInt(blockSize) && ValidText(sid)
    requires forall i | 0 <= i < |writes| :: Bytes(writes[i])
    requires NoOpen(sid, before) && NoOpen(sid, behind)
    ensures
      var session := Session(sid, writes, blockSize);
      && (forall i | 0 <= i < |session| :: Proper(session[i]))
      && var a := AfterAll(Receiver(false, -1, []), sid, before + Read(session) + behind);
         && !a.open && Joined(a.delivered) == Joined(BeforeEmpty(writes))
         && ("" !in writes ==> Joined(a.delivered) == Joined(writes))
  {
    hide ValidText, AllChunks, Numbered, Bytes, Joined, BeforeEmpty, Proper, Read, AfterAll, Session;
    var r := Receiver(false, -1, []);
    var session := Session(sid, writes, blockSize);
    SessionRead(sid, writes, blockSize);
    AfterAllAppend(r, sid, before + session, behind);
    AfterAllAppend(r, sid, before, session);
    TakesNothing(r, sid, before);
    FromOpenToClose(sid, writes, blockSize);
    TakesNothing(AfterAll(r, sid, session), sid, behind);
    NoneEmpty(writes);
  }

  lemma FromOpenToClose(sid: string, writes: seq<string>, blockSize: nat)
    requires blockSize > 0
    ensures
      var a := AfterAll(Receiver(false, -1, []), sid, Session(sid, writes, blockSize));
      !a.open && Joined(a.delivered) == Joined(BeforeEmpty(writes))
  {
    hide AllChunks, Numbered, Joined, BeforeEmpty, AfterAll;
    var r, open, close := Receiver(false, -1, []), OpenElement(sid, blockSize), CloseElement(sid);
    var chunks := AllChunks(writes, blockSize);
    var data := Numbered(sid, chunks, 0);
    AfterAllAppend(r, sid, [open] + data, [close]);
    AfterAllAppend(r, sid, [open], data);
    AfterOne(r, sid, open);
    var ready := r.(open := true);
    InOrderDelivery(ready, sid, chunks, 0);
    ChunksBeforeEmpty(writes, blockSize);
    AfterOne(AfterAll(ready, sid, data), sid, close);
    assert [] + BeforeEmpty(chunks) == BeforeEmpty(chunks);
  }

  /** What is accepted opens the stream, closes it as asked, or is handed on; all else changes at most to closed. */
  lemma Accepted(r: Receiver, i: Ibb)
    ensures
      var a := AfterIbb(r, i);
      && (Accepts(r, i) <==> (!r.open && a.open) || (r.open && i.kind == Close) || |a.delivered| > |r.delivered|)
      && (r.open && (i.kind == Close || !Accepts(r, i)) ==> !a.open)
      && (|a.delivered| > |r.delivered| ==> r.open && a.open && a.delivered == r.delivered + [i.data] && i.data != "")
  {
  }
}
