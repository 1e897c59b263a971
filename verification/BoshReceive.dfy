/** BOSH (XEP-0124), receiving: taking the HTTP responses out of a byte stream that arrives in chunks. */
module BoshReceive {
  import opened CxxString
  import opened Decimal

  datatype Mode = LegacyHTTP | PersistentHTTP | Pipelining

  const CRLF := "\r\n"
  const HEADER_END := "\r\n\r\n"

  // Header fields

  /** std::toupper in the C locale. */
  function ToUpper(c: char): char {
    if 'a' <= c <= 'z' then (c - 'a') + 'A' else c
  }

  predicate CiEqual(a: string, b: string) {
    |a| == |b| && forall i | 0 <= i < |a| :: ToUpper(a[i]) == ToUpper(b[i])
  }

  predicate CiAt(s: string, i: nat, pat: string) {
    i + |pat| <= |s| && CiEqual(s[i..i + |pat|], pat)
  }

  /** ci_find: std::search with characters compared regardless of case. */
  function CiFind(s: string, pat: string, from: nat): (r: Index)
    ensures r.Some? ==> from <= r.value && r.value + |pat| <= |s|
    decreases |s| - from
  {
    if from + |pat| > |s| then None
    else if CiAt(s, from, pat) then Some(from)
    else CiFind(s, pat, from + 1)
  }

  /** ConnectionBOSH::getHTTPField on a header that ends in a line break. */
  function HttpField(header: string, field: string): string {
    match CiFind(header, CRLF + field + ": ", 0)
    case None => ""
    case Some(p) =>
      var fp := p + |field| + 4;
      match Find(header, CRLF, fp)
      case None => ""
      case Some(fp2) => header[fp..fp2]
  }

  /** The length a header announces: what atol reads, converted to a size; a negative one is a huge one. */
  function ContentLength(header: string): (n: nat)
    ensures n <= NPOS
  {
    SizeOf(Atol(HttpField(header, "Content-Length")))
  }

  predicate IsOk(header: string)
    requires |header| >= 9
  {
    Substr(header, 9, 3) == "200"
  }

  /** The server cannot keep the connection open: HTTP/1.0, or it says so. */
  predicate Closes(header: string) {
    HttpField(header, "Connection") == "close" || Substr(header, 0, 8) == "HTTP/1.0"
  }

  lemma {:induction false} CiFindIs(s: string, pat: string, from: nat, k: nat)
    requires from <= k && CiAt(s, k, pat)
    requires forall j | from <= j < k :: !CiAt(s, j, pat)
    ensures CiFind(s, pat, from) == Some(k)
    decreases k - from
  {
    if from < k {
      CiFindIs(s, pat, from + 1, k);
    }
  }

  /** The value of the first line whose name is the field's, in whatever case it is written. */
  lemma FieldFound(header: string, pre: string, name: string, value: string, post: string, field: string)
    requires CiEqual(name, field)
    requires Find(value + CRLF, CRLF, 0) == Some(|value|)
    requires header == pre + ((CRLF + name + ": ") + (value + CRLF + post))
    requires forall j | 0 <= j < |pre| :: !CiAt(header, j, CRLF + field + ": ")
    ensures HttpField(header, field) == value
  {
    hide Find, CiFind, CiAt, CiEqual, HttpField;
    var key, p := CRLF + name + ": ", |pre|;
    KeyFound(header, pre, name, value + CRLF + post, field, p);
    KeyLength(name, field, key);
    Assoc(header, pre, key, value + CRLF + post);
    ValueFound(header, pre + key, value, post, field, p, p + |key|, |value|);
  }

  lemma ValueFound(header: string, before: string, value: string, post: string, field: string, p: nat, fp: nat, n: nat)
    requires header == before + (value + CRLF + post) && |before| == fp && |value| == n
    requires Find(value + CRLF, CRLF, 0) == Some(n)
    requires CiFind(header, CRLF + field + ": ", 0) == Some(p) && fp == p + |field| + 4
    ensures HttpField(header, field) == value
  {
    hide Find, CiFind, HttpField;
    FieldCut(header, before, fp, value, CRLF, post, n);
    FieldRead(header, field, p, fp, n);
  }

  lemma KeyFound(header: string, pre: string, name: string, rest: string, field: string, p: nat)
    requires CiEqual(name, field) && p == |pre| && header == pre + ((CRLF + name + ": ") + rest)
    requires forall j | 0 <= j < p :: !CiAt(header, j, CRLF + field + ": ")
    ensures CiFind(header, CRLF + field + ": ", 0) == Some(p)
  {
    KeyMatches(pre, name, rest, field);
    hide CiFind, CiAt;
    CiFindIs(header, CRLF + field + ": ", 0, p);
  }

  lemma KeyLength(name: string, field: string, key: string)
    requires CiEqual(name, field) && key == CRLF + name + ": "
    ensures |key| == |field| + 4
  {
  }

  lemma Assoc<T>(s: seq<T>, a: seq<T>, b: seq<T>, c: seq<T>)
    requires s == a + (b + c)
    ensures s == (a + b) + c
  {
  }

  lemma FieldCut<T>(header: seq<T>, before: seq<T>, fp: nat, value: seq<T>, end: seq<T>, post: seq<T>, n: nat)
    requires header == before + (value + end + post) && |before| == fp && |value| == n
    requires Find(value + end, end, 0) == Some(n)
    ensures Find(header, end, fp) == Some(fp + n)
    ensures fp + n <= |header| && header[fp..fp + n] == value
  {
    hide Find;
    FindBehind(header, before, fp, value + end, post, end, n);
    assert value + end + post == value + (end + post);
    Middle(header, before, value, end + post);
  }

  lemma FieldRead(header: string, field: string, p: nat, fp: nat, n: nat)
    requires CiFind(header, CRLF + field + ": ", 0) == Some(p) && fp == p + |field| + 4
    requires Find(header, CRLF, fp) == Some(fp + n) && fp + n <= |header|
    ensures HttpField(header, field) == header[fp..fp + n]
  {
    hide Find, CiFind;
  }

  lemma KeyMatches(pre: string, name: string, rest: string, field: string)
    requires CiEqual(name, field)
    ensures CiAt(pre + (CRLF + name + ": " + rest), |pre|, CRLF + field + ": ")
  {
    var key, s := CRLF + name + ": ", pre + (CRLF + name + ": " + rest);
    assert s[|pre|..|pre| + |key|] == key;
  }

  // The buffer

  /**
   * What received data changes: the buffer, the bodies fed to the parser, the connection mode, the mode
   * each answered request's connection was put back under, how often the transport was disconnected for a
   * status other than 200, how often an over-short header made std::string throw, and whether the call
   * never returns.
   */
  datatype Received = Received(
    buffer: string, bodies: seq<string>, mode: Mode, puts: seq<Mode>, disconnects: nat, throws: nat, hung: bool)

  const FRESH := Received("", [], Pipelining, [], 0, 0, false)

  /** What reading the header of the response at the front of the buffer changes, `n` being its length. */
  function HeaderRead(r: Received, n: nat): Received
    requires 7 <= n && n + 4 <= |r.buffer|
  {
    var header := r.buffer[..n + 2];
    var r := if !IsOk(header) then r.(disconnects := r.disconnects + 1) else r;
    if ContentLength(header) != 0 && r.mode != LegacyHTTP && Closes(header) then r.(mode := LegacyHTTP) else r
  }

  /**
   * All complete responses at the front of the buffer, taken out one by one. Where the length makes the end
   * of a response wrap around to the very front of the buffer, nothing is taken out, forever.
   */
  function Deframed(r: Received): Received
    decreases |r.buffer|
  {
    match Find(r.buffer, HEADER_END, 0)
    case None => r
    case Some(n) =>
      if n + 2 < 9 then r.(throws := r.throws + 1)
      else
        var h, length := HeaderRead(r, n), ContentLength(r.buffer[..n + 2]);
        var end := SizeAdd(n + 4, length);
        if length == 0 || |r.buffer| < end then h
        else if end == 0 then h.(hung := true)
        else Deframed(Taken(h, n + 4, length, end))
  }

  /** The body from `start` on is fed, and the buffer erased up to `end`. */
  function Taken(r: Received, start: nat, length: nat, end: nat): Received
    requires start <= |r.buffer| && end <= |r.buffer|
  {
    r.(buffer := r.buffer[end..],
       bodies := r.bodies + [Substr(r.buffer, start, length)],
       puts := r.puts + [r.mode])
  }

  /** No call follows one that does not return, or one that has disconnected the transports. */
  predicate Stopped(r: Received) {
    r.hung || r.disconnects > 0
  }

  /** One call with more data. */
  function AfterData(r: Received, data: string): Received {
    if Stopped(r) then r else Deframed(r.(buffer := r.buffer + data))
  }

  class Receiver {
    var buffer: string
    var bodies: seq<string>
    var mode: Mode
    var puts: seq<Mode>
    var disconnects: nat
    var throws: nat
    var hung: bool

    function State(): Received
      reads this
    {
      Received(buffer, bodies, mode, puts, disconnects, throws, hung)
    }

    constructor ()
      ensures State() == FRESH
    {
      buffer, bodies, mode, puts, disconnects, throws, hung := "", [], Pipelining, [], 0, 0, false;
    }

    /** The part of handleReceivedData that looks at the header. */
    method ReadHeader(n: nat) returns (contentLength: nat)
      requires 7 <= n && n + 4 <= |buffer|
      modifies `disconnects, `mode
      ensures State() == HeaderRead(old(State()), n) && contentLength == ContentLength(buffer[..n + 2])
    {
      hide HttpField, ContentLength;
      var bufferHeader := buffer[..n + 2];
      if Substr(bufferHeader, 9, 3) != "200" {
        disconnects := disconnects + 1;
      }
      contentLength := ContentLength(bufferHeader);
      if contentLength == 0 {
        return;
      }
      if mode != LegacyHTTP && (HttpField(bufferHeader, "Connection") == "close"
                                || Substr(bufferHeader, 0, 8) == "HTTP/1.0") {
        mode := LegacyHTTP;
      }
    }

    /**
     * ConnectionBOSH::handleReceivedData. Every turn shortens the buffer, but for the one whose erasing
     * wraps around to nothing: there the loop of the library goes on forever.
     */
    method HandleReceivedData(data: string)
      requires !Stopped(State())
      modifies this
      ensures State() == AfterData(old(State()), data)
    {
      hide ContentLength, Find, Substr, Deframed, SizeAdd, HeaderRead;
      buffer := buffer + data;
      ghost var goal := Deframed(State());
      var headerLength := Find(buffer, HEADER_END, 0);
      while headerLength.Some?
        invariant headerLength == Find(buffer, HEADER_END, 0)
        invariant Deframed(State()) == goal
        decreases |buffer|
      {
        Unrolled(State());
        var n := headerLength.value;
        if n + 2 < 9 {
          throws := throws + 1;
          return;
        }
        HeaderBodies(State(), n);
        var contentLength := ReadHeader(n);
        if contentLength == 0 {
          return;
        }
        var end := SizeAdd(n + 4, contentLength);
        if |buffer| >= end {
          if end == 0 {
            hung := true;
            return;
          }
          puts := puts + [mode];
          bodies := bodies + [Substr(buffer, n + 4, contentLength)];
          buffer := buffer[end..];
        } else {
          break;
        }
        headerLength := Find(buffer, HEADER_END, 0);
      }
      if headerLength.None? {
        Unrolled(State());
      }
    }
  }

  lemma Unrolled(r: Received)
    ensures Deframed(r) ==
            match Find(r.buffer, HEADER_END, 0)
            case None => r
            case Some(n) =>
              if n + 2 < 9 then r.(throws := r.throws + 1)
              else
                var h, length := HeaderRead(r, n), ContentLength(r.buffer[..n + 2]);
                var end := SizeAdd(n + 4, length);
                if length == 0 || |r.buffer| < end then h
                else if end == 0 then h.(hung := true)
                else Deframed(Taken(h, n + 4, length, end))
  {
  }

  // Whether the loop ends

  /** One of the complete responses at the front of the bytes ends, after the wrap-around, at zero. */
  predicate Hangs(s: string)
    decreases |s|
  {
    match Find(s, HEADER_END, 0)
    case None => false
    case Some(n) =>
      var length := ContentLength(s[..n + 2]);
      var end := SizeAdd(n + 4, length);
      n + 2 >= 9 && length != 0 && end <= |s| && (end == 0 || Hangs(s[end..]))
  }

  /** The loop goes on forever if and only if such a response is among the bytes. */
  lemma {:induction false} LoopEnds(r: Received)
    requires !r.hung
    ensures Deframed(r).hung <==> Hangs(r.buffer)
    decreases |r.buffer|
  {
    hide HttpField, ContentLength, Find, IsOk, SizeAdd, Deframed, HeaderRead;
    Unrolled(r);
    match Find(r.buffer, HEADER_END, 0)
    case None =>
    case Some(n) =>
      if n + 2 >= 9 {
        HeaderBodies(r, n);
        var length := ContentLength(r.buffer[..n + 2]);
        var end := SizeAdd(n + 4, length);
        if length != 0 && 0 < end <= |r.buffer| {
          LoopEnds(Taken(HeaderRead(r, n), n + 4, length, end));
        }
      }
  }

  /**
   * A response ends at zero if and only if the length in its header, of `n` characters and a line break, is that
   * of the header with the empty line, negated.
   */
  lemma EndsAtZero(header: string, n: nat)
    requires n + 4 <= LONG_MAX
    ensures ContentLength(header) != 0 && SizeAdd(n + 4, ContentLength(header)) == 0 <==>
            Atol(HttpField(header, "Content-Length")) == 0 - (n + 4)
  {
    hide HttpField;
    var a := Atol(HttpField(header, "Content-Length"));
    AtolRange(HttpField(header, "Content-Length"));
    SizeOfValue(a);
    SizeAddValue(n + 4, SizeOf(a));
  }

  lemma AtolRange(s: string)
    ensures -LONG_MAX - 1 <= Atol(s) <= LONG_MAX
  {
    hide ReadSigned, Trimmed;
  }

  /** Each mode is the one before it or the fallback to HTTP/1.0. */
  predicate FallingBack(mode: Mode, modes: seq<Mode>, last: Mode)
    decreases |modes|
  {
    if modes == [] then last == mode || last == LegacyHTTP
    else (modes[0] == mode || modes[0] == LegacyHTTP) && FallingBack(modes[0], modes[1..], last)
  }

  /** The modes recorded after `r` had recorded its own. */
  function NewPuts(r: Received, d: Received): seq<Mode> {
    if |r.puts| <= |d.puts| then d.puts[|r.puts|..] else []
  }

  lemma {:induction false} PutsFallBack(r: Received)
    ensures
      var d := Deframed(r);
      && r.puts <= d.puts && |NewPuts(r, d)| == |d.bodies| - |r.bodies| && FallingBack(r.mode, NewPuts(r, d), d.mode)
    decreases |r.buffer|
  {
    hide HttpField, ContentLength, Find, IsOk, SizeAdd, Substr, Closes, Deframed, HeaderRead;
    Unrolled(r);
    match Find(r.buffer, HEADER_END, 0)
    case None =>
    case Some(n) =>
      if n + 2 >= 9 {
        HeaderMode(r, n);
        var length := ContentLength(r.buffer[..n + 2]);
        var end := SizeAdd(n + 4, length);
        if length != 0 && 0 < end <= |r.buffer| {
          var e := Taken(HeaderRead(r, n), n + 4, length, end);
          PutsFallBack(e);
          assert NewPuts(r, Deframed(e)) == [e.mode] + NewPuts(e, Deframed(e));
        }
      }
  }

  lemma HeaderMode(r: Received, n: nat)
    requires 7 <= n && n + 4 <= |r.buffer|
    ensures
      var h := HeaderRead(r, n);
      && (h.mode == r.mode || h.mode == LegacyHTTP)
      && h.puts == r.puts && h.bodies == r.bodies && h.buffer == r.buffer && h.hung == r.hung
  {
    hide ContentLength, Closes, IsOk;
  }

  // Chunking

  /** The chunks handed to handleReceivedData one after the other. */
  function Fed(r: Received, chunks: seq<string>): Received
    decreases |chunks|
  {
    if chunks == [] then r else Fed(AfterData(r, chunks[0]), chunks[1..])
  }

  function Behind(r: Index, n: nat): Index {
    match r case None => None case Some(k) => Some(n + k)
  }

  /**
   * The place in the bytes where a cut shows: right behind the first header that is too short, or has another
   * status than 200, or whose length makes the end of the response wrap around, if bytes follow it.
   */
  function ShowingCut(s: string): (r: Index)
    ensures r.Some? ==> r.value < |s|
    decreases |s|
  {
    match Find(s, HEADER_END, 0)
    case None => None
    case Some(n) =>
      if |s| == n + 4 then None
      else if n + 2 < 9 || !IsOk(s[..n + 2]) then Some(n + 4)
      else
        var length := ContentLength(s[..n + 2]);
        var end := SizeAdd(n + 4, length);
        SizeAddValue(n + 4, length);
        if length == 0 then None
        else if n + 4 + length > NPOS then Some(n + 4)
        else if |s| < end then None
        else Behind(ShowingCut(s[end..]), end)
  }

  /** Reading a header with status 200 again, with more bytes in the buffer, changes nothing more. */
  lemma HeaderAgain(r: Received, n: nat, t: string)
    requires 7 <= n && n + 4 <= |r.buffer|
    ensures
      var h, both := HeaderRead(r, n), r.buffer + t;
      && both[..n + 2] == r.buffer[..n + 2] && h.buffer == r.buffer && h.hung == r.hung
      && HeaderRead(r.(buffer := both), n) == h.(buffer := both)
      && h.disconnects == (if IsOk(r.buffer[..n + 2]) then r.disconnects else r.disconnects + 1)
      && (IsOk(r.buffer[..n + 2]) ==> HeaderRead(h.(buffer := both), n) == h.(buffer := both))
  {
    hide HttpField, ContentLength, Closes, Substr;
    assert (r.buffer + t)[..n + 2] == r.buffer[..n + 2];
  }

  lemma TakenLater(r: Received, t: string, start: nat, length: nat, end: nat)
    requires start + length == end <= |r.buffer|
    ensures Taken(r.(buffer := r.buffer + t), start, length, end) ==
            Taken(r, start, length, end).(buffer := r.buffer[end..] + t)
    ensures (r.buffer + t)[end..] == r.buffer[end..] + t
  {
    SubstrGrows(r.buffer, t, start, length);
  }

  lemma SubstrGrows<T>(s: seq<T>, t: seq<T>, start: nat, length: nat)
    requires start + length <= |s|
    ensures Substr(s + t, start, length) == Substr(s, start, length) == s[start..start + length]
  {
    assert (s + t)[start..start + length] == s[start..start + length];
    assert length == |s| - start ==> s[start..] == s[start..start + length];
    assert length == |s + t| - start ==> (s + t)[start..] == s[start..start + length];
  }

  lemma TakenRest(r: Received, start: nat, length: nat, end: nat)
    requires start <= |r.buffer| && end <= |r.buffer|
    ensures
      var e := Taken(r, start, length, end);
      e.buffer == r.buffer[end..] && e.hung == r.hung && e.disconnects == r.disconnects && e.throws == r.throws
    ensures |r.buffer[end..]| == |r.buffer| - end
  {
  }

  lemma CutUnrolled(s: string, n: nat)
    requires Find(s, HEADER_END, 0) == Some(n) && n + 2 >= 9
    ensures
      var length := ContentLength(s[..n + 2]);
      var end := SizeAdd(n + 4, length);
      && (n + 4 + length > NPOS ==> end < n + 4)
      && (n + 4 + length <= NPOS ==> end == n + 4 + length)
      && ShowingCut(s) ==
         if |s| == n + 4 then None
         else if !IsOk(s[..n + 2]) then Some(n + 4)
         else if length == 0 then None
         else if n + 4 + length > NPOS then Some(n + 4)
         else if |s| < end then None
         else Behind(ShowingCut(s[end..]), end)
  {
    hide ContentLength, Find, IsOk, SizeAdd, Behind;
    SizeAddValue(n + 4, ContentLength(s[..n + 2]));
  }

  /** The response at the front is not complete yet. */
  lemma PendingLater(r: Received, t: string, n: nat)
    requires Find(r.buffer, HEADER_END, 0) == Some(n) && n + 2 >= 9 && IsOk(r.buffer[..n + 2])
    requires ContentLength(r.buffer[..n + 2]) == 0 || |r.buffer| < SizeAdd(n + 4, ContentLength(r.buffer[..n + 2]))
    ensures Deframed(r) == HeaderRead(r, n)
    ensures Deframed(HeaderRead(r, n).(buffer := r.buffer + t)) == Deframed(r.(buffer := r.buffer + t))
  {
    hide HttpField, ContentLength, Find, HeaderRead, Taken, IsOk, SizeAdd, Deframed;
    FindGrows(r.buffer, t, HEADER_END, 0);
    HeaderAgain(r, n, t);
    Unrolled(r);
    Unrolled(r.(buffer := r.buffer + t));
    Unrolled(HeaderRead(r, n).(buffer := r.buffer + t));
  }

  /** The response at the front is complete, and so it is with more bytes behind. */
  lemma TakenFirst(r: Received, t: string, n: nat)
    requires Find(r.buffer, HEADER_END, 0) == Some(n) && n + 2 >= 9 && ShowingCut(r.buffer + t).None? && t != ""
    requires ContentLength(r.buffer[..n + 2]) != 0
    requires SizeAdd(n + 4, ContentLength(r.buffer[..n + 2])) <= |r.buffer|
    ensures n + 4 <= |r.buffer| && SizeAdd(n + 4, ContentLength(r.buffer[..n + 2])) > 0
    ensures
      var length := ContentLength(r.buffer[..n + 2]);
      var end := SizeAdd(n + 4, length);
      var e := Taken(HeaderRead(r, n), n + 4, length, end);
      && Deframed(r) == Deframed(e)
      && Deframed(r.(buffer := r.buffer + t)) == Deframed(e.(buffer := e.buffer + t))
      && ShowingCut(e.buffer + t).None? && |e.buffer| < |r.buffer| && Stopped(e) == Stopped(r)
  {
    hide HttpField, ContentLength, Find, HeaderRead, Taken, IsOk, SizeAdd, ShowingCut, Deframed;
    FindGrows(r.buffer, t, HEADER_END, 0);
    HeaderAgain(r, n, t);
    CutUnrolled(r.buffer + t, n);
    Unrolled(r);
    Unrolled(r.(buffer := r.buffer + t));
    var length := ContentLength(r.buffer[..n + 2]);
    var end := SizeAdd(n + 4, length);
    TakenRest(HeaderRead(r, n), n + 4, length, end);
    TakenLater(HeaderRead(r, n), t, n + 4, length, end);
  }

  /** Where no cut shows, the bytes at hand do no harm, and those behind them can wait. */
  lemma {:induction false} DeframedLater(r: Received, t: string)
    requires !Stopped(r) && t != "" && ShowingCut(r.buffer + t).None?
    ensures
      var d := Deframed(r);
      && !Stopped(d) && ShowingCut(d.buffer + t).None?
      && Deframed(d.(buffer := d.buffer + t)) == Deframed(r.(buffer := r.buffer + t))
    decreases |r.buffer|
  {
    hide HttpField, ContentLength, Find, HeaderRead, Taken, IsOk, SizeAdd, ShowingCut, Deframed;
    Unrolled(r);
    match Find(r.buffer, HEADER_END, 0)
    case None =>
    case Some(n) =>
      FindGrows(r.buffer, t, HEADER_END, 0);
      LongOkHeader(r.buffer + t, n);
      HeaderAgain(r, n, t);
      var length := ContentLength(r.buffer[..n + 2]);
      var end := SizeAdd(n + 4, length);
      if length == 0 || |r.buffer| < end {
        PendingLater(r, t, n);
      } else {
        TakenFirst(r, t, n);
        DeframedLater(Taken(HeaderRead(r, n), n + 4, length, end), t);
      }
  }

  lemma LongOkHeader(s: string, n: nat)
    requires Find(s, HEADER_END, 0) == Some(n) && |s| > n + 4 && ShowingCut(s).None?
    ensures n + 2 >= 9 && IsOk(s[..n + 2])
  {
    hide ContentLength, Find, IsOk;
  }

  /** The transports hand over no empty chunk. */
  predicate Chunks(chunks: seq<string>, s: string) {
    Joined(chunks) == s && "" !in chunks
  }

  lemma {:induction false} TameFed(r: Received, chunks: seq<string>)
    requires !Stopped(r) && chunks != [] && "" !in chunks && ShowingCut(r.buffer + Joined(chunks)).None?
    ensures Fed(r, chunks) == Deframed(r.(buffer := r.buffer + Joined(chunks)))
    decreases |chunks|
  {
    hide Find, Deframed, ShowingCut;
    var c, more := chunks[0], chunks[1..];
    if more == [] {
      assert Joined(chunks) == c + [];
      assert c + [] == c;
    } else {
      var first, t := r.(buffer := r.buffer + c), Joined(more);
      assert t == more[0] + Joined(more[1..]) && more[0] in chunks;
      assert first.buffer + t == r.buffer + Joined(chunks);
      DeframedLater(first, t);
      TameFed(Deframed(first), more);
    }
  }

  // A cut that shows

  lemma PrefixFound(s: string, n: nat, c: nat)
    requires Find(s, HEADER_END, 0) == Some(n) && n + 4 <= c <= |s|
    ensures Find(s[..c], HEADER_END, 0) == Some(n) && s[..c][..n + 2] == s[..n + 2]
  {
    hide Find;
    FindFirst(s, HEADER_END, 0);
    assert s[..c][n..n + 4] == s[n..n + 4];
    forall j | 0 <= j < n
      ensures !At(s[..c], j, HEADER_END)
    {
      assert s[..c][j..j + 4] == s[j..j + 4];
      assert !At(s, j, HEADER_END);
    }
    FindIs(s[..c], HEADER_END, 0, n);
  }

  lemma {:induction false} BodiesGrow(r: Received)
    ensures r.bodies <= Deframed(r).bodies
    decreases |r.buffer|
  {
    hide HttpField, ContentLength, Find, IsOk, SizeAdd, Substr, Closes;
    match Find(r.buffer, HEADER_END, 0)
    case None =>
    case Some(n) =>
      var length := ContentLength(r.buffer[..n + 2]);
      var end := SizeAdd(n + 4, length);
      if n + 2 >= 9 && length != 0 && 0 < end <= |r.buffer| {
        BodiesGrow(Taken(HeaderRead(r, n), n + 4, length, end));
      }
  }

  /** With more bytes at hand the buffer that is left is another, or the body of the response at the front is. */
  lemma CutBehindHeader(r: Received, n: nat, c: string)
    requires Find(r.buffer, HEADER_END, 0) == Some(n) && n + 2 >= 9 && !Stopped(r) && |r.buffer| > n + 4
    requires c == r.buffer[..n + 4]
    requires !IsOk(r.buffer[..n + 2]) || n + 4 + ContentLength(r.buffer[..n + 2]) > NPOS
    requires ContentLength(r.buffer[..n + 2]) != 0
    ensures AfterData(Deframed(r.(buffer := c)), r.buffer[n + 4..]) != Deframed(r)
  {
    hide HttpField, ContentLength, Find, IsOk, SizeAdd, Deframed, HeaderRead;
    var u, r0 := r.buffer[n + 4..], r.(buffer := c);
    PrefixFound(r.buffer, n, n + 4);
    assert c + u == r.buffer;
    HeaderAgain(r0, n, u);
    HeaderBodies(r, n);
    HeaderBodies(r0, n);
    var length := ContentLength(r.buffer[..n + 2]);
    var end := SizeAdd(n + 4, length);
    SizeAddValue(n + 4, length);
    Unrolled(r0);
    Unrolled(r);
    if n + 4 + length > NPOS {
      if end != 0 {
        BodyAtCut(r, c, u, n, length, end);
      }
    } else if end <= |r.buffer| {
      BodiesGrow(Taken(HeaderRead(r, n), n + 4, length, end));
    }
  }

  /** The response at the front is taken from the bytes before the cut already, with an empty body. */
  lemma BodyAtCut(r: Received, c: string, u: string, n: nat, length: nat, end: nat)
    requires 7 <= n && |c| == n + 4 && r.buffer == c + u && u != "" && length > 0 && end <= n + 4
    requires Deframed(r) == Deframed(Taken(HeaderRead(r, n), n + 4, length, end))
    requires Deframed(r.(buffer := c)) == Deframed(Taken(HeaderRead(r.(buffer := c), n), n + 4, length, end))
    ensures AfterData(Deframed(r.(buffer := c)), u) != Deframed(r)
  {
    hide Deframed, HeaderRead, Find;
    var r0 := r.(buffer := c);
    HeaderBodies(r, n);
    HeaderBodies(r0, n);
    var e0, e := Taken(HeaderRead(r0, n), n + 4, length, end), Taken(HeaderRead(r, n), n + 4, length, end);
    var d0, i := Deframed(r0), |r.bodies|;
    BodiesGrow(e0);
    BodiesGrow(e);
    BodiesGrow(d0.(buffer := d0.buffer + u));
    assert e0.bodies[i] == "" && e.bodies[i] != "" by { FirstBodies(c, r.buffer, n + 4, length); }
    assert d0.bodies[i] == "" && Deframed(r).bodies[i] == e.bodies[i];
  }

  /** The header has another status and no length: the bytes behind the cut are not handed over any more. */
  lemma CutOff(r: Received, n: nat)
    requires Find(r.buffer, HEADER_END, 0) == Some(n) && n + 2 >= 9 && !Stopped(r) && |r.buffer| > n + 4
    requires !IsOk(r.buffer[..n + 2]) && ContentLength(r.buffer[..n + 2]) == 0
    ensures AfterData(Deframed(r.(buffer := r.buffer[..n + 4])), r.buffer[n + 4..]) != Deframed(r)
  {
    hide HttpField, ContentLength, Find, IsOk, SizeAdd, Deframed, HeaderRead;
    var p, u := r.buffer[..n + 4], r.buffer[n + 4..];
    PrefixFound(r.buffer, n, n + 4);
    assert p + u == r.buffer;
    HeaderAgain(r.(buffer := p), n, u);
    HeaderBodies(r, n);
    Unrolled(r.(buffer := p));
    Unrolled(r);
  }

  lemma FirstBodies(p: string, s: string, start: nat, length: nat)
    requires |p| == start < |s| && length > 0
    ensures Substr(p, start, length) == "" && Substr(s, start, length) != ""
  {
    assert |Substr(p, start, length)| == 0;
    assert |Substr(s, start, length)| > 0;
  }

  lemma HeaderBodies(r: Received, n: nat)
    requires 7 <= n && n + 4 <= |r.buffer|
    ensures HeaderRead(r, n).bodies == r.bodies && HeaderRead(r, n).buffer == r.buffer
    ensures HeaderRead(r, n).hung == r.hung
  {
    hide ContentLength, Closes, IsOk;
  }

  lemma NoHeader(s: string)
    ensures Find(s, HEADER_END, 0).None? ==> ShowingCut(s).None?
  {
  }

  lemma ShortCut(s: string, n: nat)
    requires Find(s, HEADER_END, 0) == Some(n) && n + 2 < 9 && ShowingCut(s).Some?
    ensures ShowingCut(s) == Some(n + 4)
  {
  }

  /** The cut is behind the response at the front. */
  lemma TakenBefore(r: Received, n: nat, c: nat)
    requires Find(r.buffer, HEADER_END, 0) == Some(n) && n + 2 >= 9 && !Stopped(r) && IsOk(r.buffer[..n + 2])
    requires ContentLength(r.buffer[..n + 2]) != 0
    requires n + 4 + ContentLength(r.buffer[..n + 2]) <= c <= |r.buffer|
    requires n + 4 + ContentLength(r.buffer[..n + 2]) <= NPOS
    ensures
      var end := n + 4 + ContentLength(r.buffer[..n + 2]);
      var e := Taken(HeaderRead(r, n), n + 4, end - n - 4, end);
      && Deframed(r) == Deframed(e) && e.buffer == r.buffer[end..] && !Stopped(e)
      && Deframed(r.(buffer := r.buffer[..c])) == Deframed(e.(buffer := e.buffer[..c - end]))
      && r.buffer[c..] == e.buffer[c - end..]
  {
    hide HttpField, ContentLength, Find, IsOk, SizeAdd, Deframed, HeaderRead, Taken;
    var p, u := r.buffer[..c], r.buffer[c..];
    var r0, length := r.(buffer := p), ContentLength(r.buffer[..n + 2]);
    var end := n + 4 + length;
    SizeAddValue(n + 4, length);
    PrefixFound(r.buffer, n, c);
    assert p + u == r.buffer;
    HeaderAgain(r0, n, u);
    Unrolled(r0);
    Unrolled(r);
    TakenLater(HeaderRead(r0, n), u, n + 4, length, end);
    TakenRest(HeaderRead(r, n), n + 4, length, end);
    TakenRest(HeaderRead(r0, n), n + 4, length, end);
    assert p[end..] == r.buffer[end..][..c - end];
    assert r.buffer[c..] == r.buffer[end..][c - end..];
  }

  lemma ThrownTwice(r: Received, n: nat)
    requires Find(r.buffer, HEADER_END, 0) == Some(n) && n + 2 < 9 && !Stopped(r)
    ensures AfterData(Deframed(r.(buffer := r.buffer[..n + 4])), r.buffer[n + 4..]) != Deframed(r)
  {
    hide HttpField, ContentLength, Find, IsOk, SizeAdd, Deframed, HeaderRead;
    var p, u := r.buffer[..n + 4], r.buffer[n + 4..];
    PrefixFound(r.buffer, n, n + 4);
    assert p + u == r.buffer;
    Unrolled(r.(buffer := p));
    Unrolled(r);
    Unrolled(r.(buffer := r.buffer, throws := r.throws + 1));
  }

  /** Where a cut shows, cutting there does something else than not cutting. */
  lemma {:induction false} CutShows(r: Received, c: nat)
    requires !Stopped(r) && ShowingCut(r.buffer) == Some(c)
    ensures c < |r.buffer| && AfterData(Deframed(r.(buffer := r.buffer[..c])), r.buffer[c..]) != Deframed(r)
    decreases |r.buffer|
  {
    hide HttpField, ContentLength, Find, IsOk, SizeAdd, Deframed, HeaderRead, Taken, ShowingCut, AfterData, Stopped;
    NoHeader(r.buffer);
    var n := Find(r.buffer, HEADER_END, 0).value;
    if n + 2 < 9 {
      ShortCut(r.buffer, n);
      ThrownTwice(r, n);
    } else {
      CutUnrolled(r.buffer, n);
      var length := ContentLength(r.buffer[..n + 2]);
      if c == n + 4 {
        if length == 0 {
          CutOff(r, n);
        } else {
          CutBehindHeader(r, n, r.buffer[..c]);
        }
      } else {
        var end := n + 4 + length;
        TakenBefore(r, n, c);
        HeaderBodies(r, n);
        CutShows(Taken(HeaderRead(r, n), n + 4, length, end), c - end);
      }
    }
  }

  /**
   * On a connection with nothing in its buffer, for every byte stream: all ways of cutting it into chunks
   * have the same effect if and only if the stream has no place where a cut shows.
   */
  lemma ChunksDoNotMatter(r: Received, s: string)
    requires r.buffer == "" && !Stopped(r)
    ensures (forall chunks | Chunks(chunks, s) :: Fed(r, chunks) == Deframed(r.(buffer := s)))
            <==> ShowingCut(s).None?
  {
    hide Deframed, ShowingCut, AfterData;
    if ShowingCut(s).None? {
      forall chunks | Chunks(chunks, s)
        ensures Fed(r, chunks) == Deframed(r.(buffer := s))
      {
        assert "" + s == s;
        if chunks == [] {
          Idle(r);
        } else {
          TameFed(r, chunks);
        }
      }
    } else {
      OneCutShows(r, s, ShowingCut(s).value);
      CutInside(s);
      assert Chunks([s[..ShowingCut(s).value], s[ShowingCut(s).value..]], s);
    }
  }

  lemma CutInside(s: string)
    requires ShowingCut(s).Some?
    ensures 0 < ShowingCut(s).value < |s|
  {
    hide ContentLength, Find, IsOk;
    SizeAddValue(Find(s, HEADER_END, 0).value + 4, ContentLength(s[..Find(s, HEADER_END, 0).value + 2]));
  }

  lemma OneCutShows(r: Received, s: string, c: nat)
    requires r.buffer == "" && !Stopped(r) && ShowingCut(s) == Some(c) && c <= |s|
    ensures Joined([s[..c], s[c..]]) == s && Fed(r, [s[..c], s[c..]]) != Deframed(r.(buffer := s))
  {
    hide Deframed, ShowingCut;
    var p, u := s[..c], s[c..];
    var chunks := [p, u];
    CutShows(r.(buffer := s), c);
    assert chunks[1..] == [u] && [u][1..] == [];
    assert p + u == s && u + Joined([]) == u;
    assert Joined(chunks) == p + (u + Joined([]));
    assert "" + p == p;
    assert Fed(r, chunks) == Fed(AfterData(r, p), [u]) == AfterData(AfterData(r, p), u);
  }

  lemma Idle(r: Received)
    requires r.buffer == ""
    ensures Deframed(r) == r
  {
  }

  // Well-formed responses

  datatype Response = Response(head: string, body: string)

  function Frame(p: Response): string {
    p.head + HEADER_END + p.body
  }

  function Frames(ps: seq<Response>): string {
    if ps == [] then "" else Frame(ps[0]) + Frames(ps[1..])
  }

  function Bodies(ps: seq<Response>): seq<string> {
    if ps == [] then [] else [ps[0].body] + Bodies(ps[1..])
  }

  /**
   * A response with status 200 that announces the length of its body; the body may hold any bytes. What a
   * string can hold is less than npos.
   */
  predicate WellFormed(p: Response) {
    GoodHead(p.head, |p.body|) && p.body != "" && |p.head| + 4 + |p.body| <= NPOS
  }

  /** The header ends where it should, its status is 200, and it announces `n` bytes. */
  predicate GoodHead(head: string, n: nat) {
    && Find(head + HEADER_END, HEADER_END, 0) == Some(|head|)
    && |head| >= 12 && head[9..12] == "200"
    && ContentLength(head + CRLF) == n
  }

  /** What the buffer starts with when a well-formed response is at its front. */
  lemma FrontOf(buffer: string, p: Response, rest: string)
    requires WellFormed(p) && buffer == Frame(p) + rest
    ensures 7 <= |p.head| && Find(buffer, HEADER_END, 0) == Some(|p.head|)
    ensures
      var n := |p.head|;
      && n + 4 + |p.body| <= |buffer|
      && ContentLength(buffer[..n + 2]) == |p.body| && IsOk(buffer[..n + 2])
      && SizeAdd(n + 4, |p.body|) == n + 4 + |p.body|
      && Substr(buffer, n + 4, |p.body|) == p.body && buffer[n + 4 + |p.body|..] == rest
  {
    hide ContentLength, Find, SizeAdd;
    var n, before, more := |p.head|, p.head + HEADER_END, p.body + rest;
    assert buffer == before + more;
    FrameFound(buffer, p.head, HEADER_END, more, n);
    FrameHead(buffer, p.head, HEADER_END, more, n);
    FrameBody(buffer, before, p.body, rest, n);
    assert HEADER_END[..2] == CRLF;
    assert Substr(buffer[..n + 2], 9, 3) == p.head[9..12];
    SizeAddValue(n + 4, |p.body|);
    BodyCut(buffer, n + 4, p.body);
  }

  lemma BodyCut<T>(s: seq<T>, start: nat, body: seq<T>)
    requires start + |body| <= |s| && s[start..start + |body|] == body
    ensures Substr(s, start, |body|) == body
  {
    assert start + |body| == |s| ==> s[start..] == s[start..start + |body|];
  }

  lemma FrameFound<T>(buffer: seq<T>, head: seq<T>, end: seq<T>, more: seq<T>, n: nat)
    requires buffer == (head + end) + more && Find(head + end, end, 0) == Some(n)
    ensures Find(buffer, end, 0) == Some(n)
  {
    FindGrows(head + end, more, end, 0);
  }

  lemma FrameHead<T>(buffer: seq<T>, head: seq<T>, end: seq<T>, more: seq<T>, n: nat)
    requires buffer == (head + end) + more && |end| == 4 && |head| == n
    ensures buffer[..n + 2] == head + end[..2]
  {
  }

  lemma FrameBody<T>(buffer: seq<T>, before: seq<T>, body: seq<T>, rest: seq<T>, n: nat)
    requires buffer == before + (body + rest) && |before| == n + 4
    ensures |buffer| == n + 4 + |body| + |rest|
    ensures buffer[n + 4..n + 4 + |body|] == body && buffer[n + 4 + |body|..] == rest
  {
    Middle(buffer, before, body, rest);
  }

  function AfterOne(r: Received, p: Response, rest: string): Received
    requires 7 <= |p.head| && |p.head| + 4 <= |r.buffer|
  {
    var d := HeaderRead(r, |p.head|);
    d.(buffer := rest, bodies := r.bodies + [p.body], puts := r.puts + [d.mode])
  }

  lemma DeframeOne(r: Received, p: Response, rest: string)
    requires WellFormed(p) && r.buffer == Frame(p) + rest
    ensures 7 <= |p.head| && |p.head| + 4 <= |r.buffer|
    ensures
      var e := AfterOne(r, p, rest);
      && Deframed(r) == Deframed(e) && e.disconnects == r.disconnects && e.throws == r.throws && e.hung == r.hung
    ensures ShowingCut(r.buffer).None? <==> ShowingCut(rest).None?
  {
    hide HttpField, ContentLength, Closes, Find, Deframed, ShowingCut, IsOk, SizeAdd, Substr, WellFormed, Frame;
    FrontOf(r.buffer, p, rest);
    assert p.body != "" && |p.head| + 4 + |p.body| <= NPOS by { Sizes(p); }
    CutUnrolled(r.buffer, |p.head|);
    Unrolled(r);
    HeaderBodies(r, |p.head|);
  }

  lemma Sizes(p: Response)
    requires WellFormed(p)
    ensures p.body != "" && |p.head| + 4 + |p.body| <= NPOS
  {
    hide GoodHead;
  }

  lemma {:induction false} DeframeAll(r: Received, ps: seq<Response>)
    requires r.buffer == Frames(ps) && AllWellFormed(ps)
    ensures Emptied(r, Deframed(r), ps) && ShowingCut(r.buffer).None?
    decreases |ps|
  {
    if ps == [] {
      assert r.bodies + [] == r.bodies;
    } else {
      hide WellFormed, HeaderRead, Frame, Deframed, Emptied, ShowingCut;
      var rest := ps[1..];
      DeframeOne(r, ps[0], Frames(rest));
      var e := AfterOne(r, ps[0], Frames(rest));
      DeframeAll(e, rest);
      EmptiedStep(r, e, Deframed(r), ps);
    }
  }

  lemma EmptiedStep(r: Received, e: Received, d: Received, ps: seq<Response>)
    requires ps != [] && Emptied(e, d, ps[1..])
    requires e.bodies == r.bodies + [ps[0].body] && |e.puts| == |r.puts| + 1
    requires e.disconnects == r.disconnects && e.throws == r.throws && e.hung == r.hung
    ensures Emptied(r, d, ps)
  {
    hide Bodies;
    assert Bodies(ps) == [ps[0].body] + Bodies(ps[1..]) by { FirstBody(ps); }
    Assoc(r.bodies + ([ps[0].body] + Bodies(ps[1..])), r.bodies, [ps[0].body], Bodies(ps[1..]));
  }

  lemma FirstBody(ps: seq<Response>)
    requires ps != []
    ensures Bodies(ps) == [ps[0].body] + Bodies(ps[1..])
  {
  }

  predicate AllWellFormed(ps: seq<Response>) {
    forall i | 0 <= i < |ps| :: WellFormed(ps[i])
  }

  /** From `r` to `d` the bodies of all the responses were fed, one request each is answered, no byte is left. */
  predicate Emptied(r: Received, d: Received, ps: seq<Response>) {
    && d.bodies == r.bodies + Bodies(ps) && d.buffer == "" && |d.puts| == |r.puts| + |ps|
    && d.disconnects == r.disconnects && d.throws == r.throws && d.hung == r.hung
  }

  /**
   * However the responses are cut into chunks, the bodies fed to the parser are the ones that were sent,
   * in order; each answers one request, and nothing is left in the buffer.
   */
  lemma Deframing(ps: seq<Response>, chunks: seq<string>)
    requires AllWellFormed(ps) && Chunks(chunks, Frames(ps))
    ensures
      var d := Fed(FRESH, chunks);
      && d.bodies == Bodies(ps) && d.buffer == "" && |d.puts| == |ps|
      && d.disconnects == d.throws == 0 && !d.hung
  {
    hide Deframed, ShowingCut, Frames, AllWellFormed;
    DeframeAll(FRESH.(buffer := Frames(ps)), ps);
    ChunksDoNotMatter(FRESH, Frames(ps));
    assert [] + Bodies(ps) == Bodies(ps);
  }

  /**
   * Any header with status 200, no empty line in it, and the length of the body under Content-Length,
   * written in whatever case, as the first line of that name, makes a well-formed response.
   */
  lemma AnnouncedIsWellFormed(p: Response, pre: string, name: string, rest: string)
    requires p.body != "" && CiEqual(name, "Content-Length")
    requires p.head + CRLF == pre + ((CRLF + name + ": ") + (Numeral(|p.body|) + CRLF + rest))
    requires forall j | 0 <= j < |pre| :: !CiAt(p.head + CRLF, j, CRLF + "Content-Length" + ": ")
    requires Find(p.head + HEADER_END, HEADER_END, 0) == Some(|p.head|)
    requires |p.head| >= 12 && p.head[9..12] == "200" && |p.head| + 4 + |p.body| <= LONG_MAX
    ensures WellFormed(p)
  {
    hide Find, CiAt, CiEqual, HttpField, ReadDigits, Numeral, Atol, SizeOf;
    var value := Numeral(|p.body|);
    NumeralDigits(|p.body|);
    DigitsAreNoReturn(value);
    NoBreakIn(value);
    FieldFound(p.head + CRLF, pre, name, value, rest, "Content-Length");
    AtolNumeral(|p.body|, "");
    SizeOfValue(|p.body|);
    assert value + "" == value;
  }

  // The smallest headers

  const STATUS := "HTTP/1.1 200 OK"
  const LENGTH_KEY := CRLF + "Content-Length" + ": "

  predicate NoReturn(s: string) {
    forall i | 0 <= i < |s| :: s[i] != '\r'
  }

  lemma DigitsAreNoReturn(value: string)
    requires AllDigits(value)
    ensures NoReturn(value)
  {
  }

  /** A status line and a length, whatever they say. */
  function SmallHead(status: string, value: string): string {
    status + (LENGTH_KEY + value)
  }

  lemma SmallHeadRead(status: string, value: string)
    requires NoReturn(status) && NoReturn(value)
    ensures
      var head := SmallHead(status, value);
      && Find(head + HEADER_END, HEADER_END, 0) == Some(|head|)
      && ContentLength(head + CRLF) == SizeOf(Atol(value))
  {
    hide Find, ContentLength, SmallHead;
    var head := SmallHead(status, value);
    assert head == status + (LENGTH_KEY + value) by { Spelled(status, value); }
    HeadFound(head, status, value);
    LengthRead(head + CRLF, status, value);
  }

  lemma Spelled(status: string, value: string)
    ensures SmallHead(status, value) == status + (LENGTH_KEY + value)
  {
  }

  /** The shortest header a server can send is well-formed, whatever the body: the announced length is read back. */
  lemma ShortestIsWellFormed(body: string)
    requires body != "" && |SmallHead(STATUS, Numeral(|body|))| + 4 + |body| <= LONG_MAX
    ensures WellFormed(Response(SmallHead(STATUS, Numeral(|body|)), body))
  {
    hide Find, ContentLength, Numeral, SmallHead, Atol, SizeOf;
    var value := Numeral(|body|);
    NumeralDigits(|body|);
    DigitsAreNoReturn(value);
    StatusNoReturn();
    SmallHeadRead(STATUS, value);
    StatusRead(value);
    AtolNumeral(|body|, "");
    SizeOfValue(|body|);
    assert value + "" == value;
  }

  lemma StatusNoReturn()
    ensures NoReturn(STATUS) && |STATUS| == 15
  {
  }

  lemma StatusRead(value: string)
    ensures |SmallHead(STATUS, value)| >= 15 + |value| && SmallHead(STATUS, value)[9..12] == "200"
  {
    assert STATUS[9..12] == "200";
    assert SmallHead(STATUS, value)[9..12] == STATUS[9..12];
  }

  lemma LengthRead(header: string, status: string, value: string)
    requires NoReturn(status) && NoReturn(value) && header == status + (LENGTH_KEY + value) + CRLF
    ensures ContentLength(header) == SizeOf(Atol(value))
  {
    hide Find, CiAt, HttpField, CiEqual, Atol, SizeOf;
    NoBreakIn(value);
    HeaderShape(header, status, CRLF + "Content-Length" + ": ", value, CRLF);
    NoKeyIn(header, status);
    Itself("Content-Length");
    FieldFound(header, status, "Content-Length", value, "", "Content-Length");
  }

  lemma Itself(name: string)
    ensures CiEqual(name, name)
  {
  }

  lemma HeaderShape<T>(header: seq<T>, a: seq<T>, b: seq<T>, c: seq<T>, d: seq<T>)
    requires header == a + (b + c) + d
    ensures header == a + (b + (c + d + []))
  {
  }

  lemma NoKeyIn(s: string, status: string)
    requires |status| <= |s| && s[..|status|] == status && NoReturn(status)
    ensures forall j | 0 <= j < |status| :: !CiAt(s, j, CRLF + "Content-Length" + ": ")
  {
    var key := CRLF + "Content-Length" + ": ";
    forall j | 0 <= j < |status|
      ensures !CiAt(s, j, key)
    {
      assert s[j] == s[..|status|][j] != '\r';
      assert ToUpper(key[0]) == '\r';
      if j + |key| <= |s| {
        assert ToUpper(s[j..j + |key|][0]) != ToUpper(key[0]);
      }
    }
  }

  lemma NoBreakIn(value: string)
    requires NoReturn(value)
    ensures Find(value + CRLF, CRLF, 0) == Some(|value|)
  {
    hide Find, At;
    var s, n := value + CRLF, |value|;
    forall j | 0 <= j < n
      ensures !At(s, j, CRLF)
    {
      assert s[j] == value[j] && CRLF[0] == '\r';
      if At(s, j, CRLF) {
        AtElement(s, j, CRLF, 0);
        assert false;
      }
    }
    EndsThere(s, value, CRLF);
    FindIs(s, CRLF, 0, n);
  }

  lemma HeadFound(head: string, status: string, value: string)
    requires head == status + (LENGTH_KEY + value) && NoReturn(status) && NoReturn(value)
    ensures Find(head + HEADER_END, HEADER_END, 0) == Some(|head|)
  {
    hide Find, At;
    var s, n := head + HEADER_END, |head|;
    forall j | 0 <= j < n
      ensures !At(s, j, HEADER_END)
    {
      OnlyBreak(head, status, value, j);
      TwoReturns(s, j);
    }
    EndsThere(s, head, HEADER_END);
    FindIs(s, HEADER_END, 0, n);
  }

  lemma EndsThere<T>(s: seq<T>, head: seq<T>, end: seq<T>)
    requires s == head + end
    ensures At(s, |head|, end)
  {
  }

  lemma TwoReturns(s: string, j: nat)
    ensures At(s, j, HEADER_END) ==> j + 4 <= |s| && s[j] == s[j + 2] == '\r'
  {
    if At(s, j, HEADER_END) {
      AtElement(s, j, HEADER_END, 0);
      AtElement(s, j, HEADER_END, 2);
    }
  }

  lemma KeyReturns()
    ensures |LENGTH_KEY| == 18 && LENGTH_KEY[2] == 'C' && forall i | 0 < i < 18 :: LENGTH_KEY[i] != '\r'
  {
  }

  lemma OnlyBreak(head: string, status: string, value: string, j: nat)
    requires head == status + (LENGTH_KEY + value) && j < |head| && NoReturn(status) && NoReturn(value)
    ensures head[j] == '\r' ==> j + 2 < |head| && head[j + 2] == 'C'
  {
    KeyReturns();
    var k := |status|;
    if j < k {
      assert head[j] == status[j];
    } else if j < k + 18 {
      assert head[j] == LENGTH_KEY[j - k] && head[k + 2] == LENGTH_KEY[2];
    } else {
      assert head[j] == value[j - k - 18];
    }
  }

  // Responses that make cuts show

  lemma SmallHeadInFront(status: string, value: string, rest: string)
    requires NoReturn(status) && NoReturn(value) && |status| >= 12
    ensures
      var head := SmallHead(status, value);
      var s, n := head + HEADER_END + rest, |head|;
      && n == |status| + 18 + |value| && |s| == n + 4 + |rest| && Find(s, HEADER_END, 0) == Some(n)
      && ContentLength(s[..n + 2]) == SizeOf(Atol(value))
      && (IsOk(s[..n + 2]) <==> status[9..12] == "200")
  {
    hide Find, ContentLength, Atol, SizeOf;
    var head := SmallHead(status, value);
    var s, n := head + HEADER_END + rest, |head|;
    SmallHeadRead(status, value);
    KeyReturns();
    FrameFound(s, head, HEADER_END, rest, n);
    FrameHead(s, head, HEADER_END, rest, n);
    assert HEADER_END[..2] == CRLF;
    assert s[..n + 2][9..12] == status[9..12];
  }

  lemma Minus(n: nat)
    requires 0 < n <= LONG_MAX
    ensures NoReturn("-" + Numeral(n)) && SizeOf(Atol("-" + Numeral(n))) == NPOS + 1 - n
  {
    hide Numeral, Atol;
    NumeralDigits(n);
    NumeralRead(n, "");
    assert Numeral(n) + "" == Numeral(n);
    MinusRead(Numeral(n), n);
    SizeOfValue(0 - n);
  }

  /** A negative length: the whole rest of the bytes at hand is fed as the body, so a cut shows behind the header. */
  lemma NegativeLength(n: nat, body: string)
    requires 0 < n <= |SmallHead(STATUS, "-" + Numeral(n))| + 4 && n <= LONG_MAX && body != ""
    ensures
      var head := SmallHead(STATUS, "-" + Numeral(n));
      ShowingCut(head + HEADER_END + body) == Some(|head| + 4)
  {
    hide Find, ContentLength, Numeral, SmallHead, Atol, SizeOf, ShowingCut, IsOk, SizeAdd;
    StatusNoReturn();
    Minus(n);
    SmallHeadInFront(STATUS, "-" + Numeral(n), body);
    var head := SmallHead(STATUS, "-" + Numeral(n));
    CutUnrolled(head + HEADER_END + body, |head|);
  }

  /**
   * Another status, with whatever length: reading the header disconnects the transports, so that bytes behind a
   * cut are not handed over any more, while those in the same chunk are.
   */
  lemma OtherStatus(status: string, value: string, body: string)
    requires NoReturn(status) && NoReturn(value) && |status| >= 12 && status[9..12] != "200" && body != ""
    ensures
      var head := SmallHead(status, value);
      ShowingCut(head + HEADER_END + body) == Some(|head| + 4)
  {
    hide Find, ContentLength, SmallHead, Atol, SizeOf, ShowingCut, IsOk, SizeAdd;
    SmallHeadInFront(status, value, body);
    var head := SmallHead(status, value);
    CutUnrolled(head + HEADER_END + body, |head|);
  }

  /** The length that makes the loop go on forever: that of the header itself, with a minus. */
  lemma Endless(rest: string)
    ensures Deframed(FRESH.(buffer := SmallHead(STATUS, "-" + Numeral(40)) + HEADER_END + rest)).hung
  {
    hide Find, ContentLength, Numeral, SmallHead, Atol, SizeOf, Deframed, IsOk, SizeAdd, HeaderRead;
    var value := "-" + Numeral(40);
    StatusNoReturn();
    Forty();
    Minus(40);
    SmallHeadInFront(STATUS, value, rest);
    var head := SmallHead(STATUS, value);
    var r := FRESH.(buffer := head + HEADER_END + rest);
    SizeAddValue(|head| + 4, ContentLength(r.buffer[..|head| + 2]));
    Unrolled(r);
  }

  lemma Forty()
    ensures |Numeral(40)| == 2
  {
    assert NumeralIn(4, 10) == [DigitChar(4)];
    assert NumeralIn(40, 10) == NumeralIn(4, 10) + [DigitChar(0)];
  }
}
