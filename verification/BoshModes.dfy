/** BOSH (XEP-0124): when a response makes the connection fall back to HTTP/1.0, and which responses do not. */
module BoshModes {
  import opened BoshReceive
  import opened CxxString
  import opened Decimal

  const CONNECTION_KEY := "\r\nConnection: "
  const CLOSE_END := "close\r\n"

  /** The key stands there, in whatever case, and not before. */
  ghost predicate FirstLine(header: string, key: string, p: nat) {
    CiAt(header, p, key) && forall j | 0 <= j < p :: !CiAt(header, j, key)
  }

  /** The header's first Connection line holds `close` and nothing else. */
  ghost predicate SaysClose(header: string) {
    exists p: nat :: FirstLine(header, CONNECTION_KEY, p) && At(header, p + 14, CLOSE_END)
  }

  lemma {:induction false} CiFindFirst(s: string, pat: string, from: nat)
    ensures
      match CiFind(s, pat, from)
      case Some(k) => CiAt(s, k, pat) && forall j | from <= j < k :: !CiAt(s, j, pat)
      case None => forall j | from <= j :: !CiAt(s, j, pat)
    decreases |s| - from
  {
    hide CiEqual;
    if from + |pat| > |s| || CiAt(s, from, pat) {
    } else {
      CiFindFirst(s, pat, from + 1);
    }
  }

  /** What stands before the next line break is `close` just if `close` and a line break stand there. */
  lemma CloseThere(header: string, fp: nat)
    requires fp <= |header|
    ensures
      At(header, fp, CLOSE_END) <==>
      match Find(header, CRLF, fp) case None => false case Some(k) => header[fp..k] == "close"
  {
    hide Find;
    FindFirst(header, CRLF, fp);
    if At(header, fp, CLOSE_END) {
      BreakAfterClose(header, fp);
    } else if Find(header, CRLF, fp).Some? {
      CloseBeforeBreak(header, fp, Find(header, CRLF, fp).value);
    }
  }

  lemma CloseBeforeBreak(header: string, fp: nat, k: nat)
    requires fp <= k && At(header, k, CRLF)
    ensures header[fp..k] == "close" ==> At(header, fp, CLOSE_END)
  {
    assert header[fp..k + 2] == header[fp..k] + header[k..k + 2];
  }

  lemma BreakAfterClose(header: string, fp: nat)
    requires At(header, fp, CLOSE_END)
    ensures Find(header, CRLF, fp) == Some(fp + 5) && header[fp..fp + 5] == "close"
  {
    hide Find;
    var s := header[fp..fp + 7];
    assert s == "close\r\n";
    assert header[fp + 5..fp + 7] == s[5..7] == CRLF && header[fp..fp + 5] == s[..5] == "close";
    forall j | fp <= j < fp + 5
      ensures !At(header, j, CRLF)
    {
      assert header[j] == s[j - fp] != '\r';
      if At(header, j, CRLF) {
        AtElement(header, j, CRLF, 0);
        assert false;
      }
    }
    FindIs(header, CRLF, fp, fp + 5);
  }

  lemma CloseRead(header: string)
    ensures HttpField(header, "Connection") == "close" <==> SaysClose(header)
  {
    hide Find, CiFind, CiAt, At;
    assert CRLF + "Connection" + ": " == CONNECTION_KEY && |CONNECTION_KEY| == 14;
    CiFindFirst(header, CONNECTION_KEY, 0);
    match CiFind(header, CONNECTION_KEY, 0)
    case None =>
    case Some(p) =>
      CloseThere(header, p + 14);
      assert FirstLine(header, CONNECTION_KEY, p);
      OnlyFirst(header, CONNECTION_KEY, p);
  }

  lemma OnlyFirst(header: string, key: string, p: nat)
    requires FirstLine(header, key, p)
    ensures forall q: nat | FirstLine(header, key, q) :: q == p
  {
  }

  /** HTTP/1.0, or the line that says so. */
  ghost predicate GivesUp(header: string) {
    "HTTP/1.0" <= header || SaysClose(header)
  }

  /**
   * Reading a complete header changes the mode if and only if it announces a length, the mode is not that of
   * HTTP/1.0 yet, and the header starts with HTTP/1.0 or its first Connection line is to close.
   */
  lemma FallsBack(r: Received, n: nat)
    requires 7 <= n && n + 4 <= |r.buffer|
    ensures
      var header, mode := r.buffer[..n + 2], HeaderRead(r, n).mode;
      && (mode != r.mode <==> ContentLength(header) != 0 && r.mode != LegacyHTTP && GivesUp(header))
      && (mode != r.mode ==> mode == LegacyHTTP)
  {
    hide HttpField, ContentLength, SaysClose;
    var header := r.buffer[..n + 2];
    CloseRead(header);
    assert Substr(header, 0, 8) == header[..8];
    assert "HTTP/1.0" <= header <==> header[..8] == "HTTP/1.0";
  }

  // All responses

  ghost predicate Final(p: Response) {
    GivesUp(p.head + CRLF)
  }

  /** One of the responses up to number `i` gives the connection up. */
  ghost predicate FinalBy(ps: seq<Response>, i: nat) {
    exists j | 0 <= j <= i && j < |ps| :: Final(ps[j])
  }

  ghost function ModeBy(mode: Mode, ps: seq<Response>, i: nat): Mode {
    if FinalBy(ps, i) then LegacyHTTP else mode
  }

  lemma HeadMode(r: Received, p: Response, rest: string)
    requires WellFormed(p) && r.buffer == Frame(p) + rest
    ensures 7 <= |p.head| && |p.head| + 4 <= |r.buffer|
    ensures AfterOne(r, p, rest).mode == if Final(p) then LegacyHTTP else r.mode
  {
    hide HttpField, ContentLength, Find, SaysClose, IsOk, SizeAdd, Substr;
    FrontOf(r.buffer, p, rest);
    FallsBack(r, |p.head|);
    Sizes(p);
    FrameHeader(r.buffer, p, rest);
  }

  lemma FrameHeader(buffer: string, p: Response, rest: string)
    requires buffer == Frame(p) + rest
    ensures |buffer| >= |p.head| + 4 && buffer[..|p.head| + 2] == p.head + CRLF
  {
    FrameHead(buffer, p.head, HEADER_END, p.body + rest, |p.head|);
    assert HEADER_END[..2] == CRLF;
  }

  lemma FinalShift(ps: seq<Response>, i: nat)
    requires ps != []
    ensures FinalBy(ps, i + 1) <==> Final(ps[0]) || FinalBy(ps[1..], i)
    ensures FinalBy(ps, 0) <==> Final(ps[0])
  {
    hide Final;
    if FinalBy(ps[1..], i) {
      var j :| 0 <= j <= i && j < |ps[1..]| && Final(ps[1..][j]);
      assert Final(ps[j + 1]);
    }
    if FinalBy(ps, i + 1) && !Final(ps[0]) {
      var j :| 0 <= j <= i + 1 && j < |ps| && Final(ps[j]);
      assert Final(ps[1..][j - 1]);
    }
  }

  lemma {:induction false} ModesOf(r: Received, ps: seq<Response>)
    requires r.buffer == Frames(ps) && AllWellFormed(ps)
    ensures
      var d := Deframed(r);
      && r.puts <= d.puts && |d.puts| == |r.puts| + |ps| && d.mode == ModeBy(r.mode, ps, |ps|)
      && forall i | 0 <= i < |ps| :: d.puts[|r.puts| + i] == ModeBy(r.mode, ps, i)
    decreases |ps|
  {
    hide WellFormed, HeaderRead, Frame, Deframed, Final, FinalBy;
    if ps == [] {
      Nothing(r);
    } else {
      var rest := ps[1..];
      DeframeOne(r, ps[0], Frames(rest));
      HeadMode(r, ps[0], Frames(rest));
      var e := AfterOne(r, ps[0], Frames(rest));
      ModesOf(e, rest);
      AllModes(r, e, Deframed(r), ps);
    }
  }

  lemma AllModes(r: Received, e: Received, d: Received, ps: seq<Response>)
    requires ps != [] && e.puts == r.puts + [e.mode] && e.mode == if Final(ps[0]) then LegacyHTTP else r.mode
    requires e.puts <= d.puts && d.mode == ModeBy(e.mode, ps[1..], |ps[1..]|) && |d.puts| == |r.puts| + |ps|
    requires forall i | 0 <= i < |ps[1..]| :: d.puts[|e.puts| + i] == ModeBy(e.mode, ps[1..], i)
    ensures d.mode == ModeBy(r.mode, ps, |ps|)
    ensures forall i | 0 <= i < |ps| :: d.puts[|r.puts| + i] == ModeBy(r.mode, ps, i)
  {
    hide Final, FinalBy;
    FinalShift(ps, |ps[1..]|);
    forall i | 0 <= i < |ps|
      ensures d.puts[|r.puts| + i] == ModeBy(r.mode, ps, i)
    {
      if i == 0 {
        FinalShift(ps, 0);
        assert d.puts[|r.puts|] == e.puts[|r.puts|];
      } else {
        FinalShift(ps, i - 1);
        assert d.puts[|e.puts| + (i - 1)] == ModeBy(e.mode, ps[1..], i - 1);
      }
    }
  }

  lemma Nothing(r: Received)
    requires r.buffer == ""
    ensures Deframed(r) == r && !FinalBy([], 0)
  {
  }

  /**
   * However well-formed responses are cut into chunks: each one's connection is put back under the mode of the
   * start if and only if neither it nor one before it gives the connection up, else under HTTP/1.0, and so the
   * mode ends. HTTP/1.1 responses without such a line change nothing.
   */
  lemma ModesOfResponses(ps: seq<Response>, chunks: seq<string>, mode: Mode)
    requires AllWellFormed(ps) && Chunks(chunks, Frames(ps))
    ensures
      var d := Fed(FRESH.(mode := mode), chunks);
      && |d.puts| == |ps| && d.mode == ModeBy(mode, ps, |ps|)
      && (forall i | 0 <= i < |ps| :: d.puts[i] == ModeBy(mode, ps, i))
      && ((forall i | 0 <= i < |ps| :: !Final(ps[i])) ==> d.mode == mode && d.puts == seq(|ps|, i => mode))
  {
    hide Deframed, ShowingCut, Frames, AllWellFormed, Final;
    var r := FRESH.(mode := mode);
    DeframeAll(r.(buffer := Frames(ps)), ps);
    ModesOf(r.(buffer := Frames(ps)), ps);
    ChunksDoNotMatter(r, Frames(ps));
  }
}
