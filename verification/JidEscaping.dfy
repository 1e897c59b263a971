/** JID escaping (XEP-0106): ten in-place replacement passes, and the substitution they amount to. */
module JidEscaping {
  import opened CxxString

  /** Leftmost, non-overlapping replacement that never looks at the replacement again. */
  function Replaced<T(==)>(s: seq<T>, find: seq<T>, rep: seq<T>): seq<T>
    requires find != []
    decreases |s|
  {
    if s == [] then []
    else if find <= s then rep + Replaced(s[|find|..], find, rep)
    else [s[0]] + Replaced(s[1..], find, rep)
  }

  lemma {:induction false} ReplacedNone<T>(s: seq<T>, find: seq<T>, rep: seq<T>)
    requires find != [] && Find(s, find, 0).None?
    ensures Replaced(s, find, rep) == s
    decreases |s|
  {
    if s == [] {
    } else {
      FindTail(s, find);
      ReplacedNone(s[1..], find, rep);
    }
  }

  lemma ReplacedStep<T>(s: seq<T>, find: seq<T>, rep: seq<T>)
    requires s != [] && find != []
    ensures Replaced(s, find, rep) ==
            if find <= s then rep + Replaced(s[|find|..], find, rep) else [s[0]] + Replaced(s[1..], find, rep)
  {
  }

  lemma {:induction false} ReplacedFirst<T>(s: seq<T>, find: seq<T>, rep: seq<T>, k: nat)
    requires find != [] && Find(s, find, 0) == Some(k)
    ensures Replaced(s, find, rep) == s[..k] + rep + Replaced(s[k + |find|..], find, rep)
    decreases k
  {
    hide Find, Replaced;
    FindFirst(s, find, 0);
    ReplacedStep(s, find, rep);
    if k == 0 {
      assert find <= s && s[..k] + rep == rep;
    } else {
      FindTail(s, find);
      ReplacedFirst(s[1..], find, rep, k - 1);
      assert s[1..][k - 1 + |find|..] == s[k + |find|..];
      assert s[..k] == [s[0]] + s[1..][..k - 1];
      Shifted(s[0], s[1..][..k - 1], rep, Replaced(s[k + |find|..], find, rep));
    }
  }

  lemma Shifted<T>(x: T, a: seq<T>, b: seq<T>, c: seq<T>)
    ensures [x] + (a + b + c) == [x] + a + b + c
  {
  }

  lemma FindTail<T>(s: seq<T>, find: seq<T>)
    requires s != [] && find != [] && Find(s, find, 0) != Some(0)
    ensures !(find <= s)
    ensures Find(s, find, 0) == match Find(s[1..], find, 0) { case None => None case Some(k) => Some(k + 1) }
  {
    assert [s[0]] + s[1..] == s;
    FindShift(s, [s[0]], s[1..], find, 0);
  }

  /** util::replaceAll, with the string it rewrites as in- and out-parameter. */
  method ReplaceAll<T(==)>(target: seq<T>, find: seq<T>, replace: seq<T>) returns (r: seq<T>)
    ensures r == if find == [] then target else Replaced(target, find, replace)
  {
    hide Replaced, Find;
    r := target;
    if |find| == 0 {
      return;
    }
    ghost var p: nat, goal := 0, Replaced(target, find, replace);
    assert Pending(r, p, find, replace) == goal;
    var index := Find(r, find, 0);
    while index.Some?
      invariant p <= |r| && index == Find(r, find, p)
      invariant Pending(r, p, find, replace) == goal
      decreases |r| - p
    {
      var i := index.value;
      ghost var before := r;
      r := r[..i] + replace + r[i + |find|..];
      PendingStep(before, p, find, replace, i, r);
      p := i + |replace|;
      index := Find(r, find, i + |replace|);
    }
    PendingEnd(r, p, find, replace);
  }

  /** What a string becomes that has been dealt with up to index `p`. */
  ghost function Pending<T>(r: seq<T>, p: nat, find: seq<T>, rep: seq<T>): seq<T>
    requires find != [] && p <= |r|
  {
    r[..p] + Replaced(r[p..], find, rep)
  }

  lemma PendingEnd<T>(r: seq<T>, p: nat, find: seq<T>, rep: seq<T>)
    requires find != [] && p <= |r| && Find(r, find, p).None?
    ensures Pending(r, p, find, rep) == r
  {
    assert r[..p] + r[p..] == r;
    FindShift(r, r[..p], r[p..], find, 0);
    ReplacedNone(r[p..], find, rep);
  }

  lemma PendingStep<T>(r: seq<T>, p: nat, find: seq<T>, rep: seq<T>, i: nat, r': seq<T>)
    requires find != [] && p <= |r| && Find(r, find, p) == Some(i)
    requires r' == r[..i] + rep + r[i + |find|..]
    ensures i + |rep| <= |r'| && Pending(r', i + |rep|, find, rep) == Pending(r, p, find, rep)
  {
    hide Replaced, Find;
    var rest := r[p..];
    assert r[..p] + rest == r;
    FindShift(r, r[..p], rest, find, 0);
    ReplacedFirst(rest, find, rep, i - p);
    PendingCut(r, p, i, i + |find|, rep, r');
    Regroup(r[..p], rest[..i - p], rep, Replaced(rest[i - p + |find|..], find, rep));
  }

  lemma PendingCut<T>(r: seq<T>, p: nat, i: nat, m: nat, rep: seq<T>, r': seq<T>)
    requires p <= i <= m <= |r| && r' == r[..i] + rep + r[m..]
    ensures r'[..i + |rep|] == r[..p] + r[p..][..i - p] + rep
    ensures r'[i + |rep|..] == r[p..][m - p..]
  {
    assert r[..i] == r[..p] + r[p..][..i - p];
  }

  lemma Regroup<T>(a: seq<T>, b: seq<T>, c: seq<T>, d: seq<T>)
    ensures a + (b + c + d) == (a + b + c) + d
  {
    assert b + c + d == b + (c + d);
  }

  // The table of the escape sequences, its rows in the order of the unescaping passes

  const ROWS: nat := 10

  function Plain(row: nat): char
    requires row < ROWS
  {
    match row
    case 0 => ' ' case 1 => '"' case 2 => '&' case 3 => '\'' case 4 => '/'
    case 5 => ':' case 6 => '<' case 7 => '>' case 8 => '@' case _ => '\\'
  }

  function Code(row: nat): (r: string)
    requires row < ROWS
    ensures |r| == 2
  {
    match row
    case 0 => "20" case 1 => "22" case 2 => "26" case 3 => "27" case 4 => "2f"
    case 5 => "3a" case 6 => "3c" case 7 => "3e" case 8 => "40" case _ => "5c"
  }

  function HexDigit(c: char): (v: int) {
    if '0' <= c <= '9' then c as int - '0' as int else c as int - 'a' as int + 10
  }

  /** Each code is the number of its character in two hexadecimal digits, the letters among them small. */
  lemma CodeIsNumber(row: nat)
    requires row < ROWS
    ensures HexDigit(Code(row)[0]) * 16 + HexDigit(Code(row)[1]) == Plain(row) as int
    ensures forall k | 0 <= k < 2 :: '0' <= Code(row)[k] <= '9' || 'a' <= Code(row)[k] <= 'f'
  {
  }

  function Sequence(row: nat): (r: string)
    requires row < ROWS
    ensures r == ['\\', Code(row)[0], Code(row)[1]]
  {
    "\\" + Code(row)
  }

  /** The row of a plain character; ROWS if it needs no escaping. */
  function RowOf(c: char): (row: nat)
    ensures row <= ROWS
    ensures row < ROWS ==> Plain(row) == c
    ensures forall r: nat | r < ROWS && Plain(r) == c :: r == row
  {
    match c
    case ' ' => 0 case '"' => 1 case '&' => 2 case '\'' => 3 case '/' => 4
    case ':' => 5 case '<' => 6 case '>' => 7 case '@' => 8 case '\\' => 9 case _ => ROWS
  }

  /** The row whose escape sequence starts the string; ROWS if there is none. */
  function RowAt(s: string): (row: nat)
    ensures row <= ROWS
    ensures row < ROWS ==> Sequence(row) <= s
    ensures forall r: nat | r < ROWS && Sequence(r) <= s :: r == row
  {
    if |s| < 3 || s[0] != '\\' then ROWS
    else match (s[1], s[2])
      case ('2', '0') => 0 case ('2', '2') => 1 case ('2', '6') => 2 case ('2', '7') => 3
      case ('2', 'f') => 4 case ('3', 'a') => 5 case ('3', 'c') => 6 case ('3', 'e') => 7
      case ('4', '0') => 8 case ('5', 'c') => 9 case _ => ROWS
  }

  /** One left-to-right reading that decodes the sequences of the first `rows` rows at once. */
  function Decoded(s: string, rows: nat): string
    requires rows <= ROWS
    decreases |s|
  {
    if s == "" then ""
    else if RowAt(s) < rows then [Plain(RowAt(s))] + Decoded(s[3..], rows)
    else [s[0]] + Decoded(s[1..], rows)
  }

  /** The text that one character is written as once `passes` escaping passes are done. */
  function EncodedChar(c: char, passes: nat): (r: string)
    requires passes <= ROWS
    ensures r != ""
  {
    var row := RowOf(c);
    // the backslash, last row of the table, is escaped by the first pass
    if (row == ROWS - 1 && passes > 0) || row + 1 < passes then Sequence(row) else [c]
  }

  function Encoded(s: string, passes: nat): string
    requires passes <= ROWS
  {
    if s == "" then "" else EncodedChar(s[0], passes) + Encoded(s[1..], passes)
  }

  /** The single substitution: every character of the table becomes its sequence, no other changes. */
  function Escaped(s: string): string {
    Encoded(s, ROWS)
  }

  /** The single left-to-right decoder. */
  function Unescaped(s: string): string {
    Decoded(s, ROWS)
  }

  // One pass of replacement carries each of the two readings one row further

  /** What is decoded is neither a backslash, before the last row, nor a character of a code. */
  lemma PlainIsNoCode(row: nat)
    requires row < ROWS
    ensures row < ROWS - 1 ==> Plain(row) != '\\'
    ensures forall r: nat | r < ROWS :: Plain(row) != Code(r)[0] && Plain(row) != Code(r)[1]
  {
  }

  lemma {:induction false} DecodedHead(s: string, rows: nat)
    requires rows < ROWS && s != ""
    ensures Decoded(s, rows) != ""
    ensures RowAt(s) >= rows ==> Decoded(s, rows)[0] == s[0] && Decoded(s, rows)[1..] == Decoded(s[1..], rows)
    ensures RowAt(s) < rows ==> forall r: nat | r < ROWS ::
      Decoded(s, rows)[0] != '\\' && Decoded(s, rows)[0] != Code(r)[0] && Decoded(s, rows)[0] != Code(r)[1]
  {
    hide RowAt, Plain, Code;
    if RowAt(s) < rows {
      PlainIsNoCode(RowAt(s));
    }
  }

  /** No sequence comes into being: it is in the decoded text only where it was in the text. */
  lemma {:induction false} NoNewSequence(s: string, rows: nat)
    requires rows < ROWS
    requires Sequence(rows) <= Decoded(s, rows)
    ensures RowAt(s) == rows && Decoded(s, rows)[3..] == Decoded(s[3..], rows)
  {
    var d := Decoded(s, rows);
    assert d[0] == '\\' && d[1] == Code(rows)[0] && d[2] == Code(rows)[1];
    DecodedHead(s, rows);
    assert d[1..] == Decoded(s[1..], rows) && d[1..] != "";
    DecodedHead(s[1..], rows);
    assert d[1..][1..] == Decoded(s[2..], rows) by { assert s[1..][1..] == s[2..]; }
    assert d[1..][1..] != "";
    DecodedHead(s[2..], rows);
    assert s[2..][1..] == s[3..];
    assert Sequence(rows) <= s;
  }

  lemma {:induction false} DecodingPass(s: string, rows: nat)
    requires rows < ROWS
    ensures Replaced(Decoded(s, rows), Sequence(rows), [Plain(rows)]) == Decoded(s, rows + 1)
    decreases |s|
  {
    if s == "" {
    } else {
      var d := Decoded(s, rows);
      if Sequence(rows) <= d {
        NoNewSequence(s, rows);
        DecodingPass(s[3..], rows);
      } else if RowAt(s) < rows {
        DecodingPass(s[3..], rows);
        assert d[1..] == Decoded(s[3..], rows);
      } else {
        if RowAt(s) == rows {
          SequenceStays(s, rows);
          assert false;
        }
        DecodingPass(s[1..], rows);
        assert d[1..] == Decoded(s[1..], rows);
      }
    }
  }

  lemma {:induction false} SequenceStays(s: string, rows: nat)
    requires rows < ROWS && RowAt(s) == rows
    ensures Sequence(rows) <= Decoded(s, rows)
  {
    assert s[1] != '\\' && s[2] != '\\';
    assert RowAt(s[1..]) == ROWS && RowAt(s[2..]) == ROWS;
    assert s[1..][1..] == s[2..];
    DecodedHead(s, rows);
    DecodedHead(s[1..], rows);
    DecodedHead(s[2..], rows);
    assert Decoded(s, rows)[1..] == Decoded(s[1..], rows);
    assert Decoded(s, rows)[1..][1..] == Decoded(s[2..], rows);
  }

  /** The row that the escaping pass number `pass` replaces. */
  function PassRow(pass: nat): nat
    requires pass < ROWS
  {
    if pass == 0 then ROWS - 1 else pass - 1
  }

  lemma {:induction false} EncodingPass(s: string, pass: nat)
    requires pass < ROWS
    ensures Replaced(Encoded(s, pass), [Plain(PassRow(pass))], Sequence(PassRow(pass))) == Encoded(s, pass + 1)
  {
    if s == "" {
    } else {
      EncodingPass(s[1..], pass);
      var c, tail := s[0], Encoded(s[1..], pass);
      var find, rep := [Plain(PassRow(pass))], Sequence(PassRow(pass));
      var e := EncodedChar(c, pass);
      if |e| == 1 {
        assert e == [c];
        assert (e + tail)[1..] == tail;
      } else {
        assert forall k | 0 <= k < 3 :: e[k] != find[0];
        SkipThree(e, tail, find, rep);
      }
    }
  }

  lemma SkipThree(e: string, tail: string, find: string, rep: string)
    requires |e| == 3 && |find| == 1 && forall k | 0 <= k < 3 :: e[k] != find[0]
    ensures Replaced(e + tail, find, rep) == e + Replaced(tail, find, rep)
  {
    assert (e + tail)[1..] == e[1..] + tail;
    assert (e[1..] + tail)[1..] == e[2..] + tail;
    assert (e[2..] + tail)[1..] == tail;
    assert !(find <= e + tail) && !(find <= e[1..] + tail) && !(find <= e[2..] + tail);
    var t := Replaced(tail, find, rep);
    assert Replaced(e[2..] + tail, find, rep) == [e[2]] + t;
    assert Replaced(e[1..] + tail, find, rep) == [e[1]] + ([e[2]] + t);
    assert Replaced(e + tail, find, rep) == [e[0]] + ([e[1]] + ([e[2]] + t));
  }

  lemma {:induction false} NothingDoneYet(s: string)
    ensures Encoded(s, 0) == s && Decoded(s, 0) == s
  {
    if s == "" {
    } else {
      NothingDoneYet(s[1..]);
    }
  }

  /** JID::escapeNode: the ten passes amount to one substitution, character by character. */
  method EscapeNode(node: string) returns (escaped: string)
    ensures escaped == Escaped(node)
  {
    hide Replaced, Encoded;
    NothingDoneYet(node);
    escaped := ReplaceAll(node, "\\", "\\5c");
    assert escaped == Encoded(node, 1) by { EncodingPass(node, 0); }
    escaped := ReplaceAll(escaped, " ", "\\20");
    assert escaped == Encoded(node, 2) by { EncodingPass(node, 1); }
    escaped := ReplaceAll(escaped, "\"", "\\22");
    assert escaped == Encoded(node, 3) by { EncodingPass(node, 2); }
    escaped := ReplaceAll(escaped, "&", "\\26");
    assert escaped == Encoded(node, 4) by { EncodingPass(node, 3); }
    escaped := ReplaceAll(escaped, "'", "\\27");
    assert escaped == Encoded(node, 5) by { EncodingPass(node, 4); }
    escaped := ReplaceAll(escaped, "/", "\\2f");
    assert escaped == Encoded(node, 6) by { EncodingPass(node, 5); }
    escaped := ReplaceAll(escaped, ":", "\\3a");
    assert escaped == Encoded(node, 7) by { EncodingPass(node, 6); }
    escaped := ReplaceAll(escaped, "<", "\\3c");
    assert escaped == Encoded(node, 8) by { EncodingPass(node, 7); }
    escaped := ReplaceAll(escaped, ">", "\\3e");
    assert escaped == Encoded(node, 9) by { EncodingPass(node, 8); }
    escaped := ReplaceAll(escaped, "@", "\\40");
    assert escaped == Encoded(node, 10) by { EncodingPass(node, 9); }
  }

  /** JID::unescapeNode: the ten passes amount to one left-to-right decoder, on every string. */
  method UnescapeNode(node: string) returns (unescaped: string)
    ensures unescaped == Unescaped(node)
  {
    hide Replaced, Decoded;
    NothingDoneYet(node);
    unescaped := ReplaceAll(node, "\\20", " ");
    assert unescaped == Decoded(node, 1) by { DecodingPass(node, 0); }
    unescaped := ReplaceAll(unescaped, "\\22", "\"");
    assert unescaped == Decoded(node, 2) by { DecodingPass(node, 1); }
    unescaped := ReplaceAll(unescaped, "\\26", "&");
    assert unescaped == Decoded(node, 3) by { DecodingPass(node, 2); }
    unescaped := ReplaceAll(unescaped, "\\27", "'");
    assert unescaped == Decoded(node, 4) by { DecodingPass(node, 3); }
    unescaped := ReplaceAll(unescaped, "\\2f", "/");
    assert unescaped == Decoded(node, 5) by { DecodingPass(node, 4); }
    unescaped := ReplaceAll(unescaped, "\\3a", ":");
    assert unescaped == Decoded(node, 6) by { DecodingPass(node, 5); }
    unescaped := ReplaceAll(unescaped, "\\3c", "<");
    assert unescaped == Decoded(node, 7) by { DecodingPass(node, 6); }
    unescaped := ReplaceAll(unescaped, "\\3e", ">");
    assert unescaped == Decoded(node, 8) by { DecodingPass(node, 7); }
    unescaped := ReplaceAll(unescaped, "\\40", "@");
    assert unescaped == Decoded(node, 9) by { DecodingPass(node, 8); }
    unescaped := ReplaceAll(unescaped, "\\5c", "\\");
    assert unescaped == Decoded(node, 10) by { DecodingPass(node, 9); }
  }

  // What the two are for

  /** Unescaping undoes escaping, on every string. */
  lemma {:induction false} UnescapeEscape(s: string)
    ensures Unescaped(Escaped(s)) == s
  {
    if s == "" {
    } else {
      UnescapeEscape(s[1..]);
      var e, tail := EncodedChar(s[0], ROWS), Escaped(s[1..]);
      if RowOf(s[0]) < ROWS {
        assert RowAt(e + tail) == RowOf(s[0]);
        assert (e + tail)[3..] == tail;
      } else {
        assert (e + tail)[0] != '\\';
        assert (e + tail)[1..] == tail;
      }
    }
  }

  lemma EscapeInjective(s: string, t: string)
    requires Escaped(s) == Escaped(t)
    ensures s == t
  {
    UnescapeEscape(s);
    UnescapeEscape(t);
  }

  /** The texts escaping produces: no character of the table but backslashes, each starting a sequence. */
  predicate IsEscaped(s: string)
    decreases |s|
  {
    s == ""
    || (RowAt(s) < ROWS && IsEscaped(s[3..]))
    || (RowOf(s[0]) == ROWS && IsEscaped(s[1..]))
  }

  /** Escaping undoes unescaping exactly on those texts. */
  lemma {:induction false} EscapeUnescape(s: string)
    ensures Escaped(Unescaped(s)) == s <==> IsEscaped(s)
  {
    EscapedIsEscaped(Unescaped(s));
    if IsEscaped(s) {
      EscapeUnescapeOfEscaped(s);
    }
  }

  lemma {:induction false} EscapeUnescapeOfEscaped(s: string)
    requires IsEscaped(s)
    ensures Escaped(Unescaped(s)) == s
    decreases |s|
  {
    hide Encoded;
    if s == "" {
      NothingEscaped();
    } else {
      if RowAt(s) < ROWS {
        EscapeUnescapeOfEscaped(s[3..]);
        var row := RowAt(s);
        var u := Unescaped(s[3..]);
        assert Unescaped(s) == [Plain(row)] + u;
        EscapedCons(Plain(row), u);
        assert s == Sequence(row) + s[3..];
      } else {
        EscapeUnescapeOfEscaped(s[1..]);
        EscapedCons(s[0], Unescaped(s[1..]));
      }
    }
  }

  lemma NothingEscaped()
    ensures Escaped("") == ""
  {
  }

  lemma EscapedCons(c: char, s: string)
    ensures Escaped([c] + s) == EncodedChar(c, ROWS) + Escaped(s)
  {
    assert ([c] + s)[1..] == s;
  }

  lemma {:induction false} EscapedIsEscaped(s: string)
    ensures IsEscaped(Escaped(s))
  {
    if s == "" {
    } else {
      EscapedIsEscaped(s[1..]);
      var e, tail := EncodedChar(s[0], ROWS), Escaped(s[1..]);
      if RowOf(s[0]) < ROWS {
        assert RowAt(e + tail) == RowOf(s[0]);
        assert (e + tail)[3..] == tail;
      } else {
        assert (e + tail)[1..] == tail;
      }
    }
  }

  /** None of the nine characters a node may not hold is left in an escaped node. */
  lemma {:induction false} EscapedHasNoForbidden(s: string, c: char)
    requires c in Escaped(s)
    ensures c !in " \"&'/:<>@"
  {
    var e, tail := EncodedChar(s[0], ROWS), Escaped(s[1..]);
    if c in e {
      assert RowOf(s[0]) == ROWS ==> c == s[0];
    } else {
      assert c in tail;
      EscapedHasNoForbidden(s[1..], c);
    }
  }
}
