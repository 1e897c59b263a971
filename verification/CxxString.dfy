/** The operations of std::basic_string the library builds on, with their 64-bit size arithmetic. */
module CxxString {

  /** The outcome of a search: nowhere, or an index. */
  datatype Index = None | Some(value: nat)

  /** std::string::npos, the largest value of the unsigned 64-bit size type. */
  const NPOS: nat := 0xFFFF_FFFF_FFFF_FFFF

  /** Subtraction of sizes; a result below zero wraps around modulo two to the 64th. */
  function SizeSub(a: nat, b: nat): nat {
    (a - b) % (NPOS + 1)
  }

  lemma SizeSubValue(a: nat, b: nat)
    requires a <= NPOS && b <= NPOS
    ensures SizeSub(a, b) == if a >= b then a - b else a - b + NPOS + 1
  {
  }

  /** Addition of sizes, with the same wrap-around. */
  function SizeAdd(a: nat, b: nat): (r: nat)
    ensures r <= NPOS
  {
    (a + b) % (NPOS + 1)
  }

  /** A signed number converted to a size. */
  function SizeOf(n: int): (r: nat)
    ensures r <= NPOS
  {
    n % (NPOS + 1)
  }

  lemma SizeAddValue(a: nat, b: nat)
    requires b <= NPOS
    ensures a + b <= NPOS ==> SizeAdd(a, b) == a + b
    ensures a + b > NPOS ==> SizeAdd(a, b) < a
    ensures NPOS < a + b <= 2 * NPOS + 1 ==> SizeAdd(a, b) == a + b - NPOS - 1
  {
  }

  lemma SizeOfValue(n: int)
    ensures 0 <= n <= NPOS ==> SizeOf(n) == n
    ensures 0 - NPOS - 1 <= n < 0 ==> SizeOf(n) == n + NPOS + 1
  {
  }

  /** True if `pat` occurs in `s` at index `i`. */
  predicate At<T(==)>(s: seq<T>, i: nat, pat: seq<T>) {
    i + |pat| <= |s| && s[i..i + |pat|] == pat
  }

  /** std::string::find: the first occurrence of `pat` that starts at or after `from`. */
  function Find<T(==)>(s: seq<T>, pat: seq<T>, from: nat): (r: Index)
    ensures r.Some? ==> from <= r.value && r.value + |pat| <= |s|
    decreases |s| - from
  {
    if from + |pat| > |s| then None
    else if At(s, from, pat) then Some(from)
    else Find(s, pat, from + 1)
  }

  /** The index that std::string::find returns: the occurrence, or npos. */
  function Position(r: Index): nat {
    if r.Some? then r.value else NPOS
  }

  /** std::string::substr: at most `n` characters from index `pos`. */
  function Substr<T(==)>(s: seq<T>, pos: nat, n: nat): seq<T>
    requires pos <= |s|
  {
    if n < |s| - pos then s[pos..pos + n] else s[pos..]
  }

  /** What is found is an occurrence, and the first one. */
  lemma {:induction false} FindFirst<T>(s: seq<T>, pat: seq<T>, from: nat)
    ensures
      match Find(s, pat, from)
      case Some(k) => At(s, k, pat) && forall j | from <= j < k :: !At(s, j, pat)
      case None => forall j | from <= j :: !At(s, j, pat)
    decreases |s| - from
  {
    if from + |pat| <= |s| && !At(s, from, pat) {
      FindFirst(s, pat, from + 1);
    }
  }

  /** An occurrence with none before it is the one that is found. */
  lemma FindIs<T>(s: seq<T>, pat: seq<T>, from: nat, k: nat)
    requires from <= k && At(s, k, pat)
    requires forall j | from <= j < k :: !At(s, j, pat)
    ensures Find(s, pat, from) == Some(k)
  {
    FindFirst(s, pat, from);
  }

  /** The first occurrence stays the first one when the string grows on the right. */
  lemma {:induction false} FindGrows<T>(s: seq<T>, t: seq<T>, pat: seq<T>, from: nat)
    requires Find(s, pat, from).Some?
    ensures Find(s + t, pat, from) == Find(s, pat, from)
    decreases |s| - from
  {
    assert (s + t)[from..from + |pat|] == s[from..from + |pat|];
    if !At(s, from, pat) {
      FindGrows(s, t, pat, from + 1);
    }
  }

  /** A search that starts behind `done` sees only what follows it. */
  lemma {:induction false} FindShift<T>(s: seq<T>, done: seq<T>, rest: seq<T>, pat: seq<T>, from: nat)
    requires s == done + rest
    ensures Find(rest, pat, from).None? ==> Find(s, pat, |done| + from).None?
    ensures Find(rest, pat, from).Some? ==> Find(s, pat, |done| + from) == Some(|done| + Find(rest, pat, from).value)
    decreases |rest| - from
  {
    if from + |pat| <= |rest| {
      assert s[|done| + from..|done| + from + |pat|] == rest[from..from + |pat|];
      FindShift(s, done, rest, pat, from + 1);
    }
  }

  lemma FindBehind<T>(s: seq<T>, done: seq<T>, at: nat, first: seq<T>, more: seq<T>, pat: seq<T>, k: nat)
    requires s == done + (first + more) && |done| == at && Find(first, pat, 0) == Some(k)
    ensures Find(s, pat, at) == Some(at + k)
  {
    FindGrows(first, more, pat, 0);
    FindShift(s, done, first + more, pat, 0);
  }

  lemma AtElement<T>(s: seq<T>, i: nat, pat: seq<T>, k: nat)
    requires At(s, i, pat) && k < |pat|
    ensures s[i + k] == pat[k]
  {
    assert s[i..i + |pat|][k] == s[i + k];
  }

  lemma Middle<T>(s: seq<T>, a: seq<T>, b: seq<T>, c: seq<T>)
    requires s == a + (b + c)
    ensures s[|a|..|a| + |b|] == b && s[|a| + |b|..] == c
  {
  }

  function Joined<T>(texts: seq<seq<T>>): seq<T> {
    if texts == [] then [] else texts[0] + Joined(texts[1..])
  }

  lemma {:induction false} JoinedAppend<T>(a: seq<seq<T>>, b: seq<seq<T>>)
    ensures Joined(a + b) == Joined(a) + Joined(b)
  {
    if a == [] {
      assert a + b == b;
    } else {
      assert (a + b)[1..] == a[1..] + b;
      JoinedAppend(a[1..], b);
    }
  }
}
