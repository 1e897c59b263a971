/** Entity capabilities (XEP-0115): what the string says, by reading it back at its marks. */
module CapsReading {
  import opened Capabilities
  import opened DataFormField
  import opened Disco
  import opened Ordering

  // A reader of the string

  /** The text before the mark, or all of it. */
  function Until(s: string, c: char): (r: string)
    ensures r <= s
  {
    if s == "" || s[0] == c then "" else [s[0]] + Until(s[1..], c)
  }

  /** The text behind the mark. */
  function Past(s: string, c: char): (r: string)
    ensures |r| <= |s| && (s != "" ==> |r| < |s|)
  {
    var n := |Until(s, c)|;
    if n < |s| then s[n + 1..] else ""
  }

  /** The texts between the closing marks. */
  function Pieces(s: string): seq<string>
    decreases |s|
  {
    if s == "" then [] else [Until(s, '<')] + Pieces(Past(s, '<'))
  }

  /** Category, type and language, each with a slash behind it, and the name. */
  function ReadIdentity(s: string): Identity {
    var kindOn := Past(s, '/');
    Identity(Until(s, '/'), Until(kindOn, '/'), Past(Past(kindOn, '/'), '/'))
  }

  function ReadIdentities(l: seq<string>): seq<Identity> {
    if l == [] then [] else [ReadIdentity(l[0])] + ReadIdentities(l[1..])
  }

  lemma {:induction false} UntilMark(t: string, c: char, rest: string)
    requires c !in t
    ensures Until(t + ([c] + rest), c) == t && Past(t + ([c] + rest), c) == rest
  {
    var s := t + ([c] + rest);
    if t == "" {
      assert s == [c] + rest;
    } else {
      assert s[1..] == t[1..] + ([c] + rest);
      UntilMark(t[1..], c, rest);
      assert t == [t[0]] + t[1..];
    }
    assert s[|t| + 1..] == rest;
  }

  predicate Unmarked(l: seq<string>) {
    forall i | 0 <= i < |l| :: '<' !in l[i]
  }

  lemma {:induction false} PiecesOfMarked(l: seq<string>, rest: string)
    requires Unmarked(l)
    ensures Pieces(Marked(l) + rest) == l + Pieces(rest)
  {
    hide Until, Past;
    if l == [] {
      assert "" + rest == rest && [] + Pieces(rest) == Pieces(rest);
    } else {
      assert Marked(l) + rest == l[0] + (['<'] + (Marked(l[1..]) + rest));
      UntilMark(l[0], '<', Marked(l[1..]) + rest);
      PiecesOfMarked(l[1..], rest);
      assert l == [l[0]] + l[1..];
    }
  }

  /** The texts of the identity do not hold the marks that end them. */
  predicate Readable(i: Identity) {
    '/' !in i.category && '/' !in i.kind && '<' !in i.category && '<' !in i.kind && '<' !in i.name
  }

  lemma IdentityBack(i: Identity)
    requires Readable(i)
    ensures ReadIdentity(IdentityText(i)) == i && '<' !in IdentityText(i)
  {
    hide Until, Past, IdentityText;
    var nameOn := ['/'] + i.name;
    var kindOn := i.kind + (['/'] + nameOn);
    TextShape(i);
    UntilMark(i.category, '/', kindOn);
    UntilMark(i.kind, '/', nameOn);
    UntilMark("", '/', i.name);
    assert "" + nameOn == nameOn;
  }

  lemma TextShape(i: Identity)
    ensures IdentityText(i) == i.category + (['/'] + (i.kind + (['/'] + (['/'] + i.name))))
  {
    assert "/" == ['/'];
    Regroup(i.category, "/", i.kind, i.name);
  }

  lemma Regroup<T>(a: seq<T>, m: seq<T>, b: seq<T>, c: seq<T>)
    ensures a + m + b + m + m + c == a + (m + (b + (m + (m + c))))
  {
  }

  lemma {:induction false} IdentitiesBack(il: seq<Identity>)
    requires forall i | 0 <= i < |il| :: Readable(il[i])
    ensures ReadIdentities(IdentityTexts(il)) == il && Unmarked(IdentityTexts(il))
  {
    hide IdentityText, ReadIdentity, Readable;
    if il == [] {
    } else {
      IdentityBack(il[0]);
      IdentitiesBack(il[1..]);
      assert IdentityTexts(il)[1..] == IdentityTexts(il[1..]) && il == [il[0]] + il[1..];
    }
  }

  lemma {:induction false} InsertedRead(x: string, l: seq<string>)
    ensures multiset(ReadIdentities(Inserted(x, l))) == multiset(ReadIdentities(l)) + multiset{ReadIdentity(x)}
  {
    hide LessEq, ReadIdentity;
    if l == [] || LessEq(x, l[0]) {
      assert ([x] + l)[1..] == l;
    } else {
      InsertedRead(x, l[1..]);
      assert Inserted(x, l)[1..] == Inserted(x, l[1..]);
    }
  }

  lemma {:induction false} SortedRead(l: seq<string>)
    ensures multiset(ReadIdentities(Sort(l))) == multiset(ReadIdentities(l))
  {
    hide Inserted, ReadIdentity;
    if l == [] {
    } else {
      SortedRead(l[1..]);
      InsertedRead(l[0], Sort(l[1..]));
    }
  }

  lemma SortUnmarked(l: seq<string>)
    requires Unmarked(l)
    ensures Unmarked(Sort(l)) && |Sort(l)| == |l|
  {
    hide Sort;
    SameLength(Sort(l), l);
    forall i | 0 <= i < |Sort(l)|
      ensures '<' !in Sort(l)[i]
    {
      assert Sort(l)[i] in multiset(l);
    }
  }

  /**
   * The string, cut at its marks, says in this order: the identities, in the order of their texts, of which
   * category, type and name are read back; the features, in order; and the pieces of the form.
   */
  lemma GeneratedRead(il: seq<Identity>, fl: seq<string>, form: MaybeForm)
    requires (forall i | 0 <= i < |il| :: Readable(il[i])) && Unmarked(fl)
    ensures
      var p, m, n := Pieces(Generated(il, fl, form)), |il|, |il| + |fl|;
      && n <= |p|
      && Sorted(p[..m]) && multiset(ReadIdentities(p[..m])) == multiset(il)
      && Sorted(p[m..n]) && multiset(p[m..n]) == multiset(fl)
      && p[n..] == Pieces(FormText(form))
  {
    hide Sort, Marked, FormText, LessEq, Pieces, ReadIdentities, IdentityTexts, Readable;
    var texts, form' := IdentityTexts(il), FormText(form);
    var a, b := Sort(texts), Sort(fl);
    IdentitiesBack(il);
    SortUnmarked(texts);
    SortUnmarked(fl);
    SortSorts(texts);
    SortSorts(fl);
    SortedRead(texts);
    assert Generated(il, fl, form) == Marked(a) + (Marked(b) + form');
    PiecesOfMarked(a, Marked(b) + form');
    PiecesOfMarked(b, form');
    Three(Pieces(Generated(il, fl, form)), a, b, Pieces(form'));
  }

  lemma Three<T>(p: seq<T>, a: seq<T>, b: seq<T>, c: seq<T>)
    requires p == a + (b + c)
    ensures |a| + |b| <= |p| && p[..|a|] == a && p[|a|..|a| + |b|] == b && p[|a| + |b|..] == c
  {
  }

  // The form

  /** The name of each entry, followed by its values. */
  function EntryPieces(m: seq<Entry>): seq<string> {
    if m == [] then [] else [m[0].name] + m[0].values + EntryPieces(m[1..])
  }

  predicate ReadableEntries(m: seq<Entry>) {
    forall i | 0 <= i < |m| :: '<' !in m[i].name && Unmarked(m[i].values)
  }

  lemma {:induction false} PiecesOfEntries(m: seq<Entry>)
    requires ReadableEntries(m)
    ensures Pieces(EntriesText(m)) == EntryPieces(m)
  {
    hide Pieces, Marked;
    if m == [] {
      assert Pieces("") == [] by { NoPieces(); }
    } else {
      var texts := [m[0].name] + m[0].values;
      MarkedCons(m[0].name, m[0].values);
      assert EntriesText(m) == Marked(texts) + EntriesText(m[1..]);
      PiecesOfMarked(texts, EntriesText(m[1..]));
      PiecesOfEntries(m[1..]);
    }
  }

  lemma NoPieces()
    ensures Pieces("") == []
  {
  }

  lemma MarkedCons(x: string, l: seq<string>)
    ensures Marked([x] + l) == x + "<" + Marked(l)
  {
    assert ([x] + l)[1..] == l;
  }

  /** In the order of the names, and every name once. */
  ghost predicate NamesRise(m: seq<Entry>) {
    forall i, j | 0 <= i < j < |m| :: LessEq(m[i].name, m[j].name) && m[i].name != m[j].name
  }

  ghost predicate HasName(m: seq<Entry>, name: string) {
    exists i :: 0 <= i < |m| && m[i].name == name
  }

  /** Field number `i` is the first of its name, and the entry is that field's. */
  ghost predicate FirstOf(l: seq<Field>, e: Entry, i: nat) {
    i < |l| && l[i].name == e.name != "FORM_TYPE" && l[i].values == e.values
    && forall j | 0 <= j < i :: l[j].name != e.name
  }

  lemma {:induction false} EntryAdded(m: seq<Entry>, e: Entry)
    requires NamesRise(m)
    ensures
      var r := WithEntry(m, e);
      && NamesRise(r) && (forall d :: d in r <==> d in m || (d == e && !HasName(m, e.name)))
  {
    hide LessEq;
    if m == [] {
    } else {
      var rest := WithEntry(m[1..], e);
      assert m == [m[0]] + m[1..];
      EntryAdded(m[1..], e);
      if m[0].name == e.name {
      } else if LessEq(e.name, m[0].name) {
        Ahead(m, e);
      } else {
        Total(e.name, m[0].name);
        SameNames(m, e);
        StillFirst(m[0], m[1..], rest, e);
      }
    }
  }

  lemma Ahead(m: seq<Entry>, e: Entry)
    requires NamesRise(m) && m != [] && LessEq(e.name, m[0].name) && e.name != m[0].name
    ensures NamesRise([e] + m) && !HasName(m, e.name)
  {
    hide LessEq;
    forall j | 0 <= j < |m|
      ensures LessEq(e.name, m[j].name) && e.name != m[j].name
    {
      if j > 0 {
        Transitive(e.name, m[0].name, m[j].name);
        if e.name == m[j].name {
          Antisymmetric(e.name, m[0].name);
        }
      }
    }
  }

  lemma SameNames(m: seq<Entry>, e: Entry)
    requires m != [] && m[0].name != e.name
    ensures HasName(m, e.name) <==> HasName(m[1..], e.name)
  {
    if HasName(m, e.name) {
      var i :| 0 <= i < |m| && m[i].name == e.name;
      assert m[1..][i - 1].name == e.name;
    }
  }

  lemma StillFirst(first: Entry, m: seq<Entry>, r: seq<Entry>, e: Entry)
    requires NamesRise([first] + m) && NamesRise(r) && LessEq(first.name, e.name) && first.name != e.name
    requires forall d | d in r :: d in m || d == e
    ensures NamesRise([first] + r)
  {
    hide LessEq;
    var all := [first] + m;
    forall j | 0 <= j < |r|
      ensures LessEq(first.name, r[j].name) && first.name != r[j].name
    {
      assert r[j] in r;
      if r[j] != e {
        var i :| 0 <= i < |m| && m[i] == r[j];
        assert all[0] == first && all[i + 1] == r[j];
      }
    }
  }

  lemma {:induction false} EntriesAre(l: seq<Field>, m: seq<Entry>)
    requires NamesRise(m)
    ensures NamesRise(Entries(l, m))
    ensures forall e :: e in Entries(l, m) <==> e in m || (!HasName(m, e.name) && exists i: nat :: FirstOf(l, e, i))
    decreases |l|
  {
    hide WithEntry, LessEq;
    if l == [] {
    } else {
      var first := Entry(l[0].name, l[0].values);
      var next := if l[0].name == "FORM_TYPE" then m else WithEntry(m, first);
      EntryAdded(m, first);
      EntriesAre(l[1..], next);
      forall e
        ensures e in Entries(l, m) <==> e in m || (!HasName(m, e.name) && exists i: nat :: FirstOf(l, e, i))
      {
        OneEntry(l, m, next, e);
      }
    }
  }

  lemma OneEntry(l: seq<Field>, m: seq<Entry>, next: seq<Entry>, e: Entry)
    requires l != []
    requires
      var first := Entry(l[0].name, l[0].values);
      if l[0].name == "FORM_TYPE" then next == m
      else forall d :: d in next <==> d in m || (d == first && !HasName(m, first.name))
    ensures
      (e in next || (!HasName(next, e.name) && exists i: nat :: FirstOf(l[1..], e, i)))
      <==> e in m || (!HasName(m, e.name) && exists i: nat :: FirstOf(l, e, i))
  {
    FirstOfTail(l, e);
    NameAdded(l[0], m, next, e.name);
  }

  lemma FirstOfTail(l: seq<Field>, e: Entry)
    requires l != []
    ensures (exists i: nat :: FirstOf(l, e, i)) <==>
            e.name != "FORM_TYPE"
            && (e == Entry(l[0].name, l[0].values) || (l[0].name != e.name && exists i: nat :: FirstOf(l[1..], e, i)))
  {
    if i: nat :| FirstOf(l, e, i) {
      if i > 0 {
        assert FirstOf(l[1..], e, i - 1);
      }
    }
    if e == Entry(l[0].name, l[0].values) && e.name != "FORM_TYPE" {
      assert FirstOf(l, e, 0);
    } else if l[0].name != e.name {
      if i: nat :| FirstOf(l[1..], e, i) {
        assert FirstOf(l, e, i + 1);
      }
    }
  }

  lemma NameAdded(f: Field, m: seq<Entry>, next: seq<Entry>, name: string)
    requires
      var first := Entry(f.name, f.values);
      if f.name == "FORM_TYPE" then next == m
      else forall d :: d in next <==> d in m || (d == first && !HasName(m, first.name))
    ensures HasName(next, name) <==> HasName(m, name) || (f.name == name && name != "FORM_TYPE")
  {
    NamesOf(m, name);
    NamesOf(next, name);
    assert f.name != "FORM_TYPE" && !HasName(m, f.name) ==> Entry(f.name, f.values) in next;
  }

  lemma NamesOf(m: seq<Entry>, name: string)
    ensures HasName(m, name) <==> exists d :: d in m && d.name == name
  {
    if d :| d in m && d.name == name {
      var i :| 0 <= i < |m| && m[i] == d;
    }
  }

  /**
   * The form's part of the string, cut at its marks: the values of the form types, then name and values of one
   * entry for every other name, in the order of the names, that of the first field so called.
   */
  lemma FormRead(l: seq<Field>)
    requires forall i | 0 <= i < |l| :: '<' !in l[i].name && Unmarked(l[i].values)
    ensures Pieces(FieldsText(l)) == TypeTexts(l) + EntryPieces(Entries(l, []))
    ensures NamesRise(Entries(l, []))
    ensures forall e :: e in Entries(l, []) <==> exists i: nat :: FirstOf(l, e, i)
  {
    hide Pieces, Marked, Entries, EntriesText, EntryPieces, TypeTexts;
    EntriesAre(l, []);
    var m := Entries(l, []);
    EntriesReadable(l, m);
    PiecesOfEntries(m);
    TypesUnmarked(l);
    PiecesOfMarked(TypeTexts(l), EntriesText(m));
  }

  lemma EntriesReadable(l: seq<Field>, m: seq<Entry>)
    requires forall i | 0 <= i < |l| :: '<' !in l[i].name && Unmarked(l[i].values)
    requires forall e | e in m :: exists i: nat :: FirstOf(l, e, i)
    ensures ReadableEntries(m)
  {
    hide Unmarked;
    forall k | 0 <= k < |m|
      ensures '<' !in m[k].name && Unmarked(m[k].values)
    {
      assert m[k] in m;
      var i: nat :| FirstOf(l, m[k], i);
    }
  }

  lemma {:induction false} TypesUnmarked(l: seq<Field>)
    requires forall i | 0 <= i < |l| :: Unmarked(l[i].values)
    ensures Unmarked(TypeTexts(l))
  {
    if l == [] {
    } else {
      TypesUnmarked(l[1..]);
    }
  }
}
