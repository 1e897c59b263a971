/** Entity capabilities (XEP-0115): the string that both sides hash, and when they agree on it. */
module Capabilities {
  import opened Base64
  import opened DataForm
  import opened DataFormField
  import opened Disco
  import opened Ordering
  import opened ScramKeys
  import opened XmlTag

  // The string

  function IdentityText(i: Identity): string {
    i.category + "/" + i.kind + "/" + "/" + i.name
  }

  function IdentityTexts(l: seq<Identity>): (r: seq<string>)
    ensures |r| == |l|
  {
    if l == [] then [] else [IdentityText(l[0])] + IdentityTexts(l[1..])
  }

  /** Every text of the list, each with a closing mark. */
  function Marked(l: seq<string>): string {
    if l == [] then "" else l[0] + "<" + Marked(l[1..])
  }

  function ValueOf(f: Field): string {
    if f.values == [] then "" else f.values[0]
  }

  datatype Entry = Entry(name: string, values: seq<string>)

  /** std::map::insert, the map being the list of its entries in the order of their names; the first one stays. */
  function WithEntry(m: seq<Entry>, e: Entry): seq<Entry> {
    if m == [] then [e]
    else if m[0].name == e.name then m
    else if LessEq(e.name, m[0].name) then [e] + m
    else [m[0]] + WithEntry(m[1..], e)
  }

  function TypeTexts(l: seq<Field>): seq<string> {
    if l == [] then [] else (if l[0].name == "FORM_TYPE" then [ValueOf(l[0])] else []) + TypeTexts(l[1..])
  }

  function Entries(l: seq<Field>, m: seq<Entry>): seq<Entry>
    decreases |l|
  {
    if l == [] then m
    else Entries(l[1..], if l[0].name == "FORM_TYPE" then m else WithEntry(m, Entry(l[0].name, l[0].values)))
  }

  function EntriesText(m: seq<Entry>): string {
    if m == [] then "" else m[0].name + "<" + Marked(m[0].values) + EntriesText(m[1..])
  }

  function FieldsText(l: seq<Field>): string {
    Marked(TypeTexts(l)) + EntriesText(Entries(l, []))
  }

  function FormText(f: MaybeForm): string {
    if f.WithForm? then FieldsText(f.form.fields) else ""
  }

  function Generated(il: seq<Identity>, features: seq<string>, form: MaybeForm): string {
    Marked(Sort(IdentityTexts(il))) + Marked(Sort(features)) + FormText(form)
  }

  lemma {:induction false} MarkedAppend(a: seq<string>, x: string)
    ensures Marked(a + [x]) == Marked(a) + (x + "<")
  {
    if a == [] {
      assert [x][1..] == [];
      assert x + "<" + "" == x + "<";
    } else {
      assert (a + [x])[1..] == a[1..] + [x];
      MarkedAppend(a[1..], x);
    }
  }

  method Mark(s: string, l: seq<string>) returns (r: string)
    ensures r == s + Marked(l)
  {
    r := s;
    assert l[..0] == [];
    for k := 0 to |l|
      invariant r == s + Marked(l[..k])
    {
      MarkedAppend(l[..k], l[k]);
      assert l[..k + 1] == l[..k] + [l[k]];
      r := r + (l[k] + "<");
    }
    assert l[..|l|] == l;
  }

  /** Capabilities::generate. */
  method Generate(il: seq<Identity>, features: seq<string>, form: MaybeForm) returns (s: string)
    ensures s == Generated(il, features, form)
  {
    hide Sort, Marked, IdentityText, LessEq;
    var sl: seq<string> := [];
    assert [] + IdentityTexts(il) == IdentityTexts(il) && il[0..] == il;
    for k := 0 to |il|
      invariant sl + IdentityTexts(il[k..]) == IdentityTexts(il)
    {
      assert il[k..][1..] == il[k + 1..];
      assert sl + IdentityTexts(il[k..]) == sl + [IdentityText(il[k])] + IdentityTexts(il[k + 1..]);
      sl := sl + [IdentityText(il[k])];
    }
    assert il[|il|..] == [] && sl + [] == sl;
    sl := Sort(sl);
    s := Mark("", sl);
    assert s == Marked(sl);
    s := Mark(s, Sort(features));
    assert s + "" == s;
    if form.WithForm? {
      ghost var before, types := s, Marked(TypeTexts(form.form.fields));
      var m;
      s, m := ReadForm(s, form.form.fields);
      s := AppendEntries(s, m);
      assert before + types + EntriesText(m) == before + (types + EntriesText(m));
    }
  }

  /** The part of generate that goes through the fields of the form. */
  method ReadForm(before: string, l: seq<Field>) returns (s: string, m: seq<Entry>)
    ensures s == before + Marked(TypeTexts(l)) && m == Entries(l, [])
  {
    hide Marked, TypeTexts, Entries, WithEntry, ValueOf;
    s, m := before, [];
    assert l[0..] == l && l[..0] == [] && l[..|l|] == l;
    NoFields();
    for k := 0 to |l|
      invariant s == before + Marked(TypeTexts(l[..k]))
      invariant Entries(l[k..], m) == Entries(l, [])
    {
      FieldStep(l, k, m);
      if l[k].name == "FORM_TYPE" {
        s := s + (ValueOf(l[k]) + "<");
      } else {
        m := WithEntry(m, Entry(l[k].name, l[k].values));
      }
    }
    assert l[|l|..] == [];
    NoMore(m);
  }

  lemma FieldStep(l: seq<Field>, k: nat, m: seq<Entry>)
    requires k < |l|
    ensures Marked(TypeTexts(l[..k + 1])) ==
            Marked(TypeTexts(l[..k])) + if l[k].name == "FORM_TYPE" then ValueOf(l[k]) + "<" else ""
    ensures Entries(l[k..], m) ==
            Entries(l[k + 1..], if l[k].name == "FORM_TYPE" then m else WithEntry(m, Entry(l[k].name, l[k].values)))
  {
    hide Marked, TypeTexts, WithEntry, ValueOf;
    assert l[k..][1..] == l[k + 1..] && l[..k + 1] == l[..k] + [l[k]];
    TypeTextsAppend(l[..k], l[k]);
    if l[k].name == "FORM_TYPE" {
      MarkedAppend(TypeTexts(l[..k]), ValueOf(l[k]));
    }
  }

  lemma NoFields()
    ensures Marked(TypeTexts([])) == ""
  {
  }

  lemma NoMore(m: seq<Entry>)
    ensures Entries([], m) == m
  {
  }

  /** The part of generate that goes through the map. */
  method AppendEntries(before: string, m: seq<Entry>) returns (s: string)
    ensures s == before + EntriesText(m)
  {
    hide Marked;
    s := before;
    assert m[0..] == m;
    for k := 0 to |m|
      invariant s + EntriesText(m[k..]) == before + EntriesText(m)
    {
      assert m[k..][1..] == m[k + 1..];
      ghost var was := s;
      s := s + (m[k].name + "<");
      s := Mark(s, m[k].values);
      Associate(was, m[k].name, "<", Marked(m[k].values), EntriesText(m[k + 1..]));
    }
    assert s + "" == s;
  }

  lemma Associate(a: string, b: string, c: string, d: string, e: string)
    ensures a + (b + c) + d + e == a + (b + c + d + e)
  {
  }

  lemma FirstType(f: Field, l: seq<Field>)
    ensures TypeTexts([f] + l) == (if f.name == "FORM_TYPE" then [ValueOf(f)] else []) + TypeTexts(l)
  {
    hide ValueOf;
    assert ([f] + l)[1..] == l;
  }

  lemma {:induction false} TypeTextsAppend(l: seq<Field>, f: Field)
    ensures TypeTexts(l + [f]) == if f.name == "FORM_TYPE" then TypeTexts(l) + [ValueOf(f)] else TypeTexts(l)
  {
    hide ValueOf, TypeTexts;
    FirstType(f, []);
    NoTypes();
    if l == [] {
      assert l + [f] == [f] + [];
    } else {
      assert l == [l[0]] + l[1..] && l + [f] == [l[0]] + (l[1..] + [f]);
      FirstType(l[0], l[1..]);
      FirstType(l[0], l[1..] + [f]);
      TypeTextsAppend(l[1..], f);
    }
  }

  lemma NoTypes()
    ensures TypeTexts([]) == []
  {
  }

  // The order does not count

  lemma {:induction false} TextsOfElements(a: seq<Identity>, b: seq<Identity>)
    requires multiset(a) == multiset(b)
    ensures multiset(IdentityTexts(a)) == multiset(IdentityTexts(b))
  {
    hide IdentityText;
    SameLength(a, b);
    if a == [] {
    } else {
      assert a[0] in multiset(b);
      var i :| 0 <= i < |b| && b[i] == a[0];
      var c := b[..i] + b[i + 1..];
      Removal(b, i);
      TailElements(a);
      TextsOfElements(a[1..], c);
      TextsAppend(b[..i], b[i + 1..]);
      TextsAppend(b[..i], [b[i]] + b[i + 1..]);
    }
  }

  lemma Removal<T>(b: seq<T>, i: nat)
    requires i < |b|
    ensures b == b[..i] + ([b[i]] + b[i + 1..])
    ensures multiset(b[..i] + b[i + 1..]) == multiset(b) - multiset{b[i]}
  {
    assert b == b[..i] + ([b[i]] + b[i + 1..]);
  }

  lemma {:induction false} TextsAppend(a: seq<Identity>, b: seq<Identity>)
    ensures IdentityTexts(a + b) == IdentityTexts(a) + IdentityTexts(b)
  {
    hide IdentityText;
    if a == [] {
      assert a + b == b;
    } else {
      assert (a + b)[1..] == a[1..] + b;
      TextsAppend(a[1..], b);
    }
  }

  /** Whatever order identities and features come in, the string is the same. */
  lemma GeneratedUnordered(il: seq<Identity>, il': seq<Identity>, fl: seq<string>, fl': seq<string>, form: MaybeForm)
    requires multiset(il) == multiset(il') && multiset(fl) == multiset(fl')
    ensures Generated(il, fl, form) == Generated(il', fl', form)
  {
    hide Sort, Marked, FormText, IdentityTexts;
    TextsOfElements(il, il');
    SortPermuted(IdentityTexts(il), IdentityTexts(il'));
    SortPermuted(fl, fl');
  }

  // Counting characters

  function Size(l: seq<string>): nat {
    if l == [] then 0 else |l[0]| + 1 + Size(l[1..])
  }

  lemma {:induction false} MarkedSize(l: seq<string>)
    ensures |Marked(l)| == Size(l)
  {
    if l == [] {
    } else {
      MarkedSize(l[1..]);
    }
  }

  lemma {:induction false} InsertedSize(x: string, l: seq<string>)
    ensures Size(Inserted(x, l)) == |x| + 1 + Size(l)
  {
    hide LessEq;
    if l == [] || LessEq(x, l[0]) {
      assert ([x] + l)[1..] == l;
    } else {
      InsertedSize(x, l[1..]);
      assert Inserted(x, l)[1..] == Inserted(x, l[1..]);
    }
  }

  lemma {:induction false} SortSize(l: seq<string>)
    ensures Size(Sort(l)) == Size(l)
  {
    hide Inserted;
    if l == [] {
    } else {
      SortSize(l[1..]);
      InsertedSize(l[0], Sort(l[1..]));
    }
  }

  lemma GeneratedSize(il: seq<Identity>, fl: seq<string>, form: MaybeForm)
    ensures |Generated(il, fl, form)| == Size(IdentityTexts(il)) + Size(fl) + |FormText(form)|
  {
    hide Sort, Marked, Size, IdentityTexts, FormText;
    MarkedSize(Sort(IdentityTexts(il)));
    SortSize(IdentityTexts(il));
    MarkedSize(Sort(fl));
    SortSize(fl);
  }

  /** An element can tell all of the identity. */
  predicate Tellable(i: Identity) {
    Complete(i) && ValidText(i.category) && ValidText(i.kind) && ValidText(i.name)
  }

  predicate AllTellable(l: seq<Identity>) {
    forall i | 0 <= i < |l| :: Tellable(l[i])
  }

  /** An element can tell the feature. */
  predicate TellableFeature(f: string) {
    f != "" && ValidText(f)
  }

  predicate AllFeatures(l: seq<string>) {
    forall i | 0 <= i < |l| :: TellableFeature(l[i])
  }

  lemma CheckedText(i: Identity)
    ensures |IdentityText(CheckedIdentity(i))| <= |IdentityText(i)|
    ensures Complete(i) ==>
      (|IdentityText(CheckedIdentity(i))| == |IdentityText(i)| <==> Tellable(i))
      && (Tellable(i) ==> CheckedIdentity(i) == i)
  {
    hide ValidText, Checked;
    CheckedTwice(i.category);
    CheckedTwice(i.kind);
    CheckedTwice(i.name);
  }

  lemma {:induction false} CompletedSize(l: seq<Identity>)
    ensures Size(IdentityTexts(Completed(l))) <= Size(IdentityTexts(l))
    ensures Size(IdentityTexts(Completed(l))) == Size(IdentityTexts(l)) <==> AllTellable(l)
    ensures AllTellable(l) ==> Completed(l) == l
  {
    hide IdentityText, CheckedIdentity, ValidText;
    if l == [] {
    } else {
      CompletedSize(l[1..]);
      assert l == [l[0]] + l[1..];
      assert IdentityTexts(l)[1..] == IdentityTexts(l[1..]);
      CheckedText(l[0]);
      if Complete(l[0]) {
        assert Completed(l)[1..] == Completed(l[1..]);
        assert IdentityTexts(Completed(l))[1..] == IdentityTexts(Completed(l[1..]));
      } else {
        assert Completed(l) == Completed(l[1..]);
      }
    }
  }

  lemma {:induction false} NamedSize(l: seq<string>)
    ensures Size(Named(l)) <= Size(l)
    ensures Size(Named(l)) == Size(l) <==> AllFeatures(l)
    ensures AllFeatures(l) ==> Named(l) == l
  {
    hide ValidText, Checked;
    if l == [] {
    } else {
      NamedSize(l[1..]);
      CheckedTwice(l[0]);
      assert l == [l[0]] + l[1..];
      if TellableFeature(l[0]) {
        assert Named(l)[1..] == Named(l[1..]);
      } else {
        assert Named(l) == Named(l[1..]) by { NotNamed(l); }
      }
    }
  }

  lemma NotNamed(l: seq<string>)
    requires l != [] && !TellableFeature(l[0])
    ensures Named(l) == Named(l[1..])
  {
    hide ValidText;
  }

  lemma {:induction false} EntriesGrow(l: seq<Field>, m: seq<Entry>)
    ensures |Entries(l, m)| >= |m|
    ensures Entries(l, []) == [] ==> forall i | 0 <= i < |l| :: l[i].name == "FORM_TYPE"
    decreases |l|
  {
    hide LessEq;
    if l == [] {
    } else {
      EntriesGrow(l[1..], if l[0].name == "FORM_TYPE" then m else WithEntry(m, Entry(l[0].name, l[0].values)));
      WithEntryGrows(m, Entry(l[0].name, l[0].values));
      EntriesGrow(l[1..], WithEntry([], Entry(l[0].name, l[0].values)));
    }
  }

  lemma {:induction false} WithEntryGrows(m: seq<Entry>, e: Entry)
    ensures |WithEntry(m, e)| >= |m|
  {
    hide LessEq;
    if m == [] {
    } else {
      WithEntryGrows(m[1..], e);
    }
  }

  /** A form leaves no trace in the string just if it has no field. */
  lemma NoFormText(f: MaybeForm)
    ensures FormText(f) == "" <==> NoField(f)
  {
    if f.WithForm? && f.form.fields != [] {
      var l := f.form.fields;
      EntriesGrow(l, []);
      if Entries(l, []) == [] {
        assert TypeTexts(l)[0] == ValueOf(l[0]);
      }
    }
  }

  // Both sides

  /** What the own side hashes: Disco::features( true ) puts the default features last. */
  function OwnText(d: State): string {
    Generated(d.identities, d.features + DEFAULT_FEATURES, d.form)
  }

  /** What a peer hashes of an answer it was sent. */
  function PeerText(i: Info): string {
    var r := InfoOf(InfoTag(i));
    Generated(r.identities, r.features, r.form)
  }

  /** Identities and features that elements can tell. */
  predicate AllTold(d: State) {
    AllTellable(d.identities) && AllFeatures(d.features)
  }

  /** The form leaves no trace in the string. */
  predicate NoField(f: MaybeForm) {
    f.WithForm? ==> f.form.fields == []
  }

  lemma TellableElements(a: seq<Identity>, b: seq<Identity>)
    requires multiset(a) == multiset(b)
    ensures AllTellable(a) <==> AllTellable(b)
  {
    hide Tellable;
    assert forall i | 0 <= i < |a| :: a[i] in multiset(b);
    assert forall i | 0 <= i < |b| :: b[i] in multiset(a);
    assert AllTellable(b) ==> forall x | x in multiset(b) :: Tellable(x);
    assert AllTellable(a) ==> forall x | x in multiset(a) :: Tellable(x);
  }

  lemma DefaultFeatures()
    ensures AllFeatures(DEFAULT_FEATURES)
  {
    assert forall i | 0 <= i < |XMLNS_DISCO_INFO| :: '#' <= XMLNS_DISCO_INFO[i] <= 'z';
    assert forall i | 0 <= i < |XMLNS_DISCO_ITEMS| :: '#' <= XMLNS_DISCO_ITEMS[i] <= 'z';
  }

  lemma FeatureElements(a: seq<string>, b: seq<string>)
    requires multiset(a) == multiset(b) + multiset(DEFAULT_FEATURES)
    ensures AllFeatures(a) <==> AllFeatures(b)
  {
    hide TellableFeature;
    DefaultFeatures();
    assert forall i | 0 <= i < |b| :: b[i] in multiset(b) && b[i] in multiset(a);
    assert forall i | 0 <= i < |a| :: a[i] in multiset(a);
    assert AllFeatures(a) ==> forall x | x in multiset(a) :: TellableFeature(x);
    assert AllFeatures(b) ==> forall x | x in multiset(b) :: TellableFeature(x);
    assert forall x | x in multiset(DEFAULT_FEATURES) :: TellableFeature(x);
  }

  /** What gets lost of the identities and features, in whatever order. */
  lemma WhatIsTold(d: State, il: seq<Identity>, fl: seq<string>)
    requires multiset(il) == multiset(d.identities) && multiset(fl) == multiset(d.features) + multiset(DEFAULT_FEATURES)
    ensures
      if AllTold(d) then Completed(il) == il && Named(fl) == fl
      else Size(IdentityTexts(Completed(il))) + Size(Named(fl)) < Size(IdentityTexts(il)) + Size(fl)
  {
    hide Completed, Named, Size, AllTellable, AllFeatures, IdentityTexts;
    CompletedSize(il);
    NamedSize(fl);
    FeatureElements(fl, d.features);
    TellableElements(il, d.identities);
  }

  /**
   * The two strings for an answer with the same identities and features, in whatever order, and some form: if
   * everything is told of the identities and features, they are equal just if the form gives the same text, and
   * if the form does, just if everything is told.
   */
  lemma Agreement(d: State, node: string, il: seq<Identity>, fl: seq<string>, form: MaybeForm)
    requires multiset(il) == multiset(d.identities) && multiset(fl) == multiset(d.features) + multiset(DEFAULT_FEATURES)
    ensures
      var same := PeerText(Info(node, il, fl, form)) == OwnText(d);
      var sameForm := FormText(NormMaybe(form)) == FormText(d.form);
      && (AllTold(d) ==> (same <==> sameForm))
      && (sameForm ==> (same <==> AllTold(d)))
      && (FormText(NormMaybe(form)) == "" ==> (same <==> AllTold(d) && sameForm))
  {
    hide Generated, InfoOf, InfoTag, Completed, Named, Size, FormText, IdentityTexts, NormMaybe, AllTold;
    var il', fl', form' := Completed(il), Named(fl), NormMaybe(form);
    InfoBack(Info(node, il, fl, form));
    GeneratedUnordered(d.identities, il, d.features + DEFAULT_FEATURES, fl, d.form);
    WhatIsTold(d, il, fl);
    GeneratedSize(il, fl, d.form);
    GeneratedSize(il', fl', form');
    SameForm(il, fl, d.form, form');
  }

  lemma SameForm(il: seq<Identity>, fl: seq<string>, form: MaybeForm, form': MaybeForm)
    ensures Generated(il, fl, form) == Generated(il, fl, form') <==> FormText(form) == FormText(form')
  {
    hide Sort, Marked, FormText, IdentityTexts;
    var a := Marked(Sort(IdentityTexts(il))) + Marked(Sort(fl));
    SameEnd(a, FormText(form), FormText(form'));
  }

  lemma SameEnd<T>(a: seq<T>, b: seq<T>, c: seq<T>)
    ensures a + b == a + c <==> b == c
  {
    assert (a + b)[|a|..] == b && (a + c)[|a|..] == c;
  }

  /** A valid form whose fields are in normal form is told in full, as far as the string goes, and so is its copy. */
  lemma CopyTold(f: Form)
    requires f.kind != TypeInvalid && NormalFields(f.fields)
    ensures FormText(NormMaybe(WithForm(Copied(f)))) == FormText(WithForm(f))
  {
    hide FieldsText, NormalFields, NormFields, FieldTags;
    NormFieldsSame(f.fields);
  }

  /**
   * The answer to a query for the entity itself carries a copy of the form. If everything is told of the
   * identities and features, a peer computes the own string of it if and only if the form's text is that of
   * the normalized copy, which by CopyTold it is for valid forms in normal form; if the text is that, if and
   * only if everything is told.
   */
  lemma DirectAgrees(d: State, byAddress: ByAddress)
    ensures
      var reply := InfoReply(d, "", byAddress);
      && reply.Result?
      && var same := PeerText(reply.info) == OwnText(d);
         var told := if d.form.WithForm? then NormMaybe(WithForm(Copied(d.form.form))) else NoForm;
         && (AllTold(d) ==> (same <==> FormText(told) == FormText(d.form)))
         && (FormText(told) == FormText(d.form) ==> (same <==> AllTold(d)))
  {
    hide Generated, InfoOf, InfoTag, FormText, AllTold, PeerText, OwnText, Sort, Merge, Copied;
    var i := InfoReply(d, "", byAddress).info;
    assert multiset(i.features) == multiset(d.features) + multiset(DEFAULT_FEATURES);
    Agreement(d, "", i.identities, i.features, i.form);
  }

  // Announcing

  class Capabilities {
    const disco: Disco?
    const sha: Sha1
    var node: string
    var received: string

    constructor (disco: Disco?, sha: Sha1, node: string, received: string)
      ensures this.disco == disco && this.sha == sha && this.node == node && this.received == received
    {
      this.disco, this.sha, this.node, this.received := disco, sha, node, received;
    }

    /** Capabilities::ver: for the own side the node is announced anew, for others it is what was received. */
    method Ver() returns (hash: string)
      modifies disco
      ensures disco == null ==> hash == received
      ensures disco != null ==>
        && hash == Hash(sha, OwnText(old(disco.Current())))
        && disco.Current() == Announced(old(disco.Current()), sha, node)
    {
      hide Generated, Encoded;
      if disco == null {
        return received;
      }
      var text := Generate(disco.identities, disco.features + DEFAULT_FEATURES, disco.form);
      TwentyBytesOf(sha, text);
      hash := Encode64(sha(text));
      disco.RemoveNodeHandlers(Caps);
      disco.RegisterNodeHandler(Caps, node + "#" + hash);
    }
  }

  function Hash(sha: Sha1, text: string): string {
    TwentyBytesOf(sha, text);
    Encoded(sha(text))
  }

  /** The state after announcing: the handler of the capabilities is registered for the new node only. */
  function Announced(d: State, sha: Sha1, node: string): State {
    d.(handlers := Registered(Unregistered(d.handlers, Caps), Caps, node + "#" + Hash(sha, OwnText(d))))
  }

  lemma {:induction false} OthersRemain(l: seq<Handler>)
    ensures Caps !in WithoutHandler(l, Caps)
    ensures (forall i | 0 <= i < |l| :: l[i] == Caps) ==> WithoutHandler(l, Caps) == []
  {
    if l == [] {
    } else {
      OthersRemain(l[1..]);
    }
  }

  /** The handler of the capabilities answers for the node announced last, and for no other. */
  lemma AnsweredNodes(d: State, sha: Sha1, node: string, k: string)
    ensures
      var e := Announced(d, sha, node);
      (k in e.handlers && Caps in e.handlers[k]) <==> k == node + "#" + Hash(sha, OwnText(d))
  {
    hide Hash, OwnText;
    var r := Unregistered(d.handlers, Caps);
    var asked := node + "#" + Hash(sha, OwnText(d));
    var e := Announced(d, sha, node);
    if k == asked {
      var l := if k in r then r[k] else [];
      assert e.handlers[k] == l + [Caps];
      assert Caps in l + [Caps];
    } else if k in d.handlers {
      OthersRemain(d.handlers[k]);
      assert k in e.handlers ==> e.handlers[k] == WithoutHandler(d.handlers[k], Caps);
    } else {
      assert k !in e.handlers;
    }
  }

  /** Nobody else answers for the node. */
  predicate OwnNode(d: State, node: string) {
    node in d.handlers ==> forall h | h in d.handlers[node] :: h == Caps
  }

  /**
   * A peer that is told node and hash and asks for them is answered, unless the user has put another handler
   * there, with what gives the announced string if and only if everything is told of the identities and
   * features and there is no form field: what an element cannot tell gets lost, and a form goes into the hash
   * but not into the answer.
   */
  lemma PeerAgrees(d: State, sha: Sha1, node: string, byAddress: ByAddress)
    ensures
      var asked := node + "#" + Hash(sha, OwnText(d));
      var reply := InfoReply(Announced(d, sha, node), asked, byAddress);
      OwnNode(d, asked) ==> reply.Result? && (PeerText(reply.info) == OwnText(d) <==> AllTold(d) && NoField(d.form))
  {
    hide Hash, OwnText, PeerText, AllTold, InfoReply, Announced, OwnNode, FormText;
    var asked, e := node + "#" + Hash(sha, OwnText(d)), Announced(d, sha, node);
    if OwnNode(d, asked) {
      OnlyHandler(d, sha, node, asked);
      SomeInfo(e, asked, byAddress);
      var i := InfoReply(e, asked, byAddress).info;
      Agreement(d, i.node, i.identities, i.features, NoForm);
      NoFormText(d.form);
      NoFormText(NoForm);
      assert NormMaybe(NoForm) == NoForm;
    }
  }

  lemma OnlyHandler(d: State, sha: Sha1, node: string, asked: string)
    requires OwnNode(d, asked)
    ensures
      var e := Announced(d, sha, node);
      asked == node + "#" + Hash(sha, OwnText(d)) ==>
        asked != "" && asked in e.handlers && e.handlers[asked] == [Caps]
        && e.identities == d.identities && e.features == d.features
  {
    hide Hash, OwnText;
    if asked in d.handlers {
      var l := d.handlers[asked];
      assert forall i | 0 <= i < |l| :: l[i] in l;
      OthersRemain(l);
    }
    assert asked !in Unregistered(d.handlers, Caps);
    assert [] + [Caps] == [Caps];
    assert |node + "#" + Hash(sha, OwnText(d))| == |node| + 1 + |Hash(sha, OwnText(d))|;
  }

  /** What the handler of the capabilities alone makes of a query. */
  lemma SomeInfo(d: State, node: string, byAddress: ByAddress)
    requires node != "" && node in d.handlers && d.handlers[node] == [Caps]
    ensures
      var r := InfoReply(d, node, byAddress);
      && r.Result? && r.info.node == node && r.info.form.NoForm?
      && multiset(r.info.identities) == multiset(d.identities)
      && multiset(r.info.features) == multiset(d.features) + multiset(DEFAULT_FEATURES)
  {
    hide Sort, Merge;
    OneHandler(d, byAddress);
    Rearranged(byAddress, d.identities);
    Rearranged(byAddress, [] + byAddress(d.identities));
    var fl := NodeFeatures(d, [Caps], []);
    assert multiset(fl) == multiset(d.features);
    assert multiset(Merge(DEFAULT_FEATURES, Sort(fl))) == multiset(d.features) + multiset(DEFAULT_FEATURES);
  }

  lemma OneHandler(d: State, byAddress: ByAddress)
    ensures NodeIdentities(d, [Caps], byAddress, []) == byAddress([] + byAddress(d.identities))
    ensures NodeFeatures(d, [Caps], []) == Merge([], Sort(d.features))
  {
    hide Sort, Merge;
    assert [Caps][1..] == [];
  }

  lemma Rearranged(byAddress: ByAddress, l: seq<Identity>)
    ensures multiset(byAddress(l)) == multiset(l) && [] + byAddress(l) == byAddress(l)
  {
  }
}
