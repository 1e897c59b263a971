/** Service discovery (XEP-0030): identities and features, their elements, and the answers to queries. */
module Disco {
  import opened DataForm
  import opened Ordering
  import opened XmlTag

  const XMLNS_DISCO_INFO := "http://jabber.org/protocol/disco#info"
  const XMLNS_DISCO_ITEMS := "http://jabber.org/protocol/disco#items"

  datatype Identity = Identity(category: string, kind: string, name: string)

  datatype MaybeForm = NoForm | WithForm(form: Form)

  /** The state of a Disco::Info object. */
  datatype Info = Info(node: string, identities: seq<Identity>, features: seq<string>, form: MaybeForm)

  // Elements

  /** Disco::Identity::tag gives an element for these only. */
  predicate Complete(i: Identity) {
    i.category != "" && i.kind != ""
  }

  function IdentityTag(i: Identity): Tag {
    var t := WithAttribute(Element("identity", ""), "category", i.category);
    WithAttribute(WithAttribute(t, "type", i.kind), "name", i.name)
  }

  function IdentityTags(l: seq<Identity>): seq<Tag> {
    if l == [] then [] else (if Complete(l[0]) then [IdentityTag(l[0])] else []) + IdentityTags(l[1..])
  }

  function FeatureTag(feature: string): Tag {
    WithAttribute(Element("feature", ""), "var", feature)
  }

  function FeatureTags(l: seq<string>): seq<Tag> {
    if l == [] then [] else [FeatureTag(l[0])] + FeatureTags(l[1..])
  }

  function FormTags(f: MaybeForm): seq<Tag> {
    if f.WithForm? && f.form.kind != TypeInvalid then [PrintForm(f.form)] else []
  }

  function QueryElement(node: string): Tag {
    WithAttribute(Element("query", "").(xmlns := XMLNS_DISCO_INFO), "node", node)
  }

  /** Disco::Info::tag. */
  function InfoTag(i: Info): Tag {
    QueryElement(i.node).(children := IdentityTags(i.identities) + FeatureTags(i.features) + FormTags(i.form))
  }

  function ReadIdentity(t: Tag): Identity {
    Identity(FindAttribute(t, "category"), FindAttribute(t, "type"), FindAttribute(t, "name"))
  }

  /** An info after one more child of its element; only the first form counts. */
  function AfterInfoChild(i: Info, t: Tag): Info {
    if t.name == "identity" then i.(identities := i.identities + [ReadIdentity(t)])
    else if t.name == "feature" && HasAttribute(t, "var") then i.(features := i.features + [FindAttribute(t, "var")])
    else if i.form.NoForm? && IsForm(t) then i.(form := WithForm(AfterForm(EMPTY, t)))
    else i
  }

  function AfterInfoChildren(i: Info, l: seq<Tag>): Info
    decreases |l|
  {
    if l == [] then i else AfterInfoChildren(AfterInfoChild(i, l[0]), l[1..])
  }

  function InfoOf(t: Tag): Info {
    if t.name != "query" || t.xmlns != XMLNS_DISCO_INFO then Info("", [], [], NoForm)
    else AfterInfoChildren(Info(FindAttribute(t, "node"), [], [], NoForm), t.children)
  }

  /** Disco::Info::Info( const Tag* ). */
  method ReadInfo(t: Tag) returns (i: Info)
    ensures i == InfoOf(t)
  {
    hide Found, HasAttribute, AfterForm;
    i := Info("", [], [], NoForm);
    if t.name != "query" || t.xmlns != XMLNS_DISCO_INFO {
      return;
    }
    i := i.(node := FindAttribute(t, "node"));
    var l := t.children;
    assert l[0..] == l;
    for k := 0 to |l|
      invariant AfterInfoChildren(i, l[k..]) == InfoOf(t)
    {
      assert l[k..][1..] == l[k + 1..];
      var c := l[k];
      ghost var before := i;
      if c.name == "identity" {
        i := i.(identities := i.identities + [ReadIdentity(c)]);
      } else if c.name == "feature" && HasAttribute(c, "var") {
        i := i.(features := i.features + [FindAttribute(c, "var")]);
      } else if i.form.NoForm? && IsForm(c) {
        var f := new DataForm(TypeInvalid, [], "");
        var ok := f.Parse(c);
        i := i.(form := WithForm(f.State()));
      }
      assert i == AfterInfoChild(before, c);
    }
  }

  // From an info to its element and back

  function CheckedIdentity(i: Identity): Identity {
    Identity(Checked(i.category), Checked(i.kind), Checked(i.name))
  }

  /** The complete identities, as their elements tell of them. */
  function Completed(l: seq<Identity>): seq<Identity> {
    if l == [] then [] else (if Complete(l[0]) then [CheckedIdentity(l[0])] else []) + Completed(l[1..])
  }

  /** The features that their elements tell. */
  function Named(l: seq<string>): seq<string> {
    if l == [] then [] else (if Checked(l[0]) != "" then [l[0]] else []) + Named(l[1..])
  }

  function NormMaybe(f: MaybeForm): MaybeForm {
    if f.WithForm? && f.form.kind != TypeInvalid then WithForm(NormForm(f.form)) else NoForm
  }

  lemma InfoFirst(i: Info, t: Tag, rest: seq<Tag>)
    ensures AfterInfoChildren(i, [t] + rest) == AfterInfoChildren(AfterInfoChild(i, t), rest)
  {
    hide AfterInfoChild;
    assert ([t] + rest)[1..] == rest;
  }

  lemma InfoNone(i: Info)
    ensures AfterInfoChildren(i, []) == i
  {
  }

  lemma {:induction false} InfoAppend(i: Info, a: seq<Tag>, b: seq<Tag>)
    ensures AfterInfoChildren(i, a + b) == AfterInfoChildren(AfterInfoChildren(i, a), b)
    decreases |a|
  {
    hide AfterInfoChild;
    if a == [] {
      assert a + b == b;
    } else {
      assert (a + b)[1..] == a[1..] + b;
      InfoAppend(AfterInfoChild(i, a[0]), a[1..], b);
    }
  }

  lemma IdentityBack(i: Identity)
    ensures ReadIdentity(IdentityTag(i)) == CheckedIdentity(i) && IdentityTag(i).name == "identity"
  {
    hide Replaced, Found, ValidText;
    var e0 := Element("identity", "");
    var e1 := WithAttribute(e0, "category", i.category);
    var e2 := WithAttribute(e1, "type", i.kind);
    forall k | k in {"category", "type", "name"}
      ensures FindAttribute(e0, k) == ""
      ensures FindAttribute(e1, k) == if k == "category" then Checked(i.category) else ""
    {
      AbsentReadsEmpty(e0.attributes, k);
      AbsentReadsEmpty(e0.attributes, "category");
      NewAttribute(e0, "category", i.category, k);
    }
    forall k | k in {"category", "type", "name"}
      ensures FindAttribute(IdentityTag(i), k) ==
              if k == "category" then Checked(i.category) else if k == "type" then Checked(i.kind) else Checked(i.name)
    {
      NewAttribute(e1, "type", i.kind, "name");
      NewAttribute(e1, "type", i.kind, k);
      NewAttribute(e2, "name", i.name, k);
    }
  }

  lemma FirstIdentity(l: seq<Identity>)
    requires l != []
    ensures IdentityTags(l) ==
            if Complete(l[0]) then [IdentityTag(l[0])] + IdentityTags(l[1..]) else IdentityTags(l[1..])
    ensures Completed(l) == if Complete(l[0]) then [CheckedIdentity(l[0])] + Completed(l[1..]) else Completed(l[1..])
  {
    hide IdentityTag, CheckedIdentity, Complete;
  }

  lemma IdentityPart(i: Info, x: Identity)
    ensures AfterInfoChild(i, IdentityTag(x)) == i.(identities := i.identities + [CheckedIdentity(x)])
  {
    hide IdentityTag, ReadIdentity, CheckedIdentity;
    IdentityBack(x);
  }

  lemma {:induction false} IdentitiesBack(i: Info, l: seq<Identity>)
    ensures AfterInfoChildren(i, IdentityTags(l)) == i.(identities := i.identities + Completed(l))
    decreases |l|
  {
    hide AfterInfoChildren, AfterInfoChild, IdentityTag, CheckedIdentity, Complete, IdentityTags, Completed;
    if l == [] {
      NoIdentities(i);
      assert i.identities + [] == i.identities;
    } else {
      FirstIdentity(l);
      if Complete(l[0]) {
        InfoFirst(i, IdentityTag(l[0]), IdentityTags(l[1..]));
        IdentityPart(i, l[0]);
        IdentitiesBack(i.(identities := i.identities + [CheckedIdentity(l[0])]), l[1..]);
        assert i.identities + [CheckedIdentity(l[0])] + Completed(l[1..]) == i.identities + Completed(l);
      } else {
        IdentitiesBack(i, l[1..]);
      }
    }
  }

  lemma NoIdentities(i: Info)
    ensures IdentityTags([]) == [] && Completed([]) == [] && AfterInfoChildren(i, []) == i
  {
  }

  lemma FeatureBack(f: string)
    ensures
      var t := FeatureTag(f);
      && t.name == "feature" && (HasAttribute(t, "var") <==> Checked(f) != "")
      && (Checked(f) != "" ==> FindAttribute(t, "var") == f) && !IsForm(t)
  {
    var t := FeatureTag(f);
    assert ValidText("var");
    if Checked(f) != "" {
      assert t.attributes == [Attribute("var", f)];
      assert t.attributes[0].name == "var";
    }
  }

  lemma FeaturePart(i: Info, f: string)
    ensures AfterInfoChild(i, FeatureTag(f)) == if Checked(f) != "" then i.(features := i.features + [f]) else i
  {
    hide HasAttribute, FindAttribute, FeatureTag, IsForm, Checked;
    FeatureBack(f);
  }

  lemma FirstFeature(l: seq<string>)
    requires l != []
    ensures FeatureTags(l) == [FeatureTag(l[0])] + FeatureTags(l[1..])
    ensures Named(l) == (if Checked(l[0]) != "" then [l[0]] else []) + Named(l[1..])
  {
    hide FeatureTag, Checked;
  }

  lemma {:induction false} FeaturesBack(i: Info, l: seq<string>)
    ensures AfterInfoChildren(i, FeatureTags(l)) == i.(features := i.features + Named(l))
    decreases |l|
  {
    hide AfterInfoChildren, AfterInfoChild, FeatureTag, Checked, Named, FeatureTags;
    if l == [] {
      NoFeatures(i);
      assert i.features + [] == i.features;
    } else {
      FirstFeature(l);
      FeaturePart(i, l[0]);
      InfoFirst(i, FeatureTag(l[0]), FeatureTags(l[1..]));
      if Checked(l[0]) != "" {
        FeaturesBack(i.(features := i.features + [l[0]]), l[1..]);
        assert i.features + [l[0]] + Named(l[1..]) == i.features + Named(l);
      } else {
        FeaturesBack(i, l[1..]);
        assert [] + Named(l[1..]) == Named(l[1..]);
      }
    }
  }

  lemma NoFeatures(i: Info)
    ensures FeatureTags([]) == [] && Named([]) == [] && AfterInfoChildren(i, []) == i
  {
  }

  lemma FormBack(i: Info, f: MaybeForm)
    requires i.form.NoForm?
    ensures AfterInfoChildren(i, FormTags(f)) == i.(form := NormMaybe(f))
  {
    hide AfterInfoChildren, AfterForm, PrintForm, NormForm, HasAttribute;
    InfoNone(i);
    if f.WithForm? && f.form.kind != TypeInvalid {
      ReadPrintForm(f.form);
      FormIsForm(f.form);
      var t := PrintForm(f.form);
      assert [t] + [] == [t];
      InfoFirst(i, t, []);
      InfoNone(AfterInfoChild(i, t));
    }
  }

  lemma FormIsForm(f: Form)
    requires f.kind != TypeInvalid
    ensures PrintForm(f).name == "x" && IsForm(PrintForm(f))
  {
  }

  lemma QueryBack(node: string)
    ensures
      var t := QueryElement(node);
      t.name == "query" && t.xmlns == XMLNS_DISCO_INFO && FindAttribute(t, "node") == Checked(node)
  {
    AbsentReadsEmpty([], "node");
    NewAttribute(Element("query", "").(xmlns := XMLNS_DISCO_INFO), "node", node, "node");
  }

  /** Of an info the element tells the complete identities, the features that have a name, and a valid form. */
  lemma InfoBack(i: Info)
    ensures InfoOf(InfoTag(i)) == Info(Checked(i.node), Completed(i.identities), Named(i.features), NormMaybe(i.form))
  {
    hide AfterInfoChildren, IdentityTags, FeatureTags, FormTags, Completed, Named, NormMaybe;
    hide QueryElement, Found, Checked;
    QueryBack(i.node);
    assert FindAttribute(InfoTag(i), "node") == Checked(i.node);
    var a, b, c := IdentityTags(i.identities), FeatureTags(i.features), FormTags(i.form);
    var i0 := Info(Checked(i.node), [], [], NoForm);
    InfoAppend(i0, a + b, c);
    InfoAppend(i0, a, b);
    IdentitiesBack(i0, i.identities);
    assert [] + Completed(i.identities) == Completed(i.identities);
    var i1 := i0.(identities := Completed(i.identities));
    FeaturesBack(i1, i.features);
    assert [] + Named(i.features) == Named(i.features);
    FormBack(i1.(features := Named(i.features)), i.form);
  }

  // Answering queries

  const DEFAULT_FEATURES := [XMLNS_DISCO_INFO, XMLNS_DISCO_ITEMS]

  /** Lists of identities are lists of pointers, and sorted by address: into any order. */
  ghost predicate Rearranges(f: seq<Identity> -> seq<Identity>) {
    forall l :: multiset(f(l)) == multiset(l)
  }

  type ByAddress = f: seq<Identity> -> seq<Identity> | Rearranges(f) witness (l: seq<Identity>) => l

  /** A node handler: that of the entity capabilities, which tells what the Disco object has, or another one. */
  datatype Handler = Caps | Other(identities: seq<Identity>, features: seq<string>)

  /** The state of a Disco object. */
  datatype State = State(identities: seq<Identity>, features: seq<string>, form: MaybeForm,
                         handlers: map<string, seq<Handler>>)

  function HandlerIdentities(d: State, h: Handler): seq<Identity> {
    match h case Caps => d.identities case Other(identities, _) => identities
  }

  function HandlerFeatures(d: State, h: Handler): seq<string> {
    match h case Caps => d.features case Other(_, features) => features
  }

  /** The identities of all handlers of a node, behind those already there. */
  function NodeIdentities(d: State, hs: seq<Handler>, byAddress: ByAddress, l: seq<Identity>): seq<Identity>
    decreases |hs|
  {
    if hs == [] then l
    else NodeIdentities(d, hs[1..], byAddress, byAddress(l + byAddress(HandlerIdentities(d, hs[0]))))
  }

  function NodeFeatures(d: State, hs: seq<Handler>, l: seq<string>): seq<string>
    decreases |hs|
  {
    if hs == [] then l else NodeFeatures(d, hs[1..], Merge(l, Sort(HandlerFeatures(d, hs[0]))))
  }

  datatype Reply = ItemNotFound | Result(info: Info)

  /** The answer to a query: for the entity itself, or for one of the nodes that have handlers. */
  function InfoReply(d: State, node: string, byAddress: ByAddress): Reply {
    if node == "" then
      Result(Info("", d.identities, Merge(DEFAULT_FEATURES, Sort(d.features)),
                  if d.form.WithForm? then WithForm(Copied(d.form.form)) else NoForm))
    else if node !in d.handlers then ItemNotFound
    else
      Result(Info(node, NodeIdentities(d, d.handlers[node], byAddress, []),
                  Merge(DEFAULT_FEATURES, Sort(NodeFeatures(d, d.handlers[node], []))), NoForm))
  }

  function WithoutHandler(l: seq<Handler>, h: Handler): seq<Handler> {
    if l == [] then [] else if l[0] == h then WithoutHandler(l[1..], h) else [l[0]] + WithoutHandler(l[1..], h)
  }

  /** The handlers without one of them; a node with no other handler goes. */
  function Unregistered(m: map<string, seq<Handler>>, h: Handler): map<string, seq<Handler>> {
    map k | k in m && WithoutHandler(m[k], h) != [] :: WithoutHandler(m[k], h)
  }

  function Registered(m: map<string, seq<Handler>>, h: Handler, node: string): map<string, seq<Handler>> {
    m[node := (if node in m then m[node] else []) + [h]]
  }

  class Disco {
    var identities: seq<Identity>
    var features: seq<string>
    var form: MaybeForm
    var nodeHandlers: map<string, seq<Handler>>

    function Current(): State
      reads this
    {
      State(identities, features, form, nodeHandlers)
    }

    constructor ()
      ensures Current() == State([], ["jabber:iq:version"], NoForm, map[])
    {
      identities, features, form, nodeHandlers := [], ["jabber:iq:version"], NoForm, map[];
    }

    /** The disco#info branch of handleIq. */
    method HandleInfo(node: string, byAddress: ByAddress) returns (reply: Reply)
      ensures reply == InfoReply(Current(), node, byAddress)
    {
      hide Sort, Merge;
      var i := Info("", [], DEFAULT_FEATURES, NoForm);
      if node != "" {
        i := i.(node := node);
        if node !in nodeHandlers {
          return ItemNotFound;
        }
        var ids, fs := [], [];
        var hs := nodeHandlers[node];
        assert hs[0..] == hs;
        for k := 0 to |hs|
          invariant NodeIdentities(Current(), hs[k..], byAddress, ids) == NodeIdentities(Current(), hs, byAddress, [])
          invariant NodeFeatures(Current(), hs[k..], fs) == NodeFeatures(Current(), hs, [])
        {
          assert hs[k..][1..] == hs[k + 1..];
          var il := byAddress(HandlerIdentities(Current(), hs[k]));
          ids := byAddress(ids + il);
          var fl := Sort(HandlerFeatures(Current(), hs[k]));
          fs := Merge(fs, fl);
        }
        i := i.(identities := ids);
        i := i.(features := Merge(i.features, Sort(fs)));
      } else {
        i := i.(identities := identities);
        i := i.(features := Merge(i.features, Sort(features)));
        if form.WithForm? {
          var c := new DataForm.Copy(form.form);
          i := i.(form := WithForm(c.State()));
        }
      }
      return Result(i);
    }

    method RegisterNodeHandler(h: Handler, node: string)
      modifies `nodeHandlers
      ensures nodeHandlers == Registered(old(nodeHandlers), h, node)
    {
      if node !in nodeHandlers {
        nodeHandlers := nodeHandlers[node := []];
      }
      nodeHandlers := nodeHandlers[node := nodeHandlers[node] + [h]];
    }

    method RemoveNodeHandlers(h: Handler)
      modifies `nodeHandlers
      ensures nodeHandlers == Unregistered(old(nodeHandlers), h)
    {
      hide WithoutHandler, Partly;
      ghost var before := nodeHandlers;
      var rest := nodeHandlers.Keys;
      AllThere(before, h);
      while rest != {}
        invariant rest <= before.Keys && nodeHandlers == Partly(before, h, rest)
        decreases |rest|
      {
        var k :| k in rest;
        PartlyStep(before, h, rest, k);
        rest := rest - {k};
        var l := WithoutHandler(nodeHandlers[k], h);
        nodeHandlers := if l == [] then nodeHandlers - {k} else nodeHandlers[k := l];
      }
    }
  }

  /** The handlers while those of some nodes have still to be gone through. */
  ghost function Partly(m: map<string, seq<Handler>>, h: Handler, rest: set<string>): map<string, seq<Handler>> {
    map k | k in m && (k in rest || WithoutHandler(m[k], h) != []) ::
      if k in rest then m[k] else WithoutHandler(m[k], h)
  }

  lemma AllThere(m: map<string, seq<Handler>>, h: Handler)
    ensures Partly(m, h, m.Keys) == m && Partly(m, h, {}) == Unregistered(m, h)
  {
    hide WithoutHandler;
  }

  lemma PartlyStep(m: map<string, seq<Handler>>, h: Handler, rest: set<string>, k: string)
    requires rest <= m.Keys && k in rest
    ensures
      var before, l := Partly(m, h, rest), WithoutHandler(m[k], h);
      k in before && before[k] == m[k] && Partly(m, h, rest - {k}) == if l == [] then before - {k} else before[k := l]
  {
    hide WithoutHandler;
  }
}
