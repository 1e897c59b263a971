/** Where other implementations find what the library prints: the elements of XEP-0004 and XEP-0030. */
module Elements {
  import opened DataForm
  import opened DataFormField
  import opened Disco
  import opened XmlTag

  /** The child elements of a name, in order. */
  function Children(l: seq<Tag>, name: string): seq<Tag> {
    if l == [] then [] else (if l[0].name == name then [l[0]] else []) + Children(l[1..], name)
  }

  function Contents(l: seq<Tag>): (r: seq<string>)
    ensures |r| == |l|
  {
    seq(|l|, i requires 0 <= i < |l| => l[i].cdata)
  }

  lemma {:induction false} ChildrenAppend(a: seq<Tag>, b: seq<Tag>, name: string)
    ensures Children(a + b, name) == Children(a, name) + Children(b, name)
  {
    if a == [] {
      assert a + b == b;
    } else {
      assert (a + b)[1..] == a[1..] + b;
      ChildrenAppend(a[1..], b, name);
    }
  }

  predicate AllNamed(l: seq<Tag>, name: string) {
    forall i | 0 <= i < |l| :: l[i].name == name
  }

  lemma {:induction false} ChildrenNamed(l: seq<Tag>, own: string, name: string)
    requires AllNamed(l, own)
    ensures Children(l, name) == if name == own then l else []
  {
    if l == [] {
    } else {
      ChildrenNamed(l[1..], own, name);
      assert l == [l[0]] + l[1..];
    }
  }

  // A field

  /** The names of section 3.3 of XEP-0004. */
  predicate TypeIs(kind: FieldType, name: string) {
    match kind
    case Boolean => name == "boolean"
    case Fixed => name == "fixed"
    case Hidden => name == "hidden"
    case JidMulti => name == "jid-multi"
    case JidSingle => name == "jid-single"
    case ListMulti => name == "list-multi"
    case ListSingle => name == "list-single"
    case TextMulti => name == "text-multi"
    case TextPrivate => name == "text-private"
    case TextSingle => name == "text-single"
    case _ => name == ""
  }

  /** The values that are told: of a boolean 0 or 1, of a type with one value the first. */
  predicate Tells(f: Field, values: seq<string>) {
    if f.kind == Boolean then
      values == [if f.values != [] && f.values[0] !in {"false", "0"} then "1" else "0"]
    else if f.kind in {TextMulti, ListMulti, JidMulti} then values == CheckedTexts(f.values)
    else values == CheckedTexts(if f.values == [] then [] else [f.values[0]])
  }

  predicate OptionTold(t: Tag, o: Choice) {
    FindAttribute(t, "label") == Checked(o.caption) && Contents(Children(t.children, "value")) == [Checked(o.value)]
  }

  lemma OptionAsSpecified(o: Choice)
    ensures OptionTold(OptionTag(o), o) && OptionTag(o).name == "option"
  {
    hide Found, Replaced, ValidText;
    var e, v := Element("option", ""), Element("value", o.value);
    AbsentReadsEmpty(e.attributes, "label");
    NewAttribute(e, "label", o.caption, "label");
    var t := WithAttribute(e, "label", o.caption);
    assert t.children + [v] == [v] && [v][1..] == [];
    assert Children([v], "value") == [v] + [];
    CheckedTwice(o.value);
  }

  /** The element of a field has everything where XEP-0004 puts it. */
  lemma FieldAsSpecified(f: Field)
    requires f.kind != FieldType.Invalid
    ensures
      var t := Print(f);
      var options := Children(t.children, "option");
      && t.name == "field" && TypeIs(f.kind, FindAttribute(t, "type"))
      && FindAttribute(t, "var") == Checked(f.name) && FindAttribute(t, "label") == Checked(f.caption)
      && Tells(f, Contents(Children(t.children, "value")))
      && (Children(t.children, "required") != [] <==> f.required)
      && Contents(Children(t.children, "desc")) == (if f.desc == "" then [] else [Checked(f.desc)])
      && |options| == (if f.kind in {ListSingle, ListMulti} then |f.options| else 0)
      && forall i | 0 <= i < |options| :: OptionTold(options[i], f.options[i])
  {
    hide Found, Replaced, ValidText, OptionTold, Children, OptionTag, Tells, Checked, Contents;
    PrintName(f);
    FieldAttributes(f);
    ChildrenOfField(f, "value");
    ChildrenOfField(f, "required");
    ChildrenOfField(f, "desc");
    ChildrenOfField(f, "option");
    ValuesTold(f);
    DescTold(f);
    forall i | 0 <= i < |f.options|
      ensures OptionTold(OptionTag(f.options[i]), f.options[i])
    {
      OptionAsSpecified(f.options[i]);
    }
  }

  lemma DescTold(f: Field)
    ensures Contents([]) == [] && Contents([Element("desc", f.desc)]) == [Checked(f.desc)]
  {
  }

  lemma FieldAttributes(f: Field)
    requires f.kind != FieldType.Invalid
    ensures
      var t := Print(f);
      && TypeIs(f.kind, FindAttribute(t, "type"))
      && FindAttribute(t, "var") == Checked(f.name) && FindAttribute(t, "label") == Checked(f.caption)
  {
    hide Found, Replaced, ValidText, Checked, Notes, OptionTags, ValueTags, Shown, FieldElement, TypeOf;
    ReadHead(f);
    var ty := FindAttribute(FieldElement(f), "type");
    assert FindAttribute(Print(f), "type") == ty;
    assert TypeOf(ty) == f.kind;
    TypeNamed(ty);
  }

  lemma TypeNamed(name: string)
    ensures TypeOf(name) != FieldType.Invalid ==> TypeIs(TypeOf(name), name)
  {
  }

  lemma ValuesTold(f: Field)
    ensures Tells(f, Contents(ValueTags(Shown(f.kind, f.values))))
  {
    hide ValidText, Checked;
    var values := Shown(f.kind, f.values);
    assert Contents(ValueTags(values)) == CheckedTexts(values);
    Digit();
    if f.kind == Boolean {
      assert CheckedTexts(values) == values;
    }
  }

  lemma Digit()
    ensures Checked("0") == "0" && Checked("1") == "1"
  {
  }

  lemma ChildrenOfField(f: Field, name: string)
    requires f.kind != FieldType.Invalid && name in {"value", "required", "desc", "option"}
    ensures
      Children(Print(f).children, name) ==
      if name == "value" then ValueTags(Shown(f.kind, f.values))
      else if name == "option" then (if List(f.kind) then OptionTags(f.options) else [])
      else if name == "required" then (if f.required then [Element("required", "")] else [])
      else if f.desc != "" then [Element("desc", f.desc)] else []
  {
    hide Children, Shown, Checked, OptionTag, OptionTags, ValueTags, FieldElement, List;
    var required := if f.required then [Element("required", "")] else [];
    var desc := if f.desc != "" then [Element("desc", f.desc)] else [];
    var options := if List(f.kind) then OptionTags(f.options) else [];
    var values := ValueTags(Shown(f.kind, f.values));
    OptionNames(f.options);
    ValueNames(Shown(f.kind, f.values));
    assert Print(f).children == required + desc + options + values;
    FourParts(required, desc, options, values, name);
  }

  lemma FourParts(a: seq<Tag>, b: seq<Tag>, c: seq<Tag>, d: seq<Tag>, name: string)
    requires AllNamed(a, "required") && AllNamed(b, "desc") && AllNamed(c, "option") && AllNamed(d, "value")
    requires name in {"value", "required", "desc", "option"}
    ensures
      Children(a + b + c + d, name) ==
      if name == "value" then d else if name == "option" then c else if name == "required" then a else b
  {
    hide Children, AllNamed;
    ChildrenAppend(a + b + c, d, name);
    ChildrenAppend(a + b, c, name);
    ChildrenAppend(a, b, name);
    ChildrenNamed(a, "required", name);
    ChildrenNamed(b, "desc", name);
    ChildrenNamed(c, "option", name);
    ChildrenNamed(d, "value", name);
  }

  lemma OptionNames(l: seq<Choice>)
    ensures AllNamed(OptionTags(l), "option")
  {
  }

  lemma ValueNames(l: seq<string>)
    ensures AllNamed(ValueTags(l), "value")
  {
  }

  // A form

  /** The names of section 3.1 of XEP-0004. */
  predicate FormTypeIs(kind: FormType, name: string) {
    match kind
    case TypeForm => name == "form"
    case TypeSubmit => name == "submit"
    case TypeCancel => name == "cancel"
    case TypeResult => name == "result"
    case TypeInvalid => true
  }

  lemma FormAttribute(kind: FormType)
    requires kind != TypeInvalid
    ensures FormTypeIs(kind, FindAttribute(FormElement(kind), "type"))
  {
    hide Found, Replaced;
    var e := Element("x", "").(xmlns := XMLNS_X_DATA);
    AbsentReadsEmpty(e.attributes, "type");
    NewAttribute(e, "type", FormTypeName(kind), "type");
    FormNames(kind);
  }

  lemma FormNames(kind: FormType)
    ensures Checked(FormTypeName(kind)) == FormTypeName(kind) && FormTypeIs(kind, FormTypeName(kind))
  {
  }

  lemma {:induction false} TextsNamed(name: string, l: seq<string>)
    ensures AllNamed(Texts(name, l), name) && Contents(Texts(name, l)) == CheckedTexts(l)
  {
    hide Checked;
    if l == [] {
    } else {
      TextsNamed(name, l[1..]);
      var rest := Texts(name, l[1..]);
      assert Contents([Element(name, l[0])] + rest) == [Checked(l[0])] + Contents(rest);
      assert CheckedTexts(l) == [Checked(l[0])] + CheckedTexts(l[1..]);
    }
  }

  lemma {:induction false} FieldsNamed(l: seq<Field>)
    ensures AllNamed(FieldTags(l), "field")
  {
    hide Print;
    if l == [] {
    } else {
      FieldsNamed(l[1..]);
      if l[0].kind != FieldType.Invalid {
        PrintName(l[0]);
      }
    }
  }

  lemma {:induction false} ItemsNamed(l: seq<seq<Field>>)
    ensures AllNamed(ItemTags(l), "item")
  {
    hide FieldTags;
    if l == [] {
    } else {
      ItemsNamed(l[1..]);
    }
  }

  /** The element of a form has its parts where XEP-0004 puts them. */
  lemma FormAsSpecified(f: Form)
    requires f.kind != TypeInvalid
    ensures
      var t := PrintForm(f);
      && t.name == "x" && t.xmlns == "jabber:x:data" && FormTypeIs(f.kind, FindAttribute(t, "type"))
      && Contents(Children(t.children, "title")) == (if f.title == "" then [] else [Checked(f.title)])
      && Contents(Children(t.children, "instructions")) == CheckedTexts(f.instructions)
      && Children(t.children, "field") == FieldTags(f.fields)
      && Children(t.children, "reported") == ReportedTags(f.reported)
      && Children(t.children, "item") == ItemTags(f.items)
  {
    hide Children, Contents, Texts, FieldTags, ItemTags, Checked, FormElement, Found;
    FormAttribute(f.kind);
    FormElementNamed(f.kind);
    TextsNamed("title", if f.title == "" then [] else [f.title]);
    TextsNamed("instructions", f.instructions);
    FieldsNamed(f.fields);
    ItemsNamed(f.items);
    assert AllNamed(ReportedTags(f.reported), "reported");
    var title, notes := TitleTags(f.title), Texts("instructions", f.instructions);
    forall name | name in {"title", "instructions", "field", "reported", "item"}
      ensures
        Children(PrintForm(f).children, name) ==
        if name == "title" then title else if name == "instructions" then notes
        else if name == "field" then FieldTags(f.fields)
        else if name == "reported" then ReportedTags(f.reported) else ItemTags(f.items)
    {
      FiveParts(title, notes, FieldTags(f.fields), ReportedTags(f.reported), ItemTags(f.items), name);
    }
    TitleTold(f.title);
  }

  lemma TitleTold(title: string)
    ensures CheckedTexts(if title == "" then [] else [title]) == if title == "" then [] else [Checked(title)]
  {
  }

  lemma FormElementNamed(kind: FormType)
    ensures FormElement(kind).name == "x" && FormElement(kind).xmlns == "jabber:x:data"
  {
  }

  lemma FiveParts(a: seq<Tag>, b: seq<Tag>, c: seq<Tag>, d: seq<Tag>, e: seq<Tag>, name: string)
    requires AllNamed(a, "title") && AllNamed(b, "instructions") && AllNamed(c, "field")
    requires AllNamed(d, "reported") && AllNamed(e, "item")
    requires name in {"title", "instructions", "field", "reported", "item"}
    ensures
      Children(a + b + c + d + e, name) ==
      if name == "title" then a else if name == "instructions" then b else if name == "field" then c
      else if name == "reported" then d else e
  {
    hide Children, AllNamed;
    ChildrenAppend(a + b + c + d, e, name);
    ChildrenAppend(a + b + c, d, name);
    ChildrenAppend(a + b, c, name);
    ChildrenAppend(a, b, name);
    ChildrenNamed(a, "title", name);
    ChildrenNamed(b, "instructions", name);
    ChildrenNamed(c, "field", name);
    ChildrenNamed(d, "reported", name);
    ChildrenNamed(e, "item", name);
  }

  // The answer to a query

  lemma IdentityAsSpecified(i: Identity)
    ensures
      var t := IdentityTag(i);
      && t.name == "identity" && FindAttribute(t, "category") == Checked(i.category)
      && FindAttribute(t, "type") == Checked(i.kind) && FindAttribute(t, "name") == Checked(i.name)
  {
    hide Found, IdentityTag, Checked;
    IdentityBack(i);
  }

  predicate IdentityTold(t: Tag, i: Identity) {
    && FindAttribute(t, "category") == i.category
    && FindAttribute(t, "type") == i.kind && FindAttribute(t, "name") == i.name
  }

  /** What is told of the identities: the complete ones, each with its attributes. */
  predicate IdentitiesTold(l: seq<Tag>, il: seq<Identity>) {
    |l| == |Completed(il)| && forall k | 0 <= k < |l| :: IdentityTold(l[k], Completed(il)[k])
  }

  lemma {:induction false} IdentitiesAsSpecified(il: seq<Identity>)
    ensures IdentitiesTold(IdentityTags(il), il) && AllNamed(IdentityTags(il), "identity")
  {
    hide IdentityTag, CheckedIdentity, IdentityTold, Complete;
    if il == [] {
    } else {
      IdentitiesAsSpecified(il[1..]);
      FirstTold(il[0]);
      if Complete(il[0]) {
        assert IdentityTags(il) == [IdentityTag(il[0])] + IdentityTags(il[1..]);
        assert Completed(il) == [CheckedIdentity(il[0])] + Completed(il[1..]);
      } else {
        assert IdentityTags(il) == IdentityTags(il[1..]) && Completed(il) == Completed(il[1..]);
      }
    }
  }

  lemma FirstTold(i: Identity)
    ensures IdentityTold(IdentityTag(i), CheckedIdentity(i)) && IdentityTag(i).name == "identity"
  {
    hide IdentityTag, Checked, Found;
    IdentityAsSpecified(i);
  }

  lemma {:induction false} FeaturesAsSpecified(fl: seq<string>)
    ensures AllNamed(FeatureTags(fl), "feature") && |FeatureTags(fl)| == |fl|
    ensures forall k | 0 <= k < |fl| :: FindAttribute(FeatureTags(fl)[k], "var") == Checked(fl[k])
  {
    hide Found, FeatureTag, Checked;
    if fl == [] {
    } else {
      FeaturesAsSpecified(fl[1..]);
      FeatureNamed(fl[0]);
    }
  }

  lemma FeatureNamed(f: string)
    ensures FeatureTag(f).name == "feature" && FindAttribute(FeatureTag(f), "var") == Checked(f)
  {
    hide Found, Replaced, ValidText;
    var e := Element("feature", "");
    AbsentReadsEmpty(e.attributes, "var");
    NewAttribute(e, "var", f, "var");
  }

  /** The answer to a query has identities, features and form where XEP-0030 and XEP-0128 put them. */
  lemma InfoAsSpecified(i: Info)
    ensures
      var t := InfoTag(i);
      var features := Children(t.children, "feature");
      && t.name == "query" && t.xmlns == "http://jabber.org/protocol/disco#info"
      && FindAttribute(t, "node") == Checked(i.node)
      && IdentitiesTold(Children(t.children, "identity"), i.identities)
      && |features| == |i.features|
      && (forall k | 0 <= k < |features| :: FindAttribute(features[k], "var") == Checked(i.features[k]))
      && Children(t.children, "x") == FormTags(i.form)
  {
    hide Found, IdentityTags, FeatureTags, Checked, Children, PrintForm, Completed, FormTags, QueryElement;
    QueryAsSpecified(i.node);
    IdentitiesAsSpecified(i.identities);
    FeaturesAsSpecified(i.features);
    FormNamed(i.form);
    var a, b, c := IdentityTags(i.identities), FeatureTags(i.features), FormTags(i.form);
    ThreeParts(a, b, c, "identity");
    ThreeParts(a, b, c, "feature");
    ThreeParts(a, b, c, "x");
  }

  lemma QueryAsSpecified(node: string)
    ensures
      var t := QueryElement(node);
      && t.name == "query" && t.xmlns == "http://jabber.org/protocol/disco#info"
      && FindAttribute(t, "node") == Checked(node)
  {
    hide Found, Replaced, ValidText;
    var e := Element("query", "").(xmlns := XMLNS_DISCO_INFO);
    AbsentReadsEmpty(e.attributes, "node");
    NewAttribute(e, "node", node, "node");
  }

  lemma FormNamed(f: MaybeForm)
    ensures AllNamed(FormTags(f), "x")
  {
    hide FieldTags, ItemTags, Texts;
  }

  lemma ThreeParts(a: seq<Tag>, b: seq<Tag>, c: seq<Tag>, name: string)
    requires AllNamed(a, "identity") && AllNamed(b, "feature") && AllNamed(c, "x")
    requires name in {"identity", "feature", "x"}
    ensures Children(a + b + c, name) == if name == "identity" then a else if name == "feature" then b else c
  {
    hide Children, AllNamed;
    ChildrenAppend(a + b, c, name);
    ChildrenAppend(a, b, name);
    ChildrenNamed(a, "identity", name);
    ChildrenNamed(b, "feature", name);
    ChildrenNamed(c, "x", name);
  }
}
