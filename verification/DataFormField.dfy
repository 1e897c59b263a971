/** Fields of data forms (XEP-0004): their elements, and reading them. */
module DataFormField {
  import opened Ordering
  import opened XmlTag

  datatype FieldType =
    | Boolean | Fixed | Hidden | JidMulti | JidSingle | ListMulti | ListSingle
    | TextMulti | TextPrivate | TextSingle | Untyped | Invalid

  datatype Choice = Choice(caption: string, value: string)

  datatype Field = Field(kind: FieldType, name: string, caption: string, desc: string, required: bool,
                         values: seq<string>, options: seq<Choice>)

  /** The name of a type other than Invalid; no type has none. */
  function TypeName(kind: FieldType): string {
    match kind
    case Boolean => "boolean"
    case Fixed => "fixed"
    case Hidden => "hidden"
    case JidMulti => "jid-multi"
    case JidSingle => "jid-single"
    case ListMulti => "list-multi"
    case ListSingle => "list-single"
    case TextMulti => "text-multi"
    case TextPrivate => "text-private"
    case TextSingle => "text-single"
    case _ => ""
  }

  function TypeOf(name: string): FieldType {
    if name == "boolean" then Boolean
    else if name == "fixed" then Fixed
    else if name == "hidden" then Hidden
    else if name == "jid-multi" then JidMulti
    else if name == "jid-single" then JidSingle
    else if name == "list-multi" then ListMulti
    else if name == "list-single" then ListSingle
    else if name == "text-multi" then TextMulti
    else if name == "text-private" then TextPrivate
    else if name == "text-single" then TextSingle
    else if name == "" then Untyped
    else Invalid
  }

  predicate Multi(kind: FieldType) {
    kind == TextMulti || kind == ListMulti || kind == JidMulti
  }

  predicate List(kind: FieldType) {
    kind == ListSingle || kind == ListMulti
  }

  // Options

  /** The options are a std::multimap by label: a list in the order of the labels. */
  ghost predicate Ordered(l: seq<Choice>) {
    forall i, j | 0 <= i < j < |l| :: LessEq(l[i].caption, l[j].caption)
  }

  /** std::multimap::insert: behind the options with the same label. */
  function WithOption(l: seq<Choice>, o: Choice): seq<Choice> {
    if l == [] || !LessEq(l[0].caption, o.caption) then [o] + l else [l[0]] + WithOption(l[1..], o)
  }

  lemma {:induction false} OptionAtEnd(l: seq<Choice>, o: Choice)
    requires forall i | 0 <= i < |l| :: LessEq(l[i].caption, o.caption)
    ensures WithOption(l, o) == l + [o]
  {
    hide LessEq;
    if l == [] {
    } else {
      OptionAtEnd(l[1..], o);
      assert [l[0]] + (l[1..] + [o]) == l + [o];
    }
  }

  lemma {:induction false} OptionInOrder(l: seq<Choice>, o: Choice)
    requires Ordered(l)
    ensures Ordered(WithOption(l, o))
    ensures forall c | c in WithOption(l, o) :: c in l || c == o
  {
    hide LessEq;
    if l == [] {
    } else {
      if LessEq(l[0].caption, o.caption) {
        OptionInOrder(l[1..], o);
        var rest := WithOption(l[1..], o);
        forall j | 0 <= j < |rest|
          ensures LessEq(l[0].caption, rest[j].caption)
        {
          assert rest[j] in rest;
        }
      } else {
        Total(l[0].caption, o.caption);
        forall j | 0 < j < |l|
          ensures LessEq(o.caption, l[j].caption)
        {
          Transitive(o.caption, l[0].caption, l[j].caption);
        }
      }
    }
  }

  /** Options inserted one after the other. */
  function WithOptions(l: seq<Choice>, more: seq<Choice>): seq<Choice>
    decreases |more|
  {
    if more == [] then l else WithOptions(WithOption(l, more[0]), more[1..])
  }

  lemma {:induction false} OptionsInOrder(l: seq<Choice>, more: seq<Choice>)
    requires Ordered(l)
    ensures Ordered(WithOptions(l, more))
    ensures forall c | c in WithOptions(l, more) :: c in l || c in more
    decreases |more|
  {
    hide Ordered, WithOption;
    if more == [] {
    } else {
      OptionInOrder(l, more[0]);
      OptionsInOrder(WithOption(l, more[0]), more[1..]);
      assert more == [more[0]] + more[1..];
    }
  }

  /** Inserting options that come in the order of their labels keeps them as they come. */
  lemma {:induction false} OrderedOptions(l: seq<Choice>, more: seq<Choice>)
    requires Ordered(l + more)
    ensures WithOptions(l, more) == l + more
    decreases |more|
  {
    hide LessEq, WithOption;
    var all := l + more;
    if more == [] {
      assert all == l;
    } else {
      forall i | 0 <= i < |l|
        ensures LessEq(l[i].caption, more[0].caption)
      {
        assert LessEq(all[i].caption, all[|l|].caption);
      }
      OptionAtEnd(l, more[0]);
      assert l + [more[0]] + more[1..] == all;
      OrderedOptions(l + [more[0]], more[1..]);
    }
  }

  /** An option as its element tells of it. */
  function CheckedOption(o: Choice): Choice {
    Choice(Checked(o.caption), Checked(o.value))
  }

  function CheckedOptions(l: seq<Choice>): (r: seq<Choice>)
    ensures |r| == |l|
  {
    seq(|l|, i requires 0 <= i < |l| => CheckedOption(l[i]))
  }

  predicate ValidOptions(l: seq<Choice>) {
    forall i | 0 <= i < |l| :: ValidText(l[i].caption) && ValidText(l[i].value)
  }

  lemma CheckedOptionsValid(l: seq<Choice>)
    ensures ValidOptions(CheckedOptions(l))
    ensures ValidOptions(l) <==> CheckedOptions(l) == l
  {
    hide ValidText;
    forall i | 0 <= i < |l|
      ensures CheckedOption(l[i]) == l[i] <==> ValidText(l[i].caption) && ValidText(l[i].value)
      ensures ValidText(CheckedOption(l[i]).caption) && ValidText(CheckedOption(l[i]).value)
    {
      CheckedTwice(l[i].caption);
      CheckedTwice(l[i].value);
    }
    if CheckedOptions(l) == l {
      assert forall i | 0 <= i < |l| :: CheckedOption(l[i]) == CheckedOptions(l)[i] == l[i];
    }
  }

  // The element

  function ValueTags(values: seq<string>): (r: seq<Tag>)
    ensures |r| == |values|
  {
    seq(|values|, i requires 0 <= i < |values| => Element("value", values[i]))
  }

  function OptionTag(o: Choice): Tag {
    WithChild(WithAttribute(Element("option", ""), "label", o.caption), Element("value", o.value))
  }

  function OptionTags(options: seq<Choice>): (r: seq<Tag>)
    ensures |r| == |options|
  {
    seq(|options|, i requires 0 <= i < |options| => OptionTag(options[i]))
  }

  /** What is printed of the values. */
  function Shown(kind: FieldType, values: seq<string>): seq<string> {
    if kind == Boolean then [if values == [] || values[0] == "false" || values[0] == "0" then "0" else "1"]
    else if Multi(kind) || values == [] then values
    else values[..1]
  }

  function FieldElement(f: Field): Tag {
    var t := WithAttribute(Element("field", ""), "type", TypeName(f.kind));
    WithAttribute(WithAttribute(t, "var", f.name), "label", f.caption)
  }

  function Notes(f: Field): seq<Tag> {
    (if f.required then [Element("required", "")] else []) + (if f.desc != "" then [Element("desc", f.desc)] else [])
  }

  /** DataFormField::tag, for any type but Invalid. */
  function Print(f: Field): Tag
    requires f.kind != Invalid
  {
    FieldElement(f).(children :=
      Notes(f) + (if List(f.kind) then OptionTags(f.options) else []) + ValueTags(Shown(f.kind, f.values)))
  }

  // Reading

  function FirstNamed(l: seq<Tag>, name: string): seq<Tag> {
    if l == [] then [] else if l[0].name == name then [l[0]] else FirstNamed(l[1..], name)
  }

  /** A field after one more child of its element. */
  function AfterChild(f: Field, t: Tag): Field {
    if t.name == "desc" then f.(desc := t.cdata)
    else if t.name == "required" then f.(required := true)
    else if t.name == "value" then f.(values := if Multi(f.kind) then f.values + [t.cdata] else [t.cdata])
    else if t.name == "option" then
      var v := FirstNamed(t.children, "value");
      if v == [] then f else f.(options := WithOption(f.options, Choice(FindAttribute(t, "label"), v[0].cdata)))
    else f
  }

  function AfterChildren(f: Field, l: seq<Tag>): Field
    decreases |l|
  {
    if l == [] then f else AfterChildren(AfterChild(f, l[0]), l[1..])
  }

  function Head(t: Tag): Field {
    var ty := FindAttribute(t, "type");
    Field(if ty == "" && t.name == "" then Invalid else TypeOf(ty), FindAttribute(t, "var"), FindAttribute(t, "label"),
          "", false, [], [])
  }

  function Read(t: Tag): Field {
    AfterChildren(Head(t), t.children)
  }

  lemma {:induction false} AfterAppend(f: Field, a: seq<Tag>, b: seq<Tag>)
    ensures AfterChildren(f, a + b) == AfterChildren(AfterChildren(f, a), b)
    decreases |a|
  {
    hide AfterChild;
    if a == [] {
      assert a + b == b;
    } else {
      assert (a + b)[1..] == a[1..] + b;
      AfterAppend(AfterChild(f, a[0]), a[1..], b);
    }
  }

  /** DataFormField::DataFormField( const Tag* ). */
  method ReadField(t: Tag) returns (f: Field)
    ensures f == Read(t)
  {
    hide FirstNamed, WithOption, Found, TypeOf, Multi;
    f := Field(Invalid, "", "", "", false, [], []);
    var ty := FindAttribute(t, "type");
    if ty == "" {
      assert TypeOf("") == Untyped by { TypeNames(Untyped); }
      if t.name != "" {
        f := f.(kind := Untyped);
      }
    } else {
      f := f.(kind := TypeOf(ty));
    }
    if HasAttribute(t, "var") {
      f := f.(name := FindAttribute(t, "var"));
    } else {
      AbsentReadsEmpty(t.attributes, "var");
    }
    if HasAttribute(t, "label") {
      f := f.(caption := FindAttribute(t, "label"));
    } else {
      AbsentReadsEmpty(t.attributes, "label");
    }
    assert f == Head(t);
    var l := t.children;
    assert l[0..] == l;
    for i := 0 to |l|
      invariant AfterChildren(f, l[i..]) == Read(t)
    {
      assert l[i..][1..] == l[i + 1..];
      var c := l[i];
      ghost var before := f;
      if c.name == "desc" {
        f := f.(desc := c.cdata);
      } else if c.name == "required" {
        f := f.(required := true);
      } else if c.name == "value" {
        f := f.(values := if Multi(f.kind) then f.values + [c.cdata] else [c.cdata]);
      } else if c.name == "option" {
        var v := FirstNamed(c.children, "value");
        if v != [] {
          f := f.(options := WithOption(f.options, Choice(FindAttribute(c, "label"), v[0].cdata)));
        }
      }
      assert f == AfterChild(before, c);
    }
  }

  lemma TypeNames(kind: FieldType)
    requires kind != Invalid
    ensures TypeOf(TypeName(kind)) == kind
  {
  }

  // From a field to its element and back

  function CheckedTexts(l: seq<string>): (r: seq<string>)
    ensures |r| == |l|
  {
    seq(|l|, i requires 0 <= i < |l| => Checked(l[i]))
  }

  predicate ValidTexts(l: seq<string>) {
    forall i | 0 <= i < |l| :: ValidText(l[i])
  }

  lemma CheckedTextsValid(l: seq<string>)
    ensures ValidTexts(CheckedTexts(l))
    ensures ValidTexts(l) <==> CheckedTexts(l) == l
  {
    hide ValidText;
    forall i | 0 <= i < |l|
      ensures (Checked(l[i]) == l[i] <==> ValidText(l[i])) && ValidText(Checked(l[i]))
    {
      CheckedTwice(l[i]);
    }
    if CheckedTexts(l) == l {
      assert forall i | 0 <= i < |l| :: Checked(l[i]) == CheckedTexts(l)[i] == l[i];
    }
  }

  /** The options as the element of a field with options tells of them: in the order of what their labels became. */
  function NormOptions(kind: FieldType, options: seq<Choice>): seq<Choice> {
    if List(kind) then WithOptions([], CheckedOptions(options)) else []
  }

  /** A field as its element tells of it. */
  function Norm(f: Field): Field {
    Field(f.kind, Checked(f.name), Checked(f.caption), Checked(f.desc), f.required,
          CheckedTexts(Shown(f.kind, f.values)), NormOptions(f.kind, f.options))
  }

  lemma {:induction false} ReadValues(f: Field, values: seq<string>)
    requires Multi(f.kind)
    ensures AfterChildren(f, ValueTags(values)) == f.(values := f.values + CheckedTexts(values))
    decreases |values|
  {
    hide Checked, AfterChild, Multi;
    if values == [] {
      assert f.values + [] == f.values;
    } else {
      assert ValueTags(values)[1..] == ValueTags(values[1..]);
      assert CheckedTexts(values) == [Checked(values[0])] + CheckedTexts(values[1..]);
      ReadValue(f, values[0]);
      ReadValues(f.(values := f.values + [Checked(values[0])]), values[1..]);
      assert f.values + [Checked(values[0])] + CheckedTexts(values[1..]) == f.values + CheckedTexts(values);
    }
  }

  lemma ReadValue(f: Field, value: string)
    requires Multi(f.kind)
    ensures AfterChild(f, Element("value", value)) == f.(values := f.values + [Checked(value)])
  {
    hide Checked, Multi;
  }

  lemma ReadOption(f: Field, o: Choice)
    ensures AfterChild(f, OptionTag(o)) == f.(options := WithOption(f.options, CheckedOption(o)))
  {
    hide ValidText;
    NewAttribute(Element("option", ""), "label", o.caption, "label");
    assert FirstNamed([Element("value", o.value)], "value") == [Element("value", o.value)];
  }

  lemma {:induction false} ReadOptions(f: Field, options: seq<Choice>)
    ensures AfterChildren(f, OptionTags(options)) == f.(options := WithOptions(f.options, CheckedOptions(options)))
    decreases |options|
  {
    hide AfterChild, OptionTag, LessEq, WithOption, Checked;
    if options == [] {
    } else {
      assert OptionTags(options)[1..] == OptionTags(options[1..]);
      assert CheckedOptions(options)[1..] == CheckedOptions(options[1..]);
      ReadOption(f, options[0]);
      ReadOptions(AfterChild(f, OptionTag(options[0])), options[1..]);
    }
  }

  lemma ReadHead(f: Field)
    requires f.kind != Invalid
    ensures Head(FieldElement(f)) == Field(f.kind, Checked(f.name), Checked(f.caption), "", false, [], [])
  {
    hide Replaced, Found, TypeOf, TypeName, ValidText;
    var e0 := Element("field", "");
    var e1 := WithAttribute(e0, "type", TypeName(f.kind));
    var e2 := WithAttribute(e1, "var", f.name);
    forall k | k in {"type", "var", "label"}
      ensures FindAttribute(e0, k) == ""
      ensures FindAttribute(e1, k) == if k == "type" then Checked(TypeName(f.kind)) else ""
    {
      AbsentReadsEmpty(e0.attributes, k);
      AbsentReadsEmpty(e0.attributes, "type");
      NewAttribute(e0, "type", TypeName(f.kind), k);
    }
    forall k | k in {"type", "var", "label"}
      ensures FindAttribute(FieldElement(f), k) ==
              if k == "type" then Checked(TypeName(f.kind))
              else if k == "var" then Checked(f.name) else Checked(f.caption)
    {
      NewAttribute(e1, "var", f.name, "label");
      NewAttribute(e1, "var", f.name, k);
      NewAttribute(e2, "label", f.caption, k);
    }
    ValidTypeName(f.kind);
    TypeNames(f.kind);
  }

  lemma ValidTypeName(kind: FieldType)
    ensures Checked(TypeName(kind)) == TypeName(kind)
  {
    var s := TypeName(kind);
    assert forall i | 0 <= i < |s| :: s[i] == '-' || 'a' <= s[i] <= 'z';
  }

  lemma ReadNotes(f: Field, head: Field)
    requires head.desc == "" && !head.required
    ensures AfterChildren(head, Notes(f)) == head.(desc := Checked(f.desc), required := f.required)
  {
    hide ValidText;
    AfterAppend(head, if f.required then [Element("required", "")] else [],
                if f.desc != "" then [Element("desc", f.desc)] else []);
    var r := Element("required", "");
    var d := Element("desc", f.desc);
    assert AfterChildren(head, [r]) == AfterChild(head, r);
    var h := head.(required := f.required);
    assert AfterChildren(h, [d]) == AfterChild(h, d);
  }

  lemma ReadShown(f: Field, values: seq<string>)
    requires f.values == []
    ensures AfterChildren(f, ValueTags(Shown(f.kind, values))) == f.(values := CheckedTexts(Shown(f.kind, values)))
  {
    hide ValidText;
    var shown := Shown(f.kind, values);
    if Multi(f.kind) {
      ReadValues(f, shown);
      assert [] + CheckedTexts(shown) == CheckedTexts(shown);
    } else if shown == [] {
      assert ValueTags(shown) == [] && CheckedTexts(shown) == [];
    } else {
      var t := Element("value", shown[0]);
      assert ValueTags(shown) == [t] && CheckedTexts(shown) == [Checked(shown[0])];
      assert AfterChildren(f, [t]) == AfterChild(f, t);
    }
  }

  /** What is printed reads back as the field, normalized. */
  lemma ReadPrint(f: Field)
    requires f.kind != Invalid
    ensures Read(Print(f)) == Norm(f)
  {
    hide AfterChildren, Notes, Shown, OptionTags, ValueTags, FieldElement, Checked;
    hide CheckedTexts, CheckedOptions, WithOptions;
    var options := if List(f.kind) then OptionTags(f.options) else [];
    var values := ValueTags(Shown(f.kind, f.values));
    var h0 := Head(FieldElement(f));
    ReadHead(f);
    assert Head(Print(f)) == h0;
    AfterAppend(h0, Notes(f) + options, values);
    AfterAppend(h0, Notes(f), options);
    ReadNotes(f, h0);
    var h1 := AfterChildren(h0, Notes(f));
    NoChildren(h1);
    if List(f.kind) {
      ReadOptions(h1, f.options);
    }
    var h2 := AfterChildren(h1, options);
    ReadShown(h2, f.values);
  }

  lemma NoChildren(f: Field)
    ensures AfterChildren(f, []) == f
  {
  }

  /** Normalizing once is enough. */
  lemma NormTwice(f: Field)
    ensures Norm(Norm(f)) == Norm(f)
  {
    hide Checked, ValidTexts, ValidOptions, WithOptions, CheckedTexts, CheckedOptions, Shown;
    CheckedTwice(f.name);
    CheckedTwice(f.caption);
    CheckedTwice(f.desc);
    ShownTwice(f.kind, f.values);
    CheckedTextsValid(Shown(f.kind, f.values));
    CheckedTextsValid(CheckedTexts(Shown(f.kind, f.values)));
    NormOptionsTwice(f.kind, f.options);
  }

  lemma ShownTwice(kind: FieldType, values: seq<string>)
    ensures Shown(kind, CheckedTexts(Shown(kind, values))) == CheckedTexts(Shown(kind, values))
  {
    var shown := Shown(kind, values);
    var c := CheckedTexts(shown);
    if kind == Boolean {
      assert ValidText("0") && ValidText("1");
      assert c == shown;
    } else if !Multi(kind) && c != [] {
      assert |c| == 1 && c[..1] == c;
    }
  }

  /** Normalized options are in order and may be in XML. */
  lemma NormOptionsValid(kind: FieldType, options: seq<Choice>)
    ensures Ordered(NormOptions(kind, options)) && ValidOptions(NormOptions(kind, options))
  {
    hide CheckedOptions, WithOptions, ValidText;
    var c := CheckedOptions(options);
    CheckedOptionsValid(options);
    OptionsInOrder([], c);
    var n := NormOptions(kind, options);
    forall i | 0 <= i < |n|
      ensures ValidText(n[i].caption) && ValidText(n[i].value)
    {
      assert n[i] in n && n[i] in c;
    }
  }

  lemma NormOptionsTwice(kind: FieldType, options: seq<Choice>)
    ensures NormOptions(kind, NormOptions(kind, options)) == NormOptions(kind, options)
  {
    hide Ordered, ValidOptions, WithOptions, CheckedOptions;
    var n := NormOptions(kind, options);
    NormOptionsValid(kind, options);
    CheckedOptionsValid(n);
    assert [] + n == n;
    OrderedOptions([], n);
  }

  /** The description may be in XML, and what the labels of the options become is in order still. */
  ghost predicate Stable(f: Field) {
    ValidText(f.desc) && (List(f.kind) ==> Ordered(CheckedOptions(f.options)))
  }

  lemma OrderedSame(options: seq<Choice>)
    ensures Ordered(CheckedOptions(options)) <==> WithOptions([], CheckedOptions(options)) == CheckedOptions(options)
  {
    hide Ordered, WithOptions, CheckedOptions;
    NormOptionsValid(ListMulti, options);
    assert NormOptions(ListMulti, options) == WithOptions([], CheckedOptions(options));
    var c := CheckedOptions(options);
    assert [] + c == c;
    if Ordered(c) {
      OrderedOptions([], c);
    }
  }

  /** Normalizing does not show in the element if and only if the field is stable. */
  lemma NormPrints(f: Field)
    requires f.kind != Invalid
    ensures Norm(f).kind == f.kind
    ensures Print(Norm(f)) == Print(f) <==> Stable(f)
  {
    hide Notes, CheckedOptions, CheckedTexts, WithOptions, Shown, FieldElement, OptionTags, ValueTags;
    hide Ordered, ValidText;
    var n := Norm(f);
    var v, o := ValueTags(Shown(f.kind, f.values)), if List(f.kind) then OptionTags(f.options) else [];
    var o' := if List(f.kind) then OptionTags(n.options) else [];
    SameElementHead(f);
    SameNotes(f);
    SameValues(f);
    assert Print(n).children == Notes(n) + o' + v && Print(f).children == Notes(f) + o + v;
    OrderedSame(f.options);
    if List(f.kind) {
      SameOptionTags(n.options, f.options);
      OptionCount(f.options);
    }
    if ValidText(f.desc) {
      SameMiddle(Notes(f), o', o, v);
    } else {
      assert |o'| == |o|;
      assert |Print(n).children| == |Notes(n)| + |o'| + |v| && |Print(f).children| == |Notes(f)| + |o| + |v|;
    }
  }

  lemma OptionCount(options: seq<Choice>)
    ensures |WithOptions([], CheckedOptions(options))| == |options|
  {
    hide CheckedOptions;
    CountOptions([], CheckedOptions(options));
  }

  lemma {:induction false} CountOptions(l: seq<Choice>, more: seq<Choice>)
    ensures |WithOptions(l, more)| == |l| + |more|
    decreases |more|
  {
    hide WithOption;
    if more == [] {
    } else {
      CountOption(l, more[0]);
      CountOptions(WithOption(l, more[0]), more[1..]);
    }
  }

  lemma {:induction false} CountOption(l: seq<Choice>, o: Choice)
    ensures |WithOption(l, o)| == |l| + 1
  {
    hide LessEq;
    if l == [] || !LessEq(l[0].caption, o.caption) {
    } else {
      CountOption(l[1..], o);
    }
  }

  lemma SameMiddle<T>(a: seq<T>, b: seq<T>, c: seq<T>, d: seq<T>)
    ensures a + b + d == a + c + d <==> b == c
  {
    if a + b + d == a + c + d {
      assert |a + b + d| == |a| + |b| + |d| && |a + c + d| == |a| + |c| + |d|;
      assert (a + b + d)[|a|..|a| + |b|] == b && (a + c + d)[|a|..|a| + |c|] == c;
    }
  }

  /** Options look the same if and only if they are checked to the same; checked options are their own. */
  lemma SameOptionTags(n: seq<Choice>, l: seq<Choice>)
    requires n == WithOptions([], CheckedOptions(l))
    ensures OptionTags(n) == OptionTags(l) <==> n == CheckedOptions(l)
  {
    hide WithOptions, OptionTag, Checked, Ordered, ValidOptions;
    CheckedOptionsValid(l);
    NormOptionsValid(ListMulti, l);
    assert NormOptions(ListMulti, l) == n;
    CheckedOptionsValid(n);
    if OptionTags(n) == OptionTags(l) {
      assert |n| == |l| by { assert |OptionTags(n)| == |n| && |OptionTags(l)| == |l|; }
      forall i | 0 <= i < |n|
        ensures n[i] == CheckedOptions(l)[i]
      {
        assert OptionTags(n)[i] == OptionTag(n[i]) && OptionTags(l)[i] == OptionTag(l[i]);
        OptionTold(n[i]);
        OptionTold(l[i]);
        assert CheckedOptions(n)[i] == n[i];
      }
    }
    if n == CheckedOptions(l) {
      forall i | 0 <= i < |n|
        ensures OptionTag(n[i]) == OptionTag(l[i])
      {
        SameOption(l[i]);
      }
      assert OptionTags(n) == OptionTags(l);
    }
  }

  lemma OptionTold(o: Choice)
    ensures
      var t := OptionTag(o);
      && FindAttribute(t, "label") == CheckedOption(o).caption
      && |t.children| == 1 && t.children[0].cdata == CheckedOption(o).value
  {
    hide Checked;
    NewAttribute(Element("option", ""), "label", o.caption, "label");
  }

  lemma SameOption(o: Choice)
    ensures OptionTag(CheckedOption(o)) == OptionTag(o)
  {
    hide ValidText;
    CheckedTwice(o.caption);
    CheckedTwice(o.value);
  }

  lemma SameElementHead(f: Field)
    ensures FieldElement(Norm(f)) == FieldElement(f)
  {
    hide ValidText, CheckedTexts, NormOptions, Shown;
    CheckedTwice(f.name);
    CheckedTwice(f.caption);
  }

  lemma SameNotes(f: Field)
    ensures if ValidText(f.desc) then Notes(Norm(f)) == Notes(f) else |Notes(Norm(f))| < |Notes(f)|
  {
    hide ValidText, CheckedTexts, NormOptions, Shown;
    CheckedTwice(f.desc);
    assert !ValidText(f.desc) ==> f.desc != "" by { Nothing(); }
  }

  lemma Nothing()
    ensures ValidText("")
  {
  }

  lemma SameValues(f: Field)
    ensures ValueTags(Shown(f.kind, Norm(f).values)) == ValueTags(Shown(f.kind, f.values))
  {
    hide ValidText;
    var shown := Shown(f.kind, f.values);
    ShownTwice(f.kind, f.values);
    forall i | 0 <= i < |shown|
      ensures Element("value", Checked(shown[i])) == Element("value", shown[i])
    {
      CheckedTwice(shown[i]);
    }
  }

  /** The fields that are in normal form already. */
  ghost predicate Normal(f: Field) {
    && ValidText(f.name) && ValidText(f.caption) && ValidText(f.desc) && ValidTexts(f.values)
    && (f.kind == Boolean ==> f.values == ["0"] || f.values == ["1"])
    && (!Multi(f.kind) ==> |f.values| <= 1)
    && (if List(f.kind) then ValidOptions(f.options) && Ordered(f.options) else f.options == [])
  }

  lemma NormalValues(kind: FieldType, values: seq<string>)
    ensures CheckedTexts(Shown(kind, values)) == values <==>
            ValidTexts(values) && (kind == Boolean ==> values == ["0"] || values == ["1"])
            && (!Multi(kind) ==> |values| <= 1)
  {
    hide ValidText, CheckedTexts;
    CheckedTextsValid(Shown(kind, values));
    if CheckedTexts(Shown(kind, values)) == values {
      ShownTwice(kind, values);
      assert |values| == |Shown(kind, values)|;
    }
    assert |values| == 1 ==> values[..1] == values;
    assert values == ["0"] ==> Shown(Boolean, values) == values;
    assert values == ["1"] ==> Shown(Boolean, values) == values;
  }

  lemma NormalOptions(kind: FieldType, options: seq<Choice>)
    ensures NormOptions(kind, options) == options <==>
            if List(kind) then ValidOptions(options) && Ordered(options) else options == []
  {
    hide Ordered, ValidOptions, CheckedOptions, WithOptions;
    NormOptionsValid(kind, options);
    CheckedOptionsValid(options);
    if List(kind) && ValidOptions(options) && Ordered(options) {
      assert [] + options == options;
      OrderedOptions([], options);
    }
  }

  lemma NormalField(f: Field)
    ensures Norm(f) == f <==> Normal(f)
  {
    hide ValidText, ValidTexts, ValidOptions, Ordered, NormOptions, CheckedTexts, Shown, Checked;
    CheckedTwice(f.name);
    CheckedTwice(f.caption);
    CheckedTwice(f.desc);
    NormalValues(f.kind, f.values);
    NormalOptions(f.kind, f.options);
  }

  /** A field survives printing and reading if and only if it is in normal form. */
  lemma Survives(f: Field)
    requires f.kind != Invalid
    ensures Read(Print(f)) == f <==> Normal(f)
  {
    hide Read, Print, Norm, Normal;
    ReadPrint(f);
    NormalField(f);
  }

  /** Equal elements mean equal normal forms; and the other way round, if normalizing does not show in them. */
  lemma SameElement(f: Field, g: Field)
    requires f.kind != Invalid && g.kind != Invalid
    ensures Print(f) == Print(g) ==> Norm(f) == Norm(g)
    ensures Stable(f) && Stable(g) ==> (Print(f) == Print(g) <==> Norm(f) == Norm(g))
  {
    hide Read, Print, Norm, Stable;
    ReadPrint(f);
    ReadPrint(g);
    NormPrints(f);
    NormPrints(g);
  }

  /** Whatever element a field is read from, its options are in order. */
  lemma ReadOrdered(t: Tag)
    ensures Ordered(Read(t).options)
  {
    AfterOrdered(Head(t), t.children);
  }

  lemma {:induction false} AfterOrdered(f: Field, l: seq<Tag>)
    requires Ordered(f.options)
    ensures Ordered(AfterChildren(f, l).options)
    decreases |l|
  {
    hide Ordered, WithOption, FirstNamed;
    if l == [] {
    } else {
      if l[0].name == "option" && FirstNamed(l[0].children, "value") != [] {
        OptionInOrder(f.options, Choice(FindAttribute(l[0], "label"), FirstNamed(l[0].children, "value")[0].cdata));
      }
      AfterOrdered(AfterChild(f, l[0]), l[1..]);
    }
  }
}
