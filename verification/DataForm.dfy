/** Data forms (XEP-0004): printing a form with its reported and item parts, reading it, and copying it. */
module DataForm {
  import opened DataFormField
  import opened XmlTag

  const XMLNS_X_DATA := "jabber:x:data"

  datatype FormType = TypeForm | TypeSubmit | TypeCancel | TypeResult | TypeInvalid

  datatype Reported = NotReported | Reported(fields: seq<Field>)

  /** The state of a DataForm object. */
  datatype Form = Form(kind: FormType, title: string, instructions: seq<string>, fields: seq<Field>,
                       reported: Reported, items: seq<seq<Field>>)

  function FormTypeName(kind: FormType): string {
    match kind
    case TypeForm => "form"
    case TypeSubmit => "submit"
    case TypeCancel => "cancel"
    case TypeResult => "result"
    case TypeInvalid => ""
  }

  function FormTypeOf(name: string): FormType {
    if name == "form" then TypeForm
    else if name == "submit" then TypeSubmit
    else if name == "cancel" then TypeCancel
    else if name == "result" then TypeResult
    else TypeInvalid
  }

  // Printing

  /** The elements of the fields; an invalid field has none. */
  function FieldTags(l: seq<Field>): seq<Tag> {
    if l == [] then [] else (if l[0].kind == Invalid then [] else [Print(l[0])]) + FieldTags(l[1..])
  }

  /** DataFormItem::tag and DataFormReported::tag. */
  function Container(name: string, l: seq<Field>): Tag {
    Element(name, "").(children := FieldTags(l))
  }

  function Texts(name: string, l: seq<string>): seq<Tag> {
    if l == [] then [] else [Element(name, l[0])] + Texts(name, l[1..])
  }

  function TitleTags(title: string): seq<Tag> {
    Texts("title", if title == "" then [] else [title])
  }

  function ItemTags(l: seq<seq<Field>>): seq<Tag> {
    if l == [] then [] else [Container("item", l[0])] + ItemTags(l[1..])
  }

  function ReportedTags(r: Reported): seq<Tag> {
    match r case NotReported => [] case Reported(fields) => [Container("reported", fields)]
  }

  function FormElement(kind: FormType): Tag {
    WithAttribute(Element("x", "").(xmlns := XMLNS_X_DATA), "type", FormTypeName(kind))
  }

  /** DataForm::tag, for any type but TypeInvalid. */
  function PrintForm(f: Form): Tag
    requires f.kind != TypeInvalid
  {
    FormElement(f.kind).(children :=
      TitleTags(f.title) + Texts("instructions", f.instructions)
      + FieldTags(f.fields) + ReportedTags(f.reported) + ItemTags(f.items))
  }

  // Reading

  function ReadAll(l: seq<Tag>): (r: seq<Field>)
    ensures |r| == |l|
  {
    if l == [] then [] else [Read(l[0])] + ReadAll(l[1..])
  }

  /** A form after one more child of its element; of several reported elements only the first counts. */
  function AfterPart(f: Form, t: Tag): Form {
    if t.name == "title" then f.(title := t.cdata)
    else if t.name == "instructions" then f.(instructions := f.instructions + [t.cdata])
    else if t.name == "field" then f.(fields := f.fields + [Read(t)])
    else if t.name == "reported" then
      (if f.reported.NotReported? then f.(reported := Reported(ReadAll(t.children))) else f)
    else if t.name == "item" then f.(items := f.items + [ReadAll(t.children)])
    else f
  }

  function AfterParts(f: Form, l: seq<Tag>): Form
    decreases |l|
  {
    if l == [] then f else AfterParts(AfterPart(f, l[0]), l[1..])
  }

  predicate IsForm(t: Tag) {
    t.xmlns == XMLNS_X_DATA && t.name == "x"
  }

  /** The type attribute; without one it is a form. */
  function TypeGiven(t: Tag): FormType {
    if FindAttribute(t, "type") == "" then TypeForm else FormTypeOf(FindAttribute(t, "type"))
  }

  /** What parse makes of a form: what is in the element is added to what was there. */
  function AfterForm(f: Form, t: Tag): Form {
    if !IsForm(t) then f
    else if TypeGiven(t) == TypeInvalid then f.(kind := TypeInvalid)
    else AfterParts(f.(kind := TypeGiven(t)), t.children)
  }

  const EMPTY := Form(TypeInvalid, "", [], [], NotReported, [])

  /** The constructors of DataFormItem and DataFormReported: every child is read as a field. */
  method ReadContainer(name: string, t: Tag) returns (fields: seq<Field>)
    ensures fields == if t.name == name then ReadAll(t.children) else []
  {
    hide Read;
    fields := [];
    if t.name != name {
      return;
    }
    var l := t.children;
    assert l[0..] == l && [] + ReadAll(l) == ReadAll(l);
    for i := 0 to |l|
      invariant fields + ReadAll(l[i..]) == ReadAll(l)
    {
      assert l[i..][1..] == l[i + 1..];
      var f := ReadField(l[i]);
      assert fields + ReadAll(l[i..]) == fields + [f] + ReadAll(l[i + 1..]);
      fields := fields + [f];
    }
  }

  class DataForm {
    var kind: FormType
    var title: string
    var instructions: seq<string>
    var fields: seq<Field>
    var reported: Reported
    var items: seq<seq<Field>>

    function State(): Form
      reads this
    {
      Form(kind, title, instructions, fields, reported, items)
    }

    constructor (kind: FormType, instructions: seq<string>, title: string)
      ensures State() == Form(kind, title, instructions, [], NotReported, [])
    {
      this.kind, this.title, this.instructions := kind, title, instructions;
      fields, reported, items := [], NotReported, [];
    }

    /** DataForm::DataForm( const DataForm& ): the items are not copied, and the reported part is printed and read. */
    constructor Copy(form: Form)
      ensures State() == Copied(form)
    {
      kind, title, instructions, fields := form.kind, form.title, form.instructions, form.fields;
      reported, items := NotReported, [];
      new;
      if form.reported.Reported? {
        var r := ReadContainer("reported", Container("reported", form.reported.fields));
        reported := Reported(r);
      }
    }

    /** DataForm::parse. */
    method Parse(t: Tag) returns (ok: bool)
      modifies this
      ensures ok == (IsForm(t) && TypeGiven(t) != TypeInvalid)
      ensures State() == AfterForm(old(State()), t)
    {
      hide Read, ReadAll, Found;
      if !IsForm(t) {
        return false;
      }
      var ty := FindAttribute(t, "type");
      if ty == "" {
        kind := TypeForm;
      } else {
        kind := FormTypeOf(ty);
        if kind == TypeInvalid {
          return false;
        }
      }
      var l := t.children;
      assert l[0..] == l;
      for i := 0 to |l|
        invariant AfterParts(State(), l[i..]) == AfterForm(old(State()), t)
      {
        assert l[i..][1..] == l[i + 1..];
        var c := l[i];
        ghost var before := State();
        if c.name == "title" {
          title := c.cdata;
        } else if c.name == "instructions" {
          instructions := instructions + [c.cdata];
        } else if c.name == "field" {
          var f := ReadField(c);
          fields := fields + [f];
        } else if c.name == "reported" {
          if reported.NotReported? {
            var r := ReadContainer("reported", c);
            reported := Reported(r);
          }
        } else if c.name == "item" {
          var r := ReadContainer("item", c);
          items := items + [r];
        }
        assert State() == AfterPart(before, c);
      }
      return true;
    }
  }

  // From a form to its element and back

  /** The fields that have an element, normalized. */
  function NormFields(l: seq<Field>): (r: seq<Field>) {
    if l == [] then [] else (if l[0].kind == Invalid then [] else [Norm(l[0])]) + NormFields(l[1..])
  }

  function NormItems(l: seq<seq<Field>>): (r: seq<seq<Field>>)
    ensures |r| == |l|
  {
    if l == [] then [] else [NormFields(l[0])] + NormItems(l[1..])
  }

  function NormReported(r: Reported): Reported {
    match r case NotReported => NotReported case Reported(fields) => Reported(NormFields(fields))
  }

  /** A form as its element tells of it. */
  function NormForm(f: Form): Form {
    Form(f.kind, Checked(f.title), CheckedTexts(f.instructions), NormFields(f.fields), NormReported(f.reported),
         NormItems(f.items))
  }

  lemma {:induction false} PartsAppend(f: Form, a: seq<Tag>, b: seq<Tag>)
    ensures AfterParts(f, a + b) == AfterParts(AfterParts(f, a), b)
    decreases |a|
  {
    hide AfterPart;
    if a == [] {
      assert a + b == b;
    } else {
      assert (a + b)[1..] == a[1..] + b;
      PartsAppend(AfterPart(f, a[0]), a[1..], b);
    }
  }

  lemma {:induction false} ReadFieldTags(l: seq<Field>)
    ensures ReadAll(FieldTags(l)) == NormFields(l)
  {
    hide Read, Print, Norm;
    if l == [] {
    } else {
      ReadFieldTags(l[1..]);
      if l[0].kind != Invalid {
        ReadPrint(l[0]);
        assert FieldTags(l)[1..] == FieldTags(l[1..]);
      } else {
        assert FieldTags(l) == FieldTags(l[1..]) && NormFields(l) == NormFields(l[1..]);
      }
    }
  }

  lemma AfterFirst(f: Form, t: Tag, rest: seq<Tag>)
    ensures AfterParts(f, [t] + rest) == AfterParts(AfterPart(f, t), rest)
  {
    hide AfterPart;
    assert ([t] + rest)[1..] == rest;
  }

  lemma NoParts(f: Form)
    ensures AfterParts(f, []) == f
  {
  }

  lemma FieldPart(f: Form, field: Field)
    requires field.kind != Invalid
    ensures AfterPart(f, Print(field)) == f.(fields := f.fields + [Norm(field)])
  {
    hide Read, Norm;
    ReadPrint(field);
    assert Print(field).name == "field" by { PrintName(field); }
  }

  lemma FirstField(l: seq<Field>)
    requires l != []
    ensures FieldTags(l) == if l[0].kind == Invalid then FieldTags(l[1..]) else [Print(l[0])] + FieldTags(l[1..])
    ensures NormFields(l) == if l[0].kind == Invalid then NormFields(l[1..]) else [Norm(l[0])] + NormFields(l[1..])
  {
    hide Norm, Print;
  }

  lemma {:induction false} PartsOfFields(f: Form, l: seq<Field>)
    ensures AfterParts(f, FieldTags(l)) == f.(fields := f.fields + NormFields(l))
    decreases |l|
  {
    hide Norm, AfterPart, AfterParts, Print, FieldTags, NormFields;
    if l == [] {
      NoFields(f);
      assert f.fields + [] == f.fields;
    } else {
      FirstField(l);
      if l[0].kind == Invalid {
        PartsOfFields(f, l[1..]);
      } else {
        AfterFirst(f, Print(l[0]), FieldTags(l[1..]));
        FieldPart(f, l[0]);
        PartsOfFields(f.(fields := f.fields + [Norm(l[0])]), l[1..]);
        assert f.fields + [Norm(l[0])] + NormFields(l[1..]) == f.fields + NormFields(l);
      }
    }
  }

  lemma NoFields(f: Form)
    ensures FieldTags([]) == [] && NormFields([]) == [] && AfterParts(f, []) == f
  {
  }

  lemma PrintName(f: Field)
    requires f.kind != Invalid
    ensures Print(f).name == "field"
  {
  }

  lemma {:induction false} PartsOfTexts(f: Form, l: seq<string>)
    ensures AfterParts(f, Texts("instructions", l)) == f.(instructions := f.instructions + CheckedTexts(l))
    decreases |l|
  {
    hide AfterParts, Checked;
    if l == [] {
      NoParts(f);
      assert f.instructions + [] == f.instructions;
    } else {
      AfterFirst(f, Element("instructions", l[0]), Texts("instructions", l[1..]));
      PartsOfTexts(f.(instructions := f.instructions + [Checked(l[0])]), l[1..]);
      assert f.instructions + [Checked(l[0])] + CheckedTexts(l[1..]) == f.instructions + CheckedTexts(l);
    }
  }

  lemma PartsOfTitle(f: Form, title: string)
    requires f.title == ""
    ensures AfterParts(f, TitleTags(title)) == f.(title := Checked(title))
  {
    hide ValidText;
    if title != "" {
      var t := Element("title", title);
      assert [title][1..] == [];
      assert Texts("title", [title]) == [t] + Texts("title", []);
      assert AfterParts(f, [t]) == AfterPart(f, t);
    }
  }

  lemma {:induction false} PartsOfItems(f: Form, l: seq<seq<Field>>)
    ensures AfterParts(f, ItemTags(l)) == f.(items := f.items + NormItems(l))
    decreases |l|
  {
    hide FieldTags, ReadAll, NormFields, AfterParts, AfterPart;
    if l == [] {
      NoParts(f);
      assert f.items + [] == f.items;
    } else {
      AfterFirst(f, Container("item", l[0]), ItemTags(l[1..]));
      ItemPart(f, l[0]);
      PartsOfItems(f.(items := f.items + [NormFields(l[0])]), l[1..]);
      assert f.items + [NormFields(l[0])] + NormItems(l[1..]) == f.items + NormItems(l);
    }
  }

  lemma ItemPart(f: Form, l: seq<Field>)
    ensures AfterPart(f, Container("item", l)) == f.(items := f.items + [NormFields(l)])
  {
    hide FieldTags, ReadAll, NormFields;
    ReadFieldTags(l);
  }

  lemma PartsOfReported(f: Form, r: Reported)
    requires f.reported.NotReported?
    ensures AfterParts(f, ReportedTags(r)) == f.(reported := NormReported(r))
  {
    hide FieldTags, ReadAll, NormFields;
    if r.Reported? {
      ReadFieldTags(r.fields);
      var t := Container("reported", r.fields);
      assert AfterParts(f, [t]) == AfterPart(f, t);
    }
  }

  lemma ElementType(kind: FormType, children: seq<Tag>)
    requires kind != TypeInvalid
    ensures
      var t := FormElement(kind).(children := children);
      IsForm(t) && TypeGiven(t) == kind
  {
    hide Replaced, Found, FormTypeName, ValidText;
    var e := Element("x", "").(xmlns := XMLNS_X_DATA);
    AbsentReadsEmpty(e.attributes, "type");
    NewAttribute(e, "type", FormTypeName(kind), "type");
    ValidFormType(kind);
  }

  lemma ValidFormType(kind: FormType)
    requires kind != TypeInvalid
    ensures Checked(FormTypeName(kind)) == FormTypeName(kind) != "" && FormTypeOf(FormTypeName(kind)) == kind
  {
    var s := FormTypeName(kind);
    assert forall i | 0 <= i < |s| :: 'a' <= s[i] <= 'z';
  }

  /** What is printed of a form reads back as the form, normalized, with parts of any length. */
  lemma ReadPrintForm(f: Form)
    requires f.kind != TypeInvalid
    ensures AfterForm(EMPTY, PrintForm(f)) == NormForm(f)
  {
    hide AfterParts, Texts, TitleTags, FieldTags, ReportedTags, ItemTags, FormElement, IsForm, TypeGiven;
    hide NormFields, NormItems, NormReported, Checked, CheckedTexts;
    var a, b := TitleTags(f.title), Texts("instructions", f.instructions);
    var c, d, e := FieldTags(f.fields), ReportedTags(f.reported), ItemTags(f.items);
    ElementType(f.kind, a + b + c + d + e);
    var f0 := EMPTY.(kind := f.kind);
    PartsAppend(f0, a + b + c + d, e);
    PartsAppend(f0, a + b + c, d);
    PartsAppend(f0, a + b, c);
    PartsAppend(f0, a, b);
    PartsOfTitle(f0, f.title);
    var f1 := f0.(title := Checked(f.title));
    PartsOfTexts(f1, f.instructions);
    assert [] + CheckedTexts(f.instructions) == CheckedTexts(f.instructions);
    var f2 := f1.(instructions := CheckedTexts(f.instructions));
    PartsOfFields(f2, f.fields);
    assert [] + NormFields(f.fields) == NormFields(f.fields);
    var f3 := f2.(fields := NormFields(f.fields));
    PartsOfReported(f3, f.reported);
    var f4 := f3.(reported := NormReported(f.reported));
    PartsOfItems(f4, f.items);
    assert [] + NormItems(f.items) == NormItems(f.items);
  }

  // Normalizing, and whether it shows

  lemma {:induction false} NormFieldsTwice(l: seq<Field>)
    ensures NormFields(NormFields(l)) == NormFields(l)
  {
    hide Norm;
    if l == [] {
    } else {
      NormFieldsTwice(l[1..]);
      if l[0].kind != Invalid {
        NormTwice(l[0]);
        NormKind(l[0]);
        assert NormFields(l)[1..] == NormFields(l[1..]);
      } else {
        assert NormFields(l) == NormFields(l[1..]);
      }
    }
  }

  lemma NormKind(f: Field)
    ensures Norm(f).kind == f.kind
  {
  }

  lemma {:induction false} NormItemsTwice(l: seq<seq<Field>>)
    ensures NormItems(NormItems(l)) == NormItems(l)
  {
    hide NormFields;
    if l == [] {
    } else {
      NormFieldsTwice(l[0]);
      NormItemsTwice(l[1..]);
      assert NormItems(l)[1..] == NormItems(l[1..]);
    }
  }

  /** Normalizing once is enough. */
  lemma NormFormTwice(f: Form)
    ensures NormForm(NormForm(f)) == NormForm(f)
  {
    hide NormFields, NormItems, ValidText, ValidTexts, CheckedTexts;
    CheckedTwice(f.title);
    CheckedTextsValid(f.instructions);
    CheckedTextsValid(CheckedTexts(f.instructions));
    NormFieldsTwice(f.fields);
    NormItemsTwice(f.items);
    if f.reported.Reported? {
      NormFieldsTwice(f.reported.fields);
    }
  }

  ghost predicate StableFields(l: seq<Field>) {
    forall i | 0 <= i < |l| :: l[i].kind != Invalid ==> Stable(l[i])
  }

  ghost predicate StableItems(l: seq<seq<Field>>) {
    forall i | 0 <= i < |l| :: StableFields(l[i])
  }

  /** The title may be in XML, and all fields are stable. */
  ghost predicate StableForm(f: Form) {
    && ValidText(f.title) && StableFields(f.fields)
    && (f.reported.Reported? ==> StableFields(f.reported.fields))
    && StableItems(f.items)
  }

  lemma {:induction false} FieldsPrint(l: seq<Field>)
    ensures |FieldTags(NormFields(l))| == |FieldTags(l)|
    ensures FieldTags(NormFields(l)) == FieldTags(l) <==> StableFields(l)
  {
    hide Norm, Print, Stable;
    if l == [] {
    } else {
      FieldsPrint(l[1..]);
      assert l == [l[0]] + l[1..];
      var n := NormFields(l[1..]);
      if l[0].kind != Invalid {
        NormPrints(l[0]);
        assert NormFields(l)[1..] == n;
        assert FieldTags(NormFields(l)) == [Print(Norm(l[0]))] + FieldTags(n);
        assert FieldTags(l) == [Print(l[0])] + FieldTags(l[1..]);
        assert FieldTags(NormFields(l))[1..] == FieldTags(n) && FieldTags(l)[1..] == FieldTags(l[1..]);
      } else {
        assert NormFields(l) == n && FieldTags(l) == FieldTags(l[1..]);
      }
    }
  }

  lemma {:induction false} ItemsPrint(l: seq<seq<Field>>)
    ensures |ItemTags(NormItems(l))| == |ItemTags(l)| == |l|
    ensures ItemTags(NormItems(l)) == ItemTags(l) <==> StableItems(l)
  {
    hide NormFields, FieldTags, StableFields;
    if l == [] {
    } else {
      ItemsPrint(l[1..]);
      FieldsPrint(l[0]);
      assert l == [l[0]] + l[1..];
      var n := NormItems(l[1..]);
      assert NormItems(l)[1..] == n;
      assert ItemTags(NormItems(l)) == [Container("item", NormFields(l[0]))] + ItemTags(n);
      assert ItemTags(NormItems(l))[1..] == ItemTags(n) && ItemTags(l)[1..] == ItemTags(l[1..]);
    }
  }

  lemma ReportedPrints(r: Reported)
    ensures |ReportedTags(NormReported(r))| == |ReportedTags(r)|
    ensures ReportedTags(NormReported(r)) == ReportedTags(r) <==> (r.Reported? ==> StableFields(r.fields))
  {
    hide NormFields, FieldTags, StableFields;
    if r.Reported? {
      FieldsPrint(r.fields);
      assert ReportedTags(r)[0].children == FieldTags(r.fields);
      assert ReportedTags(NormReported(r))[0].children == FieldTags(NormFields(r.fields));
    }
  }

  lemma {:induction false} TextsPrint(name: string, l: seq<string>)
    ensures Texts(name, CheckedTexts(l)) == Texts(name, l)
  {
    hide ValidText;
    if l == [] {
    } else {
      assert CheckedTexts(l)[1..] == CheckedTexts(l[1..]);
      CheckedTwice(l[0]);
      TextsPrint(name, l[1..]);
    }
  }

  lemma TitlePrints(title: string)
    ensures ValidText(title) ==> TitleTags(Checked(title)) == TitleTags(title)
    ensures !ValidText(title) ==> |TitleTags(Checked(title))| < |TitleTags(title)|
  {
    assert ValidText("");
    if title != "" {
      assert [title][1..] == [];
    }
  }

  lemma FourParts<T>(a: seq<T>, b: seq<T>, c: seq<T>, d: seq<T>, a': seq<T>, b': seq<T>, c': seq<T>, d': seq<T>)
    requires |b| == |b'| && |c| == |c'| && |d| == |d'|
    ensures a + b + c + d == a' + b' + c' + d' <==> a == a' && b == b' && c == c' && d == d'
  {
    var s, t := a + b + c + d, a' + b' + c' + d';
    if s == t {
      var i, j, k := |a|, |a| + |b|, |a| + |b| + |c|;
      assert |s| == k + |d| && |t| == |a'| + |b| + |c| + |d|;
      assert s[..i] == a && s[i..j] == b && s[j..k] == c && s[k..] == d;
      assert t[..i] == a' && t[i..j] == b' && t[j..k] == c' && t[k..] == d';
    }
  }

  /** Normalizing does not show in the printed tree if and only if the form is stable. */
  lemma NormFormPrints(f: Form)
    requires f.kind != TypeInvalid
    ensures PrintForm(NormForm(f)) == PrintForm(f) <==> StableForm(f)
  {
    hide NormFields, NormItems, NormReported, FieldTags, ItemTags, ReportedTags, Texts, FormElement;
    hide StableFields, StableItems, ValidText, Checked, CheckedTexts;
    var n := NormForm(f);
    TitlePrints(f.title);
    TextsPrint("instructions", f.instructions);
    FieldsPrint(f.fields);
    ReportedPrints(f.reported);
    ItemsPrint(f.items);
    var i := Texts("instructions", f.instructions);
    var a, a' := TitleTags(f.title) + i, TitleTags(n.title) + i;
    FourParts(a', FieldTags(n.fields), ReportedTags(n.reported), ItemTags(n.items),
              a, FieldTags(f.fields), ReportedTags(f.reported), ItemTags(f.items));
    assert PrintForm(n).children == a' + FieldTags(n.fields) + ReportedTags(n.reported) + ItemTags(n.items);
    assert PrintForm(f).children == a + FieldTags(f.fields) + ReportedTags(f.reported) + ItemTags(f.items);
    if !ValidText(f.title) {
      assert |a'| == |TitleTags(n.title)| + |i| && |a| == |TitleTags(f.title)| + |i|;
    }
  }

  ghost predicate NormalFields(l: seq<Field>) {
    forall i | 0 <= i < |l| :: l[i].kind != Invalid && Normal(l[i])
  }

  /** The forms that are in normal form already: texts that may be in XML, and valid fields in normal form only. */
  ghost predicate NormalForm(f: Form) {
    && ValidText(f.title) && ValidTexts(f.instructions) && NormalFields(f.fields)
    && (f.reported.Reported? ==> NormalFields(f.reported.fields))
    && forall i | 0 <= i < |f.items| :: NormalFields(f.items[i])
  }

  lemma {:induction false} NormFieldsLength(l: seq<Field>)
    ensures |NormFields(l)| <= |l|
  {
    if l == [] {
    } else {
      NormFieldsLength(l[1..]);
    }
  }

  lemma {:induction false} NormFieldsSame(l: seq<Field>)
    ensures NormFields(l) == l <==> NormalFields(l)
  {
    hide Norm, Normal;
    if l == [] {
    } else {
      NormFieldsSame(l[1..]);
      NormFieldsLength(l[1..]);
      NormalField(l[0]);
      assert l == [l[0]] + l[1..];
      if l[0].kind != Invalid {
        assert NormFields(l)[1..] == NormFields(l[1..]);
      }
    }
  }

  lemma {:induction false} NormItemsSame(l: seq<seq<Field>>)
    ensures NormItems(l) == l <==> forall i | 0 <= i < |l| :: NormalFields(l[i])
  {
    hide NormFields, NormalFields;
    if l == [] {
    } else {
      NormItemsSame(l[1..]);
      NormFieldsSame(l[0]);
      assert l == [l[0]] + l[1..];
      assert NormItems(l)[1..] == NormItems(l[1..]);
    }
  }

  /** A form survives printing and reading if and only if it is in normal form. */
  lemma FormSurvives(f: Form)
    requires f.kind != TypeInvalid
    ensures AfterForm(EMPTY, PrintForm(f)) == f <==> NormalForm(f)
  {
    hide AfterForm, PrintForm, NormFields, NormItems, NormalFields, Checked, ValidTexts, CheckedTexts;
    ReadPrintForm(f);
    CheckedTwice(f.title);
    CheckedTextsValid(f.instructions);
    NormFieldsSame(f.fields);
    NormItemsSame(f.items);
    if f.reported.Reported? {
      NormFieldsSame(f.reported.fields);
    }
  }

  // Copies

  /** What the copy constructor takes over. */
  function Copied(f: Form): Form {
    f.(items := [], reported := match f.reported
                                case NotReported => NotReported
                                case Reported(fields) => Reported(ReadAll(FieldTags(fields))))
  }

  /** A copy looks like its original in its element if and only if it has no items and a stable reported part. */
  lemma CopyPrints(f: Form)
    requires f.kind != TypeInvalid
    ensures PrintForm(Copied(f)) == PrintForm(f) <==>
            f.items == [] && (f.reported.Reported? ==> StableFields(f.reported.fields))
  {
    hide NormFields, NormReported, FieldTags, ItemTags, ReportedTags, Texts, FormElement, StableFields, ReadAll;
    assert Copied(f).reported == NormReported(f.reported) by { CopiedReported(f); }
    ReportedPrints(f.reported);
    ItemsPrint(f.items);
    ItemsPrint([]);
    var c, a := Copied(f), TitleTags(f.title) + Texts("instructions", f.instructions) + FieldTags(f.fields);
    assert PrintForm(c).children == a + ReportedTags(c.reported) + ItemTags([]);
    assert PrintForm(f).children == a + ReportedTags(f.reported) + ItemTags(f.items);
    TwoParts(a, ReportedTags(c.reported), ItemTags([]), ReportedTags(f.reported), ItemTags(f.items));
  }

  lemma CopiedReported(f: Form)
    ensures Copied(f).reported == NormReported(f.reported)
  {
    hide ReadAll, FieldTags, NormFields;
    if f.reported.Reported? {
      ReadFieldTags(f.reported.fields);
    }
  }

  lemma TwoParts<T>(a: seq<T>, b: seq<T>, c: seq<T>, b': seq<T>, c': seq<T>)
    requires |b| == |b'| && |c| == 0
    ensures a + b + c == a + b' + c' <==> b == b' && |c'| == 0
  {
    var s, t := a + b + c, a + b' + c';
    assert |s| == |a| + |b| && |t| == |a| + |b| + |c'|;
    assert s[|a|..|a| + |b|] == b && t[|a|..|a| + |b|] == b';
    if b == b' && |c'| == 0 {
      assert c == c';
    }
  }
}
