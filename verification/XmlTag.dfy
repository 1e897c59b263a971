/** XML elements as the library's Tag class builds and reads them. */
module XmlTag {

  // Text

  /** What checkValidXMLChars lets pass: three control characters, and bytes that can be in UTF-8. */
  predicate ValidChar(c: char) {
    c in {'\t', '\n', '\r'} || (' ' <= c && c as int < 0xf5 && c as int != 0xc0 && c as int != 0xc1)
  }

  predicate ValidText(s: string) {
    forall i | 0 <= i < |s| :: ValidChar(s[i])
  }

  /** What becomes of a text that is put into an element: nothing, if there is a character in it that must not be. */
  function Checked(s: string): string {
    if ValidText(s) then s else ""
  }

  lemma CheckedTwice(s: string)
    ensures ValidText(Checked(s)) && Checked(Checked(s)) == Checked(s)
    ensures |Checked(s)| <= |s| && (Checked(s) == s <==> ValidText(s)) && (|Checked(s)| == |s| <==> ValidText(s))
  {
  }

  // Elements

  datatype Attribute = Attribute(name: string, value: string)

  /** An element: its attributes and child elements in order, and its character data. */
  datatype Tag = Tag(name: string, xmlns: string, attributes: seq<Attribute>, children: seq<Tag>, cdata: string)

  /** A new element, with character data that may be empty. Names of elements are constants of the library. */
  function Element(name: string, cdata: string): Tag {
    Tag(name, "", [], [], Checked(cdata))
  }

  /** Tag::setCData. */
  function WithCData(t: Tag, cdata: string): Tag {
    if cdata == "" || !ValidText(cdata) then t else t.(cdata := cdata)
  }

  function Replaced(l: seq<Attribute>, name: string, value: string): seq<Attribute> {
    if l == [] then [Attribute(name, value)]
    else if l[0].name == name then [Attribute(name, value)] + l[1..]
    else [l[0]] + Replaced(l[1..], name, value)
  }

  /**
   * Tag::addAttribute: nothing is added without a name and a value, or with one that must not be in XML; an
   * attribute of that name is replaced.
   */
  function WithAttribute(t: Tag, name: string, value: string): Tag {
    if Checked(name) == "" || Checked(value) == "" then t else t.(attributes := Replaced(t.attributes, name, value))
  }

  function Found(l: seq<Attribute>, name: string): string {
    if l == [] then "" else if l[0].name == name then l[0].value else Found(l[1..], name)
  }

  /** Tag::findAttribute: the value, or an empty string. */
  function FindAttribute(t: Tag, name: string): string {
    Found(t.attributes, name)
  }

  /** Tag::hasAttribute. */
  predicate HasAttribute(t: Tag, name: string) {
    exists i | 0 <= i < |t.attributes| :: t.attributes[i].name == name
  }

  function WithChild(t: Tag, child: Tag): Tag {
    t.(children := t.children + [child])
  }

  lemma {:induction false} FoundReplaced(l: seq<Attribute>, name: string, value: string, k: string)
    ensures Found(Replaced(l, name, value), k) == if k == name then value else Found(l, k)
  {
    if l == [] || l[0].name == name {
    } else {
      FoundReplaced(l[1..], name, value, k);
      assert Replaced(l, name, value)[1..] == Replaced(l[1..], name, value);
    }
  }

  lemma {:induction false} AbsentReadsEmpty(l: seq<Attribute>, name: string)
    requires forall i | 0 <= i < |l| :: l[i].name != name
    ensures Found(l, name) == ""
  {
    if l == [] {
    } else {
      AbsentReadsEmpty(l[1..], name);
    }
  }

  /** An attribute that was given reads as its value if name and value may be in XML, every other one as before. */
  lemma AttributeAdded(t: Tag, name: string, value: string, k: string)
    ensures FindAttribute(WithAttribute(t, name, value), k) ==
            if k == name && Checked(name) != "" && Checked(value) != "" then value else FindAttribute(t, k)
  {
    FoundReplaced(t.attributes, name, value, k);
  }

  /** The attributes the library uses, on an element that has none of that name yet. */
  lemma NewAttribute(t: Tag, name: string, value: string, k: string)
    requires name in {"sid", "seq", "block-size", "type", "var", "label", "category", "name", "node"}
    requires FindAttribute(t, name) == ""
    ensures FindAttribute(WithAttribute(t, name, value), k) == if k == name then Checked(value) else FindAttribute(t, k)
  {
    hide Found, Replaced;
    AttributeAdded(t, name, value, k);
    assert ValidText(name) && name != "";
  }
}
