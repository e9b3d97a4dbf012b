/**
 * The canonical text of a tag as `XmlTag.toXmlString` builds it, over the
 * pieces it appends, together with a reference reader that splits such a
 * text back into its pieces.
 */
module TagText {
  import opened Wrappers

  /**
   * The pieces `toXmlString` appends: a '/' after '<' for a close tag, the
   * optional namespace, the name, the rendered attributes when there are any,
   * and a '/' before '>' for an open-close tag.
   */
  datatype Shape = Shape(
    closing: bool,
    namespace: Option<string>,
    name: string,
    attributeText: Option<string>,
    selfClosing: bool)

  /** A '/' when the flag is set. */
  function Marker(b: bool): string {
    if b then "/" else ""
  }

  /** The namespace followed by ':', when there is a namespace. */
  function Prefix(namespace: Option<string>): string {
    match namespace
    case Some(ns) => ns + ":"
    case None => ""
  }

  /** A blank followed by the rendered attributes, when there are attributes. */
  function AttributePart(attributeText: Option<string>): string {
    match attributeText
    case Some(a) => " " + a
    case None => ""
  }

  /** The pieces appended in the order `toXmlString` appends them. */
  function Serialize(sh: Shape): (s: string)
    ensures |s| >= 2 && s[0] == '<' && s[|s| - 1] == '>'
  {
    "<" + Marker(sh.closing) + Prefix(sh.namespace) + sh.name + AttributePart(sh.attributeText)
    + Marker(sh.selfClosing) + ">"
  }

  /** A namespace or name that the reader can delimit: no blank, ':' or '/'. */
  predicate PlainName(s: string) {
    forall i :: 0 <= i < |s| ==> s[i] != ' ' && s[i] != ':' && s[i] != '/'
  }

  /** The pieces of a tag the reader can recover unambiguously. */
  predicate WellFormed(sh: Shape) {
    && |sh.name| > 0
    && PlainName(sh.name)
    && (sh.namespace.Some? ==> PlainName(sh.namespace.value))
    && (sh.attributeText.Some? && |sh.attributeText.value| > 0 ==>
          sh.attributeText.value[|sh.attributeText.value| - 1] != '/')
  }

  /** The position of the first `c` in `s`. */
  function IndexOf(s: string, c: char): (r: Option<nat>)
    ensures r.Some? ==> r.value < |s| && s[r.value] == c && c !in s[..r.value]
    ensures r.None? ==> c !in s
  {
    if s == [] then None
    else if s[0] == c then Some(0)
    else match IndexOf(s[1..], c)
      case None => None
      case Some(i) => assert s[..i + 1] == [s[0]] + s[1..][..i]; Some(i + 1)
  }

  /** Splits at the first `c`: what precedes it, and what follows it if it occurs. */
  function SplitAt(s: string, c: char): (string, Option<string>) {
    match IndexOf(s, c)
    case None => (s, None)
    case Some(i) => (s[..i], Some(s[i + 1..]))
  }

  /** A leading '/' marks a close tag; the rest follows it. */
  function ReadClosing(inner: string): (bool, string) {
    if |inner| > 0 && inner[0] == '/' then (true, inner[1..]) else (false, inner)
  }

  /** A trailing '/' marks an open-close tag; the rest precedes it. */
  function ReadSelfClosing(open: string): (bool, string) {
    if |open| > 0 && open[|open| - 1] == '/' then (true, open[..|open| - 1]) else (false, open)
  }

  /** A qualified name reads as its namespace, before the first ':', and its name. */
  function ReadQualifiedName(head: string): (Option<string>, string) {
    match SplitAt(head, ':')
    case (prefix, Some(name)) => (Some(prefix), name)
    case (name, None) => (None, name)
  }

  /** Reads the text between the brackets. */
  function ReadInner(inner: string): Shape {
    var closing := ReadClosing(inner);
    var selfClosing := ReadSelfClosing(closing.1);
    var attributes := SplitAt(selfClosing.1, ' ');
    var qualified := ReadQualifiedName(attributes.0);
    Shape(closing.0, qualified.0, qualified.1, attributes.1, selfClosing.0)
  }

  /**
   * Reads a tag text back into its pieces: the brackets, a leading '/', a
   * trailing '/', the text after the first blank as attributes, and the text
   * before the first ':' of the rest as namespace.
   */
  function Parse(s: string): Option<Shape> {
    if |s| < 2 || s[0] != '<' || s[|s| - 1] != '>' then None
    else Some(ReadInner(s[1..|s| - 1]))
  }

  /** The text between the brackets of the canonical form, grouped as the reader takes it apart. */
  function Inner(sh: Shape): string {
    Marker(sh.closing) + (((Prefix(sh.namespace) + sh.name) + AttributePart(sh.attributeText)) + Marker(sh.selfClosing))
  }

  lemma SerializeInner(sh: Shape)
    ensures Serialize(sh) == "<" + Inner(sh) + ">"
  {
  }

  lemma Brackets(s: string)
    requires |s| >= 2 && s[0] == '<' && s[|s| - 1] == '>'
    ensures s == "<" + s[1..|s| - 1] + ">"
  {
    assert s == [s[0]] + s[1..|s| - 1] + [s[|s| - 1]];
  }

  lemma SplitAtAbsent(s: string, c: char)
    requires c !in s
    ensures SplitAt(s, c) == (s, None)
  {
  }

  lemma SplitAtFirst(a: string, c: char, b: string)
    requires c !in a
    ensures SplitAt(a + [c] + b, c) == (a, Some(b))
  {
    var s := a + [c] + b;
    assert s[|a|] == c;
    assert s[..|a|] == a;
    assert s[|a| + 1..] == b;
    var i := IndexOf(s, c).value;
    assert i == |a| by {
      assert forall j :: 0 <= j < |a| ==> s[j] == a[j];
      assert forall j :: 0 <= j < i ==> s[..i][j] == s[j];
    }
  }

  lemma SplitAtJoin(s: string, c: char)
    ensures SplitAt(s, c).0 + (if SplitAt(s, c).1.Some? then [c] + SplitAt(s, c).1.value else "") == s
  {
    match IndexOf(s, c)
    case None =>
    case Some(i) =>
      assert s == s[..i] + ([c] + s[i + 1..]);
  }

  lemma PlainNameExcludes(s: string)
    requires PlainName(s)
    ensures ' ' !in s && ':' !in s && '/' !in s
  {
  }

  lemma QualifiedNameSplit(namespace: Option<string>, name: string)
    requires PlainName(name) && (namespace.Some? ==> PlainName(namespace.value))
    ensures ReadQualifiedName(Prefix(namespace) + name) == (namespace, name)
  {
    PlainNameExcludes(name);
    match namespace
    case Some(ns) =>
      PlainNameExcludes(ns);
      assert Prefix(namespace) + name == ns + [':'] + name;
      SplitAtFirst(ns, ':', name);
    case None =>
      assert Prefix(namespace) + name == name;
      SplitAtAbsent(name, ':');
  }

  lemma AttributeSplit(q: string, attributeText: Option<string>)
    requires ' ' !in q
    ensures SplitAt(q + AttributePart(attributeText), ' ') == (q, attributeText)
  {
    match attributeText
    case Some(a) =>
      assert q + AttributePart(attributeText) == q + [' '] + a;
      SplitAtFirst(q, ' ', a);
    case None =>
      assert q + AttributePart(attributeText) == q;
      SplitAtAbsent(q, ' ');
  }

  /** A qualified name never starts with '/', so a leading '/' is only ever the close marker. */
  lemma ClosingSplit(closing: bool, q: string, rest: string)
    requires |q| > 0 && q[0] != '/'
    ensures ReadClosing(Marker(closing) + (q + rest)) == (closing, q + rest)
  {
    var t := Marker(closing) + (q + rest);
    if closing {
      assert t[1..] == q + rest;
    } else {
      assert t == q + rest;
    }
  }

  /** The body never ends with '/', so a trailing '/' is only ever the open-close marker. */
  lemma SelfClosingSplit(body: string, selfClosing: bool)
    requires |body| > 0 && body[|body| - 1] != '/'
    ensures ReadSelfClosing(body + Marker(selfClosing)) == (selfClosing, body)
  {
    var t := body + Marker(selfClosing);
    if selfClosing {
      assert t[..|t| - 1] == body;
    } else {
      assert t == body;
    }
  }

  /** The qualified name of well-formed pieces is non-empty, has no blank and does not start with '/'. */
  lemma QualifiedNameDelimited(sh: Shape)
    requires WellFormed(sh)
    ensures var q := Prefix(sh.namespace) + sh.name; ' ' !in q && |q| > 0 && q[0] != '/'
  {
    var q := Prefix(sh.namespace) + sh.name;
    PlainNameExcludes(sh.name);
    match sh.namespace
    case Some(ns) =>
      PlainNameExcludes(ns);
      assert q == ns + ":" + sh.name;
      if |ns| > 0 { assert q[0] == ns[0]; } else { assert q[0] == ':'; }
    case None =>
      assert q == sh.name;
  }

  /** The body of well-formed pieces does not end with '/'. */
  lemma BodyDelimited(sh: Shape)
    requires WellFormed(sh)
    ensures var body := (Prefix(sh.namespace) + sh.name) + AttributePart(sh.attributeText);
      |body| > 0 && body[|body| - 1] != '/'
  {
    var body := (Prefix(sh.namespace) + sh.name) + AttributePart(sh.attributeText);
    match sh.attributeText
    case Some(a) =>
      if |a| > 0 { assert body[|body| - 1] == a[|a| - 1]; } else { assert body[|body| - 1] == ' '; }
    case None =>
      assert body[|body| - 1] == sh.name[|sh.name| - 1];
  }

  lemma ReadInnerSplit(sh: Shape)
    requires WellFormed(sh)
    ensures ReadInner(Inner(sh)) == sh
  {
    var q := Prefix(sh.namespace) + sh.name;
    var body := q + AttributePart(sh.attributeText);
    QualifiedNameDelimited(sh);
    BodyDelimited(sh);
    var rest := AttributePart(sh.attributeText) + Marker(sh.selfClosing);
    assert Inner(sh) == Marker(sh.closing) + (q + rest);
    ClosingSplit(sh.closing, q, rest);
    assert q + rest == body + Marker(sh.selfClosing);
    SelfClosingSplit(body, sh.selfClosing);
    AttributeSplit(q, sh.attributeText);
    QualifiedNameSplit(sh.namespace, sh.name);
  }

  /** The reader recovers every piece of a well-formed tag from its canonical text. */
  lemma ParseSerialize(sh: Shape)
    requires WellFormed(sh)
    ensures Parse(Serialize(sh)) == Some(sh)
  {
    var s := Serialize(sh);
    SerializeInner(sh);
    assert s[1..|s| - 1] == Inner(sh);
    ReadInnerSplit(sh);
  }

  lemma QualifiedNameJoin(head: string)
    ensures Prefix(ReadQualifiedName(head).0) + ReadQualifiedName(head).1 == head
  {
    SplitAtJoin(head, ':');
  }

  lemma AttributeJoin(body: string)
    ensures SplitAt(body, ' ').0 + AttributePart(SplitAt(body, ' ').1) == body
  {
    SplitAtJoin(body, ' ');
  }

  lemma ReadInnerJoin(inner: string)
    ensures Inner(ReadInner(inner)) == inner
  {
    var closing := ReadClosing(inner);
    var selfClosing := ReadSelfClosing(closing.1);
    var attributes := SplitAt(selfClosing.1, ' ');
    var sh := ReadInner(inner);
    assert Prefix(sh.namespace) + sh.name == attributes.0 by {
      QualifiedNameJoin(attributes.0);
    }
    assert attributes.0 + AttributePart(sh.attributeText) == selfClosing.1 by {
      AttributeJoin(selfClosing.1);
    }
    assert selfClosing.1 + Marker(sh.selfClosing) == closing.1;
    assert Marker(sh.closing) + closing.1 == inner;
  }

  /** Whatever the reader accepts is exactly the canonical text of what it reads. */
  lemma SerializeParse(s: string)
    requires Parse(s).Some?
    ensures Serialize(Parse(s).value) == s
  {
    ReadInnerJoin(s[1..|s| - 1]);
    SerializeInner(Parse(s).value);
    Brackets(s);
  }

  /** A '/' directly after '<' marks a close tag, for well-formed pieces. */
  lemma ClosingMarker(sh: Shape)
    requires WellFormed(sh)
    ensures Serialize(sh)[1] == '/' <==> sh.closing
  {
    ParseSerialize(sh);
  }

  /** A '/' directly before '>' marks an open-close tag, for well-formed pieces. */
  lemma SelfClosingMarker(sh: Shape)
    requires WellFormed(sh)
    ensures Serialize(sh)[|Serialize(sh)| - 2] == '/' <==> sh.selfClosing
  {
    ParseSerialize(sh);
  }
}
