/**
 * Callers of `XmlTag` that follow a tag through parsing, freezing, copying,
 * renaming and pairing, and state what they observe; everything they
 * establish comes from the contracts in module MarkupParser alone.
 */
module XmlTagScenarios {
  import opened Wrappers
  import opened JavaLang
  import opened ValueMaps
  import opened MarkupParser

  /** A tag as the parser leaves it: the scanner assigns name, type and raw text directly. */
  method Parsed(name: string, tagType: TagType, text: string) returns (tag: XmlTag)
    ensures fresh(tag) && fresh(tag.attributes) && tag.Valid()
    ensures tag.State() == TagFields(tag.attributes, [], false, 0, 0, 0, name, None, 0, text, Some(tagType),
                                     null, tag, true, false)
  {
    tag := new XmlTag();
    tag.name := name;
    tag.tagType := Some(tagType);
    tag.text := text;
  }

  /** Renaming a parsed `<div>` shows `<span>` both rebuilt and through `toString`. */
  method RenameOpenTag(render: seq<Entry> -> string) returns (rebuilt: string, shown: string, changed: bool)
    ensures rebuilt == "<span>" && shown == "<span>" && changed
  {
    var tag := Parsed("div", Open, "<div>");
    var outcome := tag.SetName("span");
    rebuilt := tag.ToXmlString(render);
    shown := tag.ToString(render);
    changed := tag.nameChanged;
  }

  /** A frozen tag shows its parsed text verbatim, however the attributes would render. */
  method FrozenTagShowsParsedText(render: seq<Entry> -> string) returns (shown: string)
    ensures shown == "<img src=\"a.png\"/>"
  {
    var tag := Parsed("img", OpenClose, "<img src=\"a.png\"/>");
    var outcome := tag.Put("src", "a.png");
    tag.MakeImmutable();
    shown := tag.ToString(render);
  }

  /** Freezing twice: the second call neither fails nor changes anything. */
  method FreezeTwice() returns (mutableAfter: bool, frozenAfter: bool, ghost stateAfterSecond: bool)
    ensures !mutableAfter && frozenAfter && stateAfterSecond
  {
    var tag := Parsed("br", OpenClose, "<br/>");
    tag.MakeImmutable();
    ghost var before := tag.State();
    tag.MakeImmutable();
    mutableAfter := tag.isMutable;
    frozenAfter := tag.attributes.frozen;
    stateAfterSecond := tag.State() == before;
  }

  /** Every write to a frozen tag fails with UnsupportedOperation and leaves the tag as it was. */
  method FrozenTagRefusesWrites() returns (outcomes: seq<Outcome>, name: string, tagType: Option<TagType>,
                                           src: Option<string>, ghost stateKept: bool)
    ensures |outcomes| == 5
    ensures forall i :: 0 <= i < |outcomes| ==> outcomes[i].Threw? && outcomes[i].exception.UnsupportedOperation?
    ensures name == "div" && tagType == Some(Open) && src == Some("a")
    ensures stateKept
  {
    var tag := Parsed("div", Open, "<div src=\"a\">");
    var ignored := tag.Put("src", "a");
    tag.MakeImmutable();
    ghost var before := tag.State();
    var o1 := tag.SetName("span");
    var o2 := tag.SetType(Close);
    var o3 := tag.Put("src", "b");
    var o4 := tag.PutInt("width", 10);
    var o5 := tag.Remove("src");
    outcomes := [o1, o2, o3, o4, o5];
    name := tag.name;
    tagType := tag.tagType;
    src := tag.GetString("src");
    stateKept := tag.State() == before;
  }

  /** The typed writes store readable text: "true" for a boolean, the decimal digits for an int. */
  method TypedPuts() returns (flag: Option<string>, width: Option<string>, depth: Option<string>)
    ensures flag == Some("true") && width == Some("42") && depth == Some("-7")
  {
    var tag := Parsed("input", OpenClose, "<input/>");
    assert IntToString(42) == "42" by {
      assert NatToDecimal(4) == "4";
      assert NatToDecimal(42) == NatToDecimal(4) + [DigitChar(2)];
    }
    assert IntToString(-7) == "-7" by {
      assert NatToDecimal(7) == "7";
    }
    var o1 := tag.PutBool("checked", true);
    var o2 := tag.PutInt("width", 42);
    var o3 := tag.PutInt("depth", -7);
    flag := tag.GetString("checked");
    width := tag.GetString("width");
    depth := tag.GetString("depth");
  }

  /** `mutable()` on a mutable tag returns that very tag. */
  method MutableOfMutable() returns (same: bool)
    ensures same
  {
    var tag := Parsed("p", Open, "<p>");
    var result := tag.Mutable();
    same := result == tag;
  }

  /** Changing the copy of a frozen tag never shows in the original. */
  method CopyLeavesOriginalAlone() returns (originalName: string, copyName: string,
                                            originalSrc: Option<string>, copySrc: Option<string>,
                                            copyIsNew: bool, copyMutable: bool)
    ensures originalName == "div" && copyName == "span"
    ensures originalSrc == Some("a") && copySrc == None
    ensures copyIsNew && copyMutable
  {
    var original := Parsed("div", Open, "<div src=\"a\">");
    var ignored := original.Put("src", "a");
    original.MakeImmutable();
    var copy := original.Mutable();
    var o1 := copy.SetName("span");
    var o2 := copy.Remove("src");
    originalName := original.name;
    copyName := copy.name;
    originalSrc := original.GetString("src");
    copySrc := copy.GetString("src");
    copyIsNew := copy != original && copy.attributes != original.attributes;
    copyMutable := copy.isMutable;
  }

  /**
   * A close tag paired with an open tag still closes it after the open tag
   * has been copied, and after a copy of that copy, since every copy points
   * at the original.
   */
  method CloseMatchesCopiedOpen() returns (matchesOriginal: bool, matchesCopy: bool, matchesCopyOfCopy: bool)
    ensures matchesOriginal && matchesCopy && matchesCopyOfCopy
  {
    var open := Parsed("div", Open, "<div>");
    open.MakeImmutable();
    var close := Parsed("div", Close, "</div>");
    close.SetOpenTag(open);
    close.MakeImmutable();
    var copy := open.Mutable();
    copy.MakeImmutable();
    var copyOfCopy := copy.Mutable();
    matchesOriginal := close.Closes(open);
    matchesCopy := close.Closes(copy);
    matchesCopyOfCopy := close.Closes(copyOfCopy);
  }

  /**
   * A close tag paired with a copy of an open tag does not close a copy of
   * that copy: the second copy points at the original, not at the first copy.
   */
  method CloseMissesCopyOfLinkedCopy() returns (matchesCopy: bool, matchesCopyOfCopy: bool)
    ensures matchesCopy && !matchesCopyOfCopy
  {
    var open := Parsed("div", Open, "<div>");
    open.MakeImmutable();
    var copy := open.Mutable();
    copy.MakeImmutable();
    var close := Parsed("div", Close, "</div>");
    close.SetOpenTag(copy);
    var copyOfCopy := copy.Mutable();
    matchesCopy := close.Closes(copy);
    matchesCopyOfCopy := close.Closes(copyOfCopy);
  }
}
