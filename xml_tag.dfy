/**
 * `wicket.markup.parser.XmlTag`: the open, close or open-close tag that the
 * markup parser emits, with its attributes, its position in the markup, a
 * one-way switch from mutable to immutable, the link from a close tag to the
 * open tag it closes, and its re-serialisation as markup text.
 */
module MarkupParser {
  import opened Wrappers
  import opened JavaLang
  import opened ValueMaps
  import TagText

  /** `XmlTag.Type`: `OPEN`, `CLOSE` or `OPEN_CLOSE`. */
  datatype TagType = Open | Close | OpenClose

  const SetNameMessage := "Attempt to set name of immutable tag"
  const SetTypeMessage := "Attempt to set type of immutable tag"

  /** Every field of a tag, together with its attribute map's contents and freeze flag. */
  datatype TagFields = TagFields(
    attributes: ValueMap,
    entries: seq<Entry>,
    attributesFrozen: bool,
    columnNumber: int32,
    length: int32,
    lineNumber: int32,
    name: string,
    namespace: Option<string>,
    pos: int32,
    text: string,
    tagType: Option<TagType>,
    closes: XmlTag?,
    copyOf: XmlTag?,
    isMutable: bool,
    nameChanged: bool)

  class XmlTag {
    var attributes: ValueMap
    var columnNumber: int32
    /** Length of the tag in characters. */
    var length: int32
    var lineNumber: int32
    var name: string
    var namespace: Option<string>
    /** Position of the tag in the parsed input. */
    var pos: int32
    /** The full text of the tag as it was parsed. */
    var text: string
    /** Unset until the parser assigns one. */
    var tagType: Option<TagType>
    /** The open tag this tag closes, if any. */
    var closes: XmlTag?
    /** The original this tag was copied from; the tag itself when it is no copy. */
    var copyOf: XmlTag?
    var isMutable: bool
    var nameChanged: bool

    /** The tag's whole state, for stating what an operation changes. */
    ghost function State(): TagFields
      reads this, attributes
    {
      TagFields(attributes, attributes.entries, attributes.frozen, columnNumber, length, lineNumber,
                name, namespace, pos, text, tagType, closes, copyOf, isMutable, nameChanged)
    }

    /** Every tag knows its original, and an immutable tag has a frozen attribute map. */
    ghost predicate Valid()
      reads this, attributes
    {
      copyOf != null && attributes.Valid() && (!isMutable ==> attributes.frozen)
    }

    /** `new XmlTag()`: mutable, no attributes, no type, its own original. */
    constructor ()
      ensures Valid() && fresh(attributes)
      ensures State() == TagFields(attributes, [], false, 0, 0, 0, "", None, 0, "", None, null, this, true, false)
    {
      attributes := new ValueMap();
      columnNumber, length, lineNumber := 0, 0, 0;
      name, namespace, pos, text := "", None, 0, "";
      tagType, closes := None, null;
      isMutable, nameChanged := true, false;
      new;
      copyOf := this;
    }

    /**
     * `closes(open)`: linked to `open` itself or to the original `open` was
     * copied from. A tag linked to nothing closes nothing.
     */
    function Closes(open: XmlTag): (r: bool)
      reads this, open
      ensures closes == open ==> r
      ensures open.copyOf == open ==> (r <==> closes == open)
      ensures closes == null && open.copyOf != null ==> !r
    {
      closes == open || closes == open.copyOf
    }

    /** `getOpenTag()`: the tag recorded by `setOpenTag`, which this tag then closes. */
    function GetOpenTag(): (r: XmlTag?)
      reads this
      ensures r != null ==> Closes(r)
    {
      closes
    }

    /** `getString(key)`: present exactly for the map's names, with the value stored under it. */
    function GetString(key: string): (r: Option<string>)
      reads this, attributes
      ensures r.Some? <==> key in Keys(attributes.entries)
      ensures r.Some? ==> Entry(key, r.value) in attributes.entries
    {
      LookupPresent(attributes.entries, key);
      attributes.GetString(key)
    }

    /** `isOpen()`: a typed tag that is neither a close nor an open-close tag. */
    predicate IsOpen()
      reads this
      ensures IsOpen() ==> tagType.Some? && tagType != Some(Close) && tagType != Some(OpenClose)
    {
      tagType == Some(Open)
    }

    /** `isClose()`: never also an open tag. */
    predicate IsClose()
      reads this
      ensures IsClose() ==> tagType.Some? && !IsOpen()
    {
      tagType == Some(Close)
    }

    /** `isOpenClose()`: never also an open or a close tag. */
    predicate IsOpenClose()
      reads this
      ensures IsOpenClose() ==> tagType.Some? && !IsOpen() && !IsClose()
    {
      tagType == Some(OpenClose)
    }

    /** `isOpen(componentName)`: an open tag with exactly that name, so never a close or open-close tag. */
    predicate IsOpenNamed(componentName: string)
      reads this
      ensures IsOpenNamed(componentName) ==> !IsClose() && !IsOpenClose()
    {
      IsOpen() && name == componentName
    }

    /**
     * `isOpenClose(componentName)`: the argument is compared with itself, so
     * the name plays no part.
     */
    predicate IsOpenCloseNamed(componentName: string)
      reads this
      ensures IsOpenCloseNamed(componentName) <==> IsOpenClose()
    {
      IsOpenClose() && componentName == componentName
    }

    /** `isOpenClose(componentName)` as its comment describes it: an open-close tag with exactly that name. */
    predicate IsOpenCloseWithName(componentName: string)
      reads this
      ensures IsOpenCloseWithName(componentName) ==> !IsOpen() && !IsClose()
    {
      IsOpenClose() && name == componentName
    }

    /** `makeImmutable()`: from now on the tag and its attributes refuse writes. */
    method MakeImmutable()
      requires Valid()
      modifies this, attributes
      ensures Valid() && !isMutable && attributes.frozen
      ensures State() == old(State()).(attributesFrozen := true, isMutable := false)
      ensures old(!isMutable) ==> State() == old(State())
    {
      if isMutable {
        isMutable := false;
        attributes.MakeImmutable();
      }
    }

    /**
     * `mutable()`: the tag itself when it is mutable; otherwise a new mutable
     * tag with the same contents in a separate attribute map, pointing at the
     * same original, without line, column or name-changed flag. Having no
     * modifies clause, it leaves every existing object, this tag included,
     * unchanged.
     */
    method Mutable() returns (tag: XmlTag)
      requires Valid()
      ensures tag.Valid() && tag.isMutable
      ensures tag.copyOf == copyOf
      ensures isMutable ==> tag == this
      ensures !isMutable ==> fresh(tag) && fresh(tag.attributes) && CopiedFrom(tag)
    {
      if isMutable {
        return this;
      }
      tag := new XmlTag();
      CopyInto(tag);
    }

    /** What `mutable()` carries over into a copy, and what it resets. */
    ghost predicate CopiedFrom(tag: XmlTag)
      reads this, attributes, tag, tag.attributes
    {
      && tag.namespace == namespace && tag.name == name && tag.pos == pos && tag.length == length
      && tag.text == text && tag.tagType == tagType && tag.closes == closes && tag.copyOf == copyOf
      && tag.attributes.entries == attributes.entries && !tag.attributes.frozen && tag.isMutable
      && tag.columnNumber == 0 && tag.lineNumber == 0 && !tag.nameChanged
    }

    /** The field assignments of `mutable()` on a freshly constructed tag. */
    method CopyInto(tag: XmlTag)
      requires Valid() && tag != this
      requires tag.columnNumber == 0 && tag.lineNumber == 0 && !tag.nameChanged
      modifies tag
      ensures fresh(tag.attributes) && tag.Valid() && CopiedFrom(tag)
    {
      tag.namespace := namespace;
      tag.name := name;
      tag.pos := pos;
      tag.length := length;
      tag.text := text;
      tag.attributes := new ValueMap.CopyOf(attributes);
      tag.tagType := tagType;
      tag.isMutable := true;
      tag.closes := closes;
      tag.copyOf := copyOf;
    }

    /** `put(key, String)`: writes through to the attribute map, which refuses once frozen. */
    method Put(key: string, value: string) returns (outcome: Outcome)
      requires Valid()
      modifies attributes
      ensures Valid()
      ensures outcome == if old(attributes.frozen) then Threw(UnsupportedOperation(ImmutableMapMessage)) else Completed
      ensures State() == old(State()).(entries := if old(attributes.frozen) then old(attributes.entries)
                                                  else Insert(old(attributes.entries), key, value))
      ensures !isMutable ==> outcome.Threw? && State() == old(State())
      ensures outcome == Completed ==> GetString(key) == Some(value)
      ensures forall k :: k != key ==> GetString(k) == old(GetString(k))
    {
      outcome := attributes.Put(key, value);
      forall k {
        LookupInsert(old(attributes.entries), key, value, k);
      }
    }

    /** `put(key, boolean)`: stores "true" or "false". */
    method PutBool(key: string, value: bool) returns (outcome: Outcome)
      requires Valid()
      modifies attributes
      ensures Valid()
      ensures outcome == if old(attributes.frozen) then Threw(UnsupportedOperation(ImmutableMapMessage)) else Completed
      ensures State() == old(State()).(entries := if old(attributes.frozen) then old(attributes.entries)
                                                  else Insert(old(attributes.entries), key, BoolToString(value)))
      ensures outcome == Completed ==> GetString(key) == Some(if value then "true" else "false")
      ensures forall k :: k != key ==> GetString(k) == old(GetString(k))
    {
      outcome := Put(key, BoolToString(value));
    }

    /** `put(key, int)`: stores the decimal text of the value, from which it reads back exactly. */
    method PutInt(key: string, value: int32) returns (outcome: Outcome)
      requires Valid()
      modifies attributes
      ensures Valid()
      ensures outcome == if old(attributes.frozen) then Threw(UnsupportedOperation(ImmutableMapMessage)) else Completed
      ensures State() == old(State()).(entries := if old(attributes.frozen) then old(attributes.entries)
                                                  else Insert(old(attributes.entries), key, IntToString(value)))
      ensures outcome == Completed ==> GetString(key) == Some(IntToString(value))
      ensures outcome == Completed ==> ParseInt(GetString(key).value) == Some(value as int)
      ensures forall k :: k != key ==> GetString(k) == old(GetString(k))
    {
      outcome := Put(key, IntToString(value));
      IntToStringRoundTrip(value);
    }

    /** `remove(key)`: deletes through the attribute map, which refuses once frozen. */
    method Remove(key: string) returns (outcome: Outcome)
      requires Valid()
      modifies attributes
      ensures Valid()
      ensures outcome == if old(attributes.frozen) then Threw(UnsupportedOperation(ImmutableMapMessage)) else Completed
      ensures State() == old(State()).(entries := if old(attributes.frozen) then old(attributes.entries)
                                                  else Delete(old(attributes.entries), key))
      ensures !isMutable ==> outcome.Threw? && State() == old(State())
      ensures outcome == Completed ==> GetString(key) == None
      ensures forall k :: k != key ==> GetString(k) == old(GetString(k))
    {
      outcome := attributes.Remove(key);
      forall k {
        LookupDelete(old(attributes.entries), key, k);
      }
    }

    /** `setName(name)`: renames a mutable tag and records the change; an immutable tag refuses. */
    method SetName(newName: string) returns (outcome: Outcome)
      requires Valid()
      modifies this
      ensures Valid()
      ensures outcome == if old(isMutable) then Completed else Threw(UnsupportedOperation(SetNameMessage))
      ensures State() == if old(isMutable) then old(State()).(name := newName, nameChanged := true) else old(State())
    {
      if isMutable {
        name := newName;
        nameChanged := true;
        outcome := Completed;
      } else {
        outcome := Threw(UnsupportedOperation(SetNameMessage));
      }
    }

    /**
     * `setOpenTag(tag)`: records the link whatever this tag's type or
     * mutability.
     */
    method SetOpenTag(tag: XmlTag?)
      modifies this
      ensures State() == old(State()).(closes := tag)
      ensures GetOpenTag() == tag
      ensures tag != null ==> Closes(tag)
    {
      closes := tag;
    }

    /** `setType(type)`: retypes a mutable tag; an immutable tag refuses. */
    method SetType(newType: TagType) returns (outcome: Outcome)
      requires Valid()
      modifies this
      ensures Valid()
      ensures outcome == if old(isMutable) then Completed else Threw(UnsupportedOperation(SetTypeMessage))
      ensures State() == if old(isMutable) then old(State()).(tagType := Some(newType)) else old(State())
    {
      if isMutable {
        tagType := Some(newType);
        outcome := Completed;
      } else {
        outcome := Threw(UnsupportedOperation(SetTypeMessage));
      }
    }

    /**
     * The pieces `toXmlString` appends, given how the attribute map renders
     * its entries. A tag without a type renders like an open tag.
     */
    function Pieces(render: seq<Entry> -> string): TagText.Shape
      reads this, attributes
    {
      TagText.Shape(IsClose(), namespace, name,
                    if attributes.Size() > 0 then Some(render(attributes.entries)) else None,
                    IsOpenClose())
    }

    /** `toXmlString()`: the tag rebuilt from its current fields. */
    function ToXmlString(render: seq<Entry> -> string): (r: string)
      reads this, attributes
      ensures |r| >= 2 && r[0] == '<' && r[|r| - 1] == '>'
      ensures IsClose() ==> r[1] == '/'
      ensures IsOpenClose() ==> r[|r| - 2] == '/'
      ensures TagText.WellFormed(Pieces(render)) ==> TagText.Parse(r) == Some(Pieces(render))
      ensures TagText.WellFormed(Pieces(render)) ==> (r[1] == '/' <==> IsClose())
      ensures TagText.WellFormed(Pieces(render)) ==> (r[|r| - 2] == '/' <==> IsOpenClose())
      ensures namespace == None && attributes.Size() == 0 && IsOpen() ==> r == "<" + name + ">"
    {
      var sh := Pieces(render);
      if TagText.WellFormed(sh) then
        TagText.ParseSerialize(sh);
        TagText.ClosingMarker(sh);
        TagText.SelfClosingMarker(sh);
        TagText.Serialize(sh)
      else
        TagText.Serialize(sh)
    }

    /**
     * `toString()`: an immutable tag shows the text it was parsed from; a
     * mutable one shows its current fields.
     */
    function ToString(render: seq<Entry> -> string): (r: string)
      reads this, attributes
      ensures !isMutable ==> r == text
      ensures isMutable ==> r == ToXmlString(render)
      ensures isMutable && TagText.WellFormed(Pieces(render)) ==> TagText.Parse(r) == Some(Pieces(render))
    {
      if !isMutable then text else ToXmlString(render)
    }
  }

  /** `isOpenClose(componentName)` as written accepts an open-close `<br/>` when asked for "img". */
  lemma OpenCloseNameIgnored(t: XmlTag)
    requires t.IsOpenClose() && t.name == "br"
    ensures t.IsOpenCloseNamed("img") && !t.IsOpenCloseWithName("img")
  {
  }

  /**
   * `isOpenClose(componentName)` as written answers the same for every pair of
   * names, even two different ones, while the corrected predicate rejects at
   * least one of them.
   */
  lemma OpenCloseAcceptsEveryName(t: XmlTag, a: string, b: string)
    requires t.IsOpenClose() && a != b
    ensures t.IsOpenCloseNamed(a) && t.IsOpenCloseNamed(b)
    ensures !(t.IsOpenCloseWithName(a) && t.IsOpenCloseWithName(b))
  {
  }

  /** `isOpen(componentName)` accepts exactly one name on an open tag: the tag's own. */
  lemma OpenNamedAcceptsOneName(t: XmlTag, a: string, b: string)
    ensures t.IsOpenNamed(a) && t.IsOpenNamed(b) ==> a == b
    ensures t.IsOpen() ==> t.IsOpenNamed(t.name)
  {
  }

  /**
   * The corrected predicate accepts exactly one name on an open-close tag, the
   * tag's own, as `isOpen(componentName)` does on an open tag; it agrees with
   * the code as written exactly when the name matches.
   */
  lemma OpenCloseWithNameAgrees(t: XmlTag, a: string, b: string)
    ensures t.IsOpenCloseWithName(a) && t.IsOpenCloseWithName(b) ==> a == b
    ensures t.IsOpenClose() ==> t.IsOpenCloseWithName(t.name)
    ensures t.IsOpenCloseWithName(a) <==> t.IsOpenCloseNamed(a) && t.name == a
    ensures t.IsOpenCloseWithName(a) ==> !t.IsOpenNamed(a)
  {
  }

  /**
   * A close tag linked to an original open tag also closes every copy of
   * that original, however long the chain of copies.
   */
  lemma ClosesCopiesOfOriginal(close: XmlTag, original: XmlTag, copy: XmlTag)
    requires original.copyOf == original
    requires copy.copyOf == original.copyOf
    requires close.GetOpenTag() == original
    ensures close.Closes(original) && close.Closes(copy)
  {
  }

  /**
   * Copies point at the root original, not at the tag they were made from: a
   * close tag linked to an intermediate copy does not close a copy of that
   * copy.
   */
  lemma ClosesNotCopiesOfCopy(close: XmlTag, intermediate: XmlTag, copy: XmlTag)
    requires intermediate.copyOf != intermediate && copy != intermediate
    requires copy.copyOf == intermediate.copyOf
    requires close.GetOpenTag() == intermediate
    ensures close.Closes(intermediate) && !close.Closes(copy)
  {
  }
}
