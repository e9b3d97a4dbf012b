# XmlTag: a Dafny model of Wicket's markup tag

This project models `wicket.markup.parser.XmlTag`, the object that Wicket's
markup parser emits for each open (`<div>`), close (`</div>`) or open-close
(`<br/>`) tag. Each tag has:

- a name and an optional namespace (`wicket` in `<wicket:link>`);
- an attribute map;
- its position, length and line/column in the parsed markup;
- the raw text it was parsed from.

A tag starts mutable and can be frozen once, with `makeImmutable`. A frozen
tag refuses renaming, retyping and attribute writes. The only way back to an
editable tag is `mutable()`, which returns a fresh copy. Every copy points at
the root original (`copyOf`). So a close tag linked to the original by
`setOpenTag` still `closes` the copies. `toXmlString` rebuilds the tag's text
from its fields. `toString` shows the raw text for a frozen tag and the rebuilt
text for a mutable one.

Layout, one module per file:

- `wrappers.dfy` (`Wrappers`): `Option`, which stands for a Java reference that may be null.
- `java_lang.dfy` (`JavaLang`): the parts of `java.lang` the tag uses. These are 32-bit `int`,
  `Boolean.toString` and `Integer.toString`, and a thrown `UnsupportedOperationException`,
  modelled as the `Threw` outcome of a void method. A reader for the decimal text proves
  that the conversion can be undone.
- `value_map.dfy` (`ValueMaps`): the attribute map. It is a list of entries, in the assumed insertion order, with
  distinct names, with pure `Insert`, `Delete` and `Lookup` functions and lemmas about them.
  The class `ValueMap` holds the entries and a freeze flag.
- `tag_text.dfy` (`TagText`): the pieces `toXmlString` appends (`Shape`) and their
  concatenation (`Serialize`). It also has a reference reader (`Parse`) that splits such a text
  back into its pieces, with round-trip lemmas in both directions.
- `xml_tag.dfy` (`MarkupParser`): the class `XmlTag`, with the real fields, a `State()`
  snapshot used to say what each method changes, and the object invariant `Valid()`.
- `xml_tag_scenarios.dfy` (`XmlTagScenarios`): callers that follow tags through parsing,
  freezing, copying, renaming and pairing. They state what they observe, using only the
  contracts.

How the model treats the source:

- The attribute map's rendering (`ValueMap.toString`) is a function parameter `render`.
  Every property of `toXmlString` and `toString` holds for any rendering.
- The parser assigns the package-private fields directly. The scenarios do the same on
  freshly built tags.
- Wicket's `ValueMap.java` is not part of this model. Its freeze behaviour is an assumption:
  a write to a frozen map fails with `UnsupportedOperationException`. Its message,
  "Map is immutable", is also an assumption. `XmlTag.java` does not show how `ValueMap`
  orders its entries either; the model assumes insertion order (a new name is appended, an
  existing one keeps its place). No property of the tag depends on that order, since the
  rendering is a parameter.

Points where the code does less, or other, than its names and comments suggest:

- `put` and `remove` (`XmlTag.java:381-384`, `:416-419`) never test `isMutable`. On an
  immutable tag they fail only because `makeImmutable` froze the attribute map (`:311`).
  `Valid()` carries the invariant "immutable tag ⇒ frozen map", and from it `Put`/`Remove`
  prove that they fail on an immutable tag.
- The Javadoc of `isOpenClose(componentName)` (`:288-295`) promises a name check, but `:298`
  compares the argument with itself, so the name is ignored (see Findings).
- The Javadoc of `setOpenTag` (`:440-447`) says it throws when called on a non-close tag. The
  code records the link unconditionally (`:448-451`), and the model follows the code.
- `closes()` survives copying only when the link points at the root original. Every copy
  points at the root (`:341`), so a close tag linked to an intermediate copy does not close a
  copy of that copy (`ClosesNotCopiesOfCopy`).

## Model

| member | source | states |
|---|---|---|
| MarkupParser.XmlTag.constructor | wicket/src/java/wicket/markup/parser/XmlTag.java:49-111 | a new tag is mutable, has an empty writable attribute map, no type, no open-tag link, no name change, and is its own original (`copyOf == this`) |
| MarkupParser.XmlTag.MakeImmutable | wicket/src/java/wicket/markup/parser/XmlTag.java:306-313 | afterwards the tag is immutable and its map frozen, and nothing else changed; on an already immutable tag the call changes nothing at all (idempotent, one-way) |
| MarkupParser.XmlTag.Mutable | wicket/src/java/wicket/markup/parser/XmlTag.java:322-345 | a mutable tag gets itself back; an immutable tag gets a fresh mutable tag with a fresh map holding the same entries, the same namespace, name, pos, length, text, type and open-tag link, and the original's `copyOf`; no existing object changes |
| MarkupParser.XmlTag.CopyInto | wicket/src/java/wicket/markup/parser/XmlTag.java:330-341 | the field-by-field copy: which fields a copy takes over, that its map is new and writable, and that line, column and name-changed stay at their initial values |
| MarkupParser.XmlTag.SetName | wicket/src/java/wicket/markup/parser/XmlTag.java:427-438 | on a mutable tag sets the name and the name-changed flag and nothing else; on an immutable tag throws UnsupportedOperation with the source's message and changes nothing |
| MarkupParser.XmlTag.SetType | wicket/src/java/wicket/markup/parser/XmlTag.java:459-469 | on a mutable tag sets the type and nothing else; on an immutable tag throws UnsupportedOperation with the source's message and changes nothing |
| MarkupParser.XmlTag.SetOpenTag | wicket/src/java/wicket/markup/parser/XmlTag.java:448-451 | records the link and nothing else, whatever the tag's type or mutability; afterwards `getOpenTag()` returns it and `closes(it)` holds |
| MarkupParser.XmlTag.Put | wicket/src/java/wicket/markup/parser/XmlTag.java:381-384 | writes through to the map: a frozen map throws and nothing changes, otherwise the entry is inserted in place or appended; on an immutable tag it always throws; afterwards the key reads the value and every other key reads as before |
| MarkupParser.XmlTag.PutBool | wicket/src/java/wicket/markup/parser/XmlTag.java:355-358 | stores "true" or "false" under the key, with the same failure and frame behaviour as `Put` |
| MarkupParser.XmlTag.PutInt | wicket/src/java/wicket/markup/parser/XmlTag.java:368-371 | stores the decimal text of the 32-bit value, which reads back as exactly that value, with the same failure and frame behaviour as `Put` |
| MarkupParser.XmlTag.Remove | wicket/src/java/wicket/markup/parser/XmlTag.java:416-419 | deletes through the map: a frozen map throws and nothing changes, otherwise the key is gone afterwards and every other key reads as before; on an immutable tag it always throws |
| MarkupParser.XmlTag.IsOpenCloseNamed | wicket/src/java/wicket/markup/parser/XmlTag.java:296-299 | as written, equals `isOpenClose()` for every argument |
| MarkupParser.XmlTag.Closes | wicket/src/java/wicket/markup/parser/XmlTag.java:120-123 | linked to `open` means it closes `open`; for a root original (`copyOf` is itself) it closes exactly when linked to it; a tag linked to nothing closes no tag |
| MarkupParser.XmlTag.GetOpenTag | wicket/src/java/wicket/markup/parser/XmlTag.java:200-203 | the recorded open tag, if any, is one this tag closes |
| MarkupParser.XmlTag.GetString | wicket/src/java/wicket/markup/parser/XmlTag.java:222-225 | a value is found exactly when the key is one of the attribute names, and it is the value stored under that key |
| MarkupParser.XmlTag.IsOpen | wicket/src/java/wicket/markup/parser/XmlTag.java:261-264 | an open tag has a type and is neither a close nor an open-close tag |
| MarkupParser.XmlTag.IsClose | wicket/src/java/wicket/markup/parser/XmlTag.java:242-245 | a close tag has a type and is not an open tag |
| MarkupParser.XmlTag.IsOpenClose | wicket/src/java/wicket/markup/parser/XmlTag.java:283-286 | an open-close tag has a type and is neither an open nor a close tag |
| MarkupParser.XmlTag.IsOpenNamed | wicket/src/java/wicket/markup/parser/XmlTag.java:273-276 | a tag that answers true for some name is neither a close nor an open-close tag |
| MarkupParser.XmlTag.IsOpenCloseWithName | wicket/src/java/wicket/markup/parser/XmlTag.java:288-299 | the corrected `isOpenClose(name)`: a tag that answers true for some name is neither an open nor a close tag |
| MarkupParser.OpenCloseNameIgnored | wicket/src/java/wicket/markup/parser/XmlTag.java:296-299 | an open-close tag named "br" answers true to `isOpenClose("img")` as written, and false under the corrected predicate |
| MarkupParser.OpenCloseWithNameAgrees | wicket/src/java/wicket/markup/parser/XmlTag.java:273-299 | the corrected `isOpenClose(name)` accepts at most one name, and on an open-close tag exactly its own, as `isOpen(name)` does; it agrees with the code as written exactly when the name matches, and excludes `isOpen(name)` |
| MarkupParser.OpenCloseAcceptsEveryName | wicket/src/java/wicket/markup/parser/XmlTag.java:296-299 | on any open-close tag the code as written answers true for any two different names, while the corrected predicate rejects at least one of them |
| MarkupParser.OpenNamedAcceptsOneName | wicket/src/java/wicket/markup/parser/XmlTag.java:273-276 | `isOpen(name)` accepts at most one name, and on an open tag exactly the tag's own |
| MarkupParser.XmlTag.ToXmlString | wicket/src/java/wicket/markup/parser/XmlTag.java:513-546 | always `<`…`>`; a close tag has `/` after `<` and an open-close tag has `/` before `>`, and for well-formed names these are if-and-only-if; for well-formed names the reader recovers the type markers, namespace, name and attribute text exactly; an open tag without namespace or attributes renders as `"<" + name + ">"` |
| MarkupParser.XmlTag.ToString | wicket/src/java/wicket/markup/parser/XmlTag.java:487-495 | an immutable tag shows its raw parsed text; a mutable tag shows the rebuilt text, from which the reader recovers the rendered pieces (type markers, namespace, name, rendered attribute text) when the names are well-formed |
| MarkupParser.ClosesCopiesOfOriginal | wicket/src/java/wicket/markup/parser/XmlTag.java:120-123 | a close tag linked to a root original closes the original and every tag whose `copyOf` is that original |
| MarkupParser.ClosesNotCopiesOfCopy | wicket/src/java/wicket/markup/parser/XmlTag.java:120-123 | a close tag linked to an intermediate copy does not close a further copy, since copies point at the root and not at their source |
| TagText.Serialize | wicket/src/java/wicket/markup/parser/XmlTag.java:515-545 | the appended text is at least two characters, starts with `<` and ends with `>` |
| TagText.ParseSerialize | wicket/src/java/wicket/markup/parser/XmlTag.java:513-546 | for well-formed pieces (non-empty name, no blank, ':' or '/' in name or namespace, attribute text not ending in '/') the reader recovers every piece of the canonical text |
| TagText.SerializeParse | wicket/src/java/wicket/markup/parser/XmlTag.java:513-546 | whatever text the reader accepts is exactly the canonical text of the pieces it reads |
| TagText.ClosingMarker | wicket/src/java/wicket/markup/parser/XmlTag.java:519-522 | for well-formed pieces, a `/` directly after `<` appears if and only if the close marker is set |
| TagText.SelfClosingMarker | wicket/src/java/wicket/markup/parser/XmlTag.java:538-541 | for well-formed pieces, a `/` directly before `>` appears if and only if the open-close marker is set |
| ValueMaps.ValueMap.constructor | wicket/src/java/wicket/markup/parser/XmlTag.java:50 | a new attribute map is empty and writable |
| ValueMaps.ValueMap.CopyOf | wicket/src/java/wicket/markup/parser/XmlTag.java:337 | the copy holds the same entries and is writable |
| ValueMaps.ValueMap.MakeImmutable | wicket/src/java/wicket/markup/parser/XmlTag.java:311 | freezes the map without touching its entries |
| ValueMaps.ValueMap.Put | wicket/src/java/wicket/markup/parser/XmlTag.java:383 | a frozen map throws and keeps its entries; otherwise the entry is inserted and names stay distinct |
| ValueMaps.ValueMap.Remove | wicket/src/java/wicket/markup/parser/XmlTag.java:418 | a frozen map throws and keeps its entries; otherwise the entry is deleted and names stay distinct |
| ValueMaps.Lookup | wicket/src/java/wicket/markup/parser/XmlTag.java:222-225 | a key that is found reads a value stored under it; a key that is not found is no attribute name |
| ValueMaps.Insert | wicket/src/java/wicket/markup/parser/XmlTag.java:381-384 | the new entry is in the map, every entry for another name survives, and the size grows by at most one |
| ValueMaps.Delete | wicket/src/java/wicket/markup/parser/XmlTag.java:416-419 | no entry for the key remains and the map does not grow |
| ValueMaps.LookupPresent | wicket/src/java/wicket/markup/parser/XmlTag.java:222-225 | a key reads as present exactly when it is one of the map's names |
| ValueMaps.LookupInsert | wicket/src/java/wicket/markup/parser/XmlTag.java:381-384 | after inserting `k ↦ v`, `k` reads `v` and every other key reads as before |
| ValueMaps.KeysInsert | wicket/src/java/wicket/markup/parser/XmlTag.java:381-384 | under the assumed insertion order of `ValueMap`: inserting keeps the order of existing names and appends only a new name |
| ValueMaps.InsertUnique | wicket/src/java/wicket/markup/parser/XmlTag.java:381-384 | inserting keeps names distinct, and the size grows by one exactly when the key was new |
| ValueMaps.LookupDelete | wicket/src/java/wicket/markup/parser/XmlTag.java:416-419 | after deleting `k`, `k` is absent and every other key reads as before |
| ValueMaps.DeleteSubsequence | wicket/src/java/wicket/markup/parser/XmlTag.java:416-419 | an entry survives the deletion exactly when it was in the map under another name, and the remaining names keep their order |
| ValueMaps.DeleteUnique | wicket/src/java/wicket/markup/parser/XmlTag.java:416-419 | deleting keeps names distinct, and the size shrinks by one exactly when the key was present |
| JavaLang.BoolToString | wicket/src/java/wicket/markup/parser/XmlTag.java:357 | the stored text is "true" or "false", and it is "true" exactly for `true` |
| JavaLang.NatToDecimalIsCanonical | wicket/src/java/wicket/markup/parser/XmlTag.java:370 | the digits of a natural number are a non-empty digit string without a leading zero |
| JavaLang.NatToDecimalRoundTrip | wicket/src/java/wicket/markup/parser/XmlTag.java:370 | reading the digits back gives the number |
| JavaLang.IntToStringRoundTrip | wicket/src/java/wicket/markup/parser/XmlTag.java:368-371 | the text `put(key, int)` stores reads back as exactly the integer, for every 32-bit value |
| JavaLang.IntToString | wicket/src/java/wicket/markup/parser/XmlTag.java:370 | `Integer.toString`: non-empty, starting with '-' exactly for negative values, followed by a non-empty digit string without a leading zero |
| XmlTagScenarios.Parsed | wicket/src/java/wicket/markup/parser/XmlTag.java:61-74 | a tag with name, type and raw text assigned by the scanner is valid, mutable, attribute-free and its own original |
| XmlTagScenarios.RenameOpenTag | wicket/src/java/wicket/markup/parser/XmlTag.java:427-438 | renaming a parsed `<div>` to "span" makes both `toXmlString` and `toString` show `<span>`, and sets the name-changed flag |
| XmlTagScenarios.FrozenTagShowsParsedText | wicket/src/java/wicket/markup/parser/XmlTag.java:487-495 | a frozen `<img src="a.png"/>` shows exactly its parsed text, whatever the attribute rendering |
| XmlTagScenarios.FreezeTwice | wicket/src/java/wicket/markup/parser/XmlTag.java:306-313 | a second `makeImmutable` leaves the tag frozen and its whole state, every field and the map's contents, equal to what it was before the call |
| XmlTagScenarios.FrozenTagRefusesWrites | wicket/src/java/wicket/markup/parser/XmlTag.java:381-469 | `setName`, `setType`, `put`, `put(int)` and `remove` on a frozen tag each throw UnsupportedOperation, and the whole state of the tag, every field and the map's contents, stays as it was |
| XmlTagScenarios.TypedPuts | wicket/src/java/wicket/markup/parser/XmlTag.java:355-371 | `put(k, true)` stores "true", and `put(k, 42)` and `put(k, -7)` store "42" and "-7" |
| XmlTagScenarios.MutableOfMutable | wicket/src/java/wicket/markup/parser/XmlTag.java:324-327 | `mutable()` on a mutable tag returns the very same object |
| XmlTagScenarios.CopyLeavesOriginalAlone | wicket/src/java/wicket/markup/parser/XmlTag.java:328-344 | renaming the copy of a frozen tag and removing an attribute from it leaves the original's name and attribute as they were; the copy and its map are new objects and the copy is mutable |
| XmlTagScenarios.CloseMatchesCopiedOpen | wicket/src/java/wicket/markup/parser/XmlTag.java:120-123 | a close tag paired with a frozen open tag closes it, its copy, and a copy of that copy |
| XmlTagScenarios.CloseMissesCopyOfLinkedCopy | wicket/src/java/wicket/markup/parser/XmlTag.java:120-123 | a close tag paired with a copy closes that copy but not a copy of it, because `mutable()` (:341) points the new copy at the original |

## Left out

- `put(String, StringValue)` and `putAll(Map)` (`XmlTag.java:394-408`) are left out. They pass foreign types (`StringValue`, `java.util.Map`) straight through to the map.
- `toDebugString` and `toUserDebugString` (`XmlTag.java:476-505`) are left out. They are diagnostic formatting with no contract.
- The plain getters `getAttributes`, `getColumnNumber`, `getLength`, `getLineNumber`, `getName`, `getNameChanged`, `getNamespace`, `getPos`, `getType` and `isMutable` are the fields themselves in the model. `getAttributes` is not modelled as handing out the live map. A caller freezing or writing the map behind the tag's back is therefore not modelled.
- Java `null` for `name`, `text` and the `setType(null)` argument is not modelled. The constructor starts `name` and `text` as empty strings, and `SetType` takes one of the three types. The null-pointer exceptions that `isOpen(name)`, `isOpenClose(name)` and `closes(null)` would raise are therefore not modelled.
- Wicket's `ValueMap.java` is not part of this model. Its string rendering is the `render` parameter. Its lookup of non-string values, its copy constructor and its freeze are modelled only as far as the tag uses them. Its entry order is assumed to be insertion order and is modelled as a list.
- `MarkupElement` and `EnumeratedType` (the base classes) are left out. `Type` is the datatype `TagType`, wrapped in `Option` for the unset initial value.
- `src/java/wicket/util/convert/ConversionException.java` and the tree-table column classes under `wicket-sandbox` are left out. They are data holders and UI factories with no logic about tags.
- Concurrency is not modelled. A frozen tag's safety for concurrent readers is only reflected in the fact that nothing can change it.
- MarkupParser.XmlTag.ToXmlString: the if-and-only-if for the `/` markers and the exact recovery of namespace, name and attribute text are stated only for well-formed names. For example, an open-close tag with an empty name and no namespace renders as `</>`, which looks like a close tag. What is recovered is the rendered pieces: an unset type reads back as an open tag, and the attributes come back as rendered text, not as entries.
- MarkupParser.XmlTag.ToString: for a mutable tag, recovery from the shown text holds only for well-formed names, and yields the rendered pieces as for `ToXmlString`.

## Findings

| source | as written | input that shows it | evidently intended | confidence | as-written member | corrected member |
|---|---|---|---|---|---|---|
| wicket/src/java/wicket/markup/parser/XmlTag.java:298 | `componentName.equals(componentName)` compares the argument with itself, so `isOpenClose(name)` ignores the tag's name | an open-close tag named "br" answers true to `isOpenClose("img")` | `name.equals(componentName)`, as in `isOpen(componentName)` at line 275 and as the method's comment says | high (the comment and the sibling method agree); not executed | MarkupParser.OpenCloseAcceptsEveryName | MarkupParser.OpenCloseWithNameAgrees |
