/**
 * The request bodies of PROPFIND, PROPPATCH and LOCK (the templates of carcass.js:249-291),
 * written out as the strings the templates produce for the data the client passes them.
 */
module Templates {
  import opened Base
  import opened Text
  import opened Js
  import opened Namespaces

  /** `Carcass.WEBDAV_NAMESPACE_URI`. */
  const WebdavNamespaceUri := "DAV:"

  /** `sub` occurs in `s` at index `i`. */
  predicate At(s: string, sub: string, i: int)
  {
    0 <= i && i + |sub| <= |s| && s[i..i + |sub|] == sub
  }

  /** True iff `sub` occurs in `s`. */
  ghost predicate Contains(s: string, sub: string)
  {
    exists i :: At(s, sub, i)
  }

  /** Whatever occurs in `b` occurs in `a + b + c`. */
  lemma ContainsInside(a: string, b: string, c: string, sub: string)
    requires Contains(b, sub)
    ensures Contains(a + b + c, sub)
  {
    var i :| At(b, sub, i);
    assert (a + b + c)[|a| + i..|a| + i + |sub|] == b[i..i + |sub|];
    assert At(a + b + c, sub, |a| + i);
  }

  /** In `a + b + c + d`, `b` occurs, and so does whatever occurs in `c`. */
  lemma ContainsParts(a: string, b: string, c: string, d: string, sub: string)
    requires Contains(c, sub)
    ensures Contains(a + b + c + d, b) && Contains(a + b + c + d, sub)
  {
    assert At(a + b + c + d, b, |a|) by {
      assert (a + b + c + d)[|a|..|a| + |b|] == b;
    }
    ContainsInside(a + b, c, d, sub);
  }

  /** The last part of a concatenation occurs in it. */
  lemma ContainsSuffix(a: string, b: string)
    ensures Contains(a + b, b)
  {
    assert (a + b)[|a|..|a| + |b|] == b;
    assert At(a + b, b, |a|);
  }

  /** Whatever occurs in `a` occurs in `a + b`. */
  lemma ContainsExtend(a: string, b: string, sub: string)
    requires Contains(a, sub)
    ensures Contains(a + b, sub)
  {
    var i :| At(a, sub, i);
    assert (a + b)[i..i + |sub|] == a[i..i + |sub|];
    assert At(a + b, sub, i);
  }

  function XmlDeclaration(encoding: string): string
  {
    "<?xml version=\"1.0\" encoding=\"" + encoding + "\" ?>"
  }

  /** `{{#ns}}{{ns}}:{{/ns}}`: the prefix and a colon when `ns` is a non-empty string. */
  function PrefixOf(ns: Option<string>): string
  {
    if ns.Some? && ns.value != "" then ns.value + ":" else ""
  }

  /** ` xmlns:{{ns}}="{{schema}}"` for one binding. */
  function Declaration(b: Binding): string
  {
    " xmlns:" + b.ns + "=\"" + b.schema + "\""
  }

  /** `{{#namespaces}} xmlns:{{ns}}="{{schema}}"{{/namespaces}}`. */
  function Declarations(bs: seq<Binding>): string
  {
    if bs == [] then "" else Declarations(bs[..|bs| - 1]) + Declaration(bs[|bs| - 1])
  }

  /** Every binding is declared. */
  lemma {:induction false} DeclarationsContain(bs: seq<Binding>, b: Binding)
    requires b in bs
    ensures Contains(Declarations(bs), Declaration(b))
  {
    var pre := bs[..|bs| - 1];
    if b == bs[|bs| - 1] {
      ContainsSuffix(Declarations(pre), Declaration(b));
    } else {
      assert b in pre;
      DeclarationsContain(pre, b);
      ContainsExtend(Declarations(pre), Declaration(bs[|bs| - 1]), Declaration(b));
    }
  }

  // ---------------------------------------------------------------------------------------
  // PROPFIND
  // ---------------------------------------------------------------------------------------

  /**
   * `properties instanceof Array && properties.length`: a non-empty array, holes included.
   */
  predicate HaveProperties(properties: Option<Props>)
  {
    properties.Some? && properties.value.List? && |properties.value.slots| > 0
  }

  /** `<{{#ns}}{{ns}}:{{/ns}}{{name}}/>` for one slot; a hole has no name and no prefix. */
  function PropfindEntry(s: Slot): string
  {
    match s
    case Deleted => "</>"
    case Present(p) => "<" + PrefixOf(p.ns) + p.name + "/>"
  }

  /** `{{#properties}}...{{/properties}}` over an array. */
  function PropfindEntries(slots: seq<Slot>): string
  {
    if slots == [] then "" else PropfindEntries(slots[..|slots| - 1]) + PropfindEntry(slots[|slots| - 1])
  }

  /**
   * The PROPFIND body: `<allprop/>` unless a non-empty array of properties was given, else
   * a `<prop>` element declaring the bindings and naming every property. The `<propname/>`
   * branch of the template is never taken: the client passes no `propname`.
   */
  function PropfindBody(encoding: string, haveProperties: bool, properties: Option<Props>, namespaces: seq<Binding>): string
  {
    XmlDeclaration(encoding) + "<propfind xmlns=\"" + WebdavNamespaceUri + "\">" +
    (if haveProperties && properties.Some? && properties.value.List? then
       "<prop" + Declarations(namespaces) + ">" + PropfindEntries(properties.value.slots) + "</prop>"
     else "<allprop/>") +
    "</propfind>"
  }

  /** Without a non-empty array the body asks for all properties, whatever was passed. */
  lemma PropfindAllprop(encoding: string, properties: Option<Props>, walked: Option<Props>, namespaces: seq<Binding>)
    requires !HaveProperties(properties)
    ensures PropfindBody(encoding, HaveProperties(properties), walked, namespaces)
         == XmlDeclaration(encoding) + "<propfind xmlns=\"DAV:\"><allprop/></propfind>"
  {
  }

  /** The entries of an array: one per slot, in order. */
  lemma {:induction false} PropfindEntriesAt(slots: seq<Slot>, i: nat)
    requires i < |slots|
    ensures Contains(PropfindEntries(slots), PropfindEntry(slots[i]))
  {
    var pre := slots[..|slots| - 1];
    var last := PropfindEntry(slots[|slots| - 1]);
    var rest := PropfindEntries(pre);
    assert PropfindEntries(slots) == rest + last;
    if i == |slots| - 1 {
      ContainsSuffix(rest, last);
    } else {
      assert slots[i] == pre[i];
      PropfindEntriesAt(pre, i);
      ContainsExtend(rest, last, PropfindEntry(slots[i]));
    }
  }

  /** A `<prop>` body is the head, the `<prop>` tag with the declarations, the entries and the closing tags. */
  lemma PropfindBodyParts(encoding: string, walked: Props, namespaces: seq<Binding>)
    requires walked.List?
    ensures PropfindBody(encoding, true, Some(walked), namespaces) ==
              (XmlDeclaration(encoding) + "<propfind xmlns=\"" + WebdavNamespaceUri + "\">") +
              ("<prop" + Declarations(namespaces) + ">") + PropfindEntries(walked.slots) + ("</prop>" + "</propfind>")
  {
  }

  /** A `<prop>` body holds the declarations on `<prop>` and the entry of every slot. */
  lemma PropfindBodyContains(encoding: string, walked: Props, namespaces: seq<Binding>, i: nat)
    requires walked.List? && i < |walked.slots|
    ensures Contains(PropfindBody(encoding, true, Some(walked), namespaces), "<prop" + Declarations(namespaces) + ">")
    ensures Contains(PropfindBody(encoding, true, Some(walked), namespaces), PropfindEntry(walked.slots[i]))
  {
    var head := XmlDeclaration(encoding) + "<propfind xmlns=\"" + WebdavNamespaceUri + "\">";
    var open := "<prop" + Declarations(namespaces) + ">";
    var entries := PropfindEntries(walked.slots);
    var tail := "</prop>" + "</propfind>";
    PropfindBodyParts(encoding, walked, namespaces);
    PropfindEntriesAt(walked.slots, i);
    ContainsParts(head, open, entries, tail, PropfindEntry(walked.slots[i]));
  }

  /**
   * In the body built from `readNamespaces`, every property that has a schema is written
   * `<nsK:name/>` with a prefix `nsK` that the `<prop>` element declares for that schema.
   */
  lemma PropfindPrefixDeclared(encoding: string, properties: Option<Props>, i: nat)
    requires ReadNamespacesSpec(properties).Ok?
    requires properties.Some? && properties.value.List? && i < |properties.value.slots|
    requires properties.value.slots[i].Present? && properties.value.slots[i].prop.name != ""
    requires properties.value.slots[i].prop.schema != ""
    ensures var r := ReadNamespacesSpec(properties).value;
            var p := properties.value.slots[i].prop;
            exists b :: b in r.1 && b.schema == p.schema
              && Contains(PropfindBody(encoding, HaveProperties(properties), r.0, r.1), "<" + b.ns + ":" + p.name + "/>")
              && Contains(PropfindBody(encoding, HaveProperties(properties), r.0, r.1), "<prop" + Declarations(r.1) + ">")
              && Contains(Declarations(r.1), Declaration(b))
  {
    var ps := properties.value;
    var r := ReadNamespacesSpec(properties).value;
    var p := ps.slots[i].prop;
    var w := WalkProps(ps, EmptyTable).value;
    WalkItemsShape(ps, |Items(ps)|, EmptyTable);
    PrefixesDeclared(properties);
    BindingsFirstSeen(properties);
    var out := w.value.slots;
    assert Items(ps)[i] == ps.slots[i];
    var q := out[i].prop;
    assert q.name == p.name && q.schema == p.schema;
    assert DeclaredProperty(q, r.1) by { assert Items(w.value)[i] == out[i]; }
    var b := Binding(q.ns.value, q.schema);
    var k :| 0 <= k < |r.1| && r.1[k] == b;
    assert b.ns != "" by { assert b.ns == Prefix(k); }
    assert PropfindEntry(out[i]) == "<" + b.ns + ":" + p.name + "/>";
    PropfindBodyContains(encoding, r.0.value, r.1, i);
    DeclarationsContain(r.1, b);
  }

  // ---------------------------------------------------------------------------------------
  // PROPPATCH
  // ---------------------------------------------------------------------------------------

  /**
   * The `value` partial, `<{{#ns}}{{ns}}:{{/ns}}{{name}}>{{value}}{{#fields}}{{>value}}{{/fields}}</{{name}}>`,
   * for one property: the closing tag carries no prefix.
   */
  function ValueEntry(p: Property): string
    decreases p
  {
    "<" + PrefixOf(p.ns) + p.name + ">" + p.value +
    (match p.fields case None => "" case Some(fs) => ValueEntries(fs)) +
    "</" + p.name + ">"
  }

  /** The partial for an array slot: a hole renders with no name. */
  function ValueSlot(s: Slot): string
    decreases s
  {
    match s
    case Deleted => "<></>"
    case Present(p) => ValueEntry(p)
  }

  /** A section over `fields`: each slot of an array in order, or the single object once. */
  function ValueEntries(ps: Props): string
    decreases ps, 1
  {
    match ps
    case Single(p) => ValueEntry(p)
    case List(slots) => ValueList(ps, |slots|)
  }

  function ValueList(ps: Props, n: nat): string
    requires ps.List? && n <= |ps.slots|
    decreases ps, 0, n
  {
    if n == 0 then "" else ValueList(ps, n - 1) + ValueSlot(ps.slots[n - 1])
  }

  /** `{{#setProperties}}<prop>{{>value}}</prop>{{/setProperties}}`. */
  function SetSection(setProperties: Option<Props>): string
  {
    match setProperties
    case None => ""
    case Some(Single(p)) => "<prop>" + ValueEntry(p) + "</prop>"
    case Some(List(slots)) => SetList(slots)
  }

  function SetList(slots: seq<Slot>): string
  {
    if slots == [] then "" else SetList(slots[..|slots| - 1]) + "<prop>" + ValueSlot(slots[|slots| - 1]) + "</prop>"
  }

  /**
   * The PROPPATCH body. The declarations come from the bindings of `setProperties` alone,
   * and the `<remove>` block reads `removeProperties`, which the client never supplies: the
   * properties to delete are accepted and never written.
   */
  function ProppatchBody(encoding: string, setProperties: Option<Props>, deleteProperties: Option<Props>, namespaces: seq<Binding>): string
  {
    XmlDeclaration(encoding) +
    ("<propertyupdate xmlns=\"" + WebdavNamespaceUri + "\"" + Declarations(namespaces) + ">") +
    "<set>" + SetSection(setProperties) + "</set>" +
    "<remove></remove>" +
    "</propertyupdate>"
  }

  /** The properties to delete never reach the body: it always ends with an empty `<remove>`. */
  lemma ProppatchRemoveEmpty(encoding: string, setProperties: Option<Props>, d1: Option<Props>, d2: Option<Props>, namespaces: seq<Binding>)
    ensures ProppatchBody(encoding, setProperties, d1, namespaces) == ProppatchBody(encoding, setProperties, d2, namespaces)
    ensures EndsWith(ProppatchBody(encoding, setProperties, d1, namespaces), "<remove></remove>" + "</propertyupdate>")
  {
    var pre := XmlDeclaration(encoding) +
      ("<propertyupdate xmlns=\"" + WebdavNamespaceUri + "\"" + Declarations(namespaces) + ">") +
      "<set>" + SetSection(setProperties) + "</set>";
    var tail := "<remove></remove>" + "</propertyupdate>";
    assert ProppatchBody(encoding, setProperties, d1, namespaces) == pre + tail;
    EndsWithAppend(pre, tail);
  }

  lemma EndsWithAppend(a: string, b: string)
    ensures EndsWith(a + b, b)
  {
    assert (a + b)[|a + b| - |b|..] == b;
  }

  /**
   * A property with a prefix opens with `<prefix:name>` and closes with `</name>`, a tag
   * of a different name: the value partial is not well-formed XML once a schema is given.
   */
  lemma ValueClosingTagUnprefixed(p: Property, n: string)
    requires p.ns == Some(n) && n != ""
    ensures StartsWith(ValueEntry(p), "<" + n + ":" + p.name + ">")
    ensures EndsWith(ValueEntry(p), "</" + p.name + ">")
  {
    var e := ValueEntry(p);
    var open := "<" + n + ":" + p.name + ">";
    var close := "</" + p.name + ">";
    var mid := p.value + (match p.fields case None => "" case Some(fs) => ValueEntries(fs));
    assert e == open + mid + close;
    assert e[..|open|] == open;
    assert e[|e| - |close|..] == close;
  }

  /** Every field of a property is written inside it. */
  lemma {:induction false} ValueListAt(ps: Props, n: nat, i: nat)
    requires ps.List? && i < n <= |ps.slots|
    ensures Contains(ValueList(ps, n), ValueSlot(ps.slots[i]))
    decreases n
  {
    if i == n - 1 {
      ContainsSuffix(ValueList(ps, n - 1), ValueSlot(ps.slots[i]));
    } else {
      ValueListAt(ps, n - 1, i);
      ContainsExtend(ValueList(ps, n - 1), ValueSlot(ps.slots[n - 1]), ValueSlot(ps.slots[i]));
    }
  }

  /** What a string starts with occurs in it. */
  lemma ContainsStart(s: string, p: string)
    requires StartsWith(s, p)
    ensures Contains(s, p)
  {
    assert At(s, p, 0);
  }

  /** Whatever occurs in a part of `s` occurs in `s`. */
  lemma ContainsTrans(s: string, mid: string, sub: string)
    requires Contains(s, mid) && Contains(mid, sub)
    ensures Contains(s, sub)
  {
    var i :| At(s, mid, i);
    var j :| At(mid, sub, j);
    forall k | 0 <= k < |sub| ensures s[i + j + k] == sub[k] {
      assert mid[j + k] == sub[k];
      assert s[i + (j + k)] == mid[j + k];
    }
    assert s[i + j..i + j + |sub|] == sub;
    assert At(s, sub, i + j);
  }

  /** `{{#setProperties}}` writes every slot of the array, each inside its own `<prop>`. */
  lemma {:induction false} SetListAt(slots: seq<Slot>, i: nat)
    requires i < |slots|
    ensures Contains(SetList(slots), "<prop>" + ValueSlot(slots[i]) + "</prop>")
  {
    var pre := slots[..|slots| - 1];
    var last := "<prop>" + ValueSlot(slots[|slots| - 1]) + "</prop>";
    assert SetList(slots) == SetList(pre) + last;
    if i == |slots| - 1 {
      ContainsSuffix(SetList(pre), last);
    } else {
      assert slots[i] == pre[i];
      SetListAt(pre, i);
      ContainsExtend(SetList(pre), last, "<prop>" + ValueSlot(slots[i]) + "</prop>");
    }
  }

  /**
   * Each property to set, given as an array or as one bare object, is rendered through the
   * value partial inside its own `<prop>` element.
   */
  lemma SetSectionAt(setProperties: Option<Props>, i: nat)
    requires setProperties.Some? && i < |Items(setProperties.value)| && Items(setProperties.value)[i].Present?
    ensures Contains(SetSection(setProperties), "<prop>" + ValueEntry(Items(setProperties.value)[i].prop) + "</prop>")
  {
    match setProperties.value
    case Single(p) =>
      assert At(SetSection(setProperties), "<prop>" + ValueEntry(p) + "</prop>", 0);
    case List(slots) =>
      SetListAt(slots, i);
  }

  /** The PROPPATCH body opens with the declaring `<propertyupdate>` tag and holds the set section. */
  lemma ProppatchBodyContains(encoding: string, setProperties: Option<Props>, deleteProperties: Option<Props>,
                              namespaces: seq<Binding>, sub: string)
    requires Contains(SetSection(setProperties), sub)
    ensures Contains(ProppatchBody(encoding, setProperties, deleteProperties, namespaces),
                     "<propertyupdate xmlns=\"" + WebdavNamespaceUri + "\"" + Declarations(namespaces) + ">")
    ensures Contains(ProppatchBody(encoding, setProperties, deleteProperties, namespaces), sub)
  {
    var x := XmlDeclaration(encoding);
    var head := "<propertyupdate xmlns=\"" + WebdavNamespaceUri + "\"" + Declarations(namespaces) + ">";
    var setPart := x + head + "<set>" + SetSection(setProperties) + "</set>";
    ContainsSuffix(x, head);
    ContainsExtend(x + head, "<set>", head);
    ContainsExtend(x + head + "<set>", SetSection(setProperties), head);
    ContainsExtend(x + head + "<set>" + SetSection(setProperties), "</set>", head);
    ContainsInside(x + head + "<set>", SetSection(setProperties), "</set>", sub);
    ContainsExtend(setPart, "<remove></remove>", head);
    ContainsExtend(setPart, "<remove></remove>", sub);
    ContainsExtend(setPart + "<remove></remove>", "</propertyupdate>", head);
    ContainsExtend(setPart + "<remove></remove>", "</propertyupdate>", sub);
  }

  /**
   * A property to set with a name and a schema opens as `<nsK:name>` in the PROPPATCH body,
   * with a prefix `nsK` that the `<propertyupdate>` element declares for that schema.
   */
  lemma ProppatchPrefixDeclared(encoding: string, setProperties: Option<Props>, deleteProperties: Option<Props>, i: nat)
    requires ReadNamespacesSpec(setProperties).Ok?
    requires setProperties.Some? && i < |Items(setProperties.value)|
    requires Items(setProperties.value)[i].Present? && Items(setProperties.value)[i].prop.name != ""
    requires Items(setProperties.value)[i].prop.schema != ""
    ensures var r := ReadNamespacesSpec(setProperties).value;
            var p := Items(setProperties.value)[i].prop;
            var body := ProppatchBody(encoding, r.0, deleteProperties, r.1);
            exists b :: b in r.1 && b.schema == p.schema
              && Contains(body, "<" + b.ns + ":" + p.name + ">")
              && Contains(body, "<propertyupdate xmlns=\"" + WebdavNamespaceUri + "\"" + Declarations(r.1) + ">")
              && Contains(Declarations(r.1), Declaration(b))
  {
    var ps := setProperties.value;
    var r := ReadNamespacesSpec(setProperties).value;
    var p := Items(ps)[i].prop;
    var w := WalkProps(ps, EmptyTable).value;
    WalkItemsShape(ps, |Items(ps)|, EmptyTable);
    PrefixesDeclared(setProperties);
    BindingsFirstSeen(setProperties);
    var out := WalkItems(ps, |Items(ps)|, EmptyTable).value.value;
    assert Items(w.value) == out;
    var q := out[i].prop;
    assert q.name == p.name && q.schema == p.schema;
    assert DeclaredProperty(q, r.1);
    var b := Binding(q.ns.value, q.schema);
    var k :| 0 <= k < |r.1| && r.1[k] == b;
    assert b.ns != "" by { assert b.ns == Prefix(k); }
    var open := "<" + b.ns + ":" + p.name + ">";
    var entry := "<prop>" + ValueEntry(q) + "</prop>";
    ValueClosingTagUnprefixed(q, b.ns);
    ContainsStart(ValueEntry(q), open);
    ContainsInside("<prop>", ValueEntry(q), "</prop>", open);
    SetSectionAt(r.0, i);
    ContainsTrans(SetSection(r.0), entry, open);
    ProppatchBodyContains(encoding, r.0, deleteProperties, r.1, open);
    DeclarationsContain(r.1, b);
  }

  // ---------------------------------------------------------------------------------------
  // LOCK
  // ---------------------------------------------------------------------------------------

  /** `{{owner}}`: nothing for `undefined` and `null`, the string conversion otherwise. */
  function Interpolate(v: JsValue): string
  {
    if Given(v) then ToJsString(v) else ""
  }

  /** The LOCK body: scope and type as empty elements, the owner inside an `href`. */
  function LockBody(encoding: string, scope: string, lockType: string, owner: JsValue): string
  {
    XmlDeclaration(encoding) + ("<lockinfo xmlns=\"" + WebdavNamespaceUri + "\">") +
    ("<lockscope><" + scope + "/></lockscope>") +
    ("<locktype><" + lockType + "/></locktype>") +
    ("<owner><href>" + Interpolate(owner) + "</href></owner>") +
    "</lockinfo>"
  }

  /**
   * The LOCK body names the scope and the type as empty elements and the owner inside an
   * `href`.
   */
  lemma LockBodyParts(encoding: string, scope: string, lockType: string, owner: JsValue)
    ensures Contains(LockBody(encoding, scope, lockType, owner), "<lockscope><" + scope + "/></lockscope>")
    ensures Contains(LockBody(encoding, scope, lockType, owner), "<locktype><" + lockType + "/></locktype>")
    ensures Contains(LockBody(encoding, scope, lockType, owner), "<owner><href>" + Interpolate(owner) + "</href></owner>")
  {
    var head := XmlDeclaration(encoding) + ("<lockinfo xmlns=\"" + WebdavNamespaceUri + "\">");
    var sc := "<lockscope><" + scope + "/></lockscope>";
    var ty := "<locktype><" + lockType + "/></locktype>";
    var ow := "<owner><href>" + Interpolate(owner) + "</href></owner>";
    var tail := "</lockinfo>";
    ContainsSuffix(head, sc);
    ContainsExtend(head + sc, ty, sc);
    ContainsExtend(head + sc + ty, ow, sc);
    ContainsExtend(head + sc + ty + ow, tail, sc);
    ContainsSuffix(head + sc, ty);
    ContainsExtend(head + sc + ty, ow, ty);
    ContainsExtend(head + sc + ty + ow, tail, ty);
    ContainsSuffix(head + sc + ty, ow);
    ContainsExtend(head + sc + ty + ow, tail, ow);
  }

  /** An owner left out or `null` gives an empty `href`. */
  lemma LockBodyNoOwner(encoding: string, scope: string, lockType: string, owner: JsValue)
    requires !Given(owner)
    ensures Contains(LockBody(encoding, scope, lockType, owner), "<owner><href></href></owner>")
  {
    LockBodyParts(encoding, scope, lockType, owner);
    assert "<owner><href>" + Interpolate(owner) + "</href></owner>" == "<owner><href></href></owner>";
  }
}
