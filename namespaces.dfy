/**
 * `utils.readNamespaces` (carcass.js:348-426, the same in carcass.old.js): walks a property
 * list and, below every property that has a schema, its nested `fields`; gives each distinct
 * schema a prefix `ns0`, `ns1`, ... in first-seen order, writes the prefix into the property's
 * `ns`, deletes nameless entries from arrays, and returns the schema bindings in first-seen order.
 *
 * The property objects are modelled as values: the walk returns the updated list instead of
 * mutating the caller's objects. The `schemas` dictionary is a `Table`: its entries and the
 * insertion order in which `for (name in schemas)` enumerates them.
 */
module Namespaces {
  import opened Base
  import opened Text
  import opened Js

  /**
   * A property descriptor `{name, schema, value, fields, ns}`. A missing `name`, `schema` or
   * `value` is the empty string: the code only tests them for truthiness and the templates
   * render a missing key as nothing. `fields` is absent, an array or a single object.
   */
  datatype Property = Property(name: string, schema: string, value: string, fields: Option<Props>, ns: Option<string>)

  /** An array slot: `Deleted` is the hole `delete(properties[i])` leaves behind. */
  datatype Slot = Deleted | Present(prop: Property)

  /** What may be passed where a property list is expected: an array, or one bare object. */
  datatype Props = List(slots: seq<Slot>) | Single(item: Property)

  /** One entry of the returned list, `{ns: 'nsK', schema: url}`. */
  datatype Binding = Binding(ns: string, schema: string)

  /** The `schemas` dictionary: entries by schema, and the order in which they were added. */
  datatype Table = Table(entries: map<string, Binding>, order: seq<string>)

  /** A value together with the schema table after computing it. */
  datatype Walked<T> = Walked(value: T, table: Table)

  const EmptyTable := Table(map[], [])

  /** The error reading `.name` of a hole in the array. */
  const HoleError := TypeError("Cannot read property 'name' of undefined")

  /** The prefix given to the k-th schema: `'ns' + k`. */
  function Prefix(k: nat): string { "ns" + NatToString(k) }

  /** Prefixes of different schemas differ. */
  lemma PrefixInjective(i: nat, j: nat)
    requires Prefix(i) == Prefix(j)
    ensures i == j
  {
    assert NatToString(i) == Prefix(i)[2..];
    assert NatToString(j) == Prefix(j)[2..];
    NatToStringInjective(i, j);
  }

  /** The table holds each schema once, under the prefix counting the schemas added before it. */
  ghost predicate TableValid(t: Table)
  {
    && Distinct(t.order)
    && (forall s :: s in t.entries <==> s in t.order)
    && (forall k :: 0 <= k < |t.order| ==> t.entries[t.order[k]] == Binding(Prefix(k), t.order[k]))
  }

  /** Every entry of `t` is in `u` unchanged. */
  ghost predicate Extends(t: Table, u: Table)
  {
    forall s :: s in t.entries ==> s in u.entries && u.entries[s] == t.entries[s]
  }

  /** `schemas[schema] = {ns: 'ns' + count, schema: schema}` unless the schema is already there. */
  function Register(t: Table, schema: string): (u: Table)
    ensures schema in u.entries
  {
    if schema in t.entries then t
    else Table(t.entries[schema := Binding(Prefix(|t.order|), schema)], t.order + [schema])
  }

  /** Registering a sequence of schemas one after the other. */
  function RegisterAll(t: Table, xs: seq<string>): Table
  {
    if xs == [] then t else Register(RegisterAll(t, xs[..|xs| - 1]), xs[|xs| - 1])
  }

  lemma {:induction false} RegisterAllAppend(t: Table, a: seq<string>, b: seq<string>)
    ensures RegisterAll(t, a + b) == RegisterAll(RegisterAll(t, a), b)
  {
    if b != [] {
      RegisterAllAppend(t, a, b[..|b| - 1]);
      assert (a + b)[..|a + b| - 1] == a + b[..|b| - 1];
    } else {
      assert a + b == a;
    }
  }

  lemma {:induction false} RegisterAllExtends(t: Table, xs: seq<string>)
    ensures Extends(t, RegisterAll(t, xs))
  {
    if xs != [] {
      RegisterAllExtends(t, xs[..|xs| - 1]);
    }
  }

  /**
   * From an empty table, the registered order is the first-seen order of the schemas and
   * the table stays valid: dense, unique prefixes.
   */
  lemma {:induction false} RegisterAllFromEmpty(xs: seq<string>)
    ensures TableValid(RegisterAll(EmptyTable, xs))
    ensures RegisterAll(EmptyTable, xs).order == FirstSeen(xs)
  {
    if xs != [] {
      var pre := xs[..|xs| - 1];
      var x := xs[|xs| - 1];
      RegisterAllFromEmpty(pre);
      var t := RegisterAll(EmptyTable, pre);
      if x !in t.entries {
        var u := Register(t, x);
        assert x !in t.order;
        forall i, j | 0 <= i < j < |u.order| ensures u.order[i] != u.order[j] {
          if j == |t.order| { assert u.order[i] in t.order; }
        }
        forall k | 0 <= k < |u.order| ensures u.entries[u.order[k]] == Binding(Prefix(k), u.order[k]) {
          if k < |t.order| { assert u.order[k] == t.order[k] && u.order[k] != x; }
        }
      }
    }
  }

  // ---------------------------------------------------------------------------------------
  // The walk, as a specification
  // ---------------------------------------------------------------------------------------

  /** `if (!(properties instanceof Array)) properties = [properties]`. */
  function Items(ps: Props): seq<Slot>
  {
    match ps
    case List(slots) => slots
    case Single(p) => [Present(p)]
  }

  /** The array the walk worked on, put back in the caller's shape. A bare object is never deleted. */
  function Rewrap(ps: Props, out: seq<Slot>): Props
    requires |out| == |Items(ps)|
  {
    match ps
    case List(_) => List(out)
    case Single(p) => Single(if out[0].Present? then out[0].prop else p)
  }

  /**
   * One property: nameless or schemaless properties are left as they are; otherwise the
   * schema is registered, `ns` set, and the nested `fields` walked with the same table.
   */
  function WalkProperty(p: Property, t: Table): Result<Walked<Property>, Error>
    decreases p
  {
    if p.name == "" || p.schema == "" then Ok(Walked(p, t))
    else
      var t1 := Register(t, p.schema);
      var p1 := p.(ns := Some(t1.entries[p.schema].ns));
      match p.fields
      case None => Ok(Walked(p1, t1))
      case Some(fs) =>
        match WalkProps(fs, t1)
        case Err(e) => Err(e)
        case Ok(w) => Ok(Walked(p1.(fields := Some(w.value)), w.table))
  }

  /** The first `n` slots of the list, in order; a nameless property's slot becomes a hole. */
  function WalkItems(ps: Props, n: nat, t: Table): (r: Result<Walked<seq<Slot>>, Error>)
    requires n <= |Items(ps)|
    ensures r.Ok? ==> |r.value.value| == n
    decreases ps, 0, n
  {
    if n == 0 then Ok(Walked([], t))
    else
      match WalkItems(ps, n - 1, t)
      case Err(e) => Err(e)
      case Ok(w) =>
        match Items(ps)[n - 1]
        case Deleted => Err(HoleError)
        case Present(p) =>
          assert p < ps by { assert ps.Single? ==> p == ps.item; assert ps.List? ==> Items(ps)[n - 1] in ps.slots; }
          match WalkProperty(p, w.table)
          case Err(e) => Err(e)
          case Ok(v) => Ok(Walked(w.value + [if p.name == "" then Deleted else Present(v.value)], v.table))
  }

  /** The whole list. */
  function WalkProps(ps: Props, t: Table): Result<Walked<Props>, Error>
    decreases ps, 1
  {
    match WalkItems(ps, |Items(ps)|, t)
    case Err(e) => Err(e)
    case Ok(w) => Ok(Walked(Rewrap(ps, w.value), w.table))
  }

  /** `readNamespaces(properties)`: the walked list and the bindings in first-seen order. */
  function ReadNamespacesSpec(properties: Option<Props>): Result<(Option<Props>, seq<Binding>), Error>
  {
    match properties
    case None => Ok((None, []))
    case Some(ps) =>
      match WalkProps(ps, EmptyTable)
      case Err(e) => Err(e)
      case Ok(w) =>
        WalkTable(ps, EmptyTable);
        RegisterAllFromEmpty(Visited(ps));
        Ok((Some(w.value), Listing(w.table)))
  }

  /** `for (name in schemas) namespaces.push(schemas[name])`. */
  function Listing(t: Table): seq<Binding>
    requires TableValid(t)
  {
    seq(|t.order|, k requires 0 <= k < |t.order| => t.entries[t.order[k]])
  }

  // ---------------------------------------------------------------------------------------
  // An independent description: the schemas the walk visits, in document order
  // ---------------------------------------------------------------------------------------

  /** The schemas of the named properties, each followed by those of its `fields`. */
  function VisitedProperty(p: Property): seq<string>
    decreases p
  {
    if p.name == "" || p.schema == "" then []
    else [p.schema] + (if p.fields.Some? then Visited(p.fields.value) else [])
  }

  function VisitedItems(ps: Props, n: nat): seq<string>
    requires n <= |Items(ps)|
    decreases ps, 0, n
  {
    if n == 0 then []
    else
      VisitedItems(ps, n - 1) +
      match Items(ps)[n - 1]
      case Deleted => []
      case Present(p) =>
        assert p < ps by { assert ps.Single? ==> p == ps.item; assert ps.List? ==> Items(ps)[n - 1] in ps.slots; }
        VisitedProperty(p)
  }

  function Visited(ps: Props): seq<string>
    decreases ps, 1
  {
    VisitedItems(ps, |Items(ps)|)
  }

  /** No holes anywhere in the property tree. */
  ghost predicate NoHolesProperty(p: Property)
    decreases p
  {
    p.fields.Some? ==> NoHoles(p.fields.value)
  }

  ghost predicate NoHoles(ps: Props)
    decreases ps
  {
    forall i :: 0 <= i < |Items(ps)| ==>
      Items(ps)[i].Present? &&
      (assert Items(ps)[i].prop < ps by { assert ps.Single? ==> Items(ps)[i].prop == ps.item; assert ps.List? ==> Items(ps)[i] in ps.slots; }
       NoHolesProperty(Items(ps)[i].prop))
  }

  /**
   * The walked properties carry a prefix that `bs` binds to their schema, at every level the
   * walk reaches.
   */
  ghost predicate DeclaredProperty(p: Property, bs: seq<Binding>)
    decreases p
  {
    p.name != "" && p.schema != "" ==>
      && p.ns.Some?
      && Binding(p.ns.value, p.schema) in bs
      && (p.fields.Some? ==> Declared(p.fields.value, bs))
  }

  ghost predicate Declared(ps: Props, bs: seq<Binding>)
    decreases ps
  {
    forall i :: 0 <= i < |Items(ps)| && Items(ps)[i].Present? ==>
      (assert Items(ps)[i].prop < ps by { assert ps.Single? ==> Items(ps)[i].prop == ps.item; assert ps.List? ==> Items(ps)[i] in ps.slots; }
       DeclaredProperty(Items(ps)[i].prop, bs))
  }

  /** Every entry of the table is keyed by its own schema and listed in `bs`. */
  ghost predicate Covers(t: Table, bs: seq<Binding>)
  {
    forall s :: s in t.entries ==> t.entries[s].schema == s && t.entries[s] in bs
  }

  // ---------------------------------------------------------------------------------------
  // What the walk does to the table
  // ---------------------------------------------------------------------------------------

  /** The walk registers exactly the visited schemas, in the order it visits them. */
  lemma {:induction false} WalkPropertyTable(p: Property, t: Table)
    ensures WalkProperty(p, t).Ok? ==> WalkProperty(p, t).value.table == RegisterAll(t, VisitedProperty(p))
    decreases p
  {
    if p.name != "" && p.schema != "" {
      var t1 := Register(t, p.schema);
      assert RegisterAll(t, [p.schema]) == t1 by { assert [p.schema][..0] == []; }
      if p.fields.Some? {
        WalkTable(p.fields.value, t1);
        RegisterAllAppend(t, [p.schema], Visited(p.fields.value));
      } else {
        assert VisitedProperty(p) == [p.schema];
      }
    }
  }

  lemma {:induction false} WalkItemsTable(ps: Props, n: nat, t: Table)
    requires n <= |Items(ps)|
    ensures WalkItems(ps, n, t).Ok? ==> WalkItems(ps, n, t).value.table == RegisterAll(t, VisitedItems(ps, n))
    decreases ps, 0, n
  {
    if n > 0 && WalkItems(ps, n, t).Ok? {
      WalkItemsTable(ps, n - 1, t);
      var w := WalkItems(ps, n - 1, t).value;
      var p := Items(ps)[n - 1].prop;
      assert p < ps by { assert ps.Single? ==> p == ps.item; assert ps.List? ==> Items(ps)[n - 1] in ps.slots; }
      assert WalkItems(ps, n, t).value.table == WalkProperty(p, w.table).value.table;
      assert VisitedItems(ps, n) == VisitedItems(ps, n - 1) + VisitedProperty(p);
      WalkPropertyTable(p, w.table);
      RegisterAllAppend(t, VisitedItems(ps, n - 1), VisitedProperty(p));
    }
  }

  lemma WalkTable(ps: Props, t: Table)
    ensures WalkProps(ps, t).Ok? ==> WalkProps(ps, t).value.table == RegisterAll(t, Visited(ps))
    decreases ps, 1
  {
    WalkItemsTable(ps, |Items(ps)|, t);
  }

  /** A tree without holes is walked without error. */
  lemma {:induction false} WalkPropertyOk(p: Property, t: Table)
    requires NoHolesProperty(p)
    ensures WalkProperty(p, t).Ok?
    decreases p
  {
    if p.name != "" && p.schema != "" && p.fields.Some? {
      WalkOk(p.fields.value, Register(t, p.schema));
    }
  }

  lemma {:induction false} WalkItemsOk(ps: Props, n: nat, t: Table)
    requires n <= |Items(ps)| && NoHoles(ps)
    ensures WalkItems(ps, n, t).Ok?
    decreases ps, 0, n
  {
    if n > 0 {
      WalkItemsOk(ps, n - 1, t);
      var p := Items(ps)[n - 1].prop;
      assert p < ps by { assert ps.Single? ==> p == ps.item; assert ps.List? ==> Items(ps)[n - 1] in ps.slots; }
      WalkPropertyOk(p, WalkItems(ps, n - 1, t).value.table);
    }
  }

  lemma WalkOk(ps: Props, t: Table)
    requires NoHoles(ps)
    ensures WalkProps(ps, t).Ok?
    decreases ps, 1
  {
    WalkItemsOk(ps, |Items(ps)|, t);
  }

  // ---------------------------------------------------------------------------------------
  // What the walk does to the properties
  // ---------------------------------------------------------------------------------------

  /**
   * Every walked property carries the prefix that the final table binds to its schema,
   * and so does every walked property below it.
   */
  lemma {:induction false} WalkPropertyDeclared(p: Property, t: Table, bs: seq<Binding>)
    requires WalkProperty(p, t).Ok? && Covers(WalkProperty(p, t).value.table, bs)
    ensures DeclaredProperty(WalkProperty(p, t).value.value, bs)
    decreases p
  {
    if p.name != "" && p.schema != "" {
      var t1 := Register(t, p.schema);
      var fin := WalkProperty(p, t).value.table;
      if p.fields.Some? {
        var fs := p.fields.value;
        WalkTable(fs, t1);
        RegisterAllExtends(t1, Visited(fs));
        WalkDeclared(fs, t1, bs);
      }
      assert t1.entries[p.schema] == fin.entries[p.schema];
    }
  }

  lemma {:induction false} WalkItemsDeclared(ps: Props, n: nat, t: Table, bs: seq<Binding>)
    requires n <= |Items(ps)| && WalkItems(ps, n, t).Ok? && Covers(WalkItems(ps, n, t).value.table, bs)
    ensures forall i :: 0 <= i < n && WalkItems(ps, n, t).value.value[i].Present? ==>
              DeclaredProperty(WalkItems(ps, n, t).value.value[i].prop, bs)
    decreases ps, 0, n
  {
    if n > 0 {
      var w := WalkItems(ps, n - 1, t).value;
      var p := Items(ps)[n - 1].prop;
      assert p < ps by { assert ps.Single? ==> p == ps.item; assert ps.List? ==> Items(ps)[n - 1] in ps.slots; }
      WalkPropertyTable(p, w.table);
      RegisterAllExtends(w.table, VisitedProperty(p));
      WalkItemsDeclared(ps, n - 1, t, bs);
      WalkPropertyDeclared(p, w.table, bs);
    }
  }

  lemma WalkDeclared(ps: Props, t: Table, bs: seq<Binding>)
    requires WalkProps(ps, t).Ok? && Covers(WalkProps(ps, t).value.table, bs)
    ensures Declared(WalkProps(ps, t).value.value, bs)
    decreases ps, 1
  {
    WalkItemsDeclared(ps, |Items(ps)|, t, bs);
  }

  /**
   * The list keeps its length; a nameless property's slot becomes a hole; a schemaless one is
   * left as it was (no `ns`, `fields` not walked); a property with a schema keeps its name,
   * schema and value and gets an `ns`.
   */
  lemma {:induction false} WalkItemsShape(ps: Props, n: nat, t: Table)
    requires n <= |Items(ps)| && WalkItems(ps, n, t).Ok?
    ensures var out := WalkItems(ps, n, t).value.value;
      && |out| == n
      && forall i :: 0 <= i < n ==>
        && Items(ps)[i].Present?
        && (Items(ps)[i].prop.name == "" ==> out[i] == Deleted)
        && (Items(ps)[i].prop.name != "" && Items(ps)[i].prop.schema == "" ==> out[i] == Items(ps)[i])
        && (Items(ps)[i].prop.name != "" && Items(ps)[i].prop.schema != "" ==>
              && out[i].Present?
              && out[i].prop.ns.Some?
              && out[i].prop.(ns := None, fields := None) == Items(ps)[i].prop.(ns := None, fields := None))
    decreases n
  {
    if n > 0 {
      WalkItemsShape(ps, n - 1, t);
    }
  }

  // ---------------------------------------------------------------------------------------
  // The imperative walk, as the JavaScript runs it
  // ---------------------------------------------------------------------------------------

  /** `for (name in schemas) if (schemas.hasOwnProperty(name)) ns += 1`. */
  method CountSchemas(t: Table) returns (n: nat)
    ensures n == |t.order|
  {
    n := 0;
    for i := 0 to |t.order|
      invariant n == i
    {
      n := n + 1;
    }
  }

  /** Once an error is reached, the rest of the list is not walked and the error is the result. */
  lemma {:induction false} WalkItemsErrorPersists(ps: Props, k: nat, n: nat, t: Table)
    requires k <= n <= |Items(ps)| && WalkItems(ps, k, t).Err?
    ensures WalkItems(ps, n, t) == WalkItems(ps, k, t)
    decreases n
  {
    if n > k {
      WalkItemsErrorPersists(ps, k, n - 1, t);
    }
  }

  /**
   * The body of `f` for a property with a name and a schema: register the schema unless it
   * is known (its prefix counts the schemas so far), set `ns`, and recurse into `fields`.
   */
  method WalkEntry(p: Property, schemas: Table) returns (r: Result<Walked<Property>, Error>)
    requires p.name != "" && p.schema != ""
    ensures r == WalkProperty(p, schemas)
    decreases p
  {
    var table := schemas;
    if p.schema !in table.entries {
      var ns := CountSchemas(table);
      table := Table(table.entries[p.schema := Binding("ns" + NatToString(ns), p.schema)], table.order + [p.schema]);
    }
    var q := p.(ns := Some(table.entries[p.schema].ns));
    if p.fields.Some? {
      var sub := Walk(p.fields.value, table);
      if sub.Err? {
        return Err(sub.error);
      }
      q := q.(fields := Some(sub.value.value));
      table := sub.value.table;
    }
    r := Ok(Walked(q, table));
  }

  /** The recursive function `f(properties, schemas)`, with `schemas` threaded through as a value. */
  method Walk(ps: Props, t: Table) returns (r: Result<Walked<Props>, Error>)
    ensures r == WalkProps(ps, t)
    decreases ps, 1
  {
    var properties := Items(ps);
    var schemas := t;
    for i := 0 to |properties|
      invariant |properties| == |Items(ps)|
      invariant properties[i..] == Items(ps)[i..]
      invariant WalkItems(ps, i, t) == Ok(Walked(properties[..i], schemas))
    {
      assert properties[i] == Items(ps)[i];
      if properties[i].Deleted? {
        WalkItemsErrorPersists(ps, i + 1, |Items(ps)|, t);
        return Err(HoleError);
      }
      var p := properties[i].prop;
      assert p < ps by { assert ps.Single? ==> p == ps.item; assert ps.List? ==> Items(ps)[i] in ps.slots; }
      if p.name == "" {
        properties := properties[i := Deleted];
      } else if p.schema != "" {
        var e := WalkEntry(p, schemas);
        if e.Err? {
          WalkItemsErrorPersists(ps, i + 1, |Items(ps)|, t);
          return Err(e.error);
        }
        properties := properties[i := Present(e.value.value)];
        schemas := e.value.table;
      }
      assert properties[..i + 1] == properties[..i] + [properties[i]];
    }
    assert properties[..|properties|] == properties;
    r := Ok(Walked(Rewrap(ps, properties), schemas));
  }

  /** `for (name in schemas) namespaces.push(schemas[name])`. */
  method ListBindings(schemas: Table) returns (namespaces: seq<Binding>)
    requires TableValid(schemas)
    ensures namespaces == Listing(schemas)
  {
    namespaces := [];
    for k := 0 to |schemas.order|
      invariant namespaces == Listing(schemas)[..k]
    {
      namespaces := namespaces + [schemas.entries[schemas.order[k]]];
    }
  }

  /**
   * `utils.readNamespaces(properties)`. A falsy argument gives no bindings; a list without
   * holes is always accepted.
   */
  method ReadNamespaces(properties: Option<Props>) returns (r: Result<(Option<Props>, seq<Binding>), Error>)
    ensures r == ReadNamespacesSpec(properties)
    ensures properties.None? ==> r == Ok((None, []))
    ensures properties.Some? && NoHoles(properties.value) ==> r.Ok?
  {
    if properties.None? {
      return Ok((None, []));
    }
    var ps := properties.value;
    var w := Walk(ps, EmptyTable);
    if NoHoles(ps) { WalkOk(ps, EmptyTable); }
    if w.Err? {
      return Err(w.error);
    }
    WalkTable(ps, EmptyTable);
    RegisterAllFromEmpty(Visited(ps));
    var namespaces := ListBindings(w.value.table);
    r := Ok((Some(w.value.value), namespaces));
  }

  // ---------------------------------------------------------------------------------------
  // Properties of readNamespaces
  // ---------------------------------------------------------------------------------------

  /**
   * Each distinct schema met by the walk gets exactly one binding: the k-th schema first
   * seen gets the prefix `ns`+k, and the bindings are listed in first-seen order.
   */
  lemma BindingsFirstSeen(properties: Option<Props>)
    requires properties.Some? && ReadNamespacesSpec(properties).Ok?
    ensures var bs := ReadNamespacesSpec(properties).value.1;
            var order := FirstSeen(Visited(properties.value));
            && |bs| == |order|
            && forall k :: 0 <= k < |order| ==> bs[k] == Binding(Prefix(k), order[k])
  {
    WalkTable(properties.value, EmptyTable);
    RegisterAllFromEmpty(Visited(properties.value));
  }

  /** The bindings have pairwise different prefixes and pairwise different schemas. */
  lemma BindingsUnique(properties: Option<Props>, i: nat, j: nat)
    requires ReadNamespacesSpec(properties).Ok?
    requires i < j < |ReadNamespacesSpec(properties).value.1|
    ensures ReadNamespacesSpec(properties).value.1[i].ns != ReadNamespacesSpec(properties).value.1[j].ns
    ensures ReadNamespacesSpec(properties).value.1[i].schema != ReadNamespacesSpec(properties).value.1[j].schema
  {
    BindingsFirstSeen(properties);
    if Prefix(i) == Prefix(j) { PrefixInjective(i, j); }
  }

  /**
   * Every property the walk reaches carries a prefix that a returned binding declares for its
   * schema; with `BindingsUnique`, two such properties with the same schema carry the same
   * prefix.
   */
  lemma PrefixesDeclared(properties: Option<Props>)
    requires properties.Some? && ReadNamespacesSpec(properties).Ok?
    ensures ReadNamespacesSpec(properties).value.0.Some?
    ensures Declared(ReadNamespacesSpec(properties).value.0.value, ReadNamespacesSpec(properties).value.1)
  {
    var ps := properties.value;
    var w := WalkProps(ps, EmptyTable).value;
    WalkTable(ps, EmptyTable);
    RegisterAllFromEmpty(Visited(ps));
    var bs := ReadNamespacesSpec(properties).value.1;
    assert bs == Listing(w.table);
    forall s | s in w.table.entries ensures w.table.entries[s].schema == s && w.table.entries[s] in bs {
      var k :| 0 <= k < |w.table.order| && w.table.order[k] == s;
      assert bs[k] == w.table.entries[s];
    }
    WalkDeclared(ps, EmptyTable, bs);
  }
}
