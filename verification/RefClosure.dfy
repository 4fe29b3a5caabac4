/** Self-contained copies of OpenAPI schemas (mcp-server/tools.py): the transitive closure of component references. */
module RefClosure {
  import opened Common
  import opened Json

  const COMPONENT_PREFIX := "#/components/schemas/"
  const DEFINITION_PREFIX := "#/$defs/"

  /** A reference to a component of the whole document, or to a definition of the schema itself. */
  datatype Style = Component | Definition

  /** s.rsplit("/", 1)[-1] */
  function LastSegment(s: string): (r: string)
    ensures '/' !in r
  {
    if '/' in s then LastSegment(s[1..]) else s
  }

  /** A reference to a component of any plain name names that component. */
  lemma {:induction false} LastSegmentOfReference(path: string, name: string)
    requires '/' !in name
    ensures LastSegment(path + ("/" + name)) == name
  {
    var s := path + ("/" + name);
    assert s[|path|] == '/';
    if path == "" {
      assert s[1..] == name;
    } else {
      assert s[1..] == path[1..] + ("/" + name);
      LastSegmentOfReference(path[1..], name);
    }
  }

  /** The name a "$ref" value refers to. */
  function Target(style: Style, ref: Json): Option<string> {
    match ref
    case Str(s) =>
      if style == Component && COMPONENT_PREFIX <= s then Some(LastSegment(s))
      else if style == Definition && DEFINITION_PREFIX <= s then Some(s[|DEFINITION_PREFIX|..])
      else None
    case _ => None
  }

  /** The name that an object's own "$ref" entry refers to. */
  function Own(style: Style, fields: seq<Field>): set<string> {
    match Get(fields, "$ref")
    case Some(ref) => (match Target(style, ref) case Some(name) => {name} case None => {})
    case None => {}
  }

  /** Every name referred to anywhere in a node. */
  function Names(style: Style, node: Json): set<string>
    decreases node
  {
    match node
    case Obj(fields) => Own(style, fields) + FieldNames(style, fields)
    case Arr(items) => ItemNames(style, items)
    case _ => {}
  }

  function FieldNames(style: Style, fields: seq<Field>): set<string>
    decreases fields
  {
    if fields == [] then {} else Names(style, fields[0].val) + FieldNames(style, fields[1..])
  }

  function ItemNames(style: Style, items: seq<Json>): set<string>
    decreases items
  {
    if items == [] then {} else Names(style, items[0]) + ItemNames(style, items[1..])
  }

  // ---------------------------------------------------------------- places of references

  /** An object at the place refers to a component of this name. */
  predicate RefersAt(node: Json, place: Place, name: string) {
    match NodeAt(node, place)
    case Some(Obj(fields)) =>
      (match Get(fields, "$ref")
       case Some(Str(ref)) => "#/components/schemas/" <= ref && name == LastSegment(ref)
       case _ => false)
    case _ => false
  }

  lemma {:induction false} ItemNamesAt(style: Style, items: seq<Json>, name: string)
    ensures name in ItemNames(style, items) <==> exists i :: 0 <= i < |items| && name in Names(style, items[i])
  {
    hide Names;
    if items != [] {
      ItemNamesAt(style, items[1..], name);
      if i :| 0 <= i < |items[1..]| && name in Names(style, items[1..][i]) { assert name in Names(style, items[i + 1]); }
      if i :| 0 < i < |items| && name in Names(style, items[i]) { assert name in Names(style, items[1..][i - 1]); }
    }
  }

  /** A name that is collected is referred to at some place. */
  lemma {:induction false} CollectedNameStands(node: Json, name: string) returns (place: Place)
    requires name in Names(Component, node)
    ensures RefersAt(node, place, name)
    decreases node
  {
    place := [];
    match node
    case Obj(fields) =>
      if name !in Own(Component, fields) {
        FieldNamesAt(Component, fields, name);
        var i :| 0 <= i < |fields| && name in Names(Component, fields[i].val);
        var inner := CollectedNameStands(fields[i].val, name);
        place := [i] + inner;
        assert place[1..] == inner;
      }
    case Arr(items) =>
      ItemNamesAt(Component, items, name);
      var i :| 0 <= i < |items| && name in Names(Component, items[i]);
      var inner := CollectedNameStands(items[i], name);
      place := [i] + inner;
      assert place[1..] == inner;
  }

  /** Every reference to a component is collected, at any place in objects and lists. */
  lemma {:induction false} EveryReferenceIsCollected(node: Json, place: Place, name: string)
    requires RefersAt(node, place, name)
    ensures name in Names(Component, node)
    decreases node
  {
    if place != [] {
      match node
      case Obj(fields) =>
        EveryReferenceIsCollected(fields[place[0]].val, place[1..], name);
        FieldNamesAt(Component, fields, name);
      case Arr(items) =>
        EveryReferenceIsCollected(items[place[0]], place[1..], name);
        ItemNamesAt(Component, items, name);
    }
  }

  // ---------------------------------------------------------------- rewriting

  function Rewrite(node: Json): Json
    decreases node
  {
    match node
    case Obj(fields) => Obj(RewriteFields(fields))
    case Arr(items) => Arr(RewriteItems(items))
    case _ => node
  }

  function RewriteEntry(f: Field): Json
    decreases f
  {
    if f.key == "$ref" && Target(Component, f.val).Some?
    then Str(DEFINITION_PREFIX + Target(Component, f.val).value)
    else Rewrite(f.val)
  }

  function RewriteFields(fields: seq<Field>): seq<Field>
    decreases fields
  {
    if fields == [] then [] else [Field(fields[0].key, RewriteEntry(fields[0]))] + RewriteFields(fields[1..])
  }

  function RewriteItems(items: seq<Json>): seq<Json>
    decreases items
  {
    if items == [] then [] else [Rewrite(items[0])] + RewriteItems(items[1..])
  }

  // ---------------------------------------------------------------- reachability

  /** A component refers onwards only when it is an object. */
  function Successors(components: map<string, Json>, name: string): set<string> {
    if name in components && components[name].Obj? then Names(Component, components[name]) else {}
  }

  ghost predicate Path(start: set<string>, components: map<string, Json>, p: seq<string>) {
    && p != [] && p[0] in start
    && forall i :: 0 < i < |p| ==> p[i] in Successors(components, p[i - 1])
  }

  /** name is at the end of a chain of references that starts in the schema. */
  ghost predicate Reachable(start: set<string>, components: map<string, Json>, name: string) {
    exists p :: Path(start, components, p) && p[|p| - 1] == name
  }

  lemma StartIsReachable(start: set<string>, components: map<string, Json>, name: string)
    requires name in start
    ensures Reachable(start, components, name)
  {
    assert Path(start, components, [name]);
  }

  lemma SuccessorIsReachable(start: set<string>, components: map<string, Json>, name: string, next: string)
    requires Reachable(start, components, name) && next in Successors(components, name)
    ensures Reachable(start, components, next)
  {
    var p :| Path(start, components, p) && p[|p| - 1] == name;
    assert Path(start, components, p + [next]);
  }

  lemma {:induction false} ClosedContainsPath(start: set<string>, components: map<string, Json>, closed: set<string>, p: seq<string>)
    requires start <= closed
    requires forall name :: name in closed ==> Successors(components, name) <= closed
    requires Path(start, components, p)
    ensures p[|p| - 1] in closed
  {
    if |p| > 1 {
      ClosedContainsPath(start, components, closed, p[..|p| - 1]);
    }
  }

  // ---------------------------------------------------------------- the program

  /** The set that _collect_component_refs adds to. */
  class NameSet {
    var names: set<string>

    constructor ()
      ensures names == {}
    {
      names := {};
    }
  }

  method CollectComponentRefs(node: Json, out: NameSet)
    modifies out
    ensures out.names == old(out.names) + Names(Component, node)
    decreases node
  {
    match node {
      case Obj(fields) =>
        match Get(fields, "$ref") {
          case Some(Str(ref)) =>
            if COMPONENT_PREFIX <= ref {
              out.names := out.names + {LastSegment(ref)};
            }
          case _ =>
        }
        for i := 0 to |fields|
          invariant out.names + FieldNames(Component, fields[i..]) == old(out.names) + Names(Component, node)
        {
          CollectComponentRefs(fields[i].val, out);
          assert fields[i..][1..] == fields[i + 1..];
        }
      case Arr(items) =>
        for i := 0 to |items|
          invariant out.names + ItemNames(Component, items[i..]) == old(out.names) + Names(Component, node)
        {
          CollectComponentRefs(items[i], out);
          assert items[i..][1..] == items[i + 1..];
        }
      case _ =>
    }
  }

  /** list(s), in some order. */
  method AsList(s: set<string>) returns (xs: seq<string>)
    ensures forall x :: x in xs <==> x in s
    ensures forall i, j :: 0 <= i < j < |xs| ==> xs[i] != xs[j]
  {
    xs := [];
    var rest := s;
    while rest != {}
      invariant rest <= s && forall x :: x in xs <==> x in s && x !in rest
      invariant forall i, j :: 0 <= i < j < |xs| ==> xs[i] != xs[j]
      decreases rest
    {
      var x :| x in rest;
      xs := xs + [x];
      rest := rest - {x};
    }
  }

  /** What the worklist keeps: only reachable names, and nothing seen is forgotten. */
  ghost predicate Progress(start: set<string>, components: map<string, Json>, resolved: set<string>, queue: seq<string>) {
    && (forall name :: name in resolved || name in queue ==> Reachable(start, components, name))
    && (forall name :: name in start ==> name in resolved || name in queue)
    && forall name, next :: name in resolved && next in Successors(components, name) ==> next in resolved || next in queue
  }

  lemma ProgressStarts(start: set<string>, components: map<string, Json>, queue: seq<string>)
    requires forall name :: name in queue <==> name in start
    ensures Progress(start, components, {}, queue)
  {
    forall name | name in start ensures Reachable(start, components, name) {
      StartIsReachable(start, components, name);
    }
  }

  lemma ProgressContinues(start: set<string>, components: map<string, Json>, resolved: set<string>, rest: seq<string>, name: string, more: seq<string>)
    requires Progress(start, components, resolved, rest + [name])
    requires forall next :: next in more <==> next in Successors(components, name) && next !in resolved + {name}
    ensures Progress(start, components, resolved + {name}, rest + more)
  {
    hide Successors, Reachable;
    assert name in rest + [name];
    forall next | next in more ensures Reachable(start, components, next) {
      SuccessorIsReachable(start, components, name, next);
    }
    forall other | other in rest ensures Reachable(start, components, other) {
      assert other in rest + [name];
    }
  }

  lemma ProgressSkips(start: set<string>, components: map<string, Json>, resolved: set<string>, rest: seq<string>, name: string)
    requires Progress(start, components, resolved, rest + [name]) && name in resolved
    ensures Progress(start, components, resolved, rest)
  {
    hide Successors, Reachable;
    forall other | other in rest ensures Reachable(start, components, other) {
      assert other in rest + [name];
    }
  }

  lemma ProgressEnds(start: set<string>, components: map<string, Json>, resolved: set<string>)
    requires Progress(start, components, resolved, [])
    ensures forall name :: name in resolved <==> Reachable(start, components, name)
  {
    forall name | Reachable(start, components, name) ensures name in resolved {
      var p :| Path(start, components, p) && p[|p| - 1] == name;
      ClosedContainsPath(start, components, resolved, p);
    }
  }

  /** Every name a reference can lead to. */
  function Universe(start: set<string>, components: map<string, Json>): (all: set<string>)
    ensures start <= all
    ensures forall name :: Successors(components, name) <= all
  {
    start + set k, x | k in components && x in Successors(components, k) :: x
  }

  /** The worklist ends with exactly the reachable names. */
  method ResolveRefs(schema: seq<Field>, components: map<string, Json>) returns (resolved: set<string>)
    ensures forall name :: name in resolved <==> Reachable(Names(Component, Obj(schema)), components, name)
  {
    hide Progress, Universe, Reachable, Names;
    ghost var start := Names(Component, Obj(schema));
    var needed := new NameSet();
    CollectComponentRefs(Obj(schema), needed);
    resolved := {};
    var queue := AsList(needed.names);
    ProgressStarts(start, components, queue);
    while queue != []
      invariant Progress(start, components, resolved, queue)
      invariant forall name :: name in queue ==> name in Universe(start, components)
      decreases Universe(start, components) - resolved, |queue|
    {
      ghost var was := queue;
      var name := queue[|queue| - 1];
      queue := queue[..|queue| - 1];
      assert was == queue + [name];
      ghost var rest, more := queue, [];
      if name in resolved {
        assert resolved + {name} == resolved;
        ProgressSkips(start, components, resolved, queue, name);
        continue;
      }
      ghost var before := resolved;
      resolved := resolved + {name};
      if name in components && components[name].Obj? {
        var nested := new NameSet();
        CollectComponentRefs(components[name], nested);
        var unseen := AsList(nested.names - resolved);
        queue := queue + unseen;
        more := unseen;
      }
      assert queue == rest + more;
      ProgressContinues(start, components, before, rest, name, more);
    }
    ProgressEnds(start, components, resolved);
  }

  /** The definitions to attach: the reachable names that are components, each rewritten. */
  ghost predicate DefinitionsFor(schema: seq<Field>, components: map<string, Json>, defs: seq<Field>) {
    && DistinctKeys(defs)
    && (forall name :: name in Keys(defs) <==> name in components && Reachable(Names(Component, Obj(schema)), components, name))
    && forall i :: 0 <= i < |defs| ==> defs[i].key in components && defs[i].val == Rewrite(components[defs[i].key])
  }

  function Attach(schema: seq<Field>, defs: seq<Field>): seq<Field> {
    if defs == [] then RewriteFields(schema) else Put(RewriteFields(schema), "$defs", Obj(defs))
  }

  method StandaloneSchema(schema: seq<Field>, components: map<string, Json>) returns (out: seq<Field>)
    ensures exists defs :: DefinitionsFor(schema, components, defs) && out == Attach(schema, defs)
  {
    var resolved := ResolveRefs(schema, components);
    out := RewriteFields(schema);
    var names := AsList(resolved);
    var defs: seq<Field> := [];
    for i := 0 to |names|
      invariant DistinctKeys(defs)
      invariant forall name :: name in Keys(defs) <==> name in components && name in names[..i]
      invariant forall j :: 0 <= j < |defs| ==> defs[j].key in components && defs[j].val == Rewrite(components[defs[j].key])
    {
      var name := names[i];
      assert names[..i + 1] == names[..i] + [name];
      if name in components {
        forall j | 0 <= j < |defs| ensures defs[j].key != name {
          assert defs[j].key in Keys(defs);
        }
        ghost var before := defs;
        defs := defs + [Field(name, Rewrite(components[name]))];
        assert Keys(defs) == Keys(before) + {name};
      }
    }
    assert names[..|names|] == names;
    if defs != [] {
      out := Put(out, "$defs", Obj(defs));
    }
    assert DefinitionsFor(schema, components, defs);
  }

  // ---------------------------------------------------------------- the result

  lemma {:induction false} FieldNamesAt(style: Style, fields: seq<Field>, name: string)
    ensures name in FieldNames(style, fields) <==> exists i :: 0 <= i < |fields| && name in Names(style, fields[i].val)
  {
    if fields != [] {
      FieldNamesAt(style, fields[1..], name);
      if i :| 0 <= i < |fields[1..]| && name in Names(style, fields[1..][i].val) {
        assert name in Names(style, fields[i + 1].val);
      }
      if i :| 0 < i < |fields| && name in Names(style, fields[i].val) {
        assert name in Names(style, fields[1..][i - 1].val);
      }
    }
  }

  lemma {:induction false} GetRewritten(fields: seq<Field>, key: string)
    ensures match Get(fields, key)
            case None => Get(RewriteFields(fields), key) == None
            case Some(val) => Get(RewriteFields(fields), key) == Some(RewriteEntry(Field(key, val)))
    ensures Keys(RewriteFields(fields)) == Keys(fields)
  {
    if fields != [] {
      GetRewritten(fields[1..], key);
      var out := RewriteFields(fields);
      assert fields == [fields[0]] + fields[1..] && out == [out[0]] + out[1..];
      assert Keys(fields) == {fields[0].key} + Keys(fields[1..]);
      assert Keys(out) == {out[0].key} + Keys(out[1..]);
    }
  }

  /** Rewriting turns every component reference into a definition reference of the same name. */
  lemma {:induction false} RewriteMovesNames(node: Json)
    ensures Names(Component, Rewrite(node)) == {}
    ensures Names(Definition, Rewrite(node)) == Names(Definition, node) + Names(Component, node)
    decreases node
  {
    match node
    case Obj(fields) =>
      RewriteMovesFieldNames(fields);
      RewriteMovesOwn(fields);
    case Arr(items) => RewriteMovesItemNames(items);
    case _ =>
  }

  lemma RewriteMovesOwn(fields: seq<Field>)
    ensures Own(Component, RewriteFields(fields)) == {}
    ensures Own(Definition, RewriteFields(fields)) == Own(Definition, fields) + Own(Component, fields)
  {
    hide RewriteFields;
    GetRewritten(fields, "$ref");
    if Get(fields, "$ref").Some? {
      var ref := Get(fields, "$ref").value;
      if Target(Component, ref).Some? {
        var moved := DEFINITION_PREFIX + Target(Component, ref).value;
        assert moved[1] == '/' && moved[2] == '$' && COMPONENT_PREFIX[2] == 'c';
        assert ref.s[2] == 'c';
      }
    }
  }

  lemma {:induction false} RewriteMovesFieldNames(fields: seq<Field>)
    ensures FieldNames(Component, RewriteFields(fields)) == {}
    ensures FieldNames(Definition, RewriteFields(fields)) == FieldNames(Definition, fields) + FieldNames(Component, fields)
    decreases fields
  {
    if fields != [] {
      RewriteMovesNames(fields[0].val);
      RewriteMovesFieldNames(fields[1..]);
    }
  }

  lemma {:induction false} RewriteMovesItemNames(items: seq<Json>)
    ensures ItemNames(Component, RewriteItems(items)) == {}
    ensures ItemNames(Definition, RewriteItems(items)) == ItemNames(Definition, items) + ItemNames(Component, items)
    decreases items
  {
    if items != [] {
      RewriteMovesNames(items[0]);
      RewriteMovesItemNames(items[1..]);
    }
  }

  lemma {:induction false} RewrittenFieldAt(fields: seq<Field>, i: nat)
    requires i < |fields|
    ensures |RewriteFields(fields)| == |fields| && RewriteFields(fields)[i] == Field(fields[i].key, RewriteEntry(fields[i]))
  {
    if i > 0 { RewrittenFieldAt(fields[1..], i - 1); }
    else if |fields| > 1 { RewrittenFieldAt(fields[1..], 0); }
  }

  lemma {:induction false} RewrittenItemAt(items: seq<Json>, i: nat)
    requires i < |items|
    ensures |RewriteItems(items)| == |items| && RewriteItems(items)[i] == Rewrite(items[i])
  {
    if i > 0 { RewrittenItemAt(items[1..], i - 1); }
    else if |items| > 1 { RewrittenItemAt(items[1..], 0); }
  }

  /** The entries have one key, and b's value is a's, or the moved reference where a's is one to a component. */
  predicate SameEntry(a: Field, b: Field)
    decreases a
  {
    && a.key == b.key
    && if a.key == "$ref" && a.val.Str? && COMPONENT_PREFIX <= a.val.s
       then b.val == Str("#/$defs/" + LastSegment(a.val.s))
       else SameButReferences(a.val, b.val)
  }

  /** Equal but for references to components: the same keys in order, the same lengths, and the same values elsewhere. */
  predicate SameButReferences(a: Json, b: Json)
    decreases a
  {
    match a
    case Obj(fields) => b.Obj? && |b.fields| == |fields| && forall i | 0 <= i < |fields| :: SameEntry(fields[i], b.fields[i])
    case Arr(items) => b.Arr? && |b.items| == |items| && forall i | 0 <= i < |items| :: SameButReferences(items[i], b.items[i])
    case _ => a == b
  }

  /** Rewriting changes nothing but references to components. */
  lemma {:induction false} RewriteChangesReferencesOnly(node: Json)
    ensures SameButReferences(node, Rewrite(node))
    decreases node
  {
    match node
    case Obj(fields) =>
      forall i | 0 <= i < |fields| ensures |RewriteFields(fields)| == |fields| && SameEntry(fields[i], RewriteFields(fields)[i]) {
        RewrittenFieldAt(fields, i);
        RewriteChangesReferencesOnly(fields[i].val);
      }
    case Arr(items) =>
      forall i | 0 <= i < |items| ensures |RewriteItems(items)| == |items| && SameButReferences(items[i], RewriteItems(items)[i]) {
        RewrittenItemAt(items, i);
        RewriteChangesReferencesOnly(items[i]);
      }
    case _ =>
  }

  lemma {:induction false} NamesOfPut(style: Style, fields: seq<Field>, val: Json)
    ensures Names(style, val) <= FieldNames(style, Put(fields, "$defs", val)) <= FieldNames(style, fields) + Names(style, val)
  {
    if fields != [] && fields[0].key != "$defs" {
      NamesOfPut(style, fields[1..], val);
    }
  }

  lemma NamesOfAttach(style: Style, schema: seq<Field>, defs: seq<Field>)
    requires defs != []
    ensures Names(style, Obj(defs)) <= Names(style, Obj(Attach(schema, defs)))
    ensures Names(style, Obj(Attach(schema, defs))) <= Names(style, Rewrite(Obj(schema))) + Names(style, Obj(defs))
  {
    NamesOfPut(style, RewriteFields(schema), Obj(defs));
    GetOfPut(RewriteFields(schema), "$defs", Obj(defs), "$ref");
  }

  /** The definition that a "#/$defs/name" reference of a schema finds. */
  function DefinitionOf(schema: seq<Field>, name: string): Option<Json> {
    match Get(schema, "$defs")
    case Some(Obj(defs)) => Get(defs, name)
    case _ => None
  }

  /** What each reference finds is the rewritten component of that name, for exactly the reachable components. */
  lemma DefinitionsAreRewrittenComponents(schema: seq<Field>, components: map<string, Json>, defs: seq<Field>, name: string)
    requires DefinitionsFor(schema, components, defs) && defs != []
    ensures DefinitionOf(Attach(schema, defs), name)
         == if name in components && Reachable(Names(Component, Obj(schema)), components, name) then Some(Rewrite(components[name])) else None
  {
    hide Reachable, Rewrite, Put;
    GetOfPut(RewriteFields(schema), "$defs", Obj(defs), "$defs");
    GetFindsKeys(defs, name);
    if Get(defs, name).Some? {
      var i :| 0 <= i < |defs| && defs[i] == Field(name, Get(defs, name).value);
      assert name in Keys(defs);
    }
  }

  lemma NamesOfDefinitions(style: Style, schema: seq<Field>, components: map<string, Json>, defs: seq<Field>, name: string)
    requires DefinitionsFor(schema, components, defs)
    ensures name in FieldNames(style, defs) <==> exists k :: k in Keys(defs) && k in components && name in Names(style, Rewrite(components[k]))
  {
    hide Rewrite, Names, Reachable;
    FieldNamesAt(style, defs, name);
    if k :| k in Keys(defs) && k in components && name in Names(style, Rewrite(components[k])) {
      var i :| 0 <= i < |defs| && defs[i].key == k;
      assert name in Names(style, defs[i].val);
    }
    if i :| 0 <= i < |defs| && name in Names(style, defs[i].val) {
      assert defs[i].key in Keys(defs);
    }
  }

  lemma OwnOfDefinitions(style: Style, schema: seq<Field>, components: map<string, Json>, defs: seq<Field>)
    requires DefinitionsFor(schema, components, defs)
    ensures Own(style, defs) != {} <==> "$ref" in Keys(defs) && "$ref" in components && Target(style, components["$ref"]).Some?
  {
    hide Reachable;
    GetFindsKeys(defs, "$ref");
    if Get(defs, "$ref").Some? {
      var i :| 0 <= i < |defs| && defs[i] == Field("$ref", Get(defs, "$ref").value);
    }
  }

  /** No component reference is left, except when a reachable component is itself named "$ref" and holds one. */
  lemma NoComponentRefLeftExactlyWhen(schema: seq<Field>, components: map<string, Json>, defs: seq<Field>)
    requires DefinitionsFor(schema, components, defs)
    ensures Names(Component, Obj(Attach(schema, defs))) == {}
       <==> !("$ref" in Keys(defs) && "$ref" in components && Target(Component, components["$ref"]).Some?)
  {
    RewriteMovesNames(Obj(schema));
    if defs != [] {
      hide Attach, Rewrite, Own, DefinitionsFor;
      NamesOfAttach(Component, schema, defs);
      OwnOfDefinitions(Component, schema, components, defs);
      forall name ensures name !in FieldNames(Component, defs) {
        NamesOfDefinitions(Component, schema, components, defs, name);
        forall k | k in components { RewriteMovesNames(components[k]); }
      }
    }
  }

  /** A component reference of the schema, or of an attached component, names this component. */
  ghost predicate Referred(schema: seq<Field>, components: map<string, Json>, defs: seq<Field>, name: string) {
    && name in components
    && (name in Names(Component, Obj(schema)) || exists k :: k in Keys(defs) && k in components && name in Names(Component, components[k]))
  }

  /** Every component reference that was rewritten finds its component. */
  ghost predicate Complete(schema: seq<Field>, components: map<string, Json>, defs: seq<Field>) {
    forall name :: Referred(schema, components, defs, name) ==> DefinitionOf(Attach(schema, defs), name) == Some(Rewrite(components[name]))
  }

  /** A component that is not an object refers to name: the closure does not follow it. */
  ghost predicate ListRefersTo(components: map<string, Json>, k: string, name: string) {
    k in components && !components[k].Obj? && name in Names(Component, components[k])
  }

  lemma FoundExactlyWhenAttached(schema: seq<Field>, components: map<string, Json>, defs: seq<Field>, name: string)
    requires DefinitionsFor(schema, components, defs) && Referred(schema, components, defs, name)
    ensures DefinitionOf(Attach(schema, defs), name) == Some(Rewrite(components[name])) <==> name in Keys(defs)
  {
    hide Attach, Rewrite, DefinitionOf, Reachable;
    if defs != [] {
      DefinitionsAreRewrittenComponents(schema, components, defs, name);
    } else {
      StartIsReachable(Names(Component, Obj(schema)), components, name);
    }
  }

  lemma MissingExactlyWhen(schema: seq<Field>, components: map<string, Json>, defs: seq<Field>, name: string)
    requires DefinitionsFor(schema, components, defs) && name in components
    ensures Referred(schema, components, defs, name) && name !in Keys(defs)
       <==> exists k :: k in Keys(defs) && ListRefersTo(components, k, name) && name !in Keys(defs)
  {
    hide Rewrite, Reachable;
    var start := Names(Component, Obj(schema));
    if name in start {
      StartIsReachable(start, components, name);
    }
    forall k | k in Keys(defs) && k in components && components[k].Obj? && name in Names(Component, components[k])
      ensures name in Keys(defs)
    {
      SuccessorIsReachable(start, components, k, name);
    }
  }

  /**
   * Every reference finds its definition exactly when whatever a reachable list component refers to is reachable
   * some other way: the closure follows references out of objects only.
   */
  lemma CompleteExactlyWhen(schema: seq<Field>, components: map<string, Json>, defs: seq<Field>)
    requires DefinitionsFor(schema, components, defs)
    ensures Complete(schema, components, defs)
       <==> forall k, name :: k in Keys(defs) && ListRefersTo(components, k, name) && name in components ==> name in Keys(defs)
  {
    hide Attach, Rewrite, DefinitionOf, Reachable, DefinitionsFor, ListRefersTo, Names;
    forall name | Referred(schema, components, defs, name)
      ensures DefinitionOf(Attach(schema, defs), name) == Some(Rewrite(components[name])) <==> name in Keys(defs)
    {
      FoundExactlyWhenAttached(schema, components, defs, name);
    }
    forall name | name in components
      ensures Referred(schema, components, defs, name) && name !in Keys(defs)
         <==> exists k :: k in Keys(defs) && ListRefersTo(components, k, name) && name !in Keys(defs)
    {
      MissingExactlyWhen(schema, components, defs, name);
    }
  }

  /** Nothing uses "#/$defs/" yet, and "$ref" is no component's name. */
  ghost predicate NoDefinitionsYet(schema: seq<Field>, components: map<string, Json>) {
    && "$ref" !in components
    && Names(Definition, Obj(schema)) == {}
    && forall k :: k in components ==> Names(Definition, components[k]) == {}
  }

  /** What the result refers to: the schema's own references and those of every attached component, list or object. */
  lemma ReferencesOfResult(schema: seq<Field>, components: map<string, Json>, defs: seq<Field>, name: string)
    requires DefinitionsFor(schema, components, defs) && NoDefinitionsYet(schema, components)
    ensures name in Names(Definition, Obj(Attach(schema, defs)))
       ==> name in Names(Component, Obj(schema)) || exists k :: k in Keys(defs) && k in components && name in Names(Component, components[k])
    ensures (exists k :: k in Keys(defs) && k in components && name in Names(Component, components[k]))
       ==> name in Names(Definition, Obj(Attach(schema, defs)))
  {
    hide DefinitionsFor;
    RewriteMovesNames(Obj(schema));
    if defs != [] {
      hide Attach, Rewrite, Own;
      NamesOfAttach(Definition, schema, defs);
      OwnOfDefinitions(Definition, schema, components, defs);
      NamesOfDefinitions(Definition, schema, components, defs, name);
      forall k | k in components { RewriteMovesNames(components[k]); }
    }
  }

  /** Then the references of the result are those that were rewritten, so it is self-contained under the same condition. */
  lemma SelfContainedExactlyWhen(schema: seq<Field>, components: map<string, Json>, defs: seq<Field>)
    requires DefinitionsFor(schema, components, defs) && NoDefinitionsYet(schema, components)
    ensures (forall name :: name in Names(Definition, Obj(Attach(schema, defs))) && name in components
                            ==> DefinitionOf(Attach(schema, defs), name) == Some(Rewrite(components[name])))
       <==> forall k, name :: k in Keys(defs) && ListRefersTo(components, k, name) && name in components ==> name in Keys(defs)
  {
    hide Attach, Rewrite, DefinitionOf, Reachable, NoDefinitionsYet, ListRefersTo;
    CompleteExactlyWhen(schema, components, defs);
    forall name | name in components
      ensures name in Names(Definition, Obj(Attach(schema, defs))) ==> Referred(schema, components, defs, name)
      ensures Referred(schema, components, defs, name) && name !in Keys(defs) ==> name in Names(Definition, Obj(Attach(schema, defs)))
    {
      ReferencesOfResult(schema, components, defs, name);
      if name in Names(Component, Obj(schema)) {
        StartIsReachable(Names(Component, Obj(schema)), components, name);
      }
    }
    forall name | Referred(schema, components, defs, name)
      ensures DefinitionOf(Attach(schema, defs), name) == Some(Rewrite(components[name])) <==> name in Keys(defs)
    {
      FoundExactlyWhenAttached(schema, components, defs, name);
    }
  }

  /** A schema's own definition survives exactly when the schema refers to no component: attaching replaces "$defs". */
  lemma OwnDefinitionSurvivesExactlyWhen(schema: seq<Field>, components: map<string, Json>, defs: seq<Field>, name: string)
    requires DefinitionsFor(schema, components, defs)
    requires DefinitionOf(schema, name).Some? && name !in components
    ensures DefinitionOf(Attach(schema, defs), name).Some? <==> Names(Component, Obj(schema)) !! components.Keys
  {
    var start := Names(Component, Obj(schema));
    if defs != [] {
      DefinitionsAreRewrittenComponents(schema, components, defs, name);
      assert defs[0].key in Keys(defs);
      var p :| Path(start, components, p) && p[|p| - 1] == defs[0].key;
      assert |p| > 1 ==> p[1] in Successors(components, p[0]);
      assert p[0] in start && p[0] in components;
    } else {
      forall x | x in start ensures x !in components {
        StartIsReachable(start, components, x);
        assert x in components ==> x in Keys(defs);
      }
      GetRewritten(schema, "$defs");
      GetRewritten(Get(schema, "$defs").value.fields, name);
    }
  }
}
