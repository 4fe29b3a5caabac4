/** Schemas learned from observed request bodies (backend/app/services/api_armor_schemas.py). */
module SchemaLearning {
  import opened Common
  import opened Json

  datatype TypeName = NullType | BooleanType | IntegerType | NumberType | StringType | ArrayType | ObjectType

  /** The value of "type": a name, or the two-element list that a merge writes on a conflict. */
  datatype TypeEntry = Name(t: TypeName) | Pair(first: TypeEntry, second: TypeEntry)

  /** The schemas that inference and merging build; Any is {}. */
  datatype Schema =
    | Any
    | JustNull
    | JustBoolean
    | JustInteger
    | JustNumber
    | Text(minLength: nat, maxLength: nat)
    | List(items: Schema, minItems: nat, maxItems: nat)
    | Object(props: map<string, Schema>, required: set<string>)
    | Conflict(first: TypeEntry, second: TypeEntry)

  /** schema.get("type") */
  function TypeOf(s: Schema): Option<TypeEntry> {
    match s
    case Any => None
    case JustNull => Some(Name(NullType))
    case JustBoolean => Some(Name(BooleanType))
    case JustInteger => Some(Name(IntegerType))
    case JustNumber => Some(Name(NumberType))
    case Text(_, _) => Some(Name(StringType))
    case List(_, _, _) => Some(Name(ArrayType))
    case Object(_, _) => Some(Name(ObjectType))
    case Conflict(first, second) => Some(Pair(first, second))
  }

  /** The type name inferred for a value. */
  function TypeOfValue(v: Json): TypeName {
    match v
    case Null => NullType
    case Bool(_) => BooleanType
    case Int(_) => IntegerType
    case Float(_) => NumberType
    case Str(_) => StringType
    case Arr(_) => ArrayType
    case Obj(_) => ObjectType
  }

  function Infer(v: Json): (s: Schema)
    ensures TypeOf(s) == Some(Name(TypeOfValue(v)))
    decreases v
  {
    match v
    case Null => JustNull
    case Bool(_) => JustBoolean
    case Int(_) => JustInteger
    case Float(_) => JustNumber
    case Str(s) => Text(0, |s|)
    case Arr(items) => List(if items == [] then Any else Infer(items[0]), 0, |items|)
    case Obj(fields) => Object(map k | k in Keys(fields) && Get(fields, k).Some? :: Infer(Get(fields, k).value), Keys(fields))
  }

  function Min(a: nat, b: nat): nat { if a <= b then a else b }

  function Max(a: nat, b: nat): nat { if a <= b then b else a }

  /** What merging builds: properties of both sides, merged where shared; keys that both require. */
  function Merge(s1: Schema, s2: Schema): Schema
    decreases s2
  {
    if TypeOf(s1) != TypeOf(s2) then
      if TypeOf(s1).Some? && TypeOf(s2).Some? then Conflict(TypeOf(s1).value, TypeOf(s2).value) else Any
    else
      match (s1, s2)
      case (Object(p1, r1), Object(p2, r2)) =>
        Object(map k | k in p1.Keys + p2.Keys ::
          if k in p1 && k in p2 then Merge(p1[k], p2[k]) else if k in p1 then p1[k] else p2[k],
          r1 * r2)
      case (Text(min1, max1), Text(min2, max2)) => Text(Min(min1, min2), Max(max1, max2))
      case _ => s1
  }

  // ---------------------------------------------------------------- the program

  method MergeSchemas(s1: Schema, s2: Schema) returns (merged: Schema)
    ensures merged == Merge(s1, s2)
    decreases s2
  {
    var t1, t2 := TypeOf(s1), TypeOf(s2);
    if t1 != t2 {
      if t1.Some? && t2.Some? {
        return Conflict(t1.value, t2.value);
      }
      return Any;
    }
    merged := s1;
    if s1.Object? {
      var mergedProps := s1.props;
      var rest := s2.props.Keys;
      while rest != {}
        invariant rest <= s2.props.Keys
        invariant mergedProps.Keys == s1.props.Keys + (s2.props.Keys - rest)
        invariant forall k :: k in mergedProps ==>
          mergedProps[k] == if k in s1.props && k in s2.props && k !in rest then Merge(s1.props[k], s2.props[k])
                            else if k in s1.props then s1.props[k] else s2.props[k]
        decreases rest
      {
        var key :| key in rest;
        if key in mergedProps {
          var both := MergeSchemas(mergedProps[key], s2.props[key]);
          mergedProps := mergedProps[key := both];
        } else {
          mergedProps := mergedProps[key := s2.props[key]];
        }
        rest := rest - {key};
      }
      merged := Object(mergedProps, s1.required * s2.required);
    } else if s1.Text? {
      merged := Text(Min(s1.minLength, s2.minLength), Max(s1.maxLength, s2.maxLength));
    }
  }

  /** The schema learned from a non-empty history of bodies, oldest first. */
  function Learn(history: seq<Json>): Schema
    requires history != []
  {
    var n := |history| - 1;
    if n == 0 then Infer(history[0]) else Merge(Learn(history[..n]), Infer(history[n]))
  }

  /** The stored row of one endpoint. */
  class LearnedSchema {
    var schema: Option<Schema>
    var sampleCount: nat
    ghost var history: seq<Json>

    ghost predicate Valid()
      reads this
    {
      && sampleCount == |history|
      && schema == if history == [] then None else Some(Learn(history))
    }

    constructor ()
      ensures Valid() && history == []
    {
      schema, sampleCount, history := None, 0, [];
    }

    method Observe(body: Json)
      requires Valid()
      modifies this
      ensures Valid() && history == old(history) + [body]
    {
      var observed := Infer(body);
      if schema.Some? {
        var merged := MergeSchemas(schema.value, observed);
        schema := Some(merged);
        sampleCount := sampleCount + 1;
      } else {
        schema := Some(observed);
        sampleCount := 1;
      }
      history := history + [body];
      assert history[..|history| - 1] == old(history);
    }
  }

  // ---------------------------------------------------------------- validation

  /** An instance is of a named type: an integer is a number, a number without a fraction an integer. */
  predicate HasType(t: TypeName, v: Json) {
    match t
    case IntegerType => v.Int? || (v.Float? && v.r == v.r.Floor as real)
    case NumberType => v.Int? || v.Float?
    case _ => t == TypeOfValue(v)
  }

  /**
   * Validation as sections 6.1, 6.3, 6.4 and 6.5 of JSON Schema Validation 2020-12 define it.
   * A type list may hold names only; a schema with a list inside the list is invalid and validates nothing.
   */
  predicate Accepts(s: Schema, v: Json)
    decreases v
  {
    match s
    case Any => true
    case JustNull => HasType(NullType, v)
    case JustBoolean => HasType(BooleanType, v)
    case JustInteger => HasType(IntegerType, v)
    case JustNumber => HasType(NumberType, v)
    case Text(least, most) => v.Str? && least <= |v.s| <= most
    case List(items, least, most) =>
      v.Arr? && least <= |v.items| <= most && forall i :: 0 <= i < |v.items| ==> Accepts(items, v.items[i])
    case Object(props, required) =>
      && v.Obj? && required <= Keys(v.fields)
      && forall k :: k in props && Get(v.fields, k).Some? ==> Accepts(props[k], Get(v.fields, k).value)
    case Conflict(first, second) => first.Name? && second.Name? && (HasType(first.t, v) || HasType(second.t, v))
  }
}
