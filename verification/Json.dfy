/** JSON values as Python holds them: an object is its entries in insertion order. */
module Json {
  import opened Common

  datatype Json =
    | Null
    | Bool(b: bool)
    | Int(i: int)
    | Float(r: real)
    | Str(s: string)
    | Arr(items: seq<Json>)
    | Obj(fields: seq<Field>)

  datatype Field = Field(key: string, val: Json)

  /** dict.get(key) */
  function Get(fields: seq<Field>, key: string): (val: Option<Json>)
    ensures val.Some? ==> (fields decreases to val.value)
  {
    if fields == [] then None
    else if fields[0].key == key then Some(fields[0].val)
    else Get(fields[1..], key)
  }

  /** dict[key] = val: an existing key keeps its place. */
  function Put(fields: seq<Field>, key: string, val: Json): seq<Field> {
    if fields == [] then [Field(key, val)]
    else if fields[0].key == key then [Field(key, val)] + fields[1..]
    else [fields[0]] + Put(fields[1..], key, val)
  }

  function Keys(fields: seq<Field>): set<string> {
    set f | f in fields :: f.key
  }

  /** Keys occur once, as in every Python dict. */
  ghost predicate DistinctKeys(fields: seq<Field>) {
    forall i, j :: 0 <= i < j < |fields| ==> fields[i].key != fields[j].key
  }

  lemma {:induction false} GetFindsKeys(fields: seq<Field>, key: string)
    ensures Get(fields, key).Some? <==> key in Keys(fields)
    ensures Get(fields, key).Some? ==> Field(key, Get(fields, key).value) in fields
  {
    if fields != [] {
      GetFindsKeys(fields[1..], key);
      assert fields == [fields[0]] + fields[1..];
      assert Keys(fields) == {fields[0].key} + Keys(fields[1..]);
    }
  }

  lemma {:induction false} GetAt(fields: seq<Field>, i: nat)
    requires i < |fields| && DistinctKeys(fields)
    ensures Get(fields, fields[i].key) == Some(fields[i].val)
  {
    if i > 0 {
      GetAt(fields[1..], i - 1);
    }
  }

  lemma {:induction false} GetOfPut(fields: seq<Field>, key: string, val: Json, other: string)
    ensures Get(Put(fields, key, val), other) == if other == key then Some(val) else Get(fields, other)
    ensures Keys(Put(fields, key, val)) == Keys(fields) + {key}
  {
    if fields != [] {
      GetOfPut(fields[1..], key, val, other);
      assert fields == [fields[0]] + fields[1..];
      var put := Put(fields, key, val);
      assert put == [put[0]] + put[1..];
      assert put[1..] == if fields[0].key == key then fields[1..] else Put(fields[1..], key, val);
      assert Keys(put) == {put[0].key} + Keys(put[1..]);
      assert Keys(fields) == {fields[0].key} + Keys(fields[1..]);
    }
  }

  lemma {:induction false} PutKeepsDistinct(fields: seq<Field>, key: string, val: Json)
    requires DistinctKeys(fields)
    ensures DistinctKeys(Put(fields, key, val))
  {
    if fields != [] && fields[0].key != key {
      var rest := Put(fields[1..], key, val);
      PutKeepsDistinct(fields[1..], key, val);
      GetOfPut(fields[1..], key, val, key);
      forall j | 0 <= j < |rest| ensures rest[j].key != fields[0].key {
        assert rest[j].key in Keys(rest);
      }
    }
  }

  // ---------------------------------------------------------------- places

  /** A path into a value: positions of items in lists and of entries in objects. */
  type Place = seq<nat>

  /** The value at a place. */
  function NodeAt(v: Json, place: Place): Option<Json>
    decreases v
  {
    if place == [] then Some(v)
    else
      match v
      case Arr(items) => if place[0] < |items| then NodeAt(items[place[0]], place[1..]) else None
      case Obj(fields) => if place[0] < |fields| then NodeAt(fields[place[0]].val, place[1..]) else None
      case _ => None
  }
}
