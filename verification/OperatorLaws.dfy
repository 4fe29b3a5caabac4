/** What the operators of the expression language mean, said of evaluated comparisons and not of how they are computed. */
module OperatorLaws {
  import opened Common
  import opened Expression

  /** `field op value` as a condition. */
  predicate Compares(field: string, op: CompareOp, value: Constant, ctx: Context) {
    Evaluate(Compare(field, op, value, false), ctx)
  }

  /** The field has a value, and int() of it is a. */
  predicate IntegerAt(field: string, a: int, ctx: Context) {
    Resolve(field, ctx) != NoneValue && ctx.runtime.toInt(Resolve(field, ctx)) == Some(a)
  }

  /** The field has a value, and str() of it is s. */
  predicate TextAt(field: string, s: string, ctx: Context) {
    Resolve(field, ctx) != NoneValue && ctx.runtime.toStr(Resolve(field, ctx)) == s
  }

  /** int() and str() as Python's on the values they are inverse to each other or the identity on. */
  ghost predicate PythonLike(rt: Runtime) {
    && (forall s :: rt.toStr(StrValue(s)) == s)
    && (forall i :: rt.toInt(IntValue(i)) == Some(i))
    && (forall i, j :: rt.toStr(IntValue(i)) == rt.toStr(IntValue(j)) ==> i == j)
    && rt.toInt(BoolValue(true)) == Some(1) && rt.toInt(BoolValue(false)) == Some(0)
    && (forall i, b :: rt.toStr(IntValue(i)) != rt.toStr(BoolValue(b)))
    && rt.toStr(BoolValue(true)) == "True" && rt.toStr(BoolValue(false)) == "False"
  }

  // ---------------------------------------------------------------- integers

  /** `>` becomes true just above its constant, and the other five operators follow from it. */
  lemma IntegerLaws(field: string, k: int, a: int, ctx: Context)
    requires IntegerAt(field, a, ctx)
    ensures a == k + 1 ==> Compares(field, Gt, IntConst(k), ctx)
    ensures a == k ==> !Compares(field, Gt, IntConst(k), ctx)
    ensures Compares(field, Le, IntConst(k), ctx) <==> !Compares(field, Gt, IntConst(k), ctx)
    ensures Compares(field, Ge, IntConst(k), ctx) <==> Compares(field, Gt, IntConst(k - 1), ctx)
    ensures Compares(field, Lt, IntConst(k), ctx) <==> Compares(field, Le, IntConst(k - 1), ctx)
    ensures Compares(field, Eq, IntConst(k), ctx) <==> Compares(field, Ge, IntConst(k), ctx) && Compares(field, Le, IntConst(k), ctx)
    ensures Compares(field, Ne, IntConst(k), ctx) <==> !Compares(field, Eq, IntConst(k), ctx)
  {
    hide Resolve;
  }

  /** `>` stays true as the value grows and as its constant shrinks. */
  lemma GreaterThanGrows(field: string, k: int, l: int, a: int, b: int, c1: Context, c2: Context)
    requires IntegerAt(field, a, c1) && IntegerAt(field, b, c2) && a <= b && l <= k
    requires Compares(field, Gt, IntConst(k), c1)
    ensures Compares(field, Gt, IntConst(l), c2)
  {
  }

  // ---------------------------------------------------------------- texts

  /** s is put together from a, b and c. */
  predicate Glued(s: string, a: string, b: string, c: string) {
    s == a + (b + c)
  }

  /** `=`, `starts_with`, `ends_with` and `contains` hold exactly when the text can be put together around the operand. */
  lemma TextLaws(field: string, p: string, s: string, ctx: Context)
    requires TextAt(field, s, ctx)
    ensures Compares(field, Eq, StrConst(p), ctx) <==> s == p
    ensures Compares(field, StartsWith, StrConst(p), ctx) <==> exists t :: Glued(s, "", p, t)
    ensures Compares(field, EndsWith, StrConst(p), ctx) <==> exists t :: Glued(s, t, p, "")
    ensures Compares(field, Contains, StrConst(p), ctx) <==> exists t, u :: Glued(s, t, p, u)
  {
    hide Resolve, HasPrefix, HasSuffix, HasInfix, Glued;
    PrefixIs(p, s);
    SuffixIs(p, s);
    InfixIs(p, s);
  }

  lemma PrefixIs(p: string, s: string)
    ensures HasPrefix(p, s) <==> exists t :: Glued(s, "", p, t)
  {
    if HasPrefix(p, s) { assert Glued(s, "", p, s[|p|..]); }
  }

  lemma SuffixIs(p: string, s: string)
    ensures HasSuffix(p, s) <==> exists t :: Glued(s, t, p, "")
  {
    if HasSuffix(p, s) { assert Glued(s, s[..|s| - |p|], p, ""); }
  }

  lemma InfixIs(p: string, s: string)
    ensures HasInfix(p, s) <==> exists t, u :: Glued(s, t, p, u)
  {
    if HasInfix(p, s) {
      var i :| 0 <= i <= |s| && HasPrefix(p, s[i..]);
      assert Glued(s, s[..i], p, s[i..][|p|..]);
    }
    if t, u :| Glued(s, t, p, u) {
      assert s[|t|..] == p + u;
      assert HasPrefix(p, s[|t|..]);
    }
  }

  /** `!=` and `!~` are the complements of `=` and `~`, and `~` asks for a match of the pattern in the text. */
  lemma TextComplements(field: string, p: string, s: string, ctx: Context)
    requires TextAt(field, s, ctx)
    ensures Compares(field, Ne, StrConst(p), ctx) <==> !Compares(field, Eq, StrConst(p), ctx)
    ensures Compares(field, NotMatch, StrConst(p), ctx) <==> !Compares(field, Match, StrConst(p), ctx)
    ensures Compares(field, Match, StrConst(p), ctx) <==> ctx.runtime.search(p, s)
  {
  }

  // ---------------------------------------------------------------- absent fields and operators that do not apply

  /** On an absent field every comparison and membership is false, and true when negated in place. */
  lemma AbsentFields(n: Node, ctx: Context)
    requires (n.Compare? || n.InLiterals? || n.InList? || n.Exists? || n.BoolField?) && Resolve(n.field, ctx) == NoneValue
    ensures Evaluate(n, ctx) == n.negated
  {
  }

  /** The operators that apply to a constant. */
  predicate Applies(op: CompareOp, value: Constant) {
    match value
    case BoolConst(_) => op == Eq
    case IntConst(_) => op in {Eq, Ne, Gt, Lt, Ge, Le}
    case StrConst(_) => op in {Eq, Ne, Match, NotMatch, Contains, StartsWith, EndsWith}
  }


  /** An operator applies exactly when some context makes the comparison true. */
  lemma AppliesExactlyWhenSatisfiable(field: string, op: CompareOp, value: Constant)
    requires BracketParts(field).None?
    ensures Applies(op, value) <==> exists ctx :: Compares(field, op, value, ctx)
  {
    if Applies(op, value) {
      var text := match value case StrConst(s) => (if op == Ne then s + "x" else s) case _ => "";
      var i := match value case IntConst(k) => (if op == Gt || op == Ne then k + 1 else if op == Lt then k - 1 else k) case _ => 0;
      var found := if value.BoolConst? then BoolValue(value.b) else StrValue(text);
      var rt := Runtime((_, _) => op == Match, _ => Some(i), _ => text);
      var ctx := Context(map[field := found], None, rt);
      assert Resolve(field, ctx) == found;
      if value.StrConst? {
        TextLaws(field, value.s, text, ctx);
        if op != Ne { assert Glued(text, "", value.s, ""); }
      }
      assert Compares(field, op, value, ctx);
    }
  }

  // ---------------------------------------------------------------- truth values

  /** On a field that is there, `f = true` is the bare field `f` and `f = false` its negation. */
  lemma BooleanLaws(field: string, ctx: Context)
    requires Resolve(field, ctx) != NoneValue
    ensures Compares(field, Eq, BoolConst(true), ctx) <==> Evaluate(BoolField(field, false), ctx)
    ensures Compares(field, Eq, BoolConst(false), ctx) <==> !Evaluate(BoolField(field, false), ctx)
  {
  }

  /** A bare field is false on False, 0, the empty text and the empty dictionary, and true on every other value. */
  lemma BareFieldLaws(field: string, ctx: Context)
    requires Resolve(field, ctx) != NoneValue && PythonLike(ctx.runtime)
    ensures var v, bare := Resolve(field, ctx), Evaluate(BoolField(field, false), ctx);
      match v
      case BoolValue(b) => bare == b
      case IntValue(_) => bare <==> !Compares(field, Eq, IntConst(0), ctx)
      case StrValue(_) => bare <==> !Compares(field, Eq, StrConst(""), ctx)
      case DictValue(entries) => bare <==> exists key :: key in entries
  {
    match Resolve(field, ctx)
    case DictValue(entries) => if entries != map[] { var key :| key in entries; }
    case _ =>
  }

  /** `exists` holds of every value that is not the empty text, so of every field that is true. */
  lemma ExistsLaws(field: string, ctx: Context)
    requires Resolve(field, ctx) != NoneValue && PythonLike(ctx.runtime)
    ensures Evaluate(BoolField(field, false), ctx) ==> Evaluate(Exists(field, false), ctx)
    ensures Resolve(field, ctx).StrValue? ==> (Evaluate(Exists(field, false), ctx) <==> Compares(field, Ne, StrConst(""), ctx))
    ensures !Resolve(field, ctx).StrValue? ==> Evaluate(Exists(field, false), ctx)
  {
  }

  // ---------------------------------------------------------------- membership

  /** Membership in a list of texts is equality with one of them. */
  lemma TextMembership(field: string, values: seq<Constant>, ctx: Context)
    requires Resolve(field, ctx) != NoneValue && PythonLike(ctx.runtime)
    requires forall i :: 0 <= i < |values| ==> values[i].StrConst?
    ensures Evaluate(InLiterals(field, values, false), ctx) <==> exists i :: 0 <= i < |values| && Compares(field, Eq, values[i], ctx)
  {
    forall i | 0 <= i < |values|
      ensures Compares(field, Eq, values[i], ctx) <==>
        PyEquals(Resolve(field, ctx), AsValue(values[i])) || ctx.runtime.toStr(Resolve(field, ctx)) == ctx.runtime.toStr(AsValue(values[i]))
    {
      assert values[i] == StrConst(values[i].s);
    }
  }

  /** On an integer or a truth value, so is membership in a list of integers. */
  lemma IntegerMembership(field: string, values: seq<Constant>, ctx: Context)
    requires (Resolve(field, ctx).IntValue? || Resolve(field, ctx).BoolValue?) && PythonLike(ctx.runtime)
    requires forall i :: 0 <= i < |values| ==> values[i].IntConst?
    ensures Evaluate(InLiterals(field, values, false), ctx) <==> exists i :: 0 <= i < |values| && Compares(field, Eq, values[i], ctx)
  {
    forall i | 0 <= i < |values|
      ensures Compares(field, Eq, values[i], ctx) <==>
        PyEquals(Resolve(field, ctx), AsValue(values[i])) || ctx.runtime.toStr(Resolve(field, ctx)) == ctx.runtime.toStr(AsValue(values[i]))
    {
      assert values[i] == IntConst(values[i].i);
    }
  }

  /** A truth value in a list stands for itself, for 1 or 0, and for its text. */
  lemma BooleanMembership(field: string, b: bool, ctx: Context)
    requires Resolve(field, ctx) != NoneValue && PythonLike(ctx.runtime)
    ensures var v, within := Resolve(field, ctx), Evaluate(InLiterals(field, [BoolConst(b)], false), ctx);
      match v
      case BoolValue(c) => within <==> b == c
      case IntValue(i) => within <==> i == (if b then 1 else 0)
      case StrValue(s) => within <==> s == (if b then "True" else "False")
      case _ => true
  {
    assert [BoolConst(b)][0] == BoolConst(b);
    assert Evaluate(InLiterals(field, [BoolConst(b)], false), ctx) <==>
      PyEquals(Resolve(field, ctx), BoolValue(b)) || ctx.runtime.toStr(Resolve(field, ctx)) == ctx.runtime.toStr(BoolValue(b));
  }

  /** `f in $type:name` asks whether the value is in the list of that type and name. */
  lemma ListMembership(field: string, listType: string, listName: string, lists: map<(string, string), set<Value>>, ctx: Context)
    requires Resolve(field, ctx) != NoneValue
    requires ctx.lists == Some((t: string, n: string, v: Value) => (t, n) in lists && v in lists[(t, n)])
    ensures Evaluate(InList(field, listType, listName, false), ctx)
       <==> (listType, listName) in lists && Resolve(field, ctx) in lists[(listType, listName)]
  {
  }

  // ---------------------------------------------------------------- fields as they are written

  /** Letters, digits, underscores and dots. */
  predicate NameChar(c: char) {
    'A' <= c <= 'Z' || 'a' <= c <= 'z' || '0' <= c <= '9' || c == '_' || c == '.'
  }

  predicate Plain(name: string) {
    forall i | 0 <= i < |name| :: NameChar(name[i])
  }

  lemma WordPrefixOf(base: string, rest: string)
    requires Plain(base)
    requires rest != "" ==> !NameChar(rest[0])
    ensures WordPrefix(base + rest) == |base|
  {
    var s, k := base + rest, WordPrefix(base + rest);
    assert forall i :: 0 <= i < |base| ==> s[i] == base[i] && NameChar(base[i]);
    assert rest != "" ==> s[|base|] == rest[0];
  }

  /** base["key"] is a bracket field exactly when the key is not empty and is on one line. */
  lemma BracketShape(base: string, key: string)
    requires base != "" && Plain(base)
    ensures BracketParts(base + ("[\"" + (key + "\"]"))) == if key != "" && '\n' !in key then Some((base, key)) else None
  {
    hide WordPrefix, IsWordOrDot, Plain, NameChar;
    var tail := "[\"" + (key + "\"]");
    var field := base + tail;
    BracketIsNoWord();
    WordPrefixOf(base, tail);
    assert field[..|base|] == base && field[|base|..] == tail;
    KeyWithin(key);
  }

  lemma BracketIsNoWord()
    ensures !NameChar('[')
  {
  }

  lemma KeyWithin(key: string)
    ensures var tail := "[\"" + (key + "\"]");
      |tail| == |key| + 4 && tail[..2] == "[\"" && tail[2..|tail| - 2] == key && tail[|tail| - 2..] == "\"]" && tail[|tail| - 1] == ']'
  {
  }

  /** base["key"] is the text of the entry under key of the dictionary base, and absent without such an entry. */
  lemma BracketFieldResolves(base: string, key: string, ctx: Context)
    requires base != "" && key != "" && '\n' !in key && Plain(base)
    ensures var field := base + ("[\"" + (key + "\"]"));
      if base in ctx.fields && ctx.fields[base].DictValue? && key in ctx.fields[base].entries && ctx.fields[base].entries[key] != NoneValue
      then Resolve(field, ctx) == StrValue(ctx.runtime.toStr(ctx.fields[base].entries[key]))
      else Resolve(field, ctx) == NoneValue
  {
    hide BracketParts;
    BracketShape(base, key);
  }

  /** ".".join(parts) */
  function Join(parts: seq<string>): string
    requires parts != []
  {
    if |parts| == 1 then parts[0] else parts[0] + ("." + Join(parts[1..]))
  }

  lemma {:induction false} SplitPart(part: string)
    requires '.' !in part
    ensures SplitDots(part) == [part]
  {
    if part != "" {
      SplitPart(part[1..]);
      assert part == [part[0]] + part[1..];
    }
  }

  lemma {:induction false} SplitFirst(part: string, rest: string)
    requires '.' !in part
    ensures SplitDots(part + ("." + rest)) == [part] + SplitDots(rest)
  {
    var s := part + ("." + rest);
    if part == "" {
      assert s[1..] == rest;
    } else {
      SplitFirst(part[1..], rest);
      assert s[1..] == part[1..] + ("." + rest);
      assert [s[0]] + part[1..] == part;
    }
  }

  lemma {:induction false} SplitUndoesJoin(parts: seq<string>)
    requires parts != [] && forall i :: 0 <= i < |parts| ==> '.' !in parts[i]
    ensures SplitDots(Join(parts)) == parts
  {
    if |parts| == 1 {
      SplitPart(parts[0]);
    } else {
      SplitUndoesJoin(parts[1..]);
      SplitFirst(parts[0], Join(parts[1..]));
    }
  }

  lemma PlainNameIsNoBracket(name: string)
    requires Plain(name)
    ensures BracketParts(name).None?
  {
    assert name + "" == name;
    WordPrefixOf(name, "");
  }

  lemma {:induction false} JoinIsPlain(parts: seq<string>)
    requires parts != [] && forall i :: 0 <= i < |parts| ==> Plain(parts[i])
    ensures Plain(Join(parts))
  {
    if |parts| > 1 { JoinIsPlain(parts[1..]); }
  }

  predicate EntryOf(v: Value, outer: Value, key: string) {
    outer.DictValue? && key in outer.entries && v == outer.entries[key]
  }

  /** Each value is the entry of the one before it under the next part of the path. */
  ghost predicate Leads(values: seq<Value>, parts: seq<string>) {
    && 0 < |values| <= |parts| + 1
    && forall i | 0 < i < |values| :: EntryOf(values[i], values[i - 1], parts[i - 1])
  }

  lemma {:induction false} WalkFollows(values: seq<Value>, parts: seq<string>)
    requires Leads(values, parts)
    ensures |values| == |parts| + 1 ==> Walk(values[0], parts) == values[|parts|]
    ensures |values| <= |parts| && (values[|values| - 1].DictValue? ==> parts[|values| - 1] !in values[|values| - 1].entries)
      ==> Walk(values[0], parts) == NoneValue
  {
    if |values| > 1 { WalkFollows(values[1..], parts[1..]); }
  }

  /** A dotted name that is no entry itself is looked up part by part in nested dictionaries, and absent where the path breaks off. */
  lemma DottedPathResolves(parts: seq<string>, values: seq<Value>, ctx: Context)
    requires parts != [] && forall i :: 0 <= i < |parts| ==> Plain(parts[i]) && '.' !in parts[i]
    requires Join(parts) !in ctx.fields
    requires Leads(values, parts) && values[0] == DictValue(ctx.fields)
    ensures |values| == |parts| + 1 ==> Resolve(Join(parts), ctx) == values[|parts|]
    ensures |values| <= |parts| && (values[|values| - 1].DictValue? ==> parts[|values| - 1] !in values[|values| - 1].entries)
      ==> Resolve(Join(parts), ctx) == NoneValue
  {
    JoinIsPlain(parts);
    PlainNameIsNoBracket(Join(parts));
    SplitUndoesJoin(parts);
    WalkFollows(values, parts);
  }
}
