/** Which histories a learned schema validates: an exact condition on the observed bodies. */
module SchemaCoverage {
  import opened Common
  import opened Json
  import opened SchemaLearning

  // ---------------------------------------------------------------- one sample

  /** v fits the schema inferred from one sample, said without schemas. */
  predicate Like(sample: Json, v: Json)
    decreases v
  {
    match sample
    case Int(_) => v.Int? || (v.Float? && v.r == v.r.Floor as real)
    case Float(_) => v.Int? || v.Float?
    case Str(s) => v.Str? && |v.s| <= |s|
    case Arr(items) => v.Arr? && |v.items| <= |items| && forall i :: 0 <= i < |v.items| ==> Like(items[0], v.items[i])
    case Obj(fields) =>
      && v.Obj? && Keys(fields) <= Keys(v.fields)
      && forall k :: k in Keys(fields) && Get(fields, k).Some? && Get(v.fields, k).Some? ==> Like(Get(fields, k).value, Get(v.fields, k).value)
    case _ => TypeOfValue(v) == TypeOfValue(sample)
  }

  /** The inferred schema accepts exactly the values that are like the sample. */
  lemma {:induction false} InferAcceptsLike(sample: Json, v: Json)
    ensures Accepts(Infer(sample), v) <==> Like(sample, v)
    decreases v
  {
    match sample
    case Arr(items) =>
      if v.Arr? && |v.items| <= |items| {
        forall i | 0 <= i < |v.items| ensures Accepts(Infer(items[0]), v.items[i]) <==> Like(items[0], v.items[i]) {
          InferAcceptsLike(items[0], v.items[i]);
        }
      }
    case Obj(fields) =>
      if v.Obj? {
        forall k | k in Keys(fields) && Get(fields, k).Some? && Get(v.fields, k).Some?
          ensures Accepts(Infer(Get(fields, k).value), Get(v.fields, k).value) <==> Like(Get(fields, k).value, Get(v.fields, k).value)
        {
          InferAcceptsLike(Get(fields, k).value, Get(v.fields, k).value);
        }
      }
    case _ =>
  }

  // ---------------------------------------------------------------- histories

  predicate SameType(history: seq<Json>) {
    forall i, j :: 0 <= i < |history| && 0 <= j < |history| ==> TypeOfValue(history[i]) == TypeOfValue(history[j])
  }

  predicate AllObjects(history: seq<Json>) {
    forall i :: 0 <= i < |history| ==> history[i].Obj?
  }

  /** The values seen under one key. */
  function Under(history: seq<Json>, key: string): seq<Json> {
    if history == [] then []
    else
      var n := |history| - 1;
      Under(history[..n], key) +
      (if history[n].Obj? && Get(history[n].fields, key).Some? then [Get(history[n].fields, key).value] else [])
  }

  /** The values seen at a path of keys, as long as every body is an object on the way. */
  function At(history: seq<Json>, path: seq<string>): seq<Json>
    decreases |path|
  {
    if path == [] then history
    else if AllObjects(history) then At(Under(history, path[0]), path[1..])
    else []
  }

  /**
   * What validation of everything seen at one path needs: one type throughout, and arrays like the first array;
   * or a second type in the very last observation.
   */
  predicate Steady(history: seq<Json>) {
    var n := |history| - 1;
    || history == []
    || (SameType(history) && (history[0].Arr? ==> forall i :: 0 <= i <= n ==> Like(history[0], history[i])))
    || (SameType(history[..n]) && n > 0 && TypeOfValue(history[n]) != TypeOfValue(history[0]))
  }

  ghost predicate SteadyEverywhere(history: seq<Json>) {
    forall path :: Steady(At(history, path))
  }

  /** The schema learned from the bodies validates every one of them. */
  ghost predicate Covers(history: seq<Json>)
    requires history != []
  {
    forall i :: 0 <= i < |history| ==> Accepts(Learn(history), history[i])
  }

  // ---------------------------------------------------------------- what learning yields

  lemma {:induction false} LearnScalars(history: seq<Json>)
    requires history != [] && SameType(history) && !history[0].Obj? && !history[0].Str?
    ensures Learn(history) == Infer(history[0])
  {
    var n := |history| - 1;
    if n > 0 {
      LearnScalars(history[..n]);
      assert history[..n][0] == history[0];
      assert TypeOfValue(history[n]) == TypeOfValue(history[0]);
    }
  }

  lemma {:induction false} LearnTexts(history: seq<Json>)
    requires history != [] && SameType(history) && history[0].Str?
    ensures Learn(history).Text? && Learn(history).minLength == 0
    ensures forall i :: 0 <= i < |history| ==> history[i].Str? && |history[i].s| <= Learn(history).maxLength
  {
    var n := |history| - 1;
    assert TypeOfValue(history[n]) == TypeOfValue(history[0]);
    if n > 0 {
      LearnTexts(history[..n]);
      assert history[..n][0] == history[0];
      forall i | 0 <= i < n ensures history[i].Str? && |history[i].s| <= Learn(history).maxLength {
        assert history[..n][i] == history[i];
      }
    }
  }

  /** The learned bounds of texts are tight: no text is longer, and one is as long. */
  lemma {:induction false} LearnedBoundIsReached(history: seq<Json>)
    requires history != [] && SameType(history) && history[0].Str?
    ensures Learn(history).Text? && Learn(history).minLength == 0
    ensures forall i :: 0 <= i < |history| ==> history[i].Str? && |history[i].s| <= Learn(history).maxLength
    ensures exists i :: 0 <= i < |history| && history[i].Str? && |history[i].s| == Learn(history).maxLength
  {
    var n := |history| - 1;
    LearnTexts(history);
    assert TypeOfValue(history[n]) == TypeOfValue(history[0]);
    if n > 0 {
      var before := history[..n];
      assert before[0] == history[0] && SameType(before);
      LearnedBoundIsReached(before);
      var i :| 0 <= i < n && before[i].Str? && |before[i].s| == Learn(before).maxLength;
      assert history[i] == before[i];
      if |history[n].s| > |history[i].s| {
        assert |history[n].s| == Learn(history).maxLength;
      } else {
        assert |history[i].s| == Learn(history).maxLength;
      }
    } else {
      assert |history[0].s| == Learn(history).maxLength;
    }
  }

  lemma MergeAt(s: Schema, fields: seq<Field>, k: string)
    requires s.Object?
    ensures Merge(s, Infer(Obj(fields))).Object?
    ensures k in Merge(s, Infer(Obj(fields))).props <==> k in s.props || k in Keys(fields)
    ensures k in Merge(s, Infer(Obj(fields))).required <==> k in s.required && k in Keys(fields)
    ensures k in s.props && k !in Keys(fields) ==> Merge(s, Infer(Obj(fields))).props[k] == s.props[k]
    ensures k in Keys(fields) ==> Get(fields, k).Some?
    ensures k in Keys(fields) ==>
      Merge(s, Infer(Obj(fields))).props[k] == if k in s.props then Merge(s.props[k], Infer(Get(fields, k).value)) else Infer(Get(fields, k).value)
  {
    GetFindsKeys(fields, k);
  }

  /** Merging two text schemas gives the closest bounds that allow for both. */
  lemma MergedTextBounds(a: Schema, b: Schema)
    requires a.Text? && b.Text?
    ensures var m := Merge(a, b);
      && m.Text? && m.minLength in {a.minLength, b.minLength} && m.maxLength in {a.maxLength, b.maxLength}
      && forall v :: Accepts(a, v) || Accepts(b, v) ==> Accepts(m, v)
  {
  }

  /** Merging a schema without a type with one that has a type leaves no constraint, and two different types leave the pair of them. */
  lemma MergedTypes(a: Schema, b: Schema, v: Json)
    ensures a == Any && b != Any ==> Accepts(Merge(a, b), v) && Accepts(Merge(b, a), v)
    ensures a != Any && b != Any && TypeOf(a) != TypeOf(b) ==> Merge(a, b) == Conflict(TypeOf(a).value, TypeOf(b).value)
    ensures Merge(Any, Any) == Any && Accepts(Any, v)
  {
  }

  /** What a schema learned from object bodies says about one key. */
  ghost predicate Tracks(history: seq<Json>, s: Schema, k: string) {
    && s.Object? && AllObjects(history)
    && (k in s.props <==> Under(history, k) != [])
    && (k in s.props ==> s.props[k] == Learn(Under(history, k)))
    && (k in s.required <==> forall i :: 0 <= i < |history| ==> k in Keys(history[i].fields))
  }

  lemma FirstTracks(body: Json, k: string)
    requires body.Obj?
    ensures Tracks([body], Infer(body), k)
  {
    GetFindsKeys(body.fields, k);
    assert Under([body][..0], k) == [];
    assert k in Infer(body).required <==> k in Keys([body][0].fields);
    if k in Keys(body.fields) {
      assert Under([body], k) == [Get(body.fields, k).value];
    }
  }

  lemma UnderGrows(before: seq<Json>, body: Json, k: string)
    requires body.Obj?
    ensures Under(before + [body], k) == Under(before, k) + (if Get(body.fields, k).Some? then [Get(body.fields, k).value] else [])
  {
    assert (before + [body])[..|before|] == before;
  }

  lemma LearnGrows(before: seq<Json>, body: Json)
    requires before != []
    ensures Learn(before + [body]) == Merge(Learn(before), Infer(body))
  {
    assert (before + [body])[..|before|] == before;
  }

  lemma NextTracks(before: seq<Json>, s: Schema, body: Json, k: string)
    requires Tracks(before, s, k) && body.Obj?
    ensures Tracks(before + [body], Merge(s, Infer(body)), k)
  {
    hide Merge, Infer, Under, Learn, Keys, Get;
    var history := before + [body];
    GetFindsKeys(body.fields, k);
    UnderGrows(before, body, k);
    MergeAt(s, body.fields, k);
    assert forall i :: 0 <= i < |before| ==> history[i] == before[i];
    assert history[|before|] == body;
    if k in Keys(body.fields) {
      var v := Get(body.fields, k).value;
      if k in s.props {
        LearnGrows(Under(before, k), v);
      } else {
        OneLearned(v);
        assert Under(history, k) == [v];
      }
    } else {
      assert Under(history, k) == Under(before, k);
    }
  }

  lemma OneLearned(v: Json)
    ensures Learn([v]) == Infer(v)
  {
  }

  lemma {:induction false} LearnTracks(history: seq<Json>, k: string)
    requires history != [] && AllObjects(history)
    ensures Tracks(history, Learn(history), k)
  {
    hide Tracks, Merge, Infer;
    var n := |history| - 1;
    if n == 0 {
      FirstTracks(history[0], k);
      assert history == [history[0]];
    } else {
      LearnTracks(history[..n], k);
      NextTracks(history[..n], Learn(history[..n]), history[n], k);
      assert history == history[..n] + [history[n]];
    }
  }

  /**
   * The learned properties are the keys ever seen, each with the schema learned from the values under it;
   * the required keys are those of every body.
   */
  lemma LearnObjects(history: seq<Json>)
    requires history != [] && AllObjects(history)
    ensures Learn(history).Object?
    ensures forall k :: k in Learn(history).props <==> Under(history, k) != []
    ensures forall k :: k in Learn(history).props ==> Learn(history).props[k] == Learn(Under(history, k))
    ensures forall k :: k in Learn(history).required <==> forall i :: 0 <= i < |history| ==> k in Keys(history[i].fields)
  {
    hide Learn, Under;
    LearnTracks(history, "");
    forall k
      ensures k in Learn(history).props <==> Under(history, k) != []
      ensures k in Learn(history).props ==> Learn(history).props[k] == Learn(Under(history, k))
      ensures k in Learn(history).required <==> forall i :: 0 <= i < |history| ==> k in Keys(history[i].fields)
    {
      LearnTracks(history, k);
    }
  }

  // ---------------------------------------------------------------- conflicts

  lemma {:induction false} LearnKeepsType(history: seq<Json>)
    requires history != [] && SameType(history)
    ensures TypeOf(Learn(history)) == Some(Name(TypeOfValue(history[0])))
  {
    var n := |history| - 1;
    if n > 0 {
      LearnKeepsType(history[..n]);
      assert history[..n][0] == history[0];
      assert TypeOfValue(history[n]) == TypeOfValue(history[0]);
    }
  }

  /** The first body whose type differs from the ones before it. */
  lemma {:induction false} FirstConflict(history: seq<Json>) returns (j: nat)
    requires !SameType(history)
    ensures 0 < j < |history| && SameType(history[..j]) && TypeOfValue(history[j]) != TypeOfValue(history[0])
  {
    var n := |history| - 1;
    if SameType(history[..n]) {
      j := n;
      if n == 0 || TypeOfValue(history[n]) == TypeOfValue(history[0]) {
        forall i | 0 <= i < |history| ensures TypeOfValue(history[i]) == TypeOfValue(history[0]) {
          assert i < n ==> history[..n][i] == history[i] && history[..n][0] == history[0];
        }
        assert false;
      }
    } else {
      j := FirstConflict(history[..n]);
      assert history[..n][..j] == history[..j];
    }
  }

  lemma ConflictSchema(history: seq<Json>)
    requires |history| > 1 && SameType(history[..|history| - 1])
    requires TypeOfValue(history[|history| - 1]) != TypeOfValue(history[0])
    ensures Learn(history) == Conflict(Name(TypeOfValue(history[0])), Name(TypeOfValue(history[|history| - 1])))
  {
    LearnKeepsType(history[..|history| - 1]);
  }

  /** A conflict before the last observation leaves an invalid schema, which accepts no value at all. */
  lemma {:induction false} EarlyConflictIsFatal(history: seq<Json>, j: nat)
    requires 0 < j < |history| - 1 && SameType(history[..j]) && TypeOfValue(history[j]) != TypeOfValue(history[0])
    ensures Learn(history).Conflict? && Learn(history).first.Pair?
    ensures forall v :: !Accepts(Learn(history), v)
  {
    hide Accepts, SameType;
    var n := |history| - 1;
    var before := history[..n];
    assert before[..j] == history[..j] && before[0] == history[0] && before[j] == history[j];
    if j == n - 1 {
      ConflictSchema(before);
    } else {
      EarlyConflictIsFatal(before, j);
    }
    forall v ensures !Accepts(Learn(history), v) {
      PairsAcceptNothing(Learn(history), v);
    }
  }

  lemma PairsAcceptNothing(s: Schema, v: Json)
    requires s.Conflict? && s.first.Pair?
    ensures !Accepts(s, v)
  {
  }

  lemma HasOwnType(v: Json)
    ensures HasType(TypeOfValue(v), v)
  {
  }

  // ---------------------------------------------------------------- exactly when

  lemma {:induction false} UnderMember(history: seq<Json>, k: string, v: Json)
    ensures v in Under(history, k) <==> exists i :: 0 <= i < |history| && history[i].Obj? && Get(history[i].fields, k) == Some(v)
  {
    hide Get;
    if history != [] {
      var n := |history| - 1;
      UnderMember(history[..n], k, v);
      if i :| 0 <= i < n && history[..n][i].Obj? && Get(history[..n][i].fields, k) == Some(v) {
        assert Get(history[i].fields, k) == Some(v);
      }
      if i :| 0 <= i < n && history[i].Obj? && Get(history[i].fields, k) == Some(v) {
        assert Get(history[..n][i].fields, k) == Some(v);
      }
    }
  }

  lemma CoversImpliesSteady(history: seq<Json>)
    requires history != [] && Covers(history)
    ensures Steady(history)
  {
    hide Learn, Like;
    var n := |history| - 1;
    assert Accepts(Learn(history), history[0]);
    if SameType(history) {
      if history[0].Arr? {
        LearnScalars(history);
        forall i | 0 <= i <= n ensures Like(history[0], history[i]) {
          InferAcceptsLike(history[0], history[i]);
        }
      }
    } else {
      var j := FirstConflict(history);
      if j < n {
        EarlyConflictIsFatal(history, j);
        assert false;
      }
    }
  }

  lemma CoversUnder(history: seq<Json>, k: string)
    requires history != [] && AllObjects(history) && Covers(history) && Under(history, k) != []
    ensures Covers(Under(history, k))
  {
    hide Learn, Under;
    LearnObjects(history);
    forall j | 0 <= j < |Under(history, k)| ensures Accepts(Learn(Under(history, k)), Under(history, k)[j]) {
      var v := Under(history, k)[j];
      UnderMember(history, k, v);
      var i :| 0 <= i < |history| && history[i].Obj? && Get(history[i].fields, k) == Some(v);
      assert Accepts(Learn(history), history[i]);
    }
  }

  lemma {:induction false} CoversImpliesSteadyAt(history: seq<Json>, path: seq<string>)
    requires history != [] && Covers(history)
    ensures Steady(At(history, path))
    decreases |path|
  {
    hide Steady, Covers;
    if path == [] {
      CoversImpliesSteady(history);
    } else if AllObjects(history) {
      var under := Under(history, path[0]);
      if under == [] {
        EmptyBelow(path[1..]);
      } else {
        CoversUnder(history, path[0]);
        CoversImpliesSteadyAt(under, path[1..]);
      }
    } else {
      NothingSeenIsSteady();
    }
  }

  lemma NothingSeenIsSteady()
    ensures Steady([])
  {
  }

  lemma {:induction false} EmptyBelow(path: seq<string>)
    ensures At([], path) == [] && Steady([])
    decreases |path|
  {
    if path != [] {
      EmptyBelow(path[1..]);
      assert Under([], path[0]) == [];
    }
  }

  lemma SteadyBelow(history: seq<Json>, k: string)
    requires AllObjects(history) && SteadyEverywhere(history)
    ensures SteadyEverywhere(Under(history, k))
  {
    forall path ensures Steady(At(Under(history, k), path)) {
      assert ([k] + path)[1..] == path;
      assert Steady(At(history, [k] + path));
    }
  }

  lemma {:induction false} SteadyIsAccepted(history: seq<Json>, v: Json)
    requires v in history && SteadyEverywhere(history)
    ensures Accepts(Learn(history), v)
    decreases v
  {
    hide Learn, Like, Under, At;
    var n := |history| - 1;
    var i :| 0 <= i <= n && history[i] == v;
    AtTop(history);
    assert Steady(At(history, []));
    HasOwnType(v);
    if SameType(history) {
      assert TypeOfValue(history[0]) == TypeOfValue(v);
      match v {
        case Str(_) => LearnTexts(history);
        case Obj(_) => SteadyObject(history, v);
        case Arr(_) =>
          LearnScalars(history);
          InferAcceptsLike(history[0], v);
        case _ =>
          LearnScalars(history);
          SameScalar(history[0], v);
      }
    } else {
      ConflictSchema(history);
      assert i < n ==> history[..n][i] == v && history[..n][0] == history[0];
    }
  }

  lemma AtTop(history: seq<Json>)
    ensures At(history, []) == history
  {
  }

  lemma SameScalar(sample: Json, v: Json)
    requires TypeOfValue(sample) == TypeOfValue(v) && !v.Str? && !v.Arr? && !v.Obj?
    ensures Accepts(Infer(sample), v)
  {
  }

  lemma {:induction false} SteadyObject(history: seq<Json>, v: Json)
    requires v in history && v.Obj? && SameType(history) && SteadyEverywhere(history)
    ensures Accepts(Learn(history), v)
    decreases v, 0
  {
    hide Learn, Like, Under, At, Steady;
    var i :| 0 <= i < |history| && history[i] == v;
    assert forall j :: 0 <= j < |history| ==> TypeOfValue(history[j]) == TypeOfValue(history[i]);
    LearnObjects(history);
    forall k | k in Learn(history).props && Get(v.fields, k).Some?
      ensures Accepts(Learn(history).props[k], Get(v.fields, k).value)
    {
      var below := Get(v.fields, k).value;
      UnderMember(history, k, below);
      SteadyBelow(history, k);
      SteadyIsAccepted(Under(history, k), below);
    }
  }

  /**
   * The learned schema validates every observed body exactly when each path of keys saw one type throughout with
   * arrays like its first one, or saw a second type only in its last observation.
   */
  lemma HistoryIsCoveredExactlyWhen(history: seq<Json>)
    requires history != []
    ensures Covers(history) <==> SteadyEverywhere(history)
  {
    hide Steady, At, Learn;
    if Covers(history) {
      forall path ensures Steady(At(history, path)) { CoversImpliesSteadyAt(history, path); }
      assert SteadyEverywhere(history);
    }
    if SteadyEverywhere(history) {
      forall i | 0 <= i < |history| ensures Accepts(Learn(history), history[i]) { SteadyIsAccepted(history, history[i]); }
    }
  }

  // ---------------------------------------------------------------- array-free histories

  predicate ArrayFree(v: Json)
    decreases v
  {
    match v
    case Arr(_) => false
    case Obj(fields) => forall i :: 0 <= i < |fields| ==> ArrayFree(fields[i].val)
    case _ => true
  }

  lemma {:induction false} ArrayFreeBelow(history: seq<Json>, path: seq<string>)
    requires forall i :: 0 <= i < |history| ==> ArrayFree(history[i])
    ensures forall i :: 0 <= i < |At(history, path)| ==> ArrayFree(At(history, path)[i])
    decreases |path|
  {
    hide Under;
    if path != [] && AllObjects(history) {
      var under := Under(history, path[0]);
      forall j | 0 <= j < |under| ensures ArrayFree(under[j]) {
        UnderMember(history, path[0], under[j]);
        var i :| 0 <= i < |history| && history[i].Obj? && Get(history[i].fields, path[0]) == Some(under[j]);
        assert ArrayFree(history[i]);
        GetFindsKeys(history[i].fields, path[0]);
      }
      ArrayFreeBelow(under, path[1..]);
    }
  }

  /** Array-free bodies in which no path is seen with two types are all validated by what is learned from them. */
  lemma TypeStableHistoryIsCovered(history: seq<Json>)
    requires history != []
    requires forall i :: 0 <= i < |history| ==> ArrayFree(history[i])
    requires forall path :: SameType(At(history, path))
    ensures Covers(history)
  {
    hide At, Covers;
    forall path ensures Steady(At(history, path)) {
      ArrayFreeBelow(history, path);
      assert SameType(At(history, path));
    }
    HistoryIsCoveredExactlyWhen(history);
  }

  /** Validation is not kept by merging: two observations are covered, a third takes both away again. */
  lemma CoverageIsNotMonotone()
    ensures Covers([Int(1), Str("a")])
    ensures forall v :: !Accepts(Learn([Int(1), Str("a"), Int(1)]), v)
  {
    var two, three := [Int(1), Str("a")], [Int(1), Str("a"), Int(1)];
    assert two[..1] == [Int(1)] && three[..1] == [Int(1)];
    ConflictSchema(two);
    EarlyConflictIsFatal(three, 1);
  }
}
