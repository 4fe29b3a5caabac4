/** Python's stable sort by a key, and what it means to take the first match of a sorted list. */
module StableSort {
  import opened Common

  /** Sort keys are pairs, compared like Python tuples. */
  type Key = (int, int)

  predicate Before(a: Key, b: Key) {
    a.0 < b.0 || (a.0 == b.0 && a.1 < b.1)
  }

  predicate NotAfter(a: Key, b: Key) {
    a.0 < b.0 || (a.0 == b.0 && a.1 <= b.1)
  }

  /** `x` came before the elements of `s`, so it goes in front of those with an equal key. */
  function Insert<T>(key: T -> Key, x: T, s: seq<T>): seq<T> {
    if s == [] || NotAfter(key(x), key(s[0])) then [x] + s else [s[0]] + Insert(key, x, s[1..])
  }

  function Sort<T>(key: T -> Key, s: seq<T>): seq<T> {
    if s == [] then [] else Insert(key, s[0], Sort(key, s[1..]))
  }

  predicate Sorted<T>(key: T -> Key, s: seq<T>) {
    forall i, j | 0 <= i <= j < |s| :: NotAfter(key(s[i]), key(s[j]))
  }

  function Filter<T>(p: T -> bool, s: seq<T>): (r: seq<T>)
    ensures forall i :: 0 <= i < |r| ==> p(r[i])
  {
    if s == [] then [] else (if p(s[0]) then [s[0]] else []) + Filter(p, s[1..])
  }

  function FirstMatch<T>(p: T -> bool, s: seq<T>): Option<T> {
    if s == [] then None else if p(s[0]) then Some(s[0]) else FirstMatch(p, s[1..])
  }

  /** The i-th element matches, and no other match has a smaller key, or the same key and an earlier position. */
  predicate Best<T>(key: T -> Key, p: T -> bool, s: seq<T>, i: nat) {
    && i < |s| && p(s[i])
    && forall j | 0 <= j < |s| && p(s[j]) :: Before(key(s[i]), key(s[j])) || (key(s[i]) == key(s[j]) && i <= j)
  }

  // ---------------------------------------------------------------- sorting

  lemma {:induction false} InsertPermutes<T>(key: T -> Key, x: T, s: seq<T>)
    ensures multiset(Insert(key, x, s)) == multiset{x} + multiset(s)
  {
    if s != [] && !NotAfter(key(x), key(s[0])) {
      InsertPermutes(key, x, s[1..]);
      assert s == [s[0]] + s[1..];
    }
  }

  lemma {:induction false} SortPermutes<T>(key: T -> Key, s: seq<T>)
    ensures multiset(Sort(key, s)) == multiset(s)
  {
    if s != [] {
      SortPermutes(key, s[1..]);
      InsertPermutes(key, s[0], Sort(key, s[1..]));
      assert s == [s[0]] + s[1..];
    }
  }

  lemma {:induction false} InsertSorted<T>(key: T -> Key, x: T, s: seq<T>)
    requires Sorted(key, s)
    ensures Sorted(key, Insert(key, x, s))
  {
    if s != [] && !NotAfter(key(x), key(s[0])) {
      InsertSorted(key, x, s[1..]);
      InsertPermutes(key, x, s[1..]);
      var rest := Insert(key, x, s[1..]);
      forall j | 0 <= j < |rest| ensures NotAfter(key(s[0]), key(rest[j])) {
        assert rest[j] in multiset(rest);
        if rest[j] != x {
          assert rest[j] in multiset(s[1..]);
          assert rest[j] in s[1..];
        }
      }
    }
  }

  lemma {:induction false} SortSorted<T>(key: T -> Key, s: seq<T>)
    ensures Sorted(key, Sort(key, s))
  {
    if s != [] {
      SortSorted(key, s[1..]);
      InsertSorted(key, s[0], Sort(key, s[1..]));
    }
  }

  // ---------------------------------------------------------------- first match after sorting

  lemma {:induction false} InsertFirstMatch<T>(key: T -> Key, p: T -> bool, x: T, s: seq<T>)
    requires Sorted(key, s)
    ensures var m := FirstMatch(p, s);
            FirstMatch(p, Insert(key, x, s)) == if p(x) && (m.None? || NotAfter(key(x), key(m.value))) then Some(x) else m
  {
    FirstMatchIn(p, s);
    if s != [] && !NotAfter(key(x), key(s[0])) {
      InsertFirstMatch(key, p, x, s[1..]);
    }
  }

  lemma {:induction false} FirstMatchIn<T>(p: T -> bool, s: seq<T>)
    ensures FirstMatch(p, s).Some? ==> p(FirstMatch(p, s).value) && FirstMatch(p, s).value in s
    ensures FirstMatch(p, s).None? <==> forall i :: 0 <= i < |s| ==> !p(s[i])
  {
    if s != [] && !p(s[0]) {
      FirstMatchIn(p, s[1..]);
      assert forall i :: 0 < i < |s| ==> s[i] == s[1..][i - 1];
    }
  }

  /** Position of the best match, if there is one. */
  function BestAt<T>(key: T -> Key, p: T -> bool, s: seq<T>): Option<nat> {
    if s == [] then None
    else
      match BestAt(key, p, s[1..])
      case None => if p(s[0]) then Some(0) else None
      case Some(i) => if p(s[0]) && i + 1 < |s| && NotAfter(key(s[0]), key(s[i + 1])) then Some(0) else Some(i + 1)
  }

  lemma {:induction false} BestAtIsBest<T>(key: T -> Key, p: T -> bool, s: seq<T>)
    ensures BestAt(key, p, s).Some? ==> Best(key, p, s, BestAt(key, p, s).value)
    ensures BestAt(key, p, s).None? <==> forall i :: 0 <= i < |s| ==> !p(s[i])
  {
    if s != [] {
      BestAtIsBest(key, p, s[1..]);
      assert forall i :: 0 < i < |s| ==> s[i] == s[1..][i - 1];
    }
  }

  lemma BestIsUnique<T>(key: T -> Key, p: T -> bool, s: seq<T>, i: nat, j: nat)
    requires Best(key, p, s, i) && Best(key, p, s, j)
    ensures i == j
  {
  }

  /** The first match of the sorted list is the best match of the list. */
  lemma {:induction false} SortedFirstMatchIsBest<T>(key: T -> Key, p: T -> bool, s: seq<T>)
    ensures FirstMatch(p, Sort(key, s)).Some? == BestAt(key, p, s).Some?
    ensures forall i: nat :: Best(key, p, s, i) ==> FirstMatch(p, Sort(key, s)) == Some(s[i])
    ensures FirstMatch(p, Sort(key, s)).None? <==> forall i :: 0 <= i < |s| ==> !p(s[i])
  {
    BestAtIsBest(key, p, s);
    if s != [] {
      var tail := s[1..];
      SortedFirstMatchIsBest(key, p, tail);
      SortSorted(key, tail);
      InsertFirstMatch(key, p, s[0], Sort(key, tail));
      BestAtIsBest(key, p, tail);
      forall i: nat | Best(key, p, s, i) ensures FirstMatch(p, Sort(key, s)) == Some(s[i]) {
        BestIsUnique(key, p, s, i, BestAt(key, p, s).value);
      }
    }
  }

  // ---------------------------------------------------------------- distinct keys

  predicate DistinctKeys<T>(key: T -> Key, s: seq<T>) {
    forall i, j | 0 <= i < j < |s| :: key(s[i]) != key(s[j])
  }

  lemma SameElements<T>(a: seq<T>, b: seq<T>, x: T)
    requires multiset(a) == multiset(b) && x in a
    ensures x in b
  {
    assert x in multiset(a);
  }

  /** The heads have the least key of the same elements, and keys are distinct. */
  lemma HeadsAgree<T>(key: T -> Key, a: seq<T>, b: seq<T>)
    requires Sorted(key, a) && Sorted(key, b) && DistinctKeys(key, a) && multiset(a) == multiset(b) && a != [] && b != []
    ensures a[0] == b[0]
  {
    SameElements(a, b, a[0]);
    SameElements(b, a, b[0]);
    var i :| 0 <= i < |b| && b[i] == a[0];
    var j :| 0 <= j < |a| && a[j] == b[0];
    assert NotAfter(key(a[0]), key(a[j])) && NotAfter(key(b[0]), key(b[i]));
  }

  lemma TailElements<T>(s: seq<T>)
    requires s != []
    ensures multiset(s[1..]) == multiset(s) - multiset{s[0]}
  {
    assert s == [s[0]] + s[1..];
  }

  /** Two sorted lists of the same elements with distinct keys are the same list. */
  lemma {:induction false} SortedIsUnique<T>(key: T -> Key, a: seq<T>, b: seq<T>)
    requires Sorted(key, a) && Sorted(key, b) && DistinctKeys(key, a) && multiset(a) == multiset(b)
    ensures a == b
  {
    hide NotAfter;
    assert |multiset(a)| == |a| && |multiset(b)| == |b|;
    if a != [] {
      HeadsAgree(key, a, b);
      TailElements(a);
      TailElements(b);
      SortedIsUnique(key, a[1..], b[1..]);
      assert a == [a[0]] + a[1..] && b == [b[0]] + b[1..];
    }
  }
}
