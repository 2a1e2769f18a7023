/**
 * The orderings `TaskStorage::sort` applies. All three go through Rust's
 * `sort_by` / `sort_by_key`, which are stable: tasks whose keys compare
 * equal keep their relative order. `SortedBy` is the stable sort written as
 * insertion of each task, in input order, after every task whose key is not
 * greater; `UniqueStableSort` shows that any stable sort yields exactly
 * this sequence, whatever algorithm it uses.
 */
module Sorting {
  import opened Tasks

  /** Rust's `Ord` on `String`: lexicographic, a proper prefix first. */
  predicate LexLe(a: string, b: string)
    decreases |a|
  {
    a == [] || (b != [] && (a[0] < b[0] || (a[0] == b[0] && LexLe(a[1..], b[1..]))))
  }

  lemma {:induction false} LexLeTotal(a: string, b: string)
    ensures LexLe(a, b) || LexLe(b, a)
    decreases |a|
  {
    if a != [] && b != [] && a[0] == b[0] {
      LexLeTotal(a[1..], b[1..]);
    }
  }

  lemma {:induction false} LexLeTransitive(a: string, b: string, c: string)
    requires LexLe(a, b) && LexLe(b, c)
    ensures LexLe(a, c)
    decreases |a|
  {
    if a != [] && a[0] == b[0] && b[0] == c[0] {
      LexLeTransitive(a[1..], b[1..], c[1..]);
    }
  }

  lemma {:induction false} LexLeAntisymmetric(a: string, b: string)
    requires LexLe(a, b) && LexLe(b, a)
    ensures a == b
    decreases |a|
  {
    if a != [] {
      LexLeAntisymmetric(a[1..], b[1..]);
      assert a == [a[0]] + a[1..] && b == [b[0]] + b[1..];
    }
  }

  /** `a` may stand before `b` under `st`: the key of `a` is at most the key of `b`. */
  predicate KeyLe(st: SortType, a: Task, b: Task) {
    match st
    case Alphabetical => LexLe(a.name, b.name)
    case ClosestToDeadline => a.dueDate <= b.dueDate
    case FurthestFromDeadline => b.dueDate <= a.dueDate
  }

  lemma KeyLeTotal(st: SortType, a: Task, b: Task)
    ensures KeyLe(st, a, b) || KeyLe(st, b, a)
  {
    if st.Alphabetical? { LexLeTotal(a.name, b.name); }
  }

  lemma KeyLeTransitive(st: SortType, a: Task, b: Task, c: Task)
    requires KeyLe(st, a, b) && KeyLe(st, b, c)
    ensures KeyLe(st, a, c)
  {
    if st.Alphabetical? { LexLeTransitive(a.name, b.name, c.name); }
  }

  /** `a` and `b` have the same key under `st`: the same name, or the same due date. */
  predicate SameKey(st: SortType, a: Task, b: Task) {
    if st.Alphabetical? then a.name == b.name else a.dueDate == b.dueDate
  }

  lemma {:induction false} LexLeReflexive(a: string)
    ensures LexLe(a, a)
    decreases |a|
  {
    if a != [] { LexLeReflexive(a[1..]); }
  }

  /** Equal keys are exactly the keys that compare equal: each at most the other. */
  lemma SameKeyMeans(st: SortType, a: Task, b: Task)
    ensures SameKey(st, a, b) <==> KeyLe(st, a, b) && KeyLe(st, b, a)
  {
    if st.Alphabetical? {
      LexLeReflexive(a.name);
      if LexLe(a.name, b.name) && LexLe(b.name, a.name) { LexLeAntisymmetric(a.name, b.name); }
    }
  }

  ghost predicate Sorted(st: SortType, s: seq<Task>) {
    forall i, j :: 0 <= i < j < |s| ==> KeyLe(st, s[i], s[j])
  }

  /** The tasks of `s` whose key equals that of `k`, in their order in `s`. */
  function KeyClass(st: SortType, s: seq<Task>, k: Task): seq<Task> {
    if s == [] then []
    else KeyClass(st, s[..|s| - 1], k) + Own(st, s[|s| - 1], k)
  }

  /** Puts `x` into `r` right after the last task whose key is not greater than the key of `x`. */
  function Insert(st: SortType, r: seq<Task>, x: Task): seq<Task> {
    if r == [] then [x]
    else if KeyLe(st, r[|r| - 1], x) then r + [x]
    else Insert(st, r[..|r| - 1], x) + [r[|r| - 1]]
  }

  /** The stable sort of `s` by the key of `st`. */
  function SortedBy(st: SortType, s: seq<Task>): seq<Task> {
    if s == [] then [] else Insert(st, SortedBy(st, s[..|s| - 1]), s[|s| - 1])
  }

  lemma {:induction false} InsertPermutes(st: SortType, r: seq<Task>, x: Task)
    ensures multiset(Insert(st, r, x)) == multiset(r) + multiset{x}
    decreases |r|
  {
    if r != [] && !KeyLe(st, r[|r| - 1], x) {
      var init, last := r[..|r| - 1], r[|r| - 1];
      assert r == init + [last];
      InsertPermutes(st, init, x);
    }
  }

  lemma {:induction false} InsertSorted(st: SortType, r: seq<Task>, x: Task)
    requires Sorted(st, r)
    ensures Sorted(st, Insert(st, r, x))
    decreases |r|
  {
    if r == [] {
    } else if KeyLe(st, r[|r| - 1], x) {
      SortedSnoc(st, r, x);
    } else {
      var init, last := r[..|r| - 1], r[|r| - 1];
      var p := Insert(st, init, x);
      InsertSorted(st, init, x);
      InsertPermutes(st, init, x);
      var y := p[|p| - 1];
      assert y in multiset(init) + multiset{x};
      if y == x {
        KeyLeTotal(st, last, x);
      } else {
        var i :| 0 <= i < |init| && init[i] == y;
        assert r[i] == y;
      }
      SortedSnoc(st, p, last);
    }
  }

  /** A sorted sequence stays sorted when a task no smaller than its last is appended. */
  lemma SortedSnoc(st: SortType, r: seq<Task>, x: Task)
    requires Sorted(st, r) && (r == [] || KeyLe(st, r[|r| - 1], x))
    ensures Sorted(st, r + [x])
  {
    var s := r + [x];
    forall i, j | 0 <= i < j < |s| ensures KeyLe(st, s[i], s[j]) {
      if j == |r| && i < |r| - 1 { KeyLeTransitive(st, r[i], r[|r| - 1], x); }
    }
  }

  /** The part of the key class of `k` that the single task `x` contributes. */
  function Own(st: SortType, x: Task, k: Task): seq<Task> {
    if SameKey(st, x, k) then [x] else []
  }

  /** Inserting `x` adds it at the end of its own key class and leaves every other class as it was. */
  lemma {:induction false} InsertKeyClass(st: SortType, r: seq<Task>, x: Task, k: Task)
    ensures KeyClass(st, Insert(st, r, x), k) == KeyClass(st, r, k) + Own(st, x, k)
    decreases |r|, 1
  {
    if r == [] {
      assert [x][..0] == [];
    } else if KeyLe(st, r[|r| - 1], x) {
      KeyClassOfSnoc(st, r, x, k);
    } else {
      InsertKeyClassPast(st, r, x, k);
    }
  }

  /** The case where `x` goes before the last task of `r`. */
  lemma {:induction false} InsertKeyClassPast(st: SortType, r: seq<Task>, x: Task, k: Task)
    requires r != [] && !KeyLe(st, r[|r| - 1], x)
    ensures KeyClass(st, Insert(st, r, x), k) == KeyClass(st, r, k) + Own(st, x, k)
    decreases |r|, 0
  {
    var init, last := r[..|r| - 1], r[|r| - 1];
    var p, c := Insert(st, init, x), KeyClass(st, init, k);
    var ox, ol := Own(st, x, k), Own(st, last, k);
    assert Insert(st, r, x) == p + [last];
    assert KeyClass(st, r, k) == c + ol;
    InsertKeyClass(st, init, x, k);
    KeyClassOfSnoc(st, p, last, k);
    OwnDisjoint(st, x, last, k);
    SwapEmpty(c, ox, ol);
  }

  /** Two parts of which one is empty can be appended in either order. */
  lemma SwapEmpty(c: seq<Task>, a: seq<Task>, b: seq<Task>)
    requires a == [] || b == []
    ensures (c + a) + b == (c + b) + a
  {
    if a == [] {
      assert c + a == c;
    } else {
      assert c + b == c;
    }
  }

  lemma KeyClassOfSnoc(st: SortType, p: seq<Task>, last: Task, k: Task)
    ensures KeyClass(st, p + [last], k) == KeyClass(st, p, k) + Own(st, last, k)
  {
    assert (p + [last])[..|p|] == p;
  }

  /** A task that must stand after `x` does not share its class with `x`. */
  lemma OwnDisjoint(st: SortType, x: Task, last: Task, k: Task)
    requires !KeyLe(st, last, x)
    ensures Own(st, x, k) == [] || Own(st, last, k) == []
  {
    if SameKey(st, x, k) && SameKey(st, last, k) {
      SameKeyMeans(st, last, x);
      assert SameKey(st, last, x);
    }
  }

  /** `SortedBy` orders by the key of `st`. */
  lemma {:induction false} SortedBySorted(st: SortType, s: seq<Task>)
    ensures Sorted(st, SortedBy(st, s))
    decreases |s|
  {
    if s != [] {
      SortedBySorted(st, s[..|s| - 1]);
      InsertSorted(st, SortedBy(st, s[..|s| - 1]), s[|s| - 1]);
    }
  }

  /** `SortedBy` only reorders: it neither drops nor duplicates a task. */
  lemma {:induction false} SortedByPermutes(st: SortType, s: seq<Task>)
    ensures multiset(SortedBy(st, s)) == multiset(s)
    decreases |s|
  {
    if s != [] {
      var m := |s| - 1;
      var init, last := s[..m], s[m];
      assert s == init + [last];
      SortedByPermutes(st, init);
      InsertPermutes(st, SortedBy(st, init), last);
    }
  }

  /** `SortedBy` is stable: the tasks sharing any one key keep their relative order. */
  lemma {:induction false} SortedByStable(st: SortType, s: seq<Task>, k: Task)
    ensures KeyClass(st, SortedBy(st, s), k) == KeyClass(st, s, k)
    decreases |s|
  {
    if s != [] {
      var m := |s| - 1;
      SortedByStable(st, s[..m], k);
      InsertKeyClass(st, SortedBy(st, s[..m]), s[m], k);
    }
  }

  /** Every task in a key class has that key and is a task of the sequence. */
  lemma {:induction false} KeyClassMembers(st: SortType, s: seq<Task>, k: Task, x: Task)
    requires x in KeyClass(st, s, k)
    ensures SameKey(st, x, k) && exists i :: 0 <= i < |s| && s[i] == x
    decreases |s|
  {
    var init, last := s[..|s| - 1], s[|s| - 1];
    assert KeyClass(st, s, k) == KeyClass(st, init, k) + Own(st, last, k);
    if x in KeyClass(st, init, k) {
      KeyClassMembers(st, init, k, x);
      var i :| 0 <= i < |init| && init[i] == x;
      assert s[i] == x;
    } else {
      assert x == last && SameKey(st, x, k);
    }
  }

  /** Every task of a sorted sequence has a key at most that of its last task. */
  lemma SortedBelowLast(st: SortType, s: seq<Task>, i: nat)
    requires Sorted(st, s) && i < |s|
    ensures KeyLe(st, s[i], s[|s| - 1])
  {
    if i == |s| - 1 {
      SameKeyMeans(st, s[i], s[i]);
    }
  }

  /** `a` and `b` have the same key classes: for every key, the same tasks in the same order. */
  ghost predicate SameClasses(st: SortType, a: seq<Task>, b: seq<Task>) {
    forall k :: KeyClass(st, a, k) == KeyClass(st, b, k)
  }

  /** When two sorted sequences have the same key classes, the key of the last task of `b` is at most that of `a`'s. */
  lemma LastKeyBelow(st: SortType, a: seq<Task>, b: seq<Task>)
    requires Sorted(st, a) && a != [] && b != [] && SameClasses(st, a, b)
    ensures KeyLe(st, b[|b| - 1], a[|a| - 1])
  {
    var lb := b[|b| - 1];
    SameKeyMeans(st, lb, lb);
    assert KeyClass(st, b, lb) == KeyClass(st, b[..|b| - 1], lb) + [lb];
    assert lb in KeyClass(st, a, lb);
    KeyClassMembers(st, a, lb, lb);
    var i :| 0 <= i < |a| && a[i] == lb;
    SortedBelowLast(st, a, i);
  }

  /** Two sorted sequences with the same key classes end in the same task. */
  lemma LastsEqual(st: SortType, a: seq<Task>, b: seq<Task>)
    requires Sorted(st, a) && Sorted(st, b) && a != [] && b != [] && SameClasses(st, a, b)
    ensures a[|a| - 1] == b[|b| - 1]
  {
    var la, lb := a[|a| - 1], b[|b| - 1];
    LastKeyBelow(st, a, b);
    LastKeyBelow(st, b, a);
    SameKeyMeans(st, la, lb);
    SameKeyMeans(st, la, la);
    var ca, cb := KeyClass(st, a[..|a| - 1], la) + [la], KeyClass(st, b[..|b| - 1], la) + [lb];
    assert KeyClass(st, a, la) == ca && KeyClass(st, b, la) == cb;
    assert ca[|ca| - 1] == la && cb[|cb| - 1] == lb;
  }

  /**
   * Sorting and key classes together pin a sequence down: two sorted
   * sequences with the same tasks and the same key classes are equal.
   */
  lemma {:induction false} SortedClassesUnique(st: SortType, a: seq<Task>, b: seq<Task>)
    requires Sorted(st, a) && Sorted(st, b) && multiset(a) == multiset(b) && SameClasses(st, a, b)
    ensures a == b
    decreases |a|
  {
    assert |a| == |multiset(a)| == |multiset(b)| == |b|;
    if a != [] {
      var ia, ib, last := a[..|a| - 1], b[..|b| - 1], a[|a| - 1];
      LastsEqual(st, a, b);
      ClassesOfInits(st, a, b);
      MultisetOfInit(a);
      MultisetOfInit(b);
      SortedInit(st, a);
      SortedInit(st, b);
      SortedClassesUnique(st, ia, ib);
      EqualByInitAndLast(a, b);
    }
  }

  lemma EqualByInitAndLast(a: seq<Task>, b: seq<Task>)
    requires a != [] && b != [] && a[..|a| - 1] == b[..|b| - 1] && a[|a| - 1] == b[|b| - 1]
    ensures a == b
  {
    var init, last := a[..|a| - 1], a[|a| - 1];
    assert a == init + [last];
    assert b == init + [last];
  }

  /** Sequences with the same key classes and the same last task have the same key classes without it. */
  lemma ClassesOfInits(st: SortType, a: seq<Task>, b: seq<Task>)
    requires a != [] && b != [] && a[|a| - 1] == b[|b| - 1] && SameClasses(st, a, b)
    ensures SameClasses(st, a[..|a| - 1], b[..|b| - 1])
  {
    var ia, ib, last := a[..|a| - 1], b[..|b| - 1], a[|a| - 1];
    forall k ensures KeyClass(st, ia, k) == KeyClass(st, ib, k) {
      assert KeyClass(st, a, k) == KeyClass(st, ia, k) + Own(st, last, k);
      assert KeyClass(st, b, k) == KeyClass(st, ib, k) + Own(st, last, k);
      CancelTail(KeyClass(st, ia, k), KeyClass(st, ib, k), Own(st, last, k));
    }
  }

  lemma MultisetOfInit(a: seq<Task>)
    requires a != []
    ensures multiset(a[..|a| - 1]) == multiset(a) - multiset{a[|a| - 1]}
  {
    var init, last := a[..|a| - 1], a[|a| - 1];
    assert a == init + [last];
  }

  lemma SortedInit(st: SortType, a: seq<Task>)
    requires Sorted(st, a) && a != []
    ensures Sorted(st, a[..|a| - 1])
  {
  }

  lemma CancelTail(p: seq<Task>, q: seq<Task>, t: seq<Task>)
    requires p + t == q + t
    ensures p == q
  {
    assert p == (p + t)[..|p|];
    assert q == (q + t)[..|q|];
  }

  /**
   * `SortedBy` is the only stable sort: any reordering that is sorted by the
   * key and keeps every key class in input order is exactly `SortedBy`.
   */
  lemma UniqueStableSort(st: SortType, s: seq<Task>, r: seq<Task>)
    requires Sorted(st, r) && multiset(r) == multiset(s) && SameClasses(st, r, s)
    ensures r == SortedBy(st, s)
  {
    var sorted := SortedBy(st, s);
    SortedBySorted(st, s);
    SortedByPermutes(st, s);
    forall k ensures KeyClass(st, r, k) == KeyClass(st, sorted, k) {
      SortedByStable(st, s, k);
    }
    SortedClassesUnique(st, r, sorted);
  }

  /**
   * `sort_by` / `sort_by_key`: a stable sort of `ts` by the key of `st`, by
   * insertion of each task into the sorted prefix.
   */
  method SortTasks(st: SortType, ts: seq<Task>) returns (r: seq<Task>)
    ensures r == SortedBy(st, ts)
    ensures Sorted(st, r) && multiset(r) == multiset(ts)
    ensures forall k :: KeyClass(st, r, k) == KeyClass(st, ts, k)
  {
    r := [];
    for i := 0 to |ts|
      invariant r == SortedBy(st, ts[..i])
    {
      r := InsertTask(st, r, ts[i]);
      assert ts[..i + 1][..i] == ts[..i];
    }
    assert ts[..|ts|] == ts;
    SortedBySorted(st, ts);
    SortedByPermutes(st, ts);
    forall k ensures KeyClass(st, r, k) == KeyClass(st, ts, k) {
      SortedByStable(st, ts, k);
    }
  }

  /** One insertion step: scans back from the end of `r` past every task whose key is greater than that of `x`. */
  method InsertTask(st: SortType, r: seq<Task>, x: Task) returns (r': seq<Task>)
    ensures r' == Insert(st, r, x)
  {
    var j := |r|;
    assert r[..j] == r && r[j..] == [];
    while j > 0 && !KeyLe(st, r[j - 1], x)
      invariant 0 <= j <= |r|
      invariant Insert(st, r, x) == Insert(st, r[..j], x) + r[j..]
    {
      InsertPast(st, r, j, x);
      j := j - 1;
    }
    InsertHere(st, r, j, x);
    r' := r[..j] + [x] + r[j..];
  }

  /** `x` moves in front of the task at position `j - 1` when that task's key is greater. */
  lemma InsertPast(st: SortType, r: seq<Task>, j: nat, x: Task)
    requires 0 < j <= |r| && !KeyLe(st, r[j - 1], x)
    ensures Insert(st, r[..j], x) + r[j..] == Insert(st, r[..j - 1], x) + r[j - 1..]
  {
    var front, y, back := r[..j - 1], r[j - 1], r[j..];
    assert r[..j][..j - 1] == front;
    assert Insert(st, r[..j], x) == Insert(st, front, x) + [y];
    assert r[j - 1..] == [y] + back;
  }

  /** `x` stops at position `j` when it is the front or the task before it has a key no greater. */
  lemma InsertHere(st: SortType, r: seq<Task>, j: nat, x: Task)
    requires j <= |r| && (j == 0 || KeyLe(st, r[j - 1], x))
    ensures Insert(st, r[..j], x) == r[..j] + [x]
  {
  }
}
