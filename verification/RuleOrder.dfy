/** The order rules run in: active rules by (priority, name), ties in input order,
    as `sorted` leaves them. */
module RuleOrder {

  /** Python compares strings by code point, shorter first on a common prefix. */
  predicate StringLess(a: string, b: string) {
    if b == "" then false
    else if a == "" then true
    else if a[0] != b[0] then a[0] < b[0]
    else StringLess(a[1..], b[1..])
  }

  /** What the sort looks at. */
  datatype Key = Key(priority: int, name: string)

  predicate KeyLess(a: Key, b: Key) {
    a.priority < b.priority || (a.priority == b.priority && StringLess(a.name, b.name))
  }

  /** Rule `i` runs before rule `j`. */
  predicate Before(keys: seq<Key>, i: nat, j: nat)
  {
    && i < |keys| && j < |keys|
    && (KeyLess(keys[i], keys[j]) || (keys[i] == keys[j] && i < j))
  }

  lemma {:induction false} StringLessIrreflexive(a: string)
    ensures !StringLess(a, a)
  {
    if a != "" { StringLessIrreflexive(a[1..]); }
  }

  lemma {:induction false} StringLessTotal(a: string, b: string)
    ensures a == b || StringLess(a, b) || StringLess(b, a)
    ensures !StringLess(a, a)
    decreases |a| + |b|
  {
    StringLessIrreflexive(a);
    if a != "" {
      if b != "" && a[0] == b[0] {
        StringLessTotal(a[1..], b[1..]);
        if a[1..] == b[1..] { assert a == [a[0]] + a[1..] == b; }
      }
    }
  }

  lemma {:induction false} StringLessTransitive(a: string, b: string, c: string)
    requires StringLess(a, b) && StringLess(b, c)
    ensures StringLess(a, c)
  {
    if a != "" && a[0] == b[0] == c[0] { StringLessTransitive(a[1..], b[1..], c[1..]); }
  }

  lemma {:induction false} BeforeTotal(keys: seq<Key>, i: nat, j: nat)
    requires i < |keys| && j < |keys|
    ensures i == j || Before(keys, i, j) || Before(keys, j, i)
    ensures !Before(keys, i, i)
  {
    StringLessTotal(keys[i].name, keys[j].name);
    StringLessTotal(keys[i].name, keys[i].name);
  }

  lemma {:induction false} BeforeTransitive(keys: seq<Key>, i: nat, j: nat, k: nat)
    requires Before(keys, i, j) && Before(keys, j, k)
    ensures Before(keys, i, k)
  {
    if StringLess(keys[i].name, keys[j].name) && StringLess(keys[j].name, keys[k].name) {
      StringLessTransitive(keys[i].name, keys[j].name, keys[k].name);
    }
  }

  /** `order` lists exactly the chosen rules, each before all that follow it. */
  ghost predicate IsRunOrder(keys: seq<Key>, chosen: set<nat>, order: seq<nat>) {
    && (forall i: nat :: i in order <==> i in chosen)
    && (forall i: nat :: i in chosen ==> i < |keys|)
    && (forall a, b :: 0 <= a < b < |order| ==> Before(keys, order[a], order[b]))
  }

  function Insert(keys: seq<Key>, i: nat, order: seq<nat>): (r: seq<nat>)
    ensures forall j: nat :: j in r <==> j == i || j in order
  {
    if order == [] then [i]
    else if Before(keys, i, order[0]) then [i] + order
    else
      assert order == [order[0]] + order[1..];
      [order[0]] + Insert(keys, i, order[1..])
  }

  /** The chosen indices below `n`, sorted. */
  function SortChosen(keys: seq<Key>, active: seq<bool>, n: nat): (r: seq<nat>)
    requires n <= |keys| == |active|
    ensures forall j: nat :: j in r <==> j < n && active[j]
  {
    if n == 0 then []
    else if active[n - 1] then Insert(keys, n - 1, SortChosen(keys, active, n - 1))
    else SortChosen(keys, active, n - 1)
  }

  function ActiveBelow(active: seq<bool>, n: nat): set<nat>
    requires n <= |active|
  {
    set j: nat | 0 <= j < n && active[j]
  }

  lemma {:induction false} InsertKeepsOrder(keys: seq<Key>, i: nat, order: seq<nat>, chosen: set<nat>)
    requires i < |keys| && i !in chosen && IsRunOrder(keys, chosen, order)
    ensures IsRunOrder(keys, chosen + {i}, Insert(keys, i, order))
  {
    var r := Insert(keys, i, order);
    assert forall a :: 0 <= a < |order| ==> order[a] in order && order[a] < |keys|;
    if order == [] {
    } else if Before(keys, i, order[0]) {
      forall b | 0 < b < |r| ensures Before(keys, i, r[b]) {
        if b > 1 { BeforeTransitive(keys, i, order[0], order[b - 1]); }
      }
    } else {
      var rest := order[1..];
      assert order == [order[0]] + rest;
      forall b | 0 <= b < |rest| ensures rest[b] != order[0] {
        assert Before(keys, order[0], order[b + 1]);
        BeforeTotal(keys, order[0], order[0]);
      }
      DropFirst(keys, chosen, order);
      InsertKeepsOrder(keys, i, rest, chosen - {order[0]});
      BeforeTotal(keys, i, order[0]);
      forall b | 0 < b < |r| ensures Before(keys, r[0], r[b]) {
        assert r[b] in Insert(keys, i, rest);
        if r[b] != i {
          var c :| 0 <= c < |rest| && rest[c] == r[b];
          assert Before(keys, order[0], order[c + 1]);
        }
      }
      assert forall j: nat :: j in r <==> j in chosen + {i};
    }
  }

  lemma {:induction false} SortChosenIsRunOrder(keys: seq<Key>, active: seq<bool>, n: nat)
    requires n <= |keys| == |active|
    ensures IsRunOrder(keys, ActiveBelow(active, n), SortChosen(keys, active, n))
  {
    if n > 0 {
      SortChosenIsRunOrder(keys, active, n - 1);
      var before := ActiveBelow(active, n - 1);
      if active[n - 1] {
        InsertKeepsOrder(keys, n - 1, SortChosen(keys, active, n - 1), before);
        assert before + {n - 1} == ActiveBelow(active, n);
      } else {
        assert before == ActiveBelow(active, n);
      }
    }
  }

  /** There is only one run order. */
  lemma {:induction false} RunOrderUnique(keys: seq<Key>, chosen: set<nat>, a: seq<nat>, b: seq<nat>)
    requires IsRunOrder(keys, chosen, a) && IsRunOrder(keys, chosen, b)
    ensures a == b
  {
    assert b != [] ==> b[0] in chosen;
    if a != [] {
      assert a[0] in chosen && a[0] in b;
      assert b[0] in chosen && b[0] in a;
      var i :| 0 <= i < |b| && b[i] == a[0];
      var j :| 0 <= j < |a| && a[j] == b[0];
      if a[0] != b[0] {
        assert Before(keys, b[0], b[i]) && Before(keys, a[0], a[j]);
        BeforeTransitive(keys, a[0], b[0], a[0]);
        BeforeTotal(keys, a[0], a[0]);
      }
      DropFirst(keys, chosen, a);
      DropFirst(keys, chosen, b);
      RunOrderUnique(keys, chosen - {a[0]}, a[1..], b[1..]);
      assert a == [a[0]] + a[1..] && b == [b[0]] + b[1..];
    }
  }

  lemma {:induction false} DropFirst(keys: seq<Key>, chosen: set<nat>, order: seq<nat>)
    requires IsRunOrder(keys, chosen, order) && order != []
    ensures IsRunOrder(keys, chosen - {order[0]}, order[1..])
  {
    var rest := order[1..];
    assert order == [order[0]] + rest && order[0] in order;
    forall b | 0 <= b < |rest| ensures rest[b] != order[0] {
      assert Before(keys, order[0], order[b + 1]);
      BeforeTotal(keys, order[0], order[0]);
    }
  }
}
