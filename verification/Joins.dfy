/** One question asked with two plans: each customer with their orders, as a
    nested loop over two databases (samples/env1.c) and through a third database
    that maps a customer to order numbers (samples/env2.c). */
module Joins {
  import opened Seqs

  /** Keys are unsigned 32-bit numbers. */
  type Id = n: int | 0 <= n < 0x1_0000_0000

  datatype Customer = Customer(id: Id, name: string)
  datatype Order = Order(id: Id, customerId: Id, assignee: string)

  datatype Line = Line(order: int, assignee: string)
  datatype Row = Row(customer: Customer, lines: seq<Line>)

  // ---- a database walked in key order ----

  function Insert<T>(key: T -> int, s: seq<T>, x: T): seq<T> {
    if s == [] || key(s[|s|-1]) < key(x) then s + [x]
    else Insert(key, s[..|s|-1], x) + [s[|s|-1]]
  }

  /** The walk over a database into which s was inserted. */
  function Walk<T>(key: T -> int, s: seq<T>): seq<T> {
    if s == [] then [] else Insert(key, Walk(key, s[..|s|-1]), s[|s|-1])
  }

  predicate Ascending<T>(key: T -> int, s: seq<T>) { forall i, j :: 0 <= i < j < |s| ==> key(s[i]) < key(s[j]) }

  predicate DistinctIds<T>(key: T -> int, s: seq<T>) { forall i, j :: 0 <= i < j < |s| ==> key(s[i]) != key(s[j]) }

  lemma {:induction false} InsertMembers<T(!new)>(key: T -> int, s: seq<T>, x: T)
    ensures multiset(Insert(key, s, x)) == multiset(s) + multiset{x}
    ensures forall y :: y in Insert(key, s, x) <==> y in s || y == x
  {
    if s != [] && key(s[|s|-1]) >= key(x) {
      InsertMembers(key, s[..|s|-1], x);
      assert s == s[..|s|-1] + [s[|s|-1]];
    }
  }

  lemma {:induction false} InsertAscending<T(!new)>(key: T -> int, s: seq<T>, x: T)
    requires Ascending(key, s) && forall i :: 0 <= i < |s| ==> key(s[i]) != key(x)
    ensures Ascending(key, Insert(key, s, x))
  {
    if s != [] && key(s[|s|-1]) >= key(x) {
      var q, l := s[..|s|-1], s[|s|-1];
      InsertAscending(key, q, x);
      InsertMembers(key, q, x);
      var r := Insert(key, q, x);
      forall i | 0 <= i < |r| ensures key(r[i]) < key(l) {
        assert r[i] in r;
      }
    }
  }

  lemma {:induction false} WalkSorts<T(!new)>(key: T -> int, s: seq<T>)
    requires DistinctIds(key, s)
    ensures Ascending(key, Walk(key, s)) && multiset(Walk(key, s)) == multiset(s)
    ensures forall y :: y in Walk(key, s) <==> y in s
  {
    if s != [] {
      var q, x := s[..|s|-1], s[|s|-1];
      WalkSorts(key, q);
      var r := Walk(key, q);
      forall i | 0 <= i < |r| ensures key(r[i]) != key(x) {
        assert r[i] in q;
      }
      InsertAscending(key, r, x);
      InsertMembers(key, r, x);
      assert s == q + [x];
    }
  }

  lemma {:induction false} WalkOfAscending<T(!new)>(key: T -> int, s: seq<T>)
    requires Ascending(key, s)
    ensures Walk(key, s) == s
  {
    if s != [] {
      var q, x := s[..|s|-1], s[|s|-1];
      WalkOfAscending(key, q);
      assert q == [] || key(q[|q|-1]) < key(x);
      assert s == q + [x];
    }
  }

  // ---- filtering a walk ----

  lemma {:induction false} FilterOfInsert<T(!new)>(key: T -> int, p: T -> bool, s: seq<T>, x: T)
    requires Ascending(key, s)
    ensures Filter(p, Insert(key, s, x)) == if p(x) then Insert(key, Filter(p, s), x) else Filter(p, s)
  {
    if s == [] || key(s[|s|-1]) < key(x) {
      assert (s + [x])[..|s|] == s;
      FilterMembers(p, s);
      var f := Filter(p, s);
      if p(x) && f != [] {
        assert f[|f|-1] in f;
      }
    } else {
      var q, l := s[..|s|-1], s[|s|-1];
      FilterOfInsert(key, p, q, x);
      var r := Insert(key, q, x);
      assert (r + [l])[..|r|] == r;
      if p(l) && p(x) {
        assert (Filter(p, q) + [l])[..|Filter(p, q)|] == Filter(p, q);
      }
    }
  }

  lemma {:induction false} FilterOfWalk<T(!new)>(key: T -> int, p: T -> bool, s: seq<T>)
    requires DistinctIds(key, s)
    ensures Filter(p, Walk(key, s)) == Walk(key, Filter(p, s))
  {
    if s != [] {
      var q, x := s[..|s|-1], s[|s|-1];
      FilterOfWalk(key, p, q);
      WalkSorts(key, q);
      FilterOfInsert(key, p, Walk(key, q), x);
      if p(x) {
        assert (Filter(p, q) + [x])[..|Filter(p, q)|] == Filter(p, q);
      }
    }
  }

  // ---- the two plans ----

  function OrderId(): Order -> int { (o: Order) => o.id }

  function CustomerId(): Customer -> int { (c: Customer) => c.id }

  function Of(id: int): Order -> bool { (o: Order) => o.customerId == id }

  function Lines(os: seq<Order>): (r: seq<Line>)
    ensures |r| == |os| && forall i :: 0 <= i < |os| ==> r[i] == Line(os[i].id, os[i].assignee)
  {
    seq(|os|, i requires 0 <= i < |os| => Line(os[i].id, os[i].assignee))
  }

  /** The rows of a join, given the order in which orders are found. */
  function Rows(cs: seq<Customer>, os: seq<Order>): (r: seq<Row>)
    ensures |r| == |cs| && forall i :: 0 <= i < |cs| ==> r[i] == Row(cs[i], Lines(Filter(Of(cs[i].id), os)))
  {
    seq(|cs|, i requires 0 <= i < |cs| => Row(cs[i], Lines(Filter(Of(cs[i].id), os))))
  }

  /** samples/env1.c: for each customer all orders are read. */
  method NestedLoop(customers: seq<Customer>, orders: seq<Order>) returns (rows: seq<Row>)
    requires DistinctIds(CustomerId(), customers) && DistinctIds(OrderId(), orders)
    ensures rows == Rows(Walk(CustomerId(), customers), Walk(OrderId(), orders))
  {
    var cs, os := Walk(CustomerId(), customers), Walk(OrderId(), orders);
    rows := [];
    for i := 0 to |cs|
      invariant rows == Rows(cs, os)[..i]
    {
      var lines := OrdersOf(cs[i].id, os);
      rows := rows + [Row(cs[i], lines)];
    }
  }

  /** The inner loop. */
  method OrdersOf(id: int, os: seq<Order>) returns (lines: seq<Line>)
    ensures lines == Lines(Filter(Of(id), os))
  {
    lines := [];
    for j := 0 to |os|
      invariant lines == Lines(Filter(Of(id), os[..j]))
    {
      assert os[..j + 1][..j] == os[..j];
      if os[j].customerId == id {
        lines := lines + [Line(os[j].id, os[j].assignee)];
      }
    }
    assert os[..|os|] == os;
  }

  /** The order numbers of a customer, in the order of insertion. */
  function Ids(os: seq<Order>): (r: seq<int>)
    ensures |r| == |os| && forall i :: 0 <= i < |os| ==> r[i] == os[i].id
  {
    seq(|os|, i requires 0 <= i < |os| => os[i].id)
  }

  /** The second and the third database of samples/env2.c. */
  ghost predicate Indexed(os: seq<Order>, assignees: map<int, string>, c2o: map<int, seq<int>>) {
    Assigned(os, assignees) && forall c: int :: Listed(os, c2o, c)
  }

  ghost predicate Assigned(os: seq<Order>, assignees: map<int, string>) {
    forall i :: 0 <= i < |os| ==> os[i].id in assignees && assignees[os[i].id] == os[i].assignee
  }

  ghost predicate Listed(os: seq<Order>, c2o: map<int, seq<int>>, c: int) {
    (c in c2o <==> Filter(Of(c), os) != []) && (c in c2o ==> c2o[c] == Ids(Filter(Of(c), os)))
  }

  lemma OneMore(os: seq<Order>, j: nat, c: int)
    requires j < |os|
    ensures Filter(Of(c), os[..j + 1]) == Filter(Of(c), os[..j]) + if os[j].customerId == c then [os[j]] else []
  {
    assert os[..j + 1][..j] == os[..j];
  }

  lemma ListedStep(os: seq<Order>, j: nat, c2o: map<int, seq<int>>, c: int)
    requires j < |os| && Listed(os[..j], c2o, c) && Listed(os[..j], c2o, os[j].customerId)
    ensures var o := os[j]; var was := if o.customerId in c2o then c2o[o.customerId] else [];
            Listed(os[..j + 1], c2o[o.customerId := was + [o.id]], c)
  {
    OneMore(os, j, c);
  }

  lemma IndexStep(os: seq<Order>, j: nat, assignees: map<int, string>, c2o: map<int, seq<int>>)
    requires j < |os| && DistinctIds(OrderId(), os) && Indexed(os[..j], assignees, c2o)
    ensures var o := os[j]; var was := if o.customerId in c2o then c2o[o.customerId] else [];
            Indexed(os[..j + 1], assignees[o.id := o.assignee], c2o[o.customerId := was + [o.id]])
  {
    var o := os[j];
    var was := if o.customerId in c2o then c2o[o.customerId] else [];
    forall i | 0 <= i < j ensures os[i].id != o.id {
      assert OrderId()(os[i]) != OrderId()(os[j]);
    }
    var more, now := os[..j + 1], c2o[o.customerId := was + [o.id]];
    forall c: int ensures Listed(more, now, c) {
      ListedStep(os, j, c2o, c);
    }
  }

  method BuildIndex(orders: seq<Order>) returns (assignees: map<int, string>, c2o: map<int, seq<int>>)
    requires DistinctIds(OrderId(), orders)
    ensures Indexed(orders, assignees, c2o)
  {
    assignees, c2o := map[], map[];
    for j := 0 to |orders|
      invariant Indexed(orders[..j], assignees, c2o)
    {
      var o := orders[j];
      IndexStep(orders, j, assignees, c2o);
      assignees := assignees[o.id := o.assignee];
      c2o := c2o[o.customerId := (if o.customerId in c2o then c2o[o.customerId] else []) + [o.id]];
    }
    assert orders[..|orders|] == orders;
  }

  /** samples/env2.c: the orders of a customer are found through the index. Every
      order number in the index leads to an order. */
  method IndexJoin(customers: seq<Customer>, orders: seq<Order>) returns (rows: seq<Row>)
    requires DistinctIds(CustomerId(), customers) && DistinctIds(OrderId(), orders)
    ensures rows == Rows(Walk(CustomerId(), customers), orders)
  {
    var cs := Walk(CustomerId(), customers);
    var assignees, c2o := BuildIndex(orders);
    rows := [];
    for i := 0 to |cs|
      invariant rows == Rows(cs, orders)[..i]
    {
      var lines := LookUp(cs[i].id, orders, assignees, c2o);
      rows := rows + [Row(cs[i], lines)];
    }
  }

  method LookUp(id: int, ghost os: seq<Order>, assignees: map<int, string>, c2o: map<int, seq<int>>)
    returns (lines: seq<Line>)
    requires Indexed(os, assignees, c2o)
    ensures lines == Lines(Filter(Of(id), os))
  {
    lines := [];
    assert Listed(os, c2o, id);
    if id !in c2o {
      return;
    }
    ghost var f := Filter(Of(id), os);
    FilterMembers(Of(id), os);
    for k := 0 to |c2o[id]|
      invariant lines == Lines(f)[..k]
    {
      assert f[k] in f;
      var order := c2o[id][k];
      lines := lines + [Line(order, assignees[order])];
    }
  }

  // ---- the plans compared ----

  /** Both plans report the same orders for each customer, and in the same order
      if and only if the customer's orders were inserted in ascending order of
      their numbers. */
  lemma PlansAgree(c: Customer, orders: seq<Order>)
    requires DistinctIds(OrderId(), orders)
    ensures var a, b := Lines(Filter(Of(c.id), Walk(OrderId(), orders))), Lines(Filter(Of(c.id), orders));
            && multiset(a) == multiset(b)
            && (a == b <==> Ascending(OrderId(), Filter(Of(c.id), orders)))
  {
    var f := Filter(Of(c.id), orders);
    FilterOfWalk(OrderId(), Of(c.id), orders);
    FilterDistinct(OrderId(), Of(c.id), orders);
    WalkSorts(OrderId(), f);
    var w := Walk(OrderId(), f);
    LinesOfWalk(f);
    if Ascending(OrderId(), f) {
      WalkOfAscending(OrderId(), f);
    }
    if Lines(w) == Lines(f) {
      SameLines(w, f);
    }
  }

  lemma {:induction false} FilterDistinct<T(!new)>(key: T -> int, p: T -> bool, s: seq<T>)
    requires DistinctIds(key, s)
    ensures DistinctIds(key, Filter(p, s))
  {
    if s != [] {
      var q, x := s[..|s|-1], s[|s|-1];
      FilterDistinct(key, p, q);
      FilterMembers(p, q);
      var f := Filter(p, q);
      forall i | 0 <= i < |f| ensures key(f[i]) != key(x) {
        assert f[i] in f;
      }
    }
  }

  lemma LinesAppend(s: seq<Order>, x: Order)
    ensures Lines(s + [x]) == Lines(s) + [Line(x.id, x.assignee)]
  {
  }

  lemma {:induction false} LinesOfInsert(s: seq<Order>, x: Order)
    ensures multiset(Lines(Insert(OrderId(), s, x))) == multiset(Lines(s)) + multiset{Line(x.id, x.assignee)}
  {
    if s == [] || s[|s|-1].id < x.id {
      LinesAppend(s, x);
    } else {
      var q, l := s[..|s|-1], s[|s|-1];
      LinesOfInsert(q, x);
      LinesAppend(Insert(OrderId(), q, x), l);
      LinesAppend(q, l);
      assert s == q + [l];
    }
  }

  lemma {:induction false} LinesOfWalk(s: seq<Order>)
    ensures multiset(Lines(Walk(OrderId(), s))) == multiset(Lines(s))
  {
    if s != [] {
      var q, x := s[..|s|-1], s[|s|-1];
      LinesOfWalk(q);
      LinesOfInsert(Walk(OrderId(), q), x);
      LinesAppend(q, x);
      assert s == q + [x];
    }
  }

  lemma SameLines(w: seq<Order>, f: seq<Order>)
    requires Ascending(OrderId(), w) && Lines(w) == Lines(f)
    ensures Ascending(OrderId(), f)
  {
  }
}
