/**
 What a zmq::Poller keeps, apart from how it stores it: poll items under stable handles. The items are in the order in
 which zmq_poll sees them; removing one moves the last into its place.
 */
module PollTable {
  import opened Options

  /** zmq_pollitem_t; either a socket or a file descriptor is polled. */
  datatype Item = Item(fd: int, socket: Option<nat>, events: int, revents: int)

  datatype Entry = Entry(handle: nat, item: Item)

  type Table = seq<Entry>

  predicate Distinct(t: Table)
  {
    forall p, q | 0 <= p < q < |t| :: t[p].handle != t[q].handle
  }

  predicate Handled(t: Table, h: nat)
  {
    exists p | 0 <= p < |t| :: t[p].handle == h
  }

  function Handles(t: Table): set<nat>
  {
    set p | 0 <= p < |t| :: t[p].handle
  }

  /** The position of handle h, or -1. */
  function Position(t: Table, h: nat): (r: int)
    ensures -1 <= r < |t|
    ensures r >= 0 ==> t[r].handle == h
    ensures r == -1 <==> !Handled(t, h)
  {
    if t == [] then -1 else
      var n := |t| - 1;
      if t[n].handle == h then n
      else
        var r := Position(t[..n], h);
        assert t[..n] == t[..n] && forall p | 0 <= p < n :: t[..n][p] == t[p];
        r
  }

  /** The smallest handle from h on that is free. */
  function LowestFree(t: Table, h: nat): (r: nat)
    ensures r >= h && !Handled(t, r)
    ensures forall i | h <= i < r :: Handled(t, i)
    decreases |Handles(t) - Below(h)|
  {
    if Handled(t, h) then
      FewerAbove(Handles(t), h);
      LowestFree(t, h + 1)
    else h
  }

  function Below(n: nat): (r: set<nat>)
    ensures forall h :: h in r <==> 0 <= h < n
  {
    if n == 0 then {} else Below(n - 1) + {n - 1}
  }

  lemma FewerAbove(s: set<nat>, h: nat)
    requires h in s
    ensures |s - Below(h + 1)| < |s - Below(h)|
  {
    assert s - Below(h + 1) == s - Below(h) - {h};
  }

  /** Swap-removal. */
  function Removed(t: Table, p: nat): (r: Table)
    requires p < |t|
    ensures |r| == |t| - 1
  {
    var last := |t| - 1;
    if p == last then t[..last] else t[..last][p := t[last]]
  }

  // ----- As a finite map -----

  /** What the handles stand for. */
  function View(t: Table): map<nat, Item>
  {
    map h | h in Handles(t) :: t[Position(t, h)].item
  }

  lemma ViewAt(t: Table, p: nat)
    requires Distinct(t) && p < |t|
    ensures t[p].handle in View(t) && View(t)[t[p].handle] == t[p].item && Position(t, t[p].handle) == p
  {
    var q := Position(t, t[p].handle);
    assert Handled(t, t[p].handle);
    assert q == p || q < p || p < q;
  }

  /** A map is the view if it has the right items and no others. */
  lemma ViewIs(t: Table, m: map<nat, Item>)
    requires Distinct(t)
    requires forall p | 0 <= p < |t| :: t[p].handle in m && m[t[p].handle] == t[p].item
    requires forall h | h in m :: Handled(t, h)
    ensures View(t) == m
  {
    forall h | h in View(t)
      ensures h in m && m[h] == View(t)[h]
    {
    }
    assert forall h | h in m :: h in View(t);
  }

  /** Adding binds a handle that was free and leaves the others alone. */
  lemma AddView(t: Table, h: nat, x: Item)
    requires Distinct(t) && !Handled(t, h)
    ensures Distinct(t + [Entry(h, x)]) && View(t + [Entry(h, x)]) == View(t)[h := x]
  {
    var after := t + [Entry(h, x)];
    forall p | 0 <= p < |after|
      ensures after[p].handle in View(t)[h := x] && View(t)[h := x][after[p].handle] == after[p].item
    {
      if p < |t| {
        ViewAt(t, p);
        assert Handled(t, t[p].handle);
      }
    }
    forall i | i in View(t)[h := x]
      ensures Handled(after, i)
    {
      if i == h {
        assert after[|t|].handle == h;
      } else {
        assert after[Position(t, i)].handle == i;
      }
    }
    ViewIs(after, View(t)[h := x]);
  }

  /** Removing unbinds one handle and leaves the others alone, although an item moves. */
  lemma RemoveView(t: Table, p: nat)
    requires Distinct(t) && p < |t|
    ensures Distinct(Removed(t, p)) && View(Removed(t, p)) == View(t) - {t[p].handle}
  {
    var after, m := Removed(t, p), View(t) - {t[p].handle};
    RemoveMoves(t, p);
    forall q | 0 <= q < |after|
      ensures after[q].handle in m && m[after[q].handle] == after[q].item
    {
      ViewAt(t, OldPosition(t, p, q));
    }
    forall h | h in m
      ensures Handled(after, h)
    {
      var q := Position(t, h);
      assert after[if q == |t| - 1 then p else q].handle == h;
    }
    ViewIs(after, m);
  }

  /** Where the entry at q was before the one at p was removed. */
  function OldPosition(t: Table, p: nat, q: nat): nat
    requires t != []
  {
    if q == p then |t| - 1 else q
  }

  lemma RemoveMoves(t: Table, p: nat)
    requires Distinct(t) && p < |t|
    ensures Distinct(Removed(t, p))
    ensures forall q | 0 <= q < |t| - 1 ::
      Removed(t, p)[q] == t[OldPosition(t, p, q)] && OldPosition(t, p, q) < |t| && t[OldPosition(t, p, q)].handle != t[p].handle
  {
  }

  /** Changing an item in place changes what its handle stands for and nothing else. */
  lemma UpdateView(t: Table, p: nat, x: Item)
    requires Distinct(t) && p < |t|
    ensures var after := t[p := Entry(t[p].handle, x)];
      Distinct(after) && View(after) == View(t)[t[p].handle := x]
  {
    var after, m := t[p := Entry(t[p].handle, x)], View(t)[t[p].handle := x];
    forall q | 0 <= q < |after|
      ensures after[q].handle in m && m[after[q].handle] == after[q].item
    {
      ViewAt(t, q);
    }
    forall h | h in m
      ensures Handled(after, h)
    {
      if h == t[p].handle {
        assert after[p].handle == h;
      } else {
        assert after[Position(t, h)].handle == h;
      }
    }
    ViewIs(after, m);
  }

  // ----- Whole runs -----

  /**
   The calls that change the table. A removal or change of a handle that is not live does nothing. A poll finds events
   for handles.
   */
  datatype Call = Add(item: Item) | Remove(handle: nat) | Modify(handle: nat, item: Item) | Poll(found: map<nat, int>)

  function Found(found: map<nat, int>, h: nat): int
  {
    if h in found then found[h] else 0
  }

  /** The table with the events found. */
  function WithEvents(t: Table, found: map<nat, int>): (r: Table)
    ensures |r| == |t|
  {
    seq(|t|, p requires 0 <= p < |t| => Entry(t[p].handle, t[p].item.(revents := Found(found, t[p].handle))))
  }

  function Step(t: Table, c: Call): Table
  {
    match c
    case Add(x) => t + [Entry(LowestFree(t, 0), x)]
    case Remove(h) => if Position(t, h) >= 0 then Removed(t, Position(t, h)) else t
    case Modify(h, x) => if Position(t, h) >= 0 then t[Position(t, h) := Entry(h, x)] else t
    case Poll(found) => WithEvents(t, found)
  }

  function Run(cs: seq<Call>): Table
  {
    if cs == [] then [] else Step(Run(cs[..|cs| - 1]), cs[|cs| - 1])
  }

  /** The smallest number from h on that is no key. */
  function SmallestFree(m: map<nat, Item>, h: nat): (r: nat)
    ensures r >= h && r !in m && forall i | h <= i < r :: i in m
    decreases |m.Keys - Below(h)|
  {
    if h in m then
      FewerAbove(m.Keys, h);
      SmallestFree(m, h + 1)
    else h
  }

  /** The same calls on a finite map. */
  function MapWithEvents(m: map<nat, Item>, found: map<nat, int>): map<nat, Item>
  {
    map h | h in m :: m[h].(revents := Found(found, h))
  }

  function MapStep(m: map<nat, Item>, c: Call): map<nat, Item>
  {
    match c
    case Add(x) => m[SmallestFree(m, 0) := x]
    case Remove(h) => m - {h}
    case Modify(h, x) => if h in m then m[h := x] else m
    case Poll(found) => MapWithEvents(m, found)
  }

  function MapRun(cs: seq<Call>): map<nat, Item>
  {
    if cs == [] then map[] else MapStep(MapRun(cs[..|cs| - 1]), cs[|cs| - 1])
  }

  /** Every run of the poller is a run of a finite map. */
  lemma {:induction false} RunRefinesMap(cs: seq<Call>)
    ensures Distinct(Run(cs)) && View(Run(cs)) == MapRun(cs)
  {
    if cs != [] {
      RunRefinesMap(cs[..|cs| - 1]);
      StepRefinesMap(Run(cs[..|cs| - 1]), cs[|cs| - 1]);
    } else {
      ViewIs([], map[]);
    }
  }

  lemma StepRefinesMap(t: Table, c: Call)
    requires Distinct(t)
    ensures Distinct(Step(t, c)) && View(Step(t, c)) == MapStep(View(t), c)
  {
    ViewHandles(t);
    match c
    case Add(x) => {
      var h, g := LowestFree(t, 0), SmallestFree(View(t), 0);
      assert h == g by {
        assert !(h < g) && !(g < h);
      }
      AddView(t, h, x);
    }
    case Remove(h) =>
      if Position(t, h) >= 0 {
        RemoveView(t, Position(t, h));
      }
    case Modify(h, x) =>
      if Position(t, h) >= 0 {
        UpdateView(t, Position(t, h), x);
      }
    case Poll(found) => PollView(t, found);
  }

  lemma PollView(t: Table, found: map<nat, int>)
    requires Distinct(t)
    ensures Distinct(WithEvents(t, found))
    ensures View(WithEvents(t, found)) == MapWithEvents(View(t), found)
  {
    var after, m := WithEvents(t, found), MapWithEvents(View(t), found);
    forall p | 0 <= p < |after|
      ensures after[p].handle in m && m[after[p].handle] == after[p].item
    {
      ViewAt(t, p);
    }
    forall h | h in m
      ensures Handled(after, h)
    {
      assert after[Position(t, h)].handle == h;
    }
    PollKeepsHandles(t, found);
    ViewIs(after, m);
  }

  lemma PollKeepsHandles(t: Table, found: map<nat, int>)
    requires Distinct(t)
    ensures Distinct(WithEvents(t, found))
  {
  }

  ghost predicate IsRun(t: Table, cs: seq<Call>)
  {
    t == Run(cs)
  }

  /** The calls so far have led to the table t; folded. */
  ghost predicate LedTo(cs: seq<Call>, t: Table)
  {
    forall r {:trigger IsRun(r, cs)} | IsRun(r, cs) :: t == r
  }

  lemma LedFurther(cs: seq<Call>, t: Table, c: Call)
    requires LedTo(cs, t)
    ensures LedTo(cs + [c], Step(t, c))
  {
    assert IsRun(Run(cs), cs);
    assert (cs + [c])[..|cs|] == cs;
  }

  /** A changed item is a step of the table. */
  lemma ChangeIsStep(cs: seq<Call>, t: Table, p: nat, x: Item)
    requires LedTo(cs, t) && Distinct(t) && p < |t|
    ensures var h := t[p].handle;
      var after := t[p := Entry(h, x)];
      && h in View(t) && View(t)[h] == t[p].item && View(after) == View(t)[h := x]
      && after == Step(t, Call.Modify(h, x)) && LedTo(cs + [Call.Modify(h, x)], after)
  {
    ViewAt(t, p);
    UpdateView(t, p, x);
    LedFurther(cs, t, Call.Modify(t[p].handle, x));
  }

  lemma LedToMap(cs: seq<Call>, t: Table)
    requires LedTo(cs, t)
    ensures View(t) == MapRun(cs)
  {
    assert IsRun(Run(cs), cs);
    RunRefinesMap(cs);
  }

  lemma ViewHandles(t: Table)
    ensures forall h :: h in View(t) <==> Handled(t, h)
  {
  }

  /** Pigeonhole: among size handles one is free while fewer than size are used. */
  lemma FreeHandleExists(t: Table, size: nat)
    requires |t| < size
    ensures LowestFree(t, 0) < size
  {
    var h := LowestFree(t, 0);
    if h >= size {
      forall i: nat | i < size
        ensures i in Handles(t)
      {
        assert Handled(t, i);
      }
      assert Below(size) <= Handles(t);
      SubsetIsSmaller(Below(size), Handles(t));
      CountBelow(size);
      HandlesAreFew(t);
    }
  }

  lemma {:induction false} CountBelow(n: nat)
    ensures |Below(n)| == n
  {
    if n > 0 {
      CountBelow(n - 1);
    }
  }

  lemma {:induction false} HandlesAreFew(t: Table)
    ensures |Handles(t)| <= |t|
  {
    if t != [] {
      var n := |t| - 1;
      HandlesAreFew(t[..n]);
      assert Handles(t) == Handles(t[..n]) + {t[n].handle};
    }
  }

  lemma {:induction false} SubsetIsSmaller(a: set<nat>, b: set<nat>)
    requires a <= b
    ensures |a| <= |b|
    decreases |a|
  {
    if a != {} {
      var x :| x in a;
      SubsetIsSmaller(a - {x}, b - {x});
    }
  }

  // ----- Events -----

  /** The handles of the items with events, in polling order, at most limit of them. */
  function Ready(t: Table, limit: nat): (r: seq<nat>)
    ensures |r| <= limit
  {
    if t == [] then [] else
      var n := |t| - 1;
      var before := Ready(t[..n], limit);
      if t[n].item.revents != 0 && |before| < limit then before + [t[n].handle] else before
  }

  predicate ReadyAt(t: Table, p: int, h: nat)
  {
    0 <= p < |t| && t[p].handle == h && t[p].item.revents != 0
  }

  ghost predicate IsReady(t: Table, h: nat)
  {
    exists p :: ReadyAt(t, p, h)
  }

  function CountReady(t: Table): (n: nat)
  {
    if t == [] then 0 else CountReady(t[..|t| - 1]) + if t[|t| - 1].item.revents != 0 then 1 else 0
  }

  function One(b: bool): nat
  {
    if b then 1 else 0
  }

  lemma {:induction false} CountUpdated(t: Table, p: nat, e: Entry)
    requires p < |t|
    ensures CountReady(t[p := e]) + One(t[p].item.revents != 0) == CountReady(t) + One(e.item.revents != 0)
  {
    var n := |t| - 1;
    var s := t[p := e];
    assert CountReady(s) == CountReady(s[..n]) + One(s[n].item.revents != 0);
    assert CountReady(t) == CountReady(t[..n]) + One(t[n].item.revents != 0);
    if p < n {
      CountUpdated(t[..n], p, e);
      assert s[..n] == t[..n][p := e];
    } else {
      assert s[..n] == t[..n];
    }
  }

  lemma CountRemoved(t: Table, p: nat)
    requires p < |t|
    ensures CountReady(Removed(t, p)) + One(t[p].item.revents != 0) == CountReady(t)
  {
    var last := |t| - 1;
    assert CountReady(t) == CountReady(t[..last]) + One(t[last].item.revents != 0);
    if p < last {
      CountUpdated(t[..last], p, t[last]);
    }
  }

  lemma CountAdded(t: Table, e: Entry)
    ensures CountReady(t + [e]) == CountReady(t) + One(e.item.revents != 0)
  {
    assert (t + [e])[..|t|] == t;
  }

  lemma {:induction false} ReadyCount(t: Table, limit: nat)
    ensures |Ready(t, limit)| == if CountReady(t) <= limit then CountReady(t) else limit
  {
    if t != [] {
      ReadyCount(t[..|t| - 1], limit);
    }
  }

  /** When the limit is the number of ready items, exactly the handles of ready items are reported, each once. */
  lemma {:induction false} ReadyIsComplete(t: Table, limit: nat)
    requires Distinct(t) && CountReady(t) <= limit
    ensures forall h :: h in Ready(t, limit) <==> IsReady(t, h)
    ensures forall i, j | 0 <= i < j < |Ready(t, limit)| :: Ready(t, limit)[i] != Ready(t, limit)[j]
  {
    if t != [] {
      var n := |t| - 1;
      ReadyIsComplete(t[..n], limit);
      ReadyCount(t[..n], limit);
      assert forall p | 0 <= p < n :: t[..n][p].handle != t[n].handle;
      assert !IsReady(t[..n], t[n].handle);
      forall h
        ensures IsReady(t, h) <==> IsReady(t[..n], h) || ReadyAt(t, n, h)
      {
        if IsReady(t[..n], h) {
          var p :| ReadyAt(t[..n], p, h);
          assert ReadyAt(t, p, h);
        }
        if IsReady(t, h) {
          var p :| ReadyAt(t, p, h);
          assert p == n || ReadyAt(t[..n], p, h);
        }
      }
    }
  }

  lemma PrefixPosition(t: Table, n: nat, h: nat)
    requires Distinct(t) && n <= |t| && IsReady(t[..n], h)
    ensures 0 <= Position(t[..n], h) == Position(t, h) < n
  {
    var p :| ReadyAt(t[..n], p, h);
    ViewAt(t[..n], p);
    ViewAt(t, p);
  }

  predicate Precedes(t: Table, g: nat, h: nat)
  {
    0 <= Position(t, g) < Position(t, h)
  }

  predicate InOrder(t: Table, hs: seq<nat>)
  {
    forall i, j | 0 <= i < j < |hs| :: Precedes(t, hs[i], hs[j])
  }

  lemma InOrderBehind(t: Table, n: nat, before: seq<nat>, after: seq<nat>)
    requires Distinct(t) && n + 1 == |t| && InOrder(t[..n], before) && forall h | h in before :: IsReady(t[..n], h)
    requires after == before || after == before + [t[n].handle]
    ensures InOrder(t, after)
  {
    ViewAt(t, n);
    forall i, j | 0 <= i < j < |after|
      ensures Precedes(t, after[i], after[j])
    {
      assert before[i] in before;
      PrefixPosition(t, n, before[i]);
      if j < |before| {
        assert before[j] in before && Precedes(t[..n], before[i], before[j]);
        PrefixPosition(t, n, before[j]);
      }
    }
  }

  /** Handles are reported in the order of their items. */
  lemma {:induction false} ReadyInOrder(t: Table, limit: nat)
    requires Distinct(t)
    ensures InOrder(t, Ready(t, limit))
  {
    if t != [] {
      var n := |t| - 1;
      ReadyInOrder(t[..n], limit);
      ReadyAreReady(t[..n], limit);
      InOrderBehind(t, n, Ready(t[..n], limit), Ready(t, limit));
    }
  }

  /** An item is reported exactly when it has events and fewer than limit items in front of it have some. */
  lemma {:induction false} ReportedAt(t: Table, p: nat, limit: nat)
    requires Distinct(t) && p < |t|
    ensures t[p].handle in Ready(t, limit) <==> t[p].item.revents != 0 && CountReady(t[..p]) < limit
    decreases |t|
  {
    var n := |t| - 1;
    ReadyCount(t[..n], limit);
    ReadyAreReady(t[..n], limit);
    if p < n {
      assert t[..n][..p] == t[..p];
      ReportedAt(t[..n], p, limit);
    } else {
      assert forall i | 0 <= i < n :: t[..n][i].handle != t[n].handle;
    }
  }

  lemma {:induction false} ReadyAreReady(t: Table, limit: nat)
    ensures forall h | h in Ready(t, limit) :: IsReady(t, h)
  {
    if t != [] {
      var n := |t| - 1;
      ReadyAreReady(t[..n], limit);
      forall h | h in Ready(t, limit)
        ensures IsReady(t, h)
      {
        if h in Ready(t[..n], limit) {
          var p :| ReadyAt(t[..n], p, h);
          assert ReadyAt(t, p, h);
        } else {
          assert ReadyAt(t, n, h);
        }
      }
    }
  }

  /**
   A handle that has just been added is reported exactly when its slot had events left over and fewer items have
   events than the poll counted.
   */
  lemma AddedIsReported(t: Table, h: nat, x: Item, limit: nat)
    requires Distinct(t) && !Handled(t, h)
    ensures h in Ready(t + [Entry(h, x)], limit) <==> x.revents != 0 && CountReady(t) < limit
  {
    var after := t + [Entry(h, x)];
    assert after[..|t|] == t;
    AddView(t, h, x);
    ReportedAt(after, |t|, limit);
  }

  /** Adding after the polled items leaves the report alone. */
  lemma {:induction false} ReadyIsFull(t: Table, i: nat, limit: nat)
    requires i <= |t| && |Ready(t[..i], limit)| == limit
    ensures Ready(t, limit) == Ready(t[..i], limit)
    decreases |t|
  {
    if i < |t| {
      var n := |t| - 1;
      assert t[..n][..i] == t[..i];
      ReadyIsFull(t[..n], i, limit);
    } else {
      assert t[..i] == t;
    }
  }

  /** t starts with the polled items, with the same handles and events. */
  ghost predicate StartsWith(t: Table, polled: Table)
  {
    && |polled| <= |t|
    && forall p | 0 <= p < |polled| :: t[p].handle == polled[p].handle && t[p].item.revents == polled[p].item.revents
  }

  lemma {:induction false} SameReady(t: Table, s: Table, limit: nat)
    requires |t| == |s| && StartsWith(t, s)
    ensures Ready(t, limit) == Ready(s, limit) && CountReady(t) == CountReady(s)
  {
    if t != [] {
      SameReady(t[..|t| - 1], s[..|s| - 1], limit);
    }
  }

  /** While nothing has been removed since the poll, exactly what it found is reported, whatever has been added. */
  lemma PolledIsReported(t: Table, polled: Table)
    requires StartsWith(t, polled)
    ensures Ready(t, CountReady(polled)) == Ready(polled, CountReady(polled))
  {
    var limit := CountReady(polled);
    SameReady(t[..|polled|], polled, limit);
    ReadyCount(polled, limit);
    ReadyIsFull(t, |polled|, limit);
  }

  /**
   A removal of an item without events can move a new item, with events left over in its slot, in front of one that
   the poll found: the poll found handle 1, and 2 is reported.
   */
  lemma MovedEventsAreReported()
    ensures var polled := [Entry(0, Item(5, None, 1, 0)), Entry(1, Item(6, None, 1, 1))];
      var t := Removed(polled + [Entry(2, Item(8, None, 1, 1))], 0);
      Ready(polled, CountReady(polled)) == [1] && Ready(t, CountReady(polled)) == [2]
  {
    var x, y, z := Entry(0, Item(5, None, 1, 0)), Entry(1, Item(6, None, 1, 1)), Entry(2, Item(8, None, 1, 1));
    assert [x, y][..1] == [x] && [x][..0] == [] && [z, y][..1] == [z] && [z][..0] == [];
    assert Removed([x, y] + [z], 0) == [z, y];
    assert CountReady([x]) == 0 && CountReady([x, y]) == 1;
    assert Ready([x], 1) == [] && Ready([x, y], 1) == [1] && Ready([z], 1) == [2] && Ready([z, y], 1) == [2];
  }

  /** Which happens: the item for descriptor 8 takes over the slot and the events of the one for 7. */
  lemma StaleEventsAreReported()
    ensures var polled := [Entry(0, Item(7, None, 1, 1))];
      var slot := polled[0].item;
      var t := Removed(polled, 0) + [Entry(0, slot.(fd := 8, socket := None, events := 1))];
      CountReady(polled) == 1 && Ready(t, 1) == [0] && t[0].item.fd == 8
  {
    var t := [Entry(0, Item(8, None, 1, 1))];
    assert t[..0] == [] && Ready(t[..0], 1) == [] && Ready(t, 1) == [0];
    var polled := [Entry(0, Item(7, None, 1, 1))];
    assert polled[..0] == [] && CountReady(polled[..0]) == 0;
  }
}
