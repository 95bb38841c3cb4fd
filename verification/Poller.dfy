/**
 zmq::Poller: poll items without gaps in one array, and two index arrays that keep handles stable while items move.
 */
module Poller {
  import opened Options
  import opened PollTable

  /** What modify may put in place of the polled descriptor. */
  datatype Target = Descriptor(fd: int) | Socket(socket: nat)

  datatype Outcome = Done | InvalidIndex | RemovedTwice

  /** poll returns true or false, or throws. */
  datatype PollOutcome = Polled | Interrupted | PollError

  // ----- The arrays -----

  ghost predicate StoredAt(items: seq<Item>, toPos: seq<int>, toIdx: seq<int>, t: Table, p: nat)
    requires p < |t| <= |items| == |toPos| == |toIdx|
  {
    toIdx[p] == t[p].handle && t[p].handle < |toPos| && toPos[t[p].handle] == p && items[p] == t[p].item
  }

  ghost predicate FreeOrLive(toPos: seq<int>, t: Table, h: nat)
    requires h < |toPos|
  {
    toPos[h] == -1 || (0 <= toPos[h] < |t| && t[toPos[h]].handle == h)
  }

  /** The arrays store the table t in their first |t| places; the index arrays are inverse to each other there. */
  ghost predicate Stored(items: seq<Item>, toPos: seq<int>, toIdx: seq<int>, t: Table)
  {
    && |t| <= |items| == |toPos| == |toIdx|
    && (forall p {:trigger StoredAt(items, toPos, toIdx, t, p)} | 0 <= p < |t| :: StoredAt(items, toPos, toIdx, t, p))
    && (forall h {:trigger FreeOrLive(toPos, t, h)} | 0 <= h < |toPos| :: FreeOrLive(toPos, t, h))
  }

  lemma StoredIsDistinct(items: seq<Item>, toPos: seq<int>, toIdx: seq<int>, t: Table)
    requires Stored(items, toPos, toIdx, t)
    ensures Distinct(t)
  {
    forall p, q | 0 <= p < q < |t|
      ensures t[p].handle != t[q].handle
    {
      assert StoredAt(items, toPos, toIdx, t, p) && StoredAt(items, toPos, toIdx, t, q);
    }
  }

  /** The index array gives every handle's position. */
  lemma PositionIsStored(items: seq<Item>, toPos: seq<int>, toIdx: seq<int>, t: Table, h: nat)
    requires Stored(items, toPos, toIdx, t) && h < |toPos|
    ensures toPos[h] == Position(t, h)
  {
    assert FreeOrLive(toPos, t, h);
    var p := Position(t, h);
    if p >= 0 {
      assert StoredAt(items, toPos, toIdx, t, p);
    }
    assert 0 <= toPos[h] < |t| && t[toPos[h]].handle == h ==> Handled(t, h);
  }

  lemma StoredAdd(items: seq<Item>, toPos: seq<int>, toIdx: seq<int>, t: Table, h: nat, x: Item)
    requires Stored(items, toPos, toIdx, t) && |t| < |items| && h < |toPos| && toPos[h] == -1
    ensures Stored(items[|t| := x], toPos[h := |t|], toIdx[|t| := h], t + [Entry(h, x)])
  {
    var items', toPos', toIdx', after := items[|t| := x], toPos[h := |t|], toIdx[|t| := h], t + [Entry(h, x)];
    forall p | 0 <= p < |after|
      ensures StoredAt(items', toPos', toIdx', after, p)
    {
      if p < |t| {
        assert StoredAt(items, toPos, toIdx, t, p);
      }
    }
    forall i | 0 <= i < |toPos'|
      ensures FreeOrLive(toPos', after, i)
    {
      assert FreeOrLive(toPos, t, i);
    }
  }

  lemma StoredUpdate(items: seq<Item>, toPos: seq<int>, toIdx: seq<int>, t: Table, p: nat, x: Item)
    requires Stored(items, toPos, toIdx, t) && p < |t|
    ensures Stored(items[p := x], toPos, toIdx, t[p := Entry(t[p].handle, x)])
  {
    var items', after := items[p := x], t[p := Entry(t[p].handle, x)];
    forall q | 0 <= q < |after|
      ensures StoredAt(items', toPos, toIdx, after, q)
    {
      assert StoredAt(items, toPos, toIdx, t, q);
    }
    forall i | 0 <= i < |toPos|
      ensures FreeOrLive(toPos, after, i)
    {
      assert FreeOrLive(toPos, t, i);
    }
  }

  /** Removing the last item: its entry in toIdx stays behind, unused. */
  lemma StoredRemoveLast(items: seq<Item>, toPos: seq<int>, toIdx: seq<int>, t: Table)
    requires Stored(items, toPos, toIdx, t) && t != []
    ensures t[|t| - 1].handle < |toPos| && toPos[t[|t| - 1].handle] == |t| - 1
    ensures Stored(items, toPos[t[|t| - 1].handle := -1], toIdx, Removed(t, |t| - 1))
  {
    var last := |t| - 1;
    assert StoredAt(items, toPos, toIdx, t, last);
    var toPos', after := toPos[t[last].handle := -1], Removed(t, last);
    forall q | 0 <= q < |after|
      ensures StoredAt(items, toPos', toIdx, after, q)
    {
      assert StoredAt(items, toPos, toIdx, t, q);
    }
    forall i | 0 <= i < |toPos'|
      ensures FreeOrLive(toPos', after, i)
    {
      assert FreeOrLive(toPos, t, i);
    }
  }

  /** Removing another item: the last one moves into its place, with both index arrays. */
  lemma StoredRemove(items: seq<Item>, toPos: seq<int>, toIdx: seq<int>, t: Table, p: nat)
    requires Stored(items, toPos, toIdx, t) && p < |t| - 1
    ensures var last := |t| - 1;
      && t[p].handle < |toPos| && t[last].handle < |toPos| && toIdx[last] == t[last].handle
      && Stored(items[p := items[last]], toPos[t[p].handle := -1][t[last].handle := p],
                toIdx[last := -1][p := t[last].handle], Removed(t, p))
  {
    var last := |t| - 1;
    assert StoredAt(items, toPos, toIdx, t, p) && StoredAt(items, toPos, toIdx, t, last);
    var items', toPos' := items[p := items[last]], toPos[t[p].handle := -1][t[last].handle := p];
    var toIdx', after := toIdx[last := -1][p := t[last].handle], Removed(t, p);
    forall q | 0 <= q < |after|
      ensures StoredAt(items', toPos', toIdx', after, q)
    {
      assert StoredAt(items, toPos, toIdx, t, q);
    }
    forall i | 0 <= i < |toPos'|
      ensures FreeOrLive(toPos', after, i)
    {
      assert FreeOrLive(toPos, t, i);
    }
  }

  /** Larger arrays with the same contents in front and free places behind. */
  lemma StoredGrow(items: seq<Item>, toPos: seq<int>, toIdx: seq<int>, t: Table,
                   items': seq<Item>, toPos': seq<int>, toIdx': seq<int>)
    requires Stored(items, toPos, toIdx, t)
    requires |items'| == |toPos'| == |toIdx'| >= |items|
    requires items'[..|items|] == items && toPos'[..|items|] == toPos && toIdx'[..|items|] == toIdx
    requires forall h | |items| <= h < |items'| :: toPos'[h] == -1
    ensures Stored(items', toPos', toIdx', t)
  {
    forall p | 0 <= p < |t|
      ensures StoredAt(items', toPos', toIdx', t, p)
    {
      assert StoredAt(items, toPos, toIdx, t, p);
    }
    forall h | 0 <= h < |toPos'|
      ensures FreeOrLive(toPos', t, h)
    {
      if h < |toPos| {
        assert FreeOrLive(toPos, t, h);
      }
    }
  }

  // ----- The poller -----

  class Poller {
    var items: array<Item>
    var toPos: array<int>    // idx_to_pos_: handle to position, -1 when free
    var toIdx: array<int>    // pos_to_idx_: position to handle
    var used: nat
    var eventCount: nat
    var interrupted: bool
    ghost var table: Table
    ghost var calls: seq<PollTable.Call>   // all calls so far
    ghost var polled: Table                // the table after the last poll
    ghost var moved: bool                  // whether a handle has been removed since
    ghost var lost: nat                    // how many items with events have been removed since

    ghost predicate Arrays()
      reads this, items, toPos, toIdx
    {
      && items.Length > 0 && used == |table| && toPos != toIdx
      && Stored(items[..], toPos[..], toIdx[..], table)
    }

    ghost predicate Valid()
      reads this, items, toPos, toIdx
    {
      Arrays() && LedTo(calls, table) && Reports(eventCount, table, polled, moved, lost)
    }

    constructor (reserve: int)
      ensures Valid() && table == [] && eventCount == 0 && calls == [] && !interrupted
      ensures items.Length == toPos.Length == toIdx.Length == if reserve <= 0 then 10 else reserve
      ensures fresh(items) && fresh(toPos) && fresh(toIdx)
      ensures forall i | 0 <= i < toPos.Length :: toPos[i] == -1 && toIdx[i] == -1
    {
      var n := if reserve <= 0 then 10 else reserve;
      items := new Item[n](_ => Item(0, None, 0, 0));
      toPos := new int[n](_ => -1);
      toIdx := new int[n](_ => -1);
      used, eventCount, table, interrupted := 0, 0, [], false;
      calls, polled, moved, lost := [], [], false, 0;
      new;
      forall h | 0 <= h < n
        ensures FreeOrLive(toPos[..], [], h)
      {
      }
    }

    /** The first half is kept, the second is free. */
    method Grow()
      requires Arrays() && used == items.Length
      modifies this`items, this`toPos, this`toIdx
      ensures Arrays() && items.Length == 2 * old(items.Length)
      ensures fresh(items) && fresh(toPos) && fresh(toIdx)
      ensures items[..used] == old(items[..]) && toPos[..used] == old(toPos[..]) && toIdx[..used] == old(toIdx[..])
      ensures forall i | used <= i < toPos.Length :: toPos[i] == -1 && toIdx[i] == -1 && items[i] == Item(0, None, 0, 0)
    {
      var n := items.Length;
      var items', toPos', toIdx' := items, toPos, toIdx;
      items := new Item[2 * n](i requires 0 <= i < 2 * n reads items' =>
        if i < items'.Length then items'[i] else Item(0, None, 0, 0));
      toPos := new int[2 * n](i requires 0 <= i < 2 * n reads toPos' => if i < toPos'.Length then toPos'[i] else -1);
      toIdx := new int[2 * n](i requires 0 <= i < 2 * n reads toIdx' => if i < toIdx'.Length then toIdx'[i] else -1);
      assert items[..n] == items'[..] && toPos[..n] == toPos'[..] && toIdx[..n] == toIdx'[..];
      StoredGrow(items'[..], toPos'[..], toIdx'[..], table, items[..], toPos[..], toIdx[..]);
    }

    /** The scan for a free handle finds one within the array, and it is the lowest. */
    method FreeHandle() returns (h: nat)
      requires Arrays() && used < items.Length
      ensures h < toPos.Length && toPos[h] == -1 && h == LowestFree(table, 0)
    {
      FreeHandleExists(table, items.Length);
      h := 0;
      while h < toPos.Length
        invariant 0 <= h <= toPos.Length
        invariant forall i | 0 <= i < h :: Handled(table, i)
      {
        PositionIsStored(items[..], toPos[..], toIdx[..], table, h);
        if toPos[h] < 0 {
          return;
        }
        h := h + 1;
      }
    }

    /** addItem, behind both forms of add. The slot's revents stay as they are. */
    method AddItem(fd: int, socket: Option<nat>, events: int) returns (h: nat)
      requires Valid()
      modifies this`items, this`toPos, this`toIdx, this`used, this`table, this`calls, items, toPos, toIdx
      ensures Valid() && (items == old(items) || fresh(items)) && (toPos == old(toPos) || fresh(toPos))
      ensures toIdx == old(toIdx) || fresh(toIdx)
      ensures items.Length == if old(used) < old(items.Length) then old(items.Length) else 2 * old(items.Length)
      ensures h == LowestFree(old(table), 0) < items.Length
      ensures var stale := if old(used) < old(items.Length) then old(items[used].revents) else 0;
        && table == Step(old(table), Add(Item(fd, socket, events, stale)))
        && calls == old(calls) + [Add(Item(fd, socket, events, stale))]
        // whether events would report the new handle now
        && (h in Ready(table, eventCount) <==> stale != 0 && CountReady(old(table)) < eventCount)
      ensures h in Ready(table, eventCount) ==> eventCount > 0 && lost > 0
    {
      ghost var t0 := table;
      var x;
      h, x := PlaceItem(fd, socket, events);
      AddKeepsReport(eventCount, t0, polled, moved, lost, h, x);
      LedFurther(calls, t0, Add(x));
      calls := calls + [Add(x)];
    }

    /** The arrays of addItem. */
    method PlaceItem(fd: int, socket: Option<nat>, events: int) returns (h: nat, x: Item)
      requires Arrays()
      modifies this`items, this`toPos, this`toIdx, this`used, this`table, items, toPos, toIdx
      ensures Arrays() && (items == old(items) || fresh(items)) && (toPos == old(toPos) || fresh(toPos))
      ensures toIdx == old(toIdx) || fresh(toIdx)
      ensures items.Length == if old(used) < old(items.Length) then old(items.Length) else 2 * old(items.Length)
      ensures Distinct(old(table)) && h == LowestFree(old(table), 0) < items.Length
      ensures x == Item(fd, socket, events, if old(used) < old(items.Length) then old(items[used].revents) else 0)
      ensures table == old(table) + [Entry(h, x)]
    {
      if used >= items.Length {
        Grow();
      }
      h := FreeHandle();
      x := items[used].(fd := fd, socket := socket, events := events);
      ghost var items0, toPos0, toIdx0 := items[..], toPos[..], toIdx[..];
      StoredIsDistinct(items0, toPos0, toIdx0, table);
      StoredAdd(items0, toPos0, toIdx0, table, h, x);
      items[used] := x;
      toPos[h] := used;
      toIdx[used] := h;
      assert items[..] == items0[used := x] && toPos[..] == toPos0[h := used] && toIdx[..] == toIdx0[used := h];
      used, table := used + 1, table + [Entry(h, x)];
    }

    /**
     modify, of a handle in range: new events, and a new descriptor or socket if one is given, each in place of the
     other. The place that is written is inside the array exactly if the handle is live; else it is the place in front
     of the array.
     */
    method Modify(h: nat, events: int, target: Option<Target>) returns (inside: bool)
      requires Valid() && h < items.Length && events != 0
      modifies this`table, this`calls, items
      ensures Valid() && (inside <==> Handled(old(table), h))
      ensures !inside ==> table == old(table) && calls == old(calls)
      ensures inside ==> h in View(table) && View(table) == old(View(table))[h := View(table)[h]]
      ensures inside ==>
        var x := View(table)[h];
        table == Step(old(table), PollTable.Call.Modify(h, x)) && calls == old(calls) + [PollTable.Call.Modify(h, x)]
      ensures inside ==>
        var before, after := old(View(table))[h], View(table)[h];
        && after.events == events && after.revents == before.revents
        && match target
           case None => after.fd == before.fd && after.socket == before.socket
           case Some(Descriptor(fd)) => after.fd == fd && after.socket == None
           case Some(Socket(s)) => after.fd == 0 && after.socket == Some(s)
    {
      PositionIsStored(items[..], toPos[..], toIdx[..], table, h);
      var pos := toPos[h];
      if pos < 0 {
        return false;
      }
      inside := true;
      ModifyAt(h, pos, events, target);
    }

    method ModifyAt(h: nat, pos: nat, events: int, target: Option<Target>)
      requires Valid() && h < items.Length && pos < |table| && toPos[h] == pos && table[pos].handle == h
      modifies this`table, this`calls, items
      ensures Valid() && h in old(View(table))
      ensures var x := Modified(old(View(table))[h], events, target);
        && View(table) == old(View(table))[h := x]
        && table == Step(old(table), PollTable.Call.Modify(h, x))
        && calls == old(calls) + [PollTable.Call.Modify(h, x)]
    {
      ghost var t0 := table;
      StoredIsDistinct(items[..], toPos[..], toIdx[..], table);
      ghost var x := ChangeItem(h, pos, events, target);
      ChangeIsStep(calls, t0, pos, x);
      ModifyKeepsReport(eventCount, t0, polled, moved, lost, pos, x);
      calls := calls + [PollTable.Call.Modify(h, x)];
    }

    /** The arrays of modify. */
    method ChangeItem(h: nat, pos: nat, events: int, target: Option<Target>) returns (ghost x: Item)
      requires Arrays() && pos < |table| && table[pos].handle == h
      modifies this`table, items
      ensures Arrays() && x == Modified(old(table)[pos].item, events, target)
      ensures table == old(table)[pos := Entry(h, x)]
    {
      assert StoredAt(items[..], toPos[..], toIdx[..], table, pos);
      ghost var items0 := items[..];
      x := Modified(items[pos], events, target);
      items[pos] := items[pos].(events := events);
      match target {
        case None =>
        case Some(Descriptor(fd)) => items[pos] := items[pos].(fd := fd, socket := None);
        case Some(Socket(s)) => items[pos] := items[pos].(fd := 0, socket := Some(s));
      }
      StoredUpdate(items0, toPos[..], toIdx[..], table, pos, x);
      assert items[..] == items0[pos := x];
      table := table[pos := Entry(h, x)];
    }

    /** remove: exactly a handle that is not live is refused, and then nothing changes. */
    method Remove(h: int) returns (r: Outcome)
      requires Valid()
      modifies this`used, this`table, this`calls, this`moved, this`lost, items, toPos, toIdx
      ensures Valid()
      ensures r == if h < 0 || h >= items.Length then InvalidIndex
                   else if !Handled(old(table), h) then RemovedTwice else Done
      ensures r != Done ==> table == old(table) && calls == old(calls) && moved == old(moved) && lost == old(lost)
      ensures r == Done ==>
        && table == Step(old(table), PollTable.Call.Remove(h)) && calls == old(calls) + [PollTable.Call.Remove(h)]
        && !Handled(table, h) && moved && lost == old(lost) + One(old(View(table))[h].revents != 0)
    {
      if h < 0 || h >= items.Length {
        return InvalidIndex;
      }
      PositionIsStored(items[..], toPos[..], toIdx[..], table, h);
      if toPos[h] == -1 {
        return RemovedTwice;
      }
      r := Done;
      RemoveLive(h);
    }

    method RemoveLive(h: nat)
      requires Valid() && h < toPos.Length && toPos[h] == Position(table, h) >= 0
      modifies this`used, this`table, this`calls, this`moved, this`lost, items, toPos, toIdx
      ensures Valid() && h in old(View(table))
      ensures table == Step(old(table), PollTable.Call.Remove(h)) && calls == old(calls) + [PollTable.Call.Remove(h)]
      ensures !Handled(table, h) && moved && lost == old(lost) + One(old(View(table))[h].revents != 0)
    {
      ghost var t0, pos := table, Position(table, h);
      StoredIsDistinct(items[..], toPos[..], toIdx[..], table);
      RemoveKeepsReport(eventCount, t0, polled, moved, lost, pos);
      LedFurther(calls, t0, PollTable.Call.Remove(h));
      MoveLast(h);
      calls := calls + [PollTable.Call.Remove(h)];
      moved, lost := true, lost + One(t0[pos].item.revents != 0);
    }

    /** The arrays of remove, for a live handle. */
    method MoveLast(h: nat)
      requires Arrays() && h < toPos.Length && toPos[h] == Position(table, h) >= 0
      modifies this`used, this`table, items, toPos, toIdx
      ensures Arrays() && table == Removed(old(table), Position(old(table), h))
    {
      ghost var items0, toPos0, toIdx0 := items[..], toPos[..], toIdx[..];
      var last := used - 1;
      var pos := toPos[h];
      toPos[h] := -1;
      used := used - 1;
      if pos == last {
        StoredRemoveLast(items0, toPos0, toIdx0, table);
        assert items[..] == items0 && toPos[..] == toPos0[h := -1] && toIdx[..] == toIdx0;
      } else {
        StoredRemove(items0, toPos0, toIdx0, table, pos);
        var lastIdx := toIdx[last];
        toIdx[last] := -1;
        toPos[lastIdx] := pos;
        toIdx[pos] := lastIdx;
        items[pos] := items[last];
        assert items[..] == items0[pos := items0[last]] && toPos[..] == toPos0[h := -1][lastIdx := pos]
            && toIdx[..] == toIdx0[last := -1][pos := lastIdx];
      }
      table := Removed(table, pos);
    }

    /** A SIGINT arrives. */
    method Interrupt()
      requires Valid()
      modifies this`interrupted
      ensures Valid() && interrupted
    {
      interrupted := true;
    }

    /**
     poll: zmq_poll fills in the revents of the used slots and counts those that are set, or fails. A failure is an
     exception unless a SIGINT has arrived, during the call or before it; then nothing is polled any more.
     */
    method Poll(revents: Option<seq<int>>, signal: bool) returns (r: PollOutcome)
      requires Valid() && (revents.Some? ==> |revents.value| == used)
      modifies this`eventCount, this`interrupted, this`table, this`calls, this`polled, this`moved, this`lost, items
      ensures Valid()
      ensures r == if old(interrupted) then Interrupted
                   else if revents.Some? then Polled else if signal then Interrupted else PollError
      ensures old(interrupted) ==> table == old(table) && eventCount == old(eventCount)
      ensures !old(interrupted) && revents.None? ==> table == old(table) && eventCount == 0
      ensures r == Polled ==>
        && |table| == |old(table)|
        && (forall p | 0 <= p < |table| ::
              table[p] == Entry(old(table)[p].handle, old(table)[p].item.(revents := revents.value[p])))
        && eventCount == CountReady(table) && polled == table && !moved && lost == 0
    {
      if interrupted {
        return Interrupted;
      }
      interrupted := signal;
      if revents == None {
        eventCount := 0;
        return if interrupted then Interrupted else PollError;
      }
      r := Polled;
      PollItems(revents.value);
    }

    method PollItems(revents: seq<int>)
      requires Valid() && |revents| == used
      modifies this`eventCount, this`table, this`calls, this`polled, this`moved, this`lost, items
      ensures Valid() && |table| == |old(table)|
      ensures forall p | 0 <= p < |table| ::
                table[p] == Entry(old(table)[p].handle, old(table)[p].item.(revents := revents[p]))
      ensures eventCount == CountReady(table) && polled == table && !moved && lost == 0
    {
      ghost var t0 := table;
      ghost var found := PollSlots(revents);
      LedFurther(calls, t0, PollTable.Call.Poll(found));
      PollReports(table);
      calls := calls + [PollTable.Call.Poll(found)];
      polled, moved, lost := table, false, 0;
    }

    /** zmq_poll itself. */
    method PollSlots(revents: seq<int>) returns (ghost found: map<nat, int>)
      requires Arrays() && |revents| == used
      modifies this`eventCount, this`table, items
      ensures Arrays() && |table| == |old(table)|
      ensures table == WithEvents(old(table), found) && eventCount == CountReady(table)
      ensures forall p | 0 <= p < |table| ::
                table[p] == Entry(old(table)[p].handle, old(table)[p].item.(revents := revents[p]))
    {
      found := FoundBy(table, revents);
      StoredIsDistinct(items[..], toPos[..], toIdx[..], table);
      eventCount := 0;
      var i := 0;
      assert table[..0] == [];
      while i < used
        invariant 0 <= i <= used && used == |old(table)| && Arrays()
        invariant forall p | 0 <= p < |table| ::
                    table[p] == if p < i then Entry(old(table)[p].handle, old(table)[p].item.(revents := revents[p]))
                                else old(table)[p]
        invariant eventCount == CountReady(table[..i])
      {
        PollSlot(i, revents[i]);
        i := i + 1;
      }
      assert table[..i] == table;
      FoundEvents(old(table), revents, found);
      assert table == WithEvents(old(table), found);
    }

    method PollSlot(i: nat, revents: int)
      requires Arrays() && i < used && eventCount == CountReady(table[..i])
      modifies this`eventCount, this`table, items
      ensures Arrays()
      ensures table == old(table)[i := Entry(old(table)[i].handle, old(table)[i].item.(revents := revents))]
      ensures eventCount == CountReady(table[..i + 1])
    {
      assert StoredAt(items[..], toPos[..], toIdx[..], table, i);
      ghost var items0, t0 := items[..], table;
      var x := items[i].(revents := revents);
      StoredUpdate(items0, toPos[..], toIdx[..], table, i, x);
      items[i] := x;
      table := table[i := Entry(table[i].handle, x)];
      assert items[..] == items0[i := x];
      assert table[..i] == t0[..i] && table[..i + 1][..i] == table[..i];
      if revents != 0 {
        eventCount := eventCount + 1;
      }
    }

    /**
     events: the handles with events in polling order, as many as the last poll counted; the count is used up. If no
     handle has been removed since the poll, these are exactly the ones it found.
     */
    method Events() returns (r: seq<nat>)
      requires Valid()
      modifies this`eventCount
      ensures Valid() && eventCount == 0
      ensures r == Ready(table, old(eventCount))
      ensures !moved && old(eventCount) > 0 ==> r == Ready(polled, CountReady(polled))
    {
      if !moved {
        PolledIsReported(table, polled);
      }
      r := [];
      if eventCount == 0 {
        ReadyCount(table, 0);
        return;
      }
      var i := 0;
      assert table[..0] == [];
      while i < used
        invariant 0 <= i <= used && |r| < eventCount && r == Ready(table[..i], eventCount)
      {
        assert StoredAt(items[..], toPos[..], toIdx[..], table, i);
        assert table[..i + 1][..i] == table[..i];
        if items[i].revents != 0 {
          r := r + [toIdx[i]];
        }
        i := i + 1;
        if |r| == eventCount {
          ReadyIsFull(table, i, eventCount);
          eventCount := 0;
          return;
        }
      }
      assert table[..used] == table;
      eventCount := 0;
    }

    method Count() returns (n: nat)
      requires Valid()
      ensures n == |table|
    {
      n := used;
    }

    method IdxToPos(h: int) returns (r: Option<int>)
      requires Valid()
      ensures r == if h >= items.Length || h < 0 then None else Some(Position(table, h))
    {
      if h >= items.Length || h < 0 {
        return None;
      }
      PositionIsStored(items[..], toPos[..], toIdx[..], table, h);
      r := Some(toPos[h]);
    }
  }

  /**
   How the count of the last poll relates to the table. Items with events are missing only if they were removed, and
   without removals the table still starts with the polled one.
   */
  ghost predicate Reports(eventCount: nat, t: Table, polled: Table, moved: bool, lost: nat)
  {
    && eventCount <= CountReady(t) + lost
    && (!moved ==> StartsWith(t, polled) && (eventCount == 0 || eventCount == CountReady(polled)))
  }

  lemma AddKeepsReport(eventCount: nat, t: Table, polled: Table, moved: bool, lost: nat, h: nat, x: Item)
    requires Reports(eventCount, t, polled, moved, lost) && Distinct(t) && !Handled(t, h)
    ensures Reports(eventCount, t + [Entry(h, x)], polled, moved, lost)
    ensures h in Ready(t + [Entry(h, x)], eventCount) <==> x.revents != 0 && CountReady(t) < eventCount
    ensures CountReady(t) < eventCount ==> lost > 0
  {
    AddedIsReported(t, h, x, eventCount);
    CountAdded(t, Entry(h, x));
  }

  lemma ModifyKeepsReport(eventCount: nat, t: Table, polled: Table, moved: bool, lost: nat, p: nat, x: Item)
    requires Reports(eventCount, t, polled, moved, lost) && p < |t| && x.revents == t[p].item.revents
    ensures Reports(eventCount, t[p := Entry(t[p].handle, x)], polled, moved, lost)
  {
    CountUpdated(t, p, Entry(t[p].handle, x));
  }

  lemma RemoveKeepsReport(eventCount: nat, t: Table, polled: Table, moved: bool, lost: nat, p: nat)
    requires Reports(eventCount, t, polled, moved, lost) && Distinct(t) && p < |t|
    ensures Reports(eventCount, Removed(t, p), polled, true, lost + One(t[p].item.revents != 0))
    ensures !Handled(Removed(t, p), t[p].handle) && t[p].handle in View(t) && View(t)[t[p].handle] == t[p].item
  {
    CountRemoved(t, p);
    RemoveView(t, p);
    ViewAt(t, p);
    ViewHandles(Removed(t, p));
  }

  lemma PollReports(t: Table)
    ensures Reports(CountReady(t), t, t, false, 0)
  {
  }

  /** What modify makes of an item. */
  function Modified(x: Item, events: int, target: Option<Target>): Item
  {
    match target
    case None => x.(events := events)
    case Some(Descriptor(fd)) => x.(events := events, fd := fd, socket := None)
    case Some(Socket(s)) => x.(events := events, fd := 0, socket := Some(s))
  }

  /** The events found at each position, by handle. */
  ghost function FoundBy(t: Table, revents: seq<int>): map<nat, int>
    requires |t| == |revents|
  {
    map h | h in Handles(t) && 0 <= Position(t, h) < |revents| :: revents[Position(t, h)]
  }

  lemma FoundEvents(t: Table, revents: seq<int>, found: map<nat, int>)
    requires |t| == |revents| && Distinct(t) && found == FoundBy(t, revents)
    ensures forall p | 0 <= p < |t| :: Found(found, t[p].handle) == revents[p]
  {
    forall p | 0 <= p < |t|
      ensures Found(found, t[p].handle) == revents[p]
    {
      ViewAt(t, p);
    }
  }

  /** A handle that is modified after its removal: the write goes in front of the array. */
  method ModifyAfterRemove() returns (inside: bool)
    ensures !inside
  {
    var p := new Poller(8);
    var h := p.AddItem(7, None, 1);
    var r := p.Remove(h);
    assert h == LowestFree([], 0) && p.table == [] by {
      assert !Handled([], 0);
    }
    inside := p.Modify(h, 1, None);
  }

  /** The table is always what a finite map goes through under the same calls. */
  lemma TableIsMap(p: Poller)
    requires p.Valid()
    ensures View(p.table) == MapRun(p.calls)
  {
    LedToMap(p.calls, p.table);
  }
}
