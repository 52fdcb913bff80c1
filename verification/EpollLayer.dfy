/** The epoll calls as the source runs them, on mutable lists. */
module EpollLayer {
  import opened Epoll

  class Layer {
    /** Epoll instances by epfd, registrations by (epfd, fd), and the pending
        events of every open socket. */
    var insts: map<int, Instance>
    var items: Items
    var pending: map<int, Mask>

    ghost predicate Valid()
      reads this
    {
      AllOk(insts, items, pending)
    }

    constructor ()
      ensures Valid() && insts == map[] && items == map[] && pending == map[]
    {
      insts, items, pending := map[], map[], map[];
    }

    /** A new epoll instance, and a new socket, under an unused fd. */
    method Create(ep: int)
      requires Valid() && ep !in insts
      modifies `insts
      ensures Valid() && insts == old(insts)[ep := Instance({}, {}, 0)]
    {
      assert forall fd :: (ep, fd) !in items;
      insts := insts[ep := Instance({}, {}, 0)];
    }

    method Socket(fd: int)
      requires Valid() && fd !in pending
      modifies `pending
      ensures Valid() && pending == old(pending)[fd := {}]
    {
      assert forall ep :: (ep, fd) !in items;
      forall ep | ep in insts ensures InstanceOk(insts[ep], items, pending[fd := {}], ep) {
        assert InstanceOk(insts[ep], items, pending, ep);
        forall g | IsReady(items, pending[fd := {}], ep, g) ensures g in insts[ep].active {
          assert IsReady(items, pending, ep, g);
        }
      }
      pending := pending[fd := {}];
    }

    method ClearEvents(fd: int, events: Mask)
      requires Valid() && fd in pending
      modifies `pending
      ensures Valid() && pending == old(pending)[fd := old(pending)[fd] - events]
    {
      forall ep | ep in insts ensures InstanceOk(insts[ep], items, pending[fd := pending[fd] - events], ep) {
        ClearKeepsInstance(insts[ep], items, pending, ep, fd, events);
      }
      pending := pending[fd := pending[fd] - events];
    }

    method SetEvents(fd: int, events: Mask)
      requires Valid() && fd in pending
      modifies `pending, `insts
      ensures Valid() && pending == old(pending)[fd := old(pending)[fd] + events]
      ensures insts.Keys == old(insts).Keys
      ensures forall ep :: ep in insts ==>
                insts[ep] == AfterSet(old(insts)[ep], items, ep, fd, events - old(pending)[fd])
      ensures forall ep :: ep in insts ==>
                && SameButFor(old(insts)[ep], insts[ep], fd)
                && (fd in insts[ep].active <==>
                      || fd in old(insts)[ep].active
                      || ((ep, fd) in items && items[(ep, fd)].interest * (events - old(pending)[fd]) != {}))
    {
      var news := events - pending[fd];
      if news == {} {
        NothingNew(pending[fd], events);
        return;
      }
      ghost var before, pending0 := insts, pending;
      pending := pending[fd := pending[fd] + events];
      AppendActive(fd, news);
      forall ep | ep in insts ensures InstanceOk(insts[ep], items, pending, ep) {
        SetKeepsInstance(before[ep], items, pending0, ep, fd, events);
      }
    }

    /** The loop over all registrations of a socket. */
    method AppendActive(fd: int, news: Mask)
      modifies `insts
      ensures insts.Keys == old(insts).Keys
      ensures forall ep :: ep in insts ==> insts[ep] == AfterSet(old(insts)[ep], items, ep, fd, news)
    {
      var todo := set ep | ep in insts && (ep, fd) in items;
      while todo != {}
        invariant todo <= insts.Keys == old(insts).Keys
        invariant forall ep :: ep in todo ==> (ep, fd) in items && insts[ep] == old(insts)[ep]
        invariant forall ep :: ep in insts && ep !in todo ==> insts[ep] == AfterSet(old(insts)[ep], items, ep, fd, news)
        decreases |todo|
      {
        SomeElement(todo);
        var ep :| ep in todo;
        if items[(ep, fd)].interest * news != {} {
          if fd !in insts[ep].active {
            insts := insts[ep := insts[ep].(active := insts[ep].active + {fd}, inactive := insts[ep].inactive - {fd})];
          }
        }
        todo := todo - {ep};
      }
    }

    /** ADD, MOD and DEL of a socket on an epoll instance. */
    method Ctl(op: Op, ep: int, fd: int, data: nat, events: Mask) returns (rc: int)
      requires Valid() && ep in insts && fd in pending
      modifies `insts, `items
      ensures Valid()
      ensures rc == (if !op.Del? && !(events <= SUPPORTED) then EINVAL
                     else if op.Add? && (ep, fd) in old(items) then EEXIST
                     else if !op.Add? && (ep, fd) !in old(items) then ENOENT else 0)
      ensures rc != 0 ==> items == old(items) && insts == old(insts)
      ensures rc == 0 ==> items == (match op
                                    case Add => old(items)[(ep, fd) := Item(data, events)]
                                    case Mod => old(items)[(ep, fd) := old(items)[(ep, fd)].(interest := events)]
                                    case Del => old(items) - {(ep, fd)})
      ensures insts.Keys == old(insts).Keys
      ensures rc == 0 && op.Add? ==> insts[ep].numETran == old(insts)[ep].numETran + 1
      ensures rc == 0 && op.Del? ==> insts[ep].numETran == old(insts)[ep].numETran - 1
      ensures rc == 0 && !op.Del? ==>
                (fd in insts[ep].active <==> fd in old(insts)[ep].active || events * pending[fd] != {})
      ensures SameButFor(old(insts)[ep], insts[ep], fd)
      ensures forall e :: e in insts && e != ep ==> insts[e] == old(insts)[e]
    {
      match op
      case Add => rc := AddItem(ep, fd, Item(data, events));
      case Mod => rc := ModItem(ep, fd, events);
      case Del => rc := DelItem(ep, fd);
    }

    method AddItem(ep: int, fd: int, item: Item) returns (rc: int)
      requires Valid() && ep in insts && fd in pending
      modifies `insts, `items
      ensures Valid() && insts.Keys == old(insts).Keys
      ensures rc == if !(item.interest <= SUPPORTED) then EINVAL else if (ep, fd) in old(items) then EEXIST else 0
      ensures rc != 0 ==> items == old(items) && insts == old(insts)
      ensures rc == 0 ==> items == old(items)[(ep, fd) := item] && insts[ep].numETran == old(insts)[ep].numETran + 1
      ensures rc == 0 ==>
                fd !in old(insts)[ep].active && (fd in insts[ep].active <==> item.interest * pending[fd] != {})
      ensures SameButFor(old(insts)[ep], insts[ep], fd) && insts == old(insts)[ep := insts[ep]]
    {
      if !(item.interest <= SUPPORTED) {
        return EINVAL;
      }
      if (ep, fd) in items {
        return EEXIST;
      }
      AddKeepsInstance(insts[ep], items, pending, ep, fd, item);
      var inst := Enlist(insts[ep], fd, item.interest * pending[fd] != {});
      StoreKeepsAll(insts, items, items[(ep, fd) := item], pending, ep, inst);
      items := items[(ep, fd) := item];
      insts := insts[ep := inst];
      rc := 0;
    }

    method ModItem(ep: int, fd: int, events: Mask) returns (rc: int)
      requires Valid() && ep in insts && fd in pending
      modifies `insts, `items
      ensures Valid() && insts.Keys == old(insts).Keys
      ensures rc == if !(events <= SUPPORTED) then EINVAL else if (ep, fd) !in old(items) then ENOENT else 0
      ensures rc != 0 ==> items == old(items) && insts == old(insts)
      ensures rc == 0 ==> items == old(items)[(ep, fd) := old(items)[(ep, fd)].(interest := events)]
      ensures rc == 0 ==> (fd in insts[ep].active <==> fd in old(insts)[ep].active || events * pending[fd] != {})
      ensures SameButFor(old(insts)[ep], insts[ep], fd) && insts == old(insts)[ep := insts[ep]]
    {
      if !(events <= SUPPORTED) {
        return EINVAL;
      }
      if (ep, fd) !in items {
        return ENOENT;
      }
      var item := items[(ep, fd)].(interest := events);
      ModKeepsInstance(insts[ep], items, pending, ep, fd, item);
      assert item.interest * pending[fd] == pending[fd] * item.interest;
      var inst := insts[ep];
      if pending[fd] * item.interest != {} {
        if fd !in inst.active {
          inst := inst.(active := inst.active + {fd}, inactive := inst.inactive - {fd});
        }
      }
      StoreKeepsAll(insts, items, items[(ep, fd) := item], pending, ep, inst);
      items := items[(ep, fd) := item];
      insts := insts[ep := inst];
      rc := 0;
    }

    method DelItem(ep: int, fd: int) returns (rc: int)
      requires Valid() && ep in insts
      modifies `insts, `items
      ensures Valid() && insts.Keys == old(insts).Keys
      ensures rc == if (ep, fd) !in old(items) then ENOENT else 0
      ensures rc != 0 ==> items == old(items) && insts == old(insts)
      ensures rc == 0 ==> items == old(items) - {(ep, fd)} && insts[ep].numETran == old(insts)[ep].numETran - 1
      ensures SameButFor(old(insts)[ep], insts[ep], fd) && insts == old(insts)[ep := insts[ep]]
    {
      if (ep, fd) !in items {
        return ENOENT;
      }
      DelKeepsInstance(insts[ep], items, pending, ep, fd);
      var inst := Unlist(insts[ep], fd);
      StoreKeepsAll(insts, items, items - {(ep, fd)}, pending, ep, inst);
      items := items - {(ep, fd)};
      insts := insts[ep := inst];
      rc := 0;
    }

    /** The scan of the active list: the events of a brute-force scan over every
        registered socket, at most `maxevents`. Unready sockets that it meets
        move to the inactive list. */
    method Wait(ep: int, maxevents: nat) returns (out: seq<Report>)
      requires Valid() && ep in insts
      modifies `insts
      ensures Valid() && insts.Keys == old(insts).Keys
      ensures out == BruteForce(items, pending, ep, old(insts)[ep].active + old(insts)[ep].inactive, maxevents)
      ensures ReportsReady(items, pending, ep, maxevents, out)
      ensures |out| < maxevents ==> insts[ep].active == Ready(items, pending, ep)
      ensures forall e :: e in insts && e != ep ==> insts[e] == old(insts)[e]
      ensures insts[ep].active + insts[ep].inactive == old(insts)[ep].active + old(insts)[ep].inactive
    {
      ScanReportsReady(insts[ep], items, pending, ep, maxevents);
      var inst;
      inst, out := ScanList(insts[ep], items, pending, ep, maxevents);
      insts := insts[ep := inst];
    }
  }

  /** `out` is what the scan of `first` has reported when `rest` is left. */
  ghost predicate ScannedSoFar(items: Items, pending: map<int, Mask>, ep: int, first: set<int>, max: nat,
                               out: seq<Report>, rest: set<int>) {
    && |out| <= max
    && BruteForce(items, pending, ep, first, max) == out + BruteForce(items, pending, ep, rest, max - |out|)
  }

  lemma ScanOne(items: Items, pending: map<int, Mask>, ep: int, first: set<int>, max: nat, out: seq<Report>,
                rest: set<int>, fd: int)
    requires ScannedSoFar(items, pending, ep, first, max, out, rest) && |out| < max
    requires fd in rest && forall x :: x in rest ==> fd <= x
    ensures IsReady(items, pending, ep, fd) ==>
              ScannedSoFar(items, pending, ep, first, max, out + [ReportOf(items, pending, ep, fd)], rest - {fd})
    ensures !IsReady(items, pending, ep, fd) ==> ScannedSoFar(items, pending, ep, first, max, out, rest - {fd})
  {
    assert fd == Smallest(rest);
  }

  /** The active sockets that the scan has passed are ready. */
  ghost predicate ReadyOutside(inst: Instance, items: Items, pending: map<int, Mask>, ep: int, rest: set<int>) {
    forall fd :: fd in inst.active && fd !in rest ==> IsReady(items, pending, ep, fd)
  }

  lemma ActiveAreReady(inst: Instance, items: Items, pending: map<int, Mask>, ep: int)
    requires InstanceOk(inst, items, pending, ep) && ReadyOutside(inst, items, pending, ep, {})
    ensures inst.active == Ready(items, pending, ep)
  {
    forall fd ensures fd in inst.active <==> fd in Ready(items, pending, ep) {
      ReadyIff(items, pending, ep, fd);
    }
  }

  /** The loop over one active list. */
  method ScanList(before: Instance, items: Items, pending: map<int, Mask>, ep: int, maxevents: nat)
    returns (inst: Instance, out: seq<Report>)
    requires InstanceOk(before, items, pending, ep) && forall fd :: (ep, fd) in items ==> fd in pending
    ensures InstanceOk(inst, items, pending, ep) && inst.active + inst.inactive == before.active + before.inactive
    ensures out == BruteForce(items, pending, ep, before.active + before.inactive, maxevents)
    ensures |out| < maxevents ==> inst.active == Ready(items, pending, ep)
  {
    inst, out := before, [];
    var rest := inst.active;
    while rest != {} && |out| < maxevents
      invariant InstanceOk(inst, items, pending, ep) && inst.active + inst.inactive == before.active + before.inactive
      invariant rest <= inst.active && ScannedSoFar(items, pending, ep, before.active, maxevents, out, rest)
      invariant ReadyOutside(inst, items, pending, ep, rest)
      decreases |rest|
    {
      inst, out, rest := ScanNext(inst, items, pending, ep, out, rest, before.active, maxevents);
    }
    ScanFinished(before, items, pending, ep, maxevents, out, rest);
    if rest == {} {
      ActiveAreReady(inst, items, pending, ep);
    }
  }

  lemma ScanFinished(inst: Instance, items: Items, pending: map<int, Mask>, ep: int,
                     max: nat, out: seq<Report>, rest: set<int>)
    requires InstanceOk(inst, items, pending, ep)
    requires ScannedSoFar(items, pending, ep, inst.active, max, out, rest) && (rest == {} || |out| == max)
    ensures out == BruteForce(items, pending, ep, inst.active + inst.inactive, max)
  {
    UnreadyDoNotMatter(items, pending, ep, inst.active + inst.inactive, inst.active, max);
  }

  /** One turn of the loop: the next socket of the ordered list. */
  method ScanNext(before: Instance, items: Items, pending: map<int, Mask>, ep: int,
                  out: seq<Report>, rest: set<int>, ghost first: set<int>, ghost max: nat)
    returns (inst: Instance, out': seq<Report>, rest': set<int>)
    requires InstanceOk(before, items, pending, ep) && (forall fd :: (ep, fd) in items ==> fd in pending)
    requires rest != {} && rest <= before.active
    requires ScannedSoFar(items, pending, ep, first, max, out, rest) && |out| < max
    requires ReadyOutside(before, items, pending, ep, rest)
    ensures InstanceOk(inst, items, pending, ep) && ReadyOutside(inst, items, pending, ep, rest')
    ensures inst.active + inst.inactive == before.active + before.inactive
    ensures rest' <= inst.active && |rest'| < |rest|
    ensures ScannedSoFar(items, pending, ep, first, max, out', rest')
  {
    SmallestExists(rest);
    var fd :| fd in rest && forall x :: x in rest ==> fd <= x;
    ScanOne(items, pending, ep, first, max, out, rest, fd);
    var ready;
    ready, inst := ScanSocket(before, items, pending, ep, fd);
    out' := out;
    if ready {
      out' := out + [Report(fd, items[(ep, fd)].data, items[(ep, fd)].interest * pending[fd])];
    }
    rest' := rest - {fd};
  }

  /** A socket of the active list: a ready one stays, another one is moved. */
  method ScanSocket(before: Instance, items: Items, pending: map<int, Mask>, ep: int, fd: int)
    returns (ready: bool, inst: Instance)
    requires InstanceOk(before, items, pending, ep) && fd in before.active
    requires forall g :: (ep, g) in items ==> g in pending
    ensures (ep, fd) in items && fd in pending && (ready <==> IsReady(items, pending, ep, fd))
    ensures InstanceOk(inst, items, pending, ep)
    ensures inst.active + inst.inactive == before.active + before.inactive && before.active - {fd} <= inst.active
    ensures inst.active == if ready then before.active else before.active - {fd}
  {
    assert (ep, fd) in items;
    inst := before;
    ready := items[(ep, fd)].interest * pending[fd] != {};
    if !ready {
      ParkKeepsInstance(inst, items, pending, ep, fd);
      inst := inst.(active := inst.active - {fd}, inactive := inst.inactive + {fd});
    }
  }

  /** The statements of a registration on the lists. */
  method Enlist(before: Instance, fd: int, ready: bool) returns (inst: Instance)
    requires fd !in before.active && fd !in before.inactive
    ensures inst == AfterAdd(before, fd, ready)
  {
    inst := before.(inactive := before.inactive + {fd});
    if ready {
      inst := inst.(active := inst.active + {fd}, inactive := inst.inactive - {fd});
    }
    inst := inst.(numETran := inst.numETran + 1);
    assert before.inactive + {fd} - {fd} == before.inactive;
  }

  /** The statements of a removal: the inactive list first. */
  method Unlist(before: Instance, fd: int) returns (inst: Instance)
    requires before.active !! before.inactive
    ensures inst == AfterDel(before, fd)
  {
    inst := before;
    if fd in inst.inactive {
      inst := inst.(inactive := inst.inactive - {fd});
    } else if fd in inst.active {
      inst := inst.(active := inst.active - {fd});
    }
    inst := inst.(numETran := inst.numETran - 1);
    assert inst.active == before.active - {fd} && inst.inactive == before.inactive - {fd};
  }

  lemma NothingNew(pending: Mask, events: Mask)
    requires events - pending == {}
    ensures pending + events == pending
  {
    assert forall x :: x in events ==> x in pending || x in events - pending;
  }

  /** Changing the registrations of one instance leaves the others right. */
  lemma OthersKept(insts: map<int, Instance>, items: Items, items': Items, pending: map<int, Mask>, ep: int)
    requires AllOk(insts, items, pending)
    requires forall e, fd :: e != ep ==> ((e, fd) in items <==> (e, fd) in items')
    requires forall e, fd :: e != ep && (e, fd) in items ==> items'[(e, fd)] == items[(e, fd)]
    ensures forall e :: e in insts && e != ep ==> InstanceOk(insts[e], items', pending, e)
  {
    forall e | e in insts && e != ep ensures InstanceOk(insts[e], items', pending, e) {
      OtherInstance(insts[e], items, items', pending, e);
    }
  }

  lemma StoreKeepsAll(insts: map<int, Instance>, items: Items, items': Items, pending: map<int, Mask>, ep: int,
                      inst: Instance)
    requires AllOk(insts, items, pending) && ep in insts && InstanceOk(inst, items', pending, ep)
    requires forall e, fd :: e != ep ==> ((e, fd) in items <==> (e, fd) in items')
    requires forall e, fd :: e != ep && (e, fd) in items ==> items'[(e, fd)] == items[(e, fd)]
    requires forall fd :: (ep, fd) in items' ==> fd in pending
    ensures AllOk(insts[ep := inst], items', pending)
  {
    OthersKept(insts, items, items', pending, ep);
  }
}
