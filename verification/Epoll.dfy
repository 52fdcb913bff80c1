/** The readiness index of the epoll layer: per epoll instance an active and an
    inactive list of sockets, kept lazily, against a brute-force scan. */
module Epoll {

  /** An event mask, as the set of its bit numbers. */
  type Mask = set<nat>

  /** EPOLLIN, EPOLLOUT, EPOLLERR, EPOLLHUP, EPOLLONESHOT and EPOLLET. */
  const SUPPORTED: Mask := {0, 2, 3, 4, 30, 31}

  const EEXIST: int := -17
  const EINVAL: int := -22
  const ENOENT: int := -2

  /** The registration of one socket with one epoll instance. */
  datatype Item = Item(data: nat, interest: Mask)

  /** The two lists, by socket fd, and the count of registered sockets. */
  datatype Instance = Instance(active: set<int>, inactive: set<int>, numETran: int)

  datatype Op = Add | Mod | Del

  /** One reported event. */
  datatype Report = Report(fd: int, data: nat, events: Mask)

  type Items = map<(int, int), Item>

  predicate IsReady(items: Items, pending: map<int, Mask>, ep: int, fd: int) {
    (ep, fd) in items && fd in pending && items[(ep, fd)].interest * pending[fd] != {}
  }

  /** One epoll instance: the lists partition the registered sockets, the count
      is their total, and every ready socket is active. */
  ghost predicate InstanceOk(inst: Instance, items: Items, pending: map<int, Mask>, ep: int) {
    && inst.active !! inst.inactive
    && (forall fd :: (ep, fd) in items <==> fd in inst.active || fd in inst.inactive)
    && inst.numETran == |inst.active| + |inst.inactive|
    && (forall fd :: IsReady(items, pending, ep, fd) ==> fd in inst.active)
  }

  ghost predicate AllOk(insts: map<int, Instance>, items: Items, pending: map<int, Mask>) {
    && (forall ep :: ep in insts ==> InstanceOk(insts[ep], items, pending, ep))
    && (forall ep, fd :: (ep, fd) in items ==> ep in insts && fd in pending)
  }

  // ----- the brute-force scan -----

  lemma SomeElement(s: set<int>)
    ensures s == {} || exists x :: x in s
  {
    if forall x :: x !in s {
      assert s == {};
    }
  }

  lemma {:induction false} SmallestExists(s: set<int>)
    requires s != {}
    ensures exists m :: m in s && forall x :: x in s ==> m <= x
  {
    SomeElement(s);
    var a :| a in s;
    var rest := s - {a};
    if rest == {} {
      assert s == {a};
      assert a in s && forall x :: x in s ==> a <= x;
    } else {
      SmallestExists(rest);
      var m :| m in rest && forall x :: x in rest ==> m <= x;
      var least := if a <= m then a else m;
      assert forall x :: x in s ==> x == a || x in rest;
      assert least in s;
    }
  }

  ghost function Smallest(s: set<int>): (m: int)
    requires s != {}
    ensures m in s && forall x :: x in s ==> m <= x
  {
    SmallestExists(s);
    var m :| m in s && forall x :: x in s ==> m <= x;
    m
  }

  function ReportOf(items: Items, pending: map<int, Mask>, ep: int, fd: int): Report
    requires IsReady(items, pending, ep, fd)
  {
    Report(fd, items[(ep, fd)].data, items[(ep, fd)].interest * pending[fd])
  }

  /** Look at every socket of `fds` in ascending order and report the ready ones,
      at most `max` of them. */
  ghost function BruteForce(items: Items, pending: map<int, Mask>, ep: int, fds: set<int>, max: nat): seq<Report>
    decreases |fds|
  {
    if fds == {} || max == 0 then []
    else
      var fd := Smallest(fds);
      if IsReady(items, pending, ep, fd)
      then [ReportOf(items, pending, ep, fd)] + BruteForce(items, pending, ep, fds - {fd}, max - 1)
      else BruteForce(items, pending, ep, fds - {fd}, max)
  }

  ghost function ReadySet(items: Items, pending: map<int, Mask>, ep: int, fds: set<int>): set<int> {
    set fd | fd in fds && IsReady(items, pending, ep, fd)
  }

  /** The scan reports as many events as there are ready sockets, up to `max`. */
  lemma {:induction false} BruteForceLength(items: Items, pending: map<int, Mask>, ep: int, fds: set<int>, max: nat)
    ensures var r := |ReadySet(items, pending, ep, fds)|;
            |BruteForce(items, pending, ep, fds, max)| == if r <= max then r else max
    decreases |fds|
  {
    var ready := ReadySet(items, pending, ep, fds);
    if fds == {} {
      assert ready == {};
    } else if max > 0 {
      var fd := Smallest(fds);
      var rest := ReadySet(items, pending, ep, fds - {fd});
      if IsReady(items, pending, ep, fd) {
        assert ready == rest + {fd};
        BruteForceLength(items, pending, ep, fds - {fd}, max - 1);
      } else {
        assert ready == rest;
        BruteForceLength(items, pending, ep, fds - {fd}, max);
      }
    }
  }

  /** Sockets that are not ready do not matter to the scan. */
  lemma {:induction false} UnreadyDoNotMatter(items: Items, pending: map<int, Mask>, ep: int, fds: set<int>,
                                              fewer: set<int>, max: nat)
    requires fewer <= fds
    requires forall fd :: fd in fds && IsReady(items, pending, ep, fd) ==> fd in fewer
    ensures BruteForce(items, pending, ep, fewer, max) == BruteForce(items, pending, ep, fds, max)
    decreases |fds|
  {
    if fds != {} && max > 0 {
      var fd := Smallest(fds);
      if fd in fewer {
        assert Smallest(fewer) == fd;
        UnreadyDoNotMatter(items, pending, ep, fds - {fd}, fewer - {fd},
                           if IsReady(items, pending, ep, fd) then max - 1 else max);
      } else {
        assert fewer <= fds - {fd};
        UnreadyDoNotMatter(items, pending, ep, fds - {fd}, fewer, max);
      }
    } else {
      assert fds == {} ==> fewer == {};
    }
  }

  /** A report of a registered socket: the user's data and those of the pending events
      that were asked for, of which there is at least one. */
  predicate IsReport(items: Items, pending: map<int, Mask>, ep: int, r: Report) {
    && (ep, r.fd) in items && r.fd in pending
    && r.data == items[(ep, r.fd)].data
    && r.events == items[(ep, r.fd)].interest * pending[r.fd] != {}
  }

  /** The reports are of ready sockets, in strictly ascending order. */
  ghost predicate Ascending(items: Items, pending: map<int, Mask>, ep: int, fds: set<int>, out: seq<Report>) {
    && (forall r :: r in out ==> r.fd in fds && IsReport(items, pending, ep, r))
    && (forall i, j :: 0 <= i < j < |out| ==> out[i].fd < out[j].fd)
  }

  lemma {:induction false} BruteForceAscends(items: Items, pending: map<int, Mask>, ep: int, fds: set<int>, max: nat)
    ensures Ascending(items, pending, ep, fds, BruteForce(items, pending, ep, fds, max))
    decreases |fds|
  {
    if fds != {} && max > 0 {
      var fd := Smallest(fds);
      if IsReady(items, pending, ep, fd) {
        BruteForceAscends(items, pending, ep, fds - {fd}, max - 1);
        var rest := BruteForce(items, pending, ep, fds - {fd}, max - 1);
        forall j | 0 <= j < |rest| ensures fd < rest[j].fd {
          assert rest[j] in rest;
        }
      } else {
        BruteForceAscends(items, pending, ep, fds - {fd}, max);
      }
    }
  }

  ghost predicate Reports(out: seq<Report>, fd: int) {
    exists r :: r in out && r.fd == fd
  }

  /** A ready socket is not passed over for a later one. */
  ghost predicate NoneSkipped(items: Items, pending: map<int, Mask>, ep: int, fds: set<int>, out: seq<Report>) {
    forall fd, r :: fd in fds && IsReady(items, pending, ep, fd) && r in out && fd < r.fd ==> Reports(out, fd)
  }

  lemma {:induction false} BruteForceSkipsNone(items: Items, pending: map<int, Mask>, ep: int, fds: set<int>, max: nat)
    ensures NoneSkipped(items, pending, ep, fds, BruteForce(items, pending, ep, fds, max))
    decreases |fds|
  {
    if fds != {} && max > 0 {
      var fd0 := Smallest(fds);
      if IsReady(items, pending, ep, fd0) {
        BruteForceSkipsNone(items, pending, ep, fds - {fd0}, max - 1);
        var head, rest := ReportOf(items, pending, ep, fd0), BruteForce(items, pending, ep, fds - {fd0}, max - 1);
        assert head in [head] + rest;
        forall fd | Reports(rest, fd) ensures Reports([head] + rest, fd) {
          var r :| r in rest && r.fd == fd;
          assert r in [head] + rest;
        }
      } else {
        BruteForceSkipsNone(items, pending, ep, fds - {fd0}, max);
      }
    }
  }

  /** The registered sockets whose interest meets their pending events. */
  ghost function Ready(items: Items, pending: map<int, Mask>, ep: int): set<int> {
    set fd | fd in pending && (ep, fd) in items && items[(ep, fd)].interest * pending[fd] != {}
  }

  /** What waiting on `ep` promises: correct reports, in ascending order of socket, as
      many as there are ready sockets, up to `max`, and the first ones. */
  ghost predicate ReportsReady(items: Items, pending: map<int, Mask>, ep: int, max: nat, out: seq<Report>) {
    && (forall r :: r in out ==> IsReport(items, pending, ep, r))
    && (forall i, j :: 0 <= i < j < |out| ==> out[i].fd < out[j].fd)
    && |out| == (if |Ready(items, pending, ep)| <= max then |Ready(items, pending, ep)| else max)
    && (forall fd, r :: fd in Ready(items, pending, ep) && r in out && fd < r.fd ==> Reports(out, fd))
  }

  lemma ReadyIff(items: Items, pending: map<int, Mask>, ep: int, fd: int)
    ensures fd in Ready(items, pending, ep) <==> IsReady(items, pending, ep, fd)
  {
  }

  lemma ReadyAmong(items: Items, pending: map<int, Mask>, ep: int, fds: set<int>)
    requires forall fd :: (ep, fd) in items ==> fd in fds
    ensures Ready(items, pending, ep) == ReadySet(items, pending, ep, fds)
  {
    forall fd ensures fd in Ready(items, pending, ep) <==> fd in ReadySet(items, pending, ep, fds) {
      ReadyIff(items, pending, ep, fd);
    }
  }

  lemma ScanReportsReady(inst: Instance, items: Items, pending: map<int, Mask>, ep: int, max: nat)
    requires InstanceOk(inst, items, pending, ep)
    ensures ReportsReady(items, pending, ep, max, BruteForce(items, pending, ep, inst.active + inst.inactive, max))
  {
    BruteForceAscends(items, pending, ep, inst.active + inst.inactive, max);
    BruteForceLength(items, pending, ep, inst.active + inst.inactive, max);
    BruteForceSkipsNone(items, pending, ep, inst.active + inst.inactive, max);
    ReadyAmong(items, pending, ep, inst.active + inst.inactive);
  }

  // ----- how each operation keeps the index right -----

  /** The lists agree on every socket but `fd`. */
  ghost predicate SameButFor(before: Instance, inst: Instance, fd: int) {
    forall g :: g != fd ==>
      && (g in inst.active <==> g in before.active)
      && (g in inst.inactive <==> g in before.inactive)
  }

  function Activated(inst: Instance, fd: int): Instance {
    if fd in inst.active then inst else inst.(active := inst.active + {fd}, inactive := inst.inactive - {fd})
  }

  /** What setting `events` on `fd` does to one instance. */
  function AfterSet(inst: Instance, items: Items, ep: int, fd: int, news: Mask): Instance {
    if (ep, fd) in items && items[(ep, fd)].interest * news != {} then Activated(inst, fd) else inst
  }

  lemma ActivateKeepsCount(inst: Instance, fd: int)
    requires inst.active !! inst.inactive && (fd in inst.active || fd in inst.inactive)
    requires inst.numETran == |inst.active| + |inst.inactive|
    ensures var inst' := Activated(inst, fd);
            && inst'.active !! inst'.inactive && inst'.numETran == |inst'.active| + |inst'.inactive|
            && (forall x :: x in inst'.active || x in inst'.inactive <==> x in inst.active || x in inst.inactive)
  {
  }

  lemma NewEventsReady(want: Mask, pending: Mask, events: Mask)
    ensures want * (pending + events) != {} <==> want * pending != {} || want * (events - pending) != {}
  {
    assert want * (pending + events) == want * pending + want * (events - pending);
  }

  /** Setting events: a socket that becomes ready becomes active. */
  lemma SetKeepsInstance(inst: Instance, items: Items, pending: map<int, Mask>, ep: int, fd: int, events: Mask)
    requires InstanceOk(inst, items, pending, ep) && fd in pending
    ensures InstanceOk(AfterSet(inst, items, ep, fd, events - pending[fd]), items,
                       pending[fd := pending[fd] + events], ep)
  {
    var inst' := AfterSet(inst, items, ep, fd, events - pending[fd]);
    if (ep, fd) in items {
      ActivateKeepsCount(inst, fd);
    }
    forall g | IsReady(items, pending[fd := pending[fd] + events], ep, g)
      ensures g in inst'.active
    {
      SetKeepsReady(inst, items, pending, ep, fd, events, g);
    }
  }

  lemma SetKeepsReady(inst: Instance, items: Items, pending: map<int, Mask>, ep: int, fd: int, events: Mask, g: int)
    requires forall x :: IsReady(items, pending, ep, x) ==> x in inst.active
    requires fd in pending && IsReady(items, pending[fd := pending[fd] + events], ep, g)
    ensures g in AfterSet(inst, items, ep, fd, events - pending[fd]).active
  {
    if g != fd {
      assert IsReady(items, pending, ep, g);
    } else {
      NewEventsReady(items[(ep, fd)].interest, pending[fd], events);
      if items[(ep, fd)].interest * pending[fd] != {} {
        assert IsReady(items, pending, ep, fd);
      }
    }
  }

  lemma ClearKeepsInstance(inst: Instance, items: Items, pending: map<int, Mask>, ep: int, fd: int, events: Mask)
    requires InstanceOk(inst, items, pending, ep) && fd in pending
    ensures InstanceOk(inst, items, pending[fd := pending[fd] - events], ep)
  {
    var pending' := pending[fd := pending[fd] - events];
    forall g | IsReady(items, pending', ep, g) ensures g in inst.active {
      var want := items[(ep, g)].interest;
      assert want * (pending[g] - events) <= want * pending[g];
      assert IsReady(items, pending, ep, g);
    }
  }

  /** The instance after a registration. */
  function AfterAdd(inst: Instance, fd: int, ready: bool): Instance {
    if ready then Instance(inst.active + {fd}, inst.inactive, inst.numETran + 1)
    else Instance(inst.active, inst.inactive + {fd}, inst.numETran + 1)
  }

  lemma AddCount(inst: Instance, fd: int)
    requires fd !in inst.active && fd !in inst.inactive
    ensures |inst.active + {fd}| == |inst.active| + 1 && |inst.inactive + {fd}| == |inst.inactive| + 1
  {
  }

  lemma AddKeepsInstance(inst: Instance, items: Items, pending: map<int, Mask>, ep: int, fd: int, item: Item)
    requires InstanceOk(inst, items, pending, ep) && fd in pending && (ep, fd) !in items
    ensures InstanceOk(AfterAdd(inst, fd, item.interest * pending[fd] != {}), items[(ep, fd) := item], pending, ep)
  {
    var items', ready := items[(ep, fd) := item], item.interest * pending[fd] != {};
    AddKeepsLists(inst, fd, ready);
    forall g ensures (ep, g) in items' <==> g in AfterAdd(inst, fd, ready).active
                                            || g in AfterAdd(inst, fd, ready).inactive {
      assert (ep, g) in items <==> g in inst.active || g in inst.inactive;
    }
    forall g | IsReady(items', pending, ep, g) ensures g in AfterAdd(inst, fd, ready).active {
      AddKeepsReady(inst, items, pending, ep, fd, item, g);
    }
  }

  lemma AddKeepsLists(inst: Instance, fd: int, ready: bool)
    requires inst.active !! inst.inactive && fd !in inst.active && fd !in inst.inactive
    requires inst.numETran == |inst.active| + |inst.inactive|
    ensures var inst' := AfterAdd(inst, fd, ready);
            && inst'.active !! inst'.inactive && inst'.numETran == |inst'.active| + |inst'.inactive|
            && forall g :: g in inst'.active || g in inst'.inactive <==>
                             g in inst.active || g in inst.inactive || g == fd
  {
    AddCount(inst, fd);
  }

  lemma AddKeepsReady(inst: Instance, items: Items, pending: map<int, Mask>, ep: int, fd: int, item: Item, g: int)
    requires forall x :: IsReady(items, pending, ep, x) ==> x in inst.active
    requires fd in pending && IsReady(items[(ep, fd) := item], pending, ep, g)
    ensures g in AfterAdd(inst, fd, item.interest * pending[fd] != {}).active
  {
    if g != fd {
      assert IsReady(items, pending, ep, g);
    }
  }

  lemma ModKeepsInstance(inst: Instance, items: Items, pending: map<int, Mask>, ep: int, fd: int, item: Item)
    requires InstanceOk(inst, items, pending, ep) && fd in pending && (ep, fd) in items
    ensures InstanceOk(if item.interest * pending[fd] != {} then Activated(inst, fd) else inst,
                       items[(ep, fd) := item], pending, ep)
  {
    var items' := items[(ep, fd) := item];
    ActivateKeepsCount(inst, fd);
    forall g | IsReady(items', pending, ep, g)
      ensures g in Activated(inst, fd).active && (g != fd ==> g in inst.active)
    {
      if g != fd { assert IsReady(items, pending, ep, g); }
    }
  }

  function AfterDel(inst: Instance, fd: int): Instance {
    Instance(inst.active - {fd}, inst.inactive - {fd}, inst.numETran - 1)
  }

  lemma DelKeepsInstance(inst: Instance, items: Items, pending: map<int, Mask>, ep: int, fd: int)
    requires InstanceOk(inst, items, pending, ep) && (ep, fd) in items
    ensures InstanceOk(AfterDel(inst, fd), items - {(ep, fd)}, pending, ep)
  {
    var items' := items - {(ep, fd)};
    forall g | IsReady(items', pending, ep, g) ensures g in inst.active - {fd} {
      assert IsReady(items, pending, ep, g);
    }
  }

  /** Nothing else than the items of `ep` matters to instance `ep`. */
  lemma OtherInstance(inst: Instance, items: Items, items': Items, pending: map<int, Mask>, ep: int)
    requires InstanceOk(inst, items, pending, ep)
    requires forall fd :: (ep, fd) in items <==> (ep, fd) in items'
    requires forall fd :: (ep, fd) in items ==> items'[(ep, fd)] == items[(ep, fd)]
    ensures InstanceOk(inst, items', pending, ep)
  {
    forall g | IsReady(items', pending, ep, g) ensures g in inst.active {
      assert IsReady(items, pending, ep, g);
    }
  }

  /** Moving an unready socket to the inactive list. */
  function Parked(inst: Instance, fd: int): Instance {
    inst.(active := inst.active - {fd}, inactive := inst.inactive + {fd})
  }

  lemma ParkKeepsInstance(inst: Instance, items: Items, pending: map<int, Mask>, ep: int, fd: int)
    requires InstanceOk(inst, items, pending, ep) && fd in inst.active && !IsReady(items, pending, ep, fd)
    ensures InstanceOk(Parked(inst, fd), items, pending, ep)
    ensures Parked(inst, fd).active + Parked(inst, fd).inactive == inst.active + inst.inactive
  {
    var inst' := Parked(inst, fd);
    assert inst'.active + inst'.inactive == inst.active + inst.inactive;
  }
}
