/** The poller and its channels as objects.  Every method is proved to act on the
 *  registry as the function of module `PollerSpec` with its name.
 */
module Poller {
  import opened Common
  import opened PollerSpec

  const INIT_EVENT_LIST_SIZE: nat := 16

  /** A channel is its descriptor, its interest, what the last poll reported for it, and
      the poller's mark on it. */
  class ChannelObject {
    const fd: int
    var events: bv32
    var revents: bv32
    var index: Index

    constructor (fd: int)
      ensures this.fd == fd && View() == Channel(NONE_EVENT, New) && revents == 0
    {
      this.fd := fd;
      events, revents, index := NONE_EVENT, 0, New;
    }

    ghost function View(): Channel
      reads `events, `index
    {
      Channel(events, index)
    }
  }

  class EPollPoller {
    var channels: map<int, ChannelObject>
    var capacity: nat
    // The channels of the loop that owns the poller, and the state of the kernel.
    ghost var known: map<int, ChannelObject>
    ghost var kernel: map<int, bv32>
    ghost var refused: nat

    ghost predicate Valid()
      reads this
    {
      && (forall fd :: fd in known ==> known[fd].fd == fd)
      && (forall fd :: fd in channels ==> fd in known && channels[fd] == known[fd])
    }

    ghost predicate Knows(c: ChannelObject)
      reads this
    {
      c.fd in known && known[c.fd] == c
    }

    ghost function View(): Registry
      reads this, known.Values`events, known.Values`index
    {
      Registry(map fd | fd in known :: known[fd].View(), channels.Keys, kernel, refused)
    }

    constructor (ghost known: map<int, ChannelObject>)
      requires forall fd :: fd in known ==> known[fd].fd == fd
      ensures Valid() && this.known == known && channels == map[] && kernel == map[] && refused == 0
      ensures capacity == INIT_EVENT_LIST_SIZE
    {
      channels, capacity := map[], INIT_EVENT_LIST_SIZE;
      this.known, kernel, refused := known, map[], 0;
    }

    /** `update`, which asks the kernel */
    method Update(request: Request, c: ChannelObject)
      requires Valid() && Knows(c)
      modifies `kernel, `refused
      ensures Valid() && View() == Control(old(View()), request, c.fd)
    {
      ghost var r := Control(View(), request, c.fd);
      kernel, refused := r.kernel, r.refused;
    }

    method SetIndex(c: ChannelObject, index: Index)
      requires Valid() && Knows(c)
      modifies c`index
      ensures Valid() && View() == PollerSpec.SetIndex(old(View()), c.fd, index)
    {
      ghost var r := View();
      c.index := index;
      assert forall fd :: fd in known && fd != c.fd ==> known[fd] != c && known[fd].View() == r.channels[fd];
      assert View().channels == PollerSpec.SetIndex(r, c.fd, index).channels;
    }

    method UpdateChannel(c: ChannelObject)
      requires Valid() && Knows(c)
      modifies `channels, `kernel, `refused, c`index
      ensures Valid() && View() == PollerSpec.UpdateChannel(old(View()), c.fd)
    {
      ghost var r := View();
      var index := c.index;
      if index == New || index == Deleted {
        if index == New {
          channels := channels[c.fd := c];
          assert View() == r.(table := r.table + {c.fd});
        }
        SetIndex(c, Added);
        Update(Add, c);
      } else if c.events == NONE_EVENT {
        Update(Delete, c);
        SetIndex(c, Deleted);
      } else {
        Update(Modify, c);
      }
    }

    method RemoveChannel(c: ChannelObject)
      requires Valid() && Knows(c)
      modifies `channels, `kernel, `refused, c`index
      ensures Valid() && View() == PollerSpec.RemoveChannel(old(View()), c.fd)
    {
      ghost var r := View();
      channels := channels - {c.fd};
      assert View() == r.(table := r.table - {c.fd});
      var index := c.index;
      if index == Added {
        Update(Delete, c);
      }
      SetIndex(c, New);
    }

    method SetEvents(c: ChannelObject, events: bv32)
      requires Valid() && Knows(c)
      modifies c`events
      ensures Valid()
      ensures View() == old(View()).(channels := old(View()).channels[c.fd := old(View()).channels[c.fd].(events := events)])
    {
      ghost var r := View();
      c.events := events;
      assert forall fd :: fd in known && fd != c.fd ==> known[fd] != c && known[fd].View() == r.channels[fd];
      assert View().channels == r.channels[c.fd := c.View()];
    }

    /** The operations of class `Channel`: all but `remove` change the interest and end
        by updating the poller. */
    method Perform(c: ChannelObject, op: Op)
      requires Valid() && Knows(c)
      modifies `channels, `kernel, `refused, c`index, c`events
      ensures Valid() && View() == Apply(old(View()), c.fd, op)
    {
      hide PollerSpec.UpdateChannel, PollerSpec.RemoveChannel, NewEvents;
      if op == Remove {
        RemoveChannel(c);
        return;
      }
      SetEvents(c, NewEvents(c.events, op));
      UpdateChannel(c);
    }

    /** `fillActiveChannels`: the reported channels, in order, with what was reported. */
    method FillActiveChannels(n: int, ready: seq<(ChannelObject, bv32)>) returns (active: seq<ChannelObject>)
      requires n <= |ready|
      requires forall j, k :: 0 <= j < k < |ready| ==> ready[j].0 != ready[k].0
      modifies set e | e in ready :: e.0`revents
      ensures |active| == if n < 0 then 0 else n
      ensures forall k :: 0 <= k < |active| ==> active[k] == ready[k].0 && active[k].revents == ready[k].1
    {
      active := [];
      var i := 0;
      while i < n
        invariant 0 <= i && (n < 0 ==> i == 0) && (n >= 0 ==> i <= n) && |active| == i
        invariant forall k :: 0 <= k < i ==> active[k] == ready[k].0 && active[k].revents == ready[k].1
      {
        var c := ready[i].0;
        assert ready[i] in ready;
        c.revents := ready[i].1;
        active := active + [c];
        i := i + 1;
      }
    }

    lemma ReportedAreAdded(active: seq<ChannelObject>)
      requires Valid() && Agree(View()) && forall k :: 0 <= k < |active| ==> Knows(active[k]) && active[k].fd in kernel
      ensures forall c :: c in active ==> c.index == Added
    {
      forall c | c in active ensures c.index == Added {
        assert View().channels[c.fd] == c.View();
      }
    }

    /** `poll`, when epoll_wait returns `result`.  The count is kept in a size_t, so an
        error counts as more events than any list can hold; it still fills in none. */
    method Poll(result: int, ready: seq<(ChannelObject, bv32)>) returns (active: seq<ChannelObject>)
      requires Valid() && capacity < SIZE_T / 2 && (result == -1 || 0 <= result == |ready| <= capacity)
      requires result < INT_LIMIT
      requires forall j, k :: 0 <= j < k < |ready| ==> ready[j].0 != ready[k].0
      requires result == -1 ==> ready == []
      requires forall k :: 0 <= k < |ready| ==> Knows(ready[k].0) && ready[k].0.fd in kernel
      modifies `capacity, set e | e in ready :: e.0`revents
      ensures Valid() && View() == old(View())
      ensures result == -1 ==> active == [] && capacity == old(capacity)
      ensures result >= 0 ==> |active| == result
      ensures forall k :: 0 <= k < |active| ==> active[k] == ready[k].0 && active[k].revents == ready[k].1
      ensures Agree(View()) ==> forall c :: c in active ==> c.index == Added
      ensures result == old(capacity) > 0 ==> capacity == 2 * old(capacity)
    {
      hide Agree;
      var numEvents := result % SIZE_T;
      active := [];
      if numEvents > 0 {
        active := FillActiveChannels(if numEvents == SIZE_T - 1 then -1 else numEvents, ready);
        if numEvents == capacity {
          capacity := capacity * 2;
        }
      }
      if Agree(View()) {
        ReportedAreAdded(active);
      }
    }
  }
}
