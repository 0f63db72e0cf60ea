/** The cumulative release flusher: marks hand out tickets, a flush sends the latest sequence of every dirty group
    outside the lock, and an acknowledgement completes the tickets that it covers. */
module ReleaseFlusher {

  datatype Group = Group(credentialID: string, model: string)

  /** Channels, numbered in the order they were made. */
  type Channel = nat

  datatype ReleaseState = ReleaseState(latest: int, acked: int, waiters: map<int, seq<Channel>>)

  const CLEAN: ReleaseState := ReleaseState(0, 0, map[])

  datatype Ticket = Ticket(group: Group, sequence: int)

  datatype Mark = Mark(group: Group, sequence: int)

  type Groups = map<Group, ReleaseState>

  /** The state of a group, the zero state if it was never marked. */
  function StateOf(groups: Groups, g: Group): ReleaseState {
    if g in groups then groups[g] else CLEAN
  }

  ghost predicate Distinct(channels: seq<Channel>) {
    forall i, j :: 0 <= i < j < |channels| ==> channels[i] != channels[j]
  }

  /** Outstanding waiters lie in (acked, latest], and there are some at latest if anything is outstanding. */
  ghost predicate Ordered(s: ReleaseState) {
    && 0 <= s.acked <= s.latest
    && (forall q :: q in s.waiters ==> s.acked < q <= s.latest && s.waiters[q] != [] && Distinct(s.waiters[q]))
    && (s.acked < s.latest ==> s.latest in s.waiters)
  }

  /** Every waiting channel is the channel of a ticket for the sequence that it waits for. */
  ghost predicate WaitersTicketed(groups: Groups, tickets: map<Channel, Ticket>) {
    forall g, q, i :: g in groups && q in groups[g].waiters && 0 <= i < |groups[g].waiters[q]| ==>
      groups[g].waiters[q][i] in tickets && tickets[groups[g].waiters[q][i]] == Ticket(g, q)
  }

  /** A ticket's channel is closed exactly when its sequence is acknowledged. */
  ghost predicate ClosedIffAcked(groups: Groups, closed: set<Channel>, tickets: map<Channel, Ticket>) {
    forall c :: c in tickets ==> (c in closed) == (tickets[c].sequence <= StateOf(groups, tickets[c].group).acked)
  }

  /** A ticket's channel that is open is waiting. */
  ghost predicate OpenWaits(groups: Groups, closed: set<Channel>, tickets: map<Channel, Ticket>) {
    forall c :: c in tickets && c !in closed ==>
      && tickets[c].group in groups && tickets[c].sequence in groups[tickets[c].group].waiters
      && c in groups[tickets[c].group].waiters[tickets[c].sequence]
  }

  ghost predicate Consistent(groups: Groups, closed: set<Channel>, tickets: map<Channel, Ticket>) {
    && (forall g :: g in groups ==> Ordered(groups[g]))
    && WaitersTicketed(groups, tickets)
    && ClosedIffAcked(groups, closed, tickets)
    && OpenWaits(groups, closed, tickets)
    && closed <= tickets.Keys
  }

  /** The channels of the tickets that an acknowledgement covers. */
  ghost function Covered(tickets: map<Channel, Ticket>, g: Group, acked: int): set<Channel> {
    set c | c in tickets && tickets[c].group == g && tickets[c].sequence <= acked
  }

  function Beyond(waiters: map<int, seq<Channel>>, acked: int): map<int, seq<Channel>> {
    map q | q in waiters && q > acked :: waiters[q]
  }

  /** The state of a group after an acknowledgement that raises its sequence. */
  function Acked(s: ReleaseState, sequence: int): ReleaseState {
    ReleaseState(s.latest, sequence, Beyond(s.waiters, sequence))
  }

  lemma AckKeepsConsistent(groups: Groups, closed: set<Channel>, tickets: map<Channel, Ticket>, g: Group, sequence: int)
    requires Consistent(groups, closed, tickets) && g in groups && groups[g].acked < sequence <= groups[g].latest
    ensures Consistent(groups[g := Acked(groups[g], sequence)], closed + Covered(tickets, g, sequence), tickets)
  {
    var s, s' := groups[g], Acked(groups[g], sequence);
    var groups', closed' := groups[g := s'], closed + Covered(tickets, g, sequence);
    assert Ordered(s) && Ordered(s');
    assert ClosedIffAcked(groups', closed', tickets) by {
      hide Ordered, OpenWaits, WaitersTicketed;
    }
    assert WaitersTicketed(groups', tickets) by {
      hide Ordered, OpenWaits, ClosedIffAcked, Covered;
    }
    assert OpenWaits(groups', closed', tickets) by {
      hide Ordered, WaitersTicketed, ClosedIffAcked;
    }
  }

  lemma MarkKeepsConsistent(groups: Groups, closed: set<Channel>, tickets: map<Channel, Ticket>, g: Group, sequence: int, c: Channel)
    requires Consistent(groups, closed, tickets) && c !in tickets && 0 < sequence
    ensures sequence <= StateOf(groups, g).acked ==> Consistent(groups, closed + {c}, tickets[c := Ticket(g, sequence)])
    ensures sequence > StateOf(groups, g).acked ==>
      Consistent(groups[g := Marked(StateOf(groups, g), sequence, c)], closed, tickets[c := Ticket(g, sequence)])
  {
    var s, tickets' := StateOf(groups, g), tickets[c := Ticket(g, sequence)];
    assert Ordered(s);
    if sequence <= s.acked {
      assert WaitersTicketed(groups, tickets') && ClosedIffAcked(groups, closed + {c}, tickets');
    } else {
      var groups' := groups[g := Marked(s, sequence, c)];
      MarkedIsOrdered(groups, tickets, g, sequence, c);
      MarkedTicketed(groups, tickets, g, sequence, c);
      assert ClosedIffAcked(groups', closed, tickets') by {
        hide Ordered, OpenWaits, WaitersTicketed;
      }
      assert OpenWaits(groups', closed, tickets') by {
        hide Ordered, WaitersTicketed, ClosedIffAcked;
      }
    }
  }

  lemma MarkedIsOrdered(groups: Groups, tickets: map<Channel, Ticket>, g: Group, sequence: int, c: Channel)
    requires Ordered(StateOf(groups, g)) && WaitersTicketed(groups, tickets) && c !in tickets
    requires sequence > StateOf(groups, g).acked
    ensures Ordered(Marked(StateOf(groups, g), sequence, c))
  {
    var s := StateOf(groups, g);
    var before := if sequence in s.waiters then s.waiters[sequence] else [];
    assert forall i :: 0 <= i < |before| ==> before[i] in tickets;
    assert Distinct(before + [c]);
  }

  lemma MarkedTicketed(groups: Groups, tickets: map<Channel, Ticket>, g: Group, sequence: int, c: Channel)
    requires WaitersTicketed(groups, tickets) && c !in tickets
    ensures WaitersTicketed(groups[g := Marked(StateOf(groups, g), sequence, c)], tickets[c := Ticket(g, sequence)])
  {}

  /** A group's state with one more waiter. */
  function Marked(s: ReleaseState, sequence: int, c: Channel): ReleaseState {
    ReleaseState(if sequence > s.latest then sequence else s.latest, s.acked,
                 s.waiters[sequence := (if sequence in s.waiters then s.waiters[sequence] else []) + [c]])
  }

  /** Sequences never fall, and nothing acknowledged is forgotten. */
  ghost predicate Rises(before: Groups, after: Groups) {
    forall g :: g in before ==> g in after && before[g].acked <= after[g].acked && before[g].latest <= after[g].latest
  }

  lemma EmptyOrNot(s: set<int>)
    ensures s == {} || exists x :: x in s
  {
    if forall x :: x !in s {
      assert s == {};
    }
  }

  /** No ticket is forgotten or changed. */
  ghost predicate TicketsKept(before: map<Channel, Ticket>, after: map<Channel, Ticket>) {
    forall c :: c in before ==> c in after && after[c] == before[c]
  }

  lemma TicketsKeptTwice(a: map<Channel, Ticket>, b: map<Channel, Ticket>, c: map<Channel, Ticket>)
    requires TicketsKept(a, b) && TicketsKept(b, c)
    ensures TicketsKept(a, c)
  {}

  /** What has been acknowledged stays as it is; groups may be new. */
  ghost predicate SameAcked(before: Groups, after: Groups) {
    forall g :: g in before ==> g in after && after[g].acked == before[g].acked
  }

  lemma SameAckedSelf(groups: Groups)
    ensures SameAcked(groups, groups)
  {}

  lemma SameAckedTwice(a: Groups, b: Groups, c: Groups)
    requires SameAcked(a, b) && SameAcked(b, c)
    ensures SameAcked(a, c)
  {}

  /** Only this group has been acknowledged further, up to the sequence sent, unless the send failed. */
  ghost predicate SentAcked(before: Groups, after: Groups, g: Group, sequence: int, fails: bool) {
    && (forall h :: h in before && h != g ==> h in after && after[h].acked == before[h].acked)
    && g in before && g in after
    && after[g].acked == if fails || sequence <= before[g].acked then before[g].acked else sequence
  }

  lemma MarkedThenSent(before: Groups, marked: Groups, after: Groups, g: Group, sequence: int, fails: bool)
    requires SameAcked(before, marked) && SentAcked(marked, after, g, sequence, fails) && g in before
    ensures SentAcked(before, after, g, sequence, fails)
  {}

  /** What the environment does during one send: marks by other goroutines before the reply, and the reply. */
  datatype Reply = Reply(marks: seq<Mark>, fails: bool)

  /** The reply to the i-th send. */
  function ReplyAt(script: seq<Reply>, i: nat): Reply {
    if i < |script| then script[i] else Reply([], false)
  }

  ghost predicate AnyFails(script: seq<Reply>, n: nat) {
    exists i :: 0 <= i < n && ReplyAt(script, i).fails
  }

  lemma AnyFailsNext(script: seq<Reply>, n: nat)
    ensures AnyFails(script, n + 1) <==> AnyFails(script, n) || ReplyAt(script, n).fails
  {
    if ReplyAt(script, n).fails {
      assert AnyFails(script, n + 1);
    }
  }

  /** The sends in their order: every group whose send succeeded is acknowledged up to its pending sequence, even if other
      sends failed; nothing else is. */
  ghost predicate Acknowledged(before: Groups, after: Groups, pending: map<Group, int>, order: seq<Group>, script: seq<Reply>) {
    && (forall g :: g in before ==> g in after)
    && (forall g :: g in before && g !in order ==> after[g].acked == before[g].acked)
    && (forall i :: 0 <= i < |order| ==>
          && order[i] in before && order[i] in pending
          && after[order[i]].acked == if ReplyAt(script, i).fails then before[order[i]].acked else pending[order[i]])
  }

  ghost predicate NoneTwice(order: seq<Group>) {
    forall i, j :: 0 <= i < j < |order| ==> order[i] != order[j]
  }

  /** The latest sequences of the groups that have something outstanding. */
  function Dirty(groups: Groups): map<Group, int> {
    map g | g in groups && groups[g].latest > groups[g].acked :: groups[g].latest
  }

  lemma AcknowledgedNext(before: Groups, now: Groups, after: Groups, pending: map<Group, int>, order: seq<Group>, script: seq<Reply>, g: Group)
    requires Acknowledged(before, now, pending, order, script) && NoneTwice(order) && g !in order && g in before
    requires g in pending && pending[g] > before[g].acked
    requires SentAcked(now, after, g, pending[g], ReplyAt(script, |order|).fails)
    ensures Acknowledged(before, after, pending, order + [g], script) && NoneTwice(order + [g])
  {
    var more := order + [g];
    forall i | 0 <= i < |more|
      ensures more[i] in before && more[i] in pending
      ensures after[more[i]].acked == if ReplyAt(script, i).fails then before[more[i]].acked else pending[more[i]]
    {
      assert i < |order| ==> more[i] == order[i] && order[i] in order;
    }
    forall h | h in before && h !in more ensures after[h].acked == before[h].acked {
      assert g in more;
      assert h in order ==> h in more;
    }
  }

  /** The state of the send loop. */
  ghost predicate Sent(before: Groups, now: Groups, pending: map<Group, int>, order: seq<Group>, script: seq<Reply>, failed: bool, todo: set<Group>) {
    && NoneTwice(order) && (forall g :: g in order <==> g in pending && g !in todo)
    && failed == AnyFails(script, |order|) && Acknowledged(before, now, pending, order, script)
  }

  lemma NothingSent(groups: Groups, pending: map<Group, int>, script: seq<Reply>)
    ensures Sent(groups, groups, pending, [], script, false, pending.Keys)
  {}

  lemma SentNext(before: Groups, now: Groups, after: Groups, pending: map<Group, int>, order: seq<Group>, script: seq<Reply>,
                 failed: bool, todo: set<Group>, g: Group)
    requires Sent(before, now, pending, order, script, failed, todo)
    requires g in todo && g in pending && g in before && pending[g] > before[g].acked
    requires SentAcked(now, after, g, pending[g], ReplyAt(script, |order|).fails)
    ensures Sent(before, after, pending, order + [g], script, failed || ReplyAt(script, |order|).fails, todo - {g})
  {
    hide Acknowledged, SentAcked, AnyFails, NoneTwice, ReplyAt;
    AnyFailsNext(script, |order|);
    AcknowledgedNext(before, now, after, pending, order, script, g);
  }

  lemma AllSent(before: Groups, now: Groups, pending: map<Group, int>, order: seq<Group>, script: seq<Reply>, failed: bool)
    requires Sent(before, now, pending, order, script, failed, {})
    ensures NoneTwice(order) && (forall g :: g in order <==> g in pending) && failed == AnyFails(script, |order|)
    ensures Acknowledged(before, now, pending, order, script)
  {}

  lemma TicketsKeptSelf(tickets: map<Channel, Ticket>)
    ensures TicketsKept(tickets, tickets)
  {}

  /** If no send failed, whatever was latest is acknowledged; groups that were not dirty stay so. */
  lemma AllAcked(before: Groups, after: Groups, pending: map<Group, int>, order: seq<Group>, script: seq<Reply>)
    requires Acknowledged(before, after, pending, order, script) && !AnyFails(script, |order|)
    requires pending == Dirty(before) && forall g :: g in pending ==> g in order
    ensures forall g :: g in before ==> before[g].latest <= after[g].acked
  {
    forall g | g in before ensures before[g].latest <= after[g].acked {
      if g in order {
        var i :| 0 <= i < |order| && order[i] == g;
        assert !ReplyAt(script, i).fails;
      }
    }
  }

  lemma RisesFrom(before: Groups, after: Groups, g: Group)
    requires Rises(before, after) && g in before
    ensures g in after && before[g].latest <= after[g].latest
  {}

  lemma RisesSelf(groups: Groups)
    ensures Rises(groups, groups)
  {}

  lemma RisesTwice(a: Groups, b: Groups, c: Groups)
    requires Rises(a, b) && Rises(b, c)
    ensures Rises(a, c)
  {}

  lemma OrderedOf(groups: Groups, closed: set<Channel>, tickets: map<Channel, Ticket>, g: Group)
    requires Consistent(groups, closed, tickets)
    ensures Ordered(StateOf(groups, g)) && closed <= tickets.Keys
  {}

  /** A waiting channel is open, and waits only once. */
  lemma WaitingIsOpen(groups: Groups, closed: set<Channel>, tickets: map<Channel, Ticket>, g: Group, q: int, i: nat)
    requires Consistent(groups, closed, tickets) && g in groups && q in groups[g].waiters && i < |groups[g].waiters[q]|
    ensures groups[g].waiters[q][i] in tickets && tickets[groups[g].waiters[q][i]] == Ticket(g, q)
    ensures groups[g].waiters[q][i] !in closed
    ensures groups[g].waiters[q][i] !in groups[g].waiters[q][..i]
  {
    hide OpenWaits;
    assert Ordered(groups[g]);
  }

  /** Half-way through closing: what is closed, of the tickets of the group that are covered, is what no longer waits. */
  ghost predicate Closing(tickets: map<Channel, Ticket>, before: set<Channel>, closed: set<Channel>, g: Group, acked: int, left: map<int, seq<Channel>>) {
    && before <= closed <= tickets.Keys
    && forall c :: c in tickets ==>
         (c in closed) == (c in before || (tickets[c].group == g && tickets[c].sequence <= acked && tickets[c].sequence !in left))
  }

  lemma ClosingStarts(groups: Groups, closed: set<Channel>, tickets: map<Channel, Ticket>, g: Group, acked: int)
    requires Consistent(groups, closed, tickets) && g in groups
    ensures Closing(tickets, closed, closed, g, acked, groups[g].waiters)
  {}

  lemma ClosingNext(groups: Groups, before: set<Channel>, tickets: map<Channel, Ticket>, g: Group, acked: int,
                    closed: set<Channel>, left: map<int, seq<Channel>>, q: int)
    requires Consistent(groups, before, tickets) && g in groups && q in left && q <= acked
    requires q in groups[g].waiters && Closing(tickets, before, closed, g, acked, left)
    ensures Closing(tickets, before, closed + (set c | c in groups[g].waiters[q]), g, acked, left - {q})
  {
    hide Consistent;
    WaitersOf(groups, before, tickets, g, q);
    var more := set c | c in groups[g].waiters[q];
    forall c | c in tickets
      ensures (c in closed + more)
           == (c in before || (tickets[c].group == g && tickets[c].sequence <= acked && tickets[c].sequence !in left - {q}))
    {
      assert c in more <==> tickets[c] == Ticket(g, q) && c !in before;
    }
  }

  /** The waiters of a sequence are the open channels of the tickets for it. */
  lemma WaitersOf(groups: Groups, closed: set<Channel>, tickets: map<Channel, Ticket>, g: Group, q: int)
    requires Consistent(groups, closed, tickets) && g in groups && q in groups[g].waiters
    ensures forall c :: c in groups[g].waiters[q] <==> c in tickets && tickets[c] == Ticket(g, q) && c !in closed
  {
    forall c | c in groups[g].waiters[q] ensures c in tickets && tickets[c] == Ticket(g, q) && c !in closed {
      var i :| 0 <= i < |groups[g].waiters[q]| && groups[g].waiters[q][i] == c;
      WaitingIsOpen(groups, closed, tickets, g, q, i);
    }
  }

  lemma ClosingDone(tickets: map<Channel, Ticket>, before: set<Channel>, closed: set<Channel>, g: Group, acked: int, left: map<int, seq<Channel>>)
    requires Closing(tickets, before, closed, g, acked, left) && forall q :: q in left ==> q > acked
    ensures closed == before + Covered(tickets, g, acked)
  {}

  /** Acknowledging what was latest completes every ticket handed out before. */
  lemma AllCovered(groups: Groups, closed: set<Channel>, tickets: map<Channel, Ticket>,
                   groups': Groups, closed': set<Channel>, tickets': map<Channel, Ticket>)
    requires Consistent(groups, closed, tickets) && Consistent(groups', closed', tickets')
    requires Rises(groups, groups') && TicketsKept(tickets, tickets')
    requires forall g :: g in groups ==> groups[g].latest <= groups'[g].acked
    ensures tickets.Keys <= closed'
  {
    forall c | c in tickets ensures c in closed' {
      var t := tickets[c];
      if c !in closed {
        assert t.sequence <= groups[t.group].latest;
      } else if t.group in groups {
        assert groups[t.group].acked <= groups'[t.group].acked;
      } else {
        assert t.sequence <= 0 <= StateOf(groups', t.group).acked;
      }
    }
  }

  /** Nothing is outstanding exactly when every ticket is completed. */
  lemma IdleMeansDone(groups: Groups, closed: set<Channel>, tickets: map<Channel, Ticket>)
    requires Consistent(groups, closed, tickets)
    ensures (forall g :: g in groups ==> groups[g].latest <= groups[g].acked) == (closed == tickets.Keys)
  {
    if g :| g in groups && groups[g].latest > groups[g].acked {
      WaitingIsOpen(groups, closed, tickets, g, groups[g].latest, 0);
    } else {
      assert forall c :: c in tickets ==> c in closed;
    }
  }

  class ReleaseFlusher {
    var groups: Groups
    var hasSender: bool
    var closed: set<Channel>
    var nextChannel: nat
    ghost var tickets: map<Channel, Ticket>

    ghost predicate Valid()
      reads this
    {
      Consistent(groups, closed, tickets) && forall c :: c in tickets ==> c < nextChannel
    }

    constructor (hasSender: bool)
      ensures Valid() && groups == map[] && tickets == map[] && this.hasSender == hasSender
    {
      this.hasSender := hasSender;
      groups, closed, nextChannel, tickets := map[], {}, 0, map[];
    }

    /** close(c), which panics on a channel that is closed already. */
    method Close(c: Channel)
      requires c !in closed
      modifies this`closed
      ensures closed == old(closed) + {c}
    {
      closed := closed + {c};
    }

    /** MarkDirty: the ticket's channel, None for a mark that is ignored. */
    method MarkDirty(g: Group, sequence: int) returns (ignored: bool, done: Channel)
      requires Valid()
      modifies this`groups, this`closed, this`nextChannel, this`tickets
      ensures Valid() && Rises(old(groups), groups)
      ensures ignored == (sequence <= 0 || g.credentialID == "" || g.model == "")
      ensures ignored ==> tickets == old(tickets) && groups == old(groups) && closed == old(closed)
      ensures !ignored ==> done !in old(tickets) && tickets == old(tickets)[done := Ticket(g, sequence)]
      ensures !ignored ==> closed == old(closed) + if sequence <= StateOf(old(groups), g).acked then {done} else {}
      ensures !ignored ==> sequence <= StateOf(groups, g).latest
      ensures SameAcked(old(groups), groups)
    {
      ignored, done := sequence <= 0 || g.credentialID == "" || g.model == "", 0;
      if ignored {
        return;
      }
      hide Consistent;
      done := nextChannel;
      nextChannel := nextChannel + 1;
      MarkKeepsConsistent(groups, closed, tickets, g, sequence, done);
      OrderedOf(groups, closed, tickets, g);
      tickets := tickets[done := Ticket(g, sequence)];
      var state := StateOf(groups, g);
      if sequence <= state.acked {
        Close(done);
      } else {
        groups := groups[g := Marked(state, sequence, done)];
      }
    }

    /** The part of flush under the lock after a successful send. */
    method Acknowledge(g: Group, sequence: int)
      requires Valid() && g in groups && sequence <= groups[g].latest
      modifies this`groups, this`closed
      ensures Valid() && Rises(old(groups), groups) && groups.Keys == old(groups).Keys && old(closed) <= closed
      ensures groups[g].acked == (if sequence > old(groups)[g].acked then sequence else old(groups)[g].acked)
      ensures groups[g].latest == old(groups)[g].latest
      ensures forall h :: h in groups && h != g ==> groups[h] == old(groups)[h]
    {
      hide Consistent;
      var state := groups[g];
      if sequence > state.acked {
        AckKeepsConsistent(groups, closed, tickets, g, sequence);
        var left := CloseCovered(g, state.waiters, sequence);
        groups := groups[g := ReleaseState(state.latest, sequence, left)];
        assert groups == old(groups)[g := Acked(state, sequence)];
      }
    }

    /** Closes the channels of all covered waiters and drops these from the map. */
    method CloseCovered(ghost g: Group, waiters: map<int, seq<Channel>>, acked: int) returns (left: map<int, seq<Channel>>)
      requires Consistent(groups, closed, tickets) && g in groups && groups[g].waiters == waiters
      modifies this`closed
      ensures left == Beyond(waiters, acked) && closed == old(closed) + Covered(tickets, g, acked)
    {
      hide Consistent, Closing;
      left := waiters;
      var pending := waiters.Keys;
      ClosingStarts(groups, closed, tickets, g, acked);
      while pending != {}
        invariant pending <= left.Keys <= waiters.Keys
        invariant forall q :: q in left ==> left[q] == waiters[q] && (q in pending || q > acked)
        invariant forall q :: q in waiters && q !in left ==> q <= acked
        invariant Closing(tickets, old(closed), closed, g, acked, left)
        decreases |pending|
      {
        EmptyOrNot(pending);
        var q :| q in pending;
        if q <= acked {
          CloseAll(g, q, waiters[q], old(closed), left, acked);
          left := left - {q};
        }
        pending := pending - {q};
      }
      ClosingDone(tickets, old(closed), closed, g, acked, left);
    }

    /** Closes the channels that wait for one sequence. */
    method CloseAll(ghost g: Group, ghost q: int, channels: seq<Channel>, ghost before: set<Channel>, ghost left: map<int, seq<Channel>>, ghost acked: int)
      requires Consistent(groups, before, tickets) && g in groups && q in groups[g].waiters && channels == groups[g].waiters[q]
      requires q in left && q <= acked && Closing(tickets, before, closed, g, acked, left)
      modifies this`closed
      ensures Closing(tickets, before, closed, g, acked, left - {q})
    {
      hide Consistent;
      for i := 0 to |channels|
        invariant closed == old(closed) + set c | c in channels[..i]
      {
        WaitingIsOpen(groups, before, tickets, g, q, i);
        assert channels[..i + 1] == channels[..i] + [channels[i]];
        Close(channels[i]);
      }
      assert channels[..|channels|] == channels;
      ClosingNext(groups, before, tickets, g, acked, old(closed), left, q);
    }

    /** The marks that other goroutines make during one send. */
    method Interleave(marks: seq<Mark>)
      requires Valid()
      modifies this`groups, this`closed, this`nextChannel, this`tickets
      ensures Valid() && Rises(old(groups), groups) && old(closed) <= closed
      ensures TicketsKept(old(tickets), tickets) && SameAcked(old(groups), groups)
    {
      hide Consistent, Rises, SameAcked;
      RisesSelf(groups);
      SameAckedSelf(groups);
      for i := 0 to |marks|
        invariant Valid() && Rises(old(groups), groups) && old(closed) <= closed
        invariant TicketsKept(old(tickets), tickets) && SameAcked(old(groups), groups)
      {
        ghost var before := groups;
        var _, _ := MarkDirty(marks[i].group, marks[i].sequence);
        RisesTwice(old(groups), before, groups);
        SameAckedTwice(old(groups), before, groups);
      }
    }

    /** One send, and its acknowledgement unless it fails. */
    method Send(g: Group, sequence: int, reply: Reply) returns (fails: bool)
      requires Valid() && g in groups && sequence <= groups[g].latest
      modifies this`groups, this`closed, this`nextChannel, this`tickets
      ensures Valid() && Rises(old(groups), groups) && TicketsKept(old(tickets), tickets) && old(closed) <= closed
      ensures fails == reply.fails
      ensures SentAcked(old(groups), groups, g, sequence, fails)
    {
      hide Consistent, Rises, TicketsKept;
      Interleave(reply.marks);
      fails := reply.fails;
      ghost var marked := groups;
      RisesFrom(old(groups), groups, g);
      if !fails {
        Acknowledge(g, sequence);
        RisesTwice(old(groups), marked, groups);
      }
      MarkedThenSent(old(groups), marked, groups, g, sequence, fails);
    }

    /** The send loop of flush; `order` is the order in which it goes through the map. */
    method SendAll(pending: map<Group, int>, script: seq<Reply>) returns (failed: bool, ghost order: seq<Group>)
      requires Valid() && forall g :: g in pending ==> g in groups && groups[g].acked < pending[g] <= groups[g].latest
      modifies this`groups, this`closed, this`nextChannel, this`tickets
      ensures Valid() && Rises(old(groups), groups) && TicketsKept(old(tickets), tickets) && old(closed) <= closed
      ensures NoneTwice(order) && (forall g :: g in order <==> g in pending) && failed == AnyFails(script, |order|)
      ensures Acknowledged(old(groups), groups, pending, order, script)
    {
      hide *;
      RisesSelf(groups);
      TicketsKeptSelf(tickets);
      failed, order := false, [];
      var todo, sends := pending.Keys, 0;
      NothingSent(groups, pending, script);
      while todo != {}
        invariant Valid() && todo <= pending.Keys && Rises(old(groups), groups) && old(closed) <= closed
        invariant TicketsKept(old(tickets), tickets) && |order| == sends
        invariant Sent(old(groups), groups, pending, order, script, failed, todo)
        decreases |todo|
      {
        var g :| g in todo;
        ghost var before, known := groups, tickets;
        RisesFrom(old(groups), groups, g);
        var fails := Send(g, pending[g], ReplyAt(script, sends));
        RisesTwice(old(groups), before, groups);
        TicketsKeptTwice(old(tickets), known, tickets);
        SentNext(old(groups), before, groups, pending, order, script, failed, todo, g);
        failed := failed || fails;
        todo, sends, order := todo - {g}, sends + 1, order + [g];
      }
      AllSent(old(groups), groups, pending, order, script, failed);
    }

    /** flush: sends the latest sequence of every dirty group, each once, in some order. It fails if and only if some send
        fails; each group whose send succeeded is acknowledged up to what was latest, whatever became of the other sends,
        and nothing else is. A flush that does not fail completes every ticket handed out before it. */
    method Flush(script: seq<Reply>) returns (failed: bool, ghost order: seq<Group>)
      requires Valid()
      modifies this`groups, this`closed, this`nextChannel, this`tickets
      ensures Valid() && Rises(old(groups), groups) && TicketsKept(old(tickets), tickets) && old(closed) <= closed
      ensures !hasSender ==> !failed && groups == old(groups) && closed == old(closed)
      ensures hasSender ==>
        && NoneTwice(order) && (forall g :: g in order <==> g in Dirty(old(groups))) && failed == AnyFails(script, |order|)
        && Acknowledged(old(groups), groups, Dirty(old(groups)), order, script)
      ensures hasSender && !failed ==> old(tickets.Keys) <= closed
    {
      hide Consistent, Acknowledged, AnyFails, NoneTwice;
      RisesSelf(groups);
      var pending := Dirty(groups);
      order := [];
      if !hasSender {
        return false, [];
      }
      failed, order := SendAll(pending, script);
      if !failed {
        AllAcked(old(groups), groups, pending, order, script);
        AllCovered(old(groups), old(closed), old(tickets), groups, closed, tickets);
      }
    }

    /** idle: nothing is left to acknowledge, that is, every ticket is completed. */
    method Idle() returns (idle: bool)
      requires Valid()
      ensures idle == (closed == tickets.Keys)
    {
      hide Consistent;
      IdleMeansDone(groups, closed, tickets);
      var todo := groups.Keys;
      while todo != {}
        invariant todo <= groups.Keys
        invariant forall g :: g in groups && g !in todo ==> groups[g].latest <= groups[g].acked
        decreases |todo|
      {
        var g :| g in todo;
        if groups[g].latest > groups[g].acked {
          return false;
        }
        todo := todo - {g};
      }
      idle := true;
    }
  }
}
