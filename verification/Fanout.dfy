/** Publish and subscribe: every publication is stored once, and references to it go to the inboxes of the subscribers
    and groups whose pattern accepts its topic. */
module Fanout {
  import opened Bytes
  import opened Seqs
  import Arith
  import Topic

  const AGAIN: int := -5
  const CLOSED: int := -9
  const MISSING: int := -3
  const INVALID: int := -1

  const FLAG_RETRY: nat := 0x8000_0000
  const FLAG_DEAD_LETTER: nat := 0x4000_0000
  const ATTEMPT_MASK: nat := 0xFFFF

  datatype Post = Post(data: bytes, priority: nat, at: nat)

  datatype Ref = Ref(post: nat, flags: nat, at: nat)

  /** One routing of a stored post: publishing it, retrying it, or moving it to a dead-letter topic. */
  datatype Route = Route(topic: string, ref: Ref)

  datatype Message = Message(id: nat, offset: nat, data: bytes, priority: nat, at: nat, flags: nat)

  datatype Reading = Got(m: Message) | Nothing(rc: int)

  /** A group's reference and the member it was given to. */
  datatype Served = Served(member: nat, ref: Ref)

  // ---- what an inbox holds ----

  /** The references to the routes from `from` on that a pattern accepts. */
  function Routed(routes: seq<Route>, from: nat, pattern: string): seq<Ref>
    requires from <= |routes|
    decreases |routes|
  {
    if |routes| == from then []
    else
      var last := routes[|routes| - 1];
      Routed(routes[..|routes| - 1], from, pattern) + if Topic.Accepts(pattern, last.topic) then [last.ref] else []
  }

  /** Where they are among the routes. */
  function Positions(routes: seq<Route>, from: nat, pattern: string): seq<nat>
    requires from <= |routes|
    decreases |routes|
  {
    if |routes| == from then []
    else
      var n := |routes| - 1;
      Positions(routes[..n], from, pattern) + if Topic.Accepts(pattern, routes[n].topic) then [n] else []
  }

  predicate Wanted(routes: seq<Route>, from: nat, pattern: string, i: nat) {
    from <= i < |routes| && Topic.Accepts(pattern, routes[i].topic)
  }

  /** An inbox holds every accepted route since the subscription, none twice, in order, and nothing else. */
  lemma {:induction false} RoutedExactly(routes: seq<Route>, from: nat, pattern: string)
    requires from <= |routes|
    ensures var at := Positions(routes, from, pattern);
            && (forall i: nat :: i in at <==> Wanted(routes, from, pattern, i))
            && (forall j, k :: 0 <= j < k < |at| ==> at[j] < at[k])
            && |at| == |Routed(routes, from, pattern)|
            && (forall j :: 0 <= j < |at| ==> at[j] < |routes| && Routed(routes, from, pattern)[j] == routes[at[j]].ref)
  {
    var at := Positions(routes, from, pattern);
    forall i: nat
      ensures i in at <==> Wanted(routes, from, pattern, i)
    {
      PositionIn(routes, from, pattern, i);
    }
    RoutedInOrder(routes, from, pattern);
  }

  lemma {:induction false} PositionIn(routes: seq<Route>, from: nat, pattern: string, i: nat)
    requires from <= |routes|
    ensures i in Positions(routes, from, pattern) <==> Wanted(routes, from, pattern, i)
    decreases |routes|
  {
    hide Topic.Accepts;
    if |routes| > from {
      PositionIn(routes[..|routes| - 1], from, pattern, i);
    }
  }

  lemma {:induction false} RoutedInOrder(routes: seq<Route>, from: nat, pattern: string)
    requires from <= |routes|
    ensures var at := Positions(routes, from, pattern);
            && (forall j, k :: 0 <= j < k < |at| ==> at[j] < at[k])
            && |at| == |Routed(routes, from, pattern)|
            && (forall j :: 0 <= j < |at| ==> at[j] < |routes| && Routed(routes, from, pattern)[j] == routes[at[j]].ref)
    decreases |routes|
  {
    hide Topic.Accepts;
    if |routes| > from {
      RoutedInOrder(routes[..|routes| - 1], from, pattern);
    }
  }

  lemma RoutedMore(routes: seq<Route>, from: nat, pattern: string, r: Route)
    requires from <= |routes|
    ensures Routed(routes + [r], from, pattern) ==
            Routed(routes, from, pattern) + if Topic.Accepts(pattern, r.topic) then [r.ref] else []
  {
    assert (routes + [r])[..|routes|] == routes;
  }

  ghost predicate Stored(routes: seq<Route>, posts: nat) {
    forall r :: r in routes ==> r.ref.post < posts
  }

  lemma {:induction false} RefsStored(routes: seq<Route>, from: nat, pattern: string, posts: nat)
    requires from <= |routes| && Stored(routes, posts)
    ensures forall r :: r in Routed(routes, from, pattern) ==> r.post < posts
    decreases |routes|
  {
    if |routes| > from {
      RefsStored(routes[..|routes| - 1], from, pattern, posts);
    }
  }

  // ---- subscribers and groups ----

  class Sub {
    const id: nat
    const pattern: string
    const group: Group?
    ghost const since: nat  // the routes before it was there
    var active: bool
    var offset: nat
    var inbox: seq<Ref>  // its own; a member of a group reads the inbox of the group
    var next: Sub?  // the member after it in its group
    ghost var got: seq<Ref>

    constructor (id: nat, pattern: string, group: Group?, ghost since: nat)
      ensures this.id == id && this.pattern == pattern && this.group == group && this.since == since
      ensures active && offset == 0 && inbox == [] && next == null && got == []
    {
      this.id, this.pattern, this.group, this.since := id, pattern, group, since;
      active, offset, inbox, next, got := true, 0, [], null, [];
    }
  }

  class Group {
    const pattern: string
    const name: string
    ghost const since: nat
    var offset: nat
    var inbox: seq<Ref>
    var members: Sub?
    var turn: Sub?
    var count: nat
    ghost var list: seq<Sub>  // the members in order
    ghost var served: seq<Served>
    ghost var round: nat  // how many were served when the membership last changed
    ghost var first: nat  // whose turn it was then

    constructor (pattern: string, name: string, ghost since: nat)
      ensures this.pattern == pattern && this.name == name && this.since == since
      ensures offset == 0 && inbox == [] && list == [] && served == [] && Linked() && Cyclic()
    {
      this.pattern, this.name, this.since := pattern, name, since;
      offset, inbox, members, turn, count := 0, [], null, null, 0;
      list, served, round, first := [], [], 0, 0;
    }

    ghost function At(i: nat): Sub?
      reads this`list
    {
      if i < |list| then list[i] else null
    }

    /** The members are a list in memory. */
    ghost predicate Chained()
      reads this`members, this`list, list`next
    {
      members == At(0) && Distinct(list) && forall i {:trigger list[i].next} :: 0 <= i < |list| ==> list[i].next == At(i + 1)
    }

    ghost predicate Synced()
      reads this`list, this`offset, list`offset
    {
      forall s :: s in list ==> s.offset == offset && s.group == this
    }

    /** It is the turn of one of the members if there is any. */
    ghost predicate Linked()
      reads this`members, this`turn, this`count, this`list, this`offset, list`next, list`offset
    {
      Chained() && Synced() && count == |list| && (turn == null <==> list == []) && (turn != null ==> turn in list)
    }

    /** Since the membership last changed, members were served one after the other, and so it goes on. */
    ghost predicate Cyclic()
      reads this`turn, this`list, this`served, this`round, this`first
    {
      && round <= |served| && (list != [] ==> turn == InTurn(list, first, |served| - round))
      && forall k :: round <= k < |served| ==> list != [] && served[k].member == InTurn(list, first, k - round).id
    }

    method SyncOffsets()
      requires Chained() && forall s :: s in list ==> s.group == this
      modifies list`offset
      ensures Synced()
    {
      var member := members;
      ghost var i := 0;
      while member != null
        invariant i <= |list| && member == At(i)
        invariant forall j :: 0 <= j < i ==> list[j].offset == offset
        decreases |list| - i
      {
        member.offset := offset;
        member := member.next;
        i := i + 1;
      }
    }

    method Last() returns (tail: Sub)
      requires Chained() && list != []
      ensures tail == list[|list| - 1]
    {
      tail := members;
      ghost var i := 0;
      while tail.next != null
        invariant i < |list| && tail == list[i]
        decreases |list| - i
      {
        tail := tail.next;
        i := i + 1;
      }
    }

    method Append(sub: Sub)
      requires Chained() && sub !in list
      modifies this`members, this`list, list`next, sub`next
      ensures Chained() && list == old(list) + [sub]
    {
      hide Distinct;
      DistinctMore(list, sub);
      if members == null {
        members := sub;
      } else {
        var tail := Last();
        Apart(list, |list| - 1);
        tail.next := sub;
      }
      sub.next := null;
      list := list + [sub];
    }

    method AddMember(sub: Sub)
      requires Linked() && sub !in list && sub.group == this
      modifies this`members, this`turn, this`count, this`list, this`round, this`first, list`next, sub`next, sub`offset
      ensures Linked() && Cyclic() && list == old(list) + [sub]
      ensures old(list) != [] ==> turn == old(turn)
    {
      hide Cyclic, Chained;
      Append(sub);
      sub.offset := offset;
      count := count + 1;
      if turn == null {
        turn := sub;
      }
      assert sub in list;
      StartRound();
    }

    ghost method StartRound()
      requires turn in list
      modifies this`round, this`first
      ensures Cyclic()
    {
      round := |served|;
      var i :| 0 <= i < |list| && list[i] == turn;
      first := i;
      Arith.SmallMod(first, |list|);
    }

    /** A member and the one before it. */
    method Find(sub: Sub) returns (prev: Sub?, ghost i: nat)
      requires Chained() && sub in list
      ensures i < |list| && list[i] == sub && prev == if i == 0 then null else list[i - 1]
    {
      prev := null;
      var link := members;
      i := 0;
      while link != sub
        invariant i < |list| && link == list[i] && prev == (if i == 0 then null else list[i - 1])
        invariant sub in list[i..]
        decreases |list| - i
      {
        prev := link;
        link := link.next;
        i := i + 1;
      }
    }

    method Unlink(sub: Sub) returns (ghost i: nat)
      requires Chained() && sub in list
      modifies this`members, this`list, list`next
      ensures Chained() && i < |old(list)| && old(list)[i] == sub && list == Without(old(list), i)
      ensures (members == null <==> list == []) && (members != null ==> members in list)
      ensures i + 1 == |old(list)| && list != [] ==> members == old(list)[0]
      ensures old(sub.next) == if i + 1 < |old(list)| then old(list)[i + 1] else null
      ensures forall s :: s in list <==> s in old(list) && s != sub
    {
      hide Distinct;
      var prev: Sub?;
      prev, i := Find(sub);
      DistinctWithout(list, i);
      Apart(list, i);
      if i > 0 { Apart(list, i - 1); }
      if prev == null {
        members := sub.next;
      } else {
        prev.next := sub.next;
      }
      sub.next := null;
      ghost var was := list;
      list := Without(list, i);
      forall j | 0 <= j < |list|
        ensures list[j].next == At(j + 1)
      {
        var k := if j < i then j else j + 1;
        assert list[j] == was[k] && was[k] != sub;
        if k + 1 == i {
          assert was[k] == prev;
        } else {
          assert was[k].next == old(was[k].next);
        }
      }
    }

    /** Unlinks a member; if it was its turn, it is now the turn of the one after it. */
    method Unseat(sub: Sub) returns (ghost i: nat)
      requires Linked() && sub in list
      modifies this`members, this`turn, this`count, this`list, list`next
      ensures i < |old(list)| && old(list)[i] == sub && list == Without(old(list), i)
      ensures forall s :: s in list <==> s in old(list) && s != sub
      ensures Chained() && count == |list| && (turn == null <==> list == []) && (turn != null ==> turn in list)
      ensures list != [] ==> turn == if old(turn) == sub then After(old(list), i) else old(turn)
    {
      hide Chained, At, Without;
      var successor := sub.next;
      i := Unlink(sub);
      count := count - 1;
      if turn == sub {
        turn := if successor != null then successor else members;
      }
    }

    method RemoveMember(sub: Sub) returns (ghost i: nat)
      requires Linked() && sub in list
      modifies this`members, this`turn, this`count, this`list, this`round, this`first, list`next, list`offset
      ensures i < |old(list)| && old(list)[i] == sub && list == Without(old(list), i)
      ensures Linked() && Cyclic()
      ensures list != [] ==> turn == if old(turn) == sub then After(old(list), i) else old(turn)
    {
      hide Cyclic, Chained;
      i := Unseat(sub);
      SyncOffsets();
      if turn != null {
        StartRound();
      } else {
        EndRound();
      }
    }

    /** Books a reference as given to the member whose turn it is. */
    method Give(sub: Sub, ref: Ref)
      requires Linked() && Cyclic() && turn == sub
      modifies this`offset, this`turn, this`served, list`offset
      ensures Linked() && Cyclic() && offset == old(offset) + 1 && served == old(served) + [Served(sub.id, ref)]
    {
      hide Chained, InTurn;
      NextInTurn(list, first, |served| - round);
      PassTurn(sub);
      served := served + [Served(sub.id, ref)];
      offset := offset + 1;
      SyncOffsets();
    }

    method PassTurn(sub: Sub)
      requires Chained() && sub in list
      modifies this`turn
      ensures forall i :: 0 <= i < |list| && list[i] == sub ==> turn == After(list, i)
    {
      turn := if sub.next != null then sub.next else members;
    }

    ghost method EndRound()
      requires list == []
      modifies this`round
      ensures Cyclic()
    {
      round := |served|;
    }
  }

  /** Who is served `n` turns after the one at index `first`. */
  function InTurn<T>(s: seq<T>, first: nat, n: nat): (r: T)
    requires s != []
    ensures r in s
  {
    s[(first + n) % |s|]
  }

  lemma NextInTurn<T>(s: seq<T>, first: nat, n: nat)
    requires s != []
    ensures exists i :: 0 <= i < |s| && s[i] == InTurn(s, first, n) && InTurn(s, first, n + 1) == After(s, i)
  {
    Arith.ModSucc(first + n, |s|);
    var i := (first + n) % |s|;
    assert s[i] == InTurn(s, first, n);
  }

  lemma TurnOf<T>(s: seq<T>, first: nat, n: nat, i: nat) returns (d: nat)
    requires i < |s|
    ensures d < |s| && InTurn(s, first, n + d) == s[i]
  {
    var q, a := Arith.Split(first + n, |s|);
    if i >= a {
      d := i - a;
      Arith.ModUnique(first + n + d, |s|, q, i);
    } else {
      d := i + |s| - a;
      Arith.Distribute(q, 1, |s|);
      Arith.ModUnique(first + n + d, |s|, q + 1, i);
    }
  }

  lemma DistinctMore<T>(s: seq<T>, x: T)
    requires Distinct(s) && x !in s
    ensures Distinct(s + [x])
  {
  }

  lemma DistinctWithout<T>(s: seq<T>, i: nat)
    requires Distinct(s) && i < |s|
    ensures Distinct(Without(s, i)) && s[i] !in Without(s, i)
    ensures forall x :: x in s && x != s[i] ==> x in Without(s, i)
    ensures forall x :: x in Without(s, i) ==> x in s
  {
    var w := Without(s, i);
    forall k | 0 <= k < |s| && k != i
      ensures s[k] in w
    {
      assert s[k] == w[if k < i then k else k - 1];
    }
  }

  lemma Apart<T>(s: seq<T>, i: nat)
    requires Distinct(s) && i < |s|
    ensures forall j :: 0 <= j < |s| && j != i ==> s[j] != s[i]
  {
  }

  function Without<T>(s: seq<T>, i: nat): (r: seq<T>)
    requires i < |s|
    ensures |r| == |s| - 1 && forall j :: 0 <= j < |r| ==> r[j] == if j < i then s[j] else s[j + 1]
  {
    s[..i] + s[i + 1..]
  }

  /** The element after index `i`, the first one being after the last. */
  function After<T>(s: seq<T>, i: nat): T
    requires i < |s|
  {
    if i + 1 < |s| then s[i + 1] else s[0]
  }

  // ---- the router ----

  const TOPIC_MAX: nat := 256
  const NAME_MAX: nat := 128
  const SIZE_MAX: nat := 0xFFFF_FFFF

  /** An inbox that received its part of the routes since `since`, read up to `offset`. */
  ghost predicate Follows(routes: seq<Route>, since: nat, pattern: string, inbox: seq<Ref>, offset: nat) {
    since <= |routes| && inbox == Routed(routes, since, pattern) && offset <= |inbox|
  }

  function Delivered(inbox: seq<Ref>, pattern: string, r: Route): seq<Ref> {
    inbox + if Topic.Accepts(pattern, r.topic) then [r.ref] else []
  }

  lemma FollowsMore(routes: seq<Route>, since: nat, pattern: string, inbox: seq<Ref>, offset: nat, r: Route)
    requires Follows(routes, since, pattern, inbox, offset)
    ensures Follows(routes + [r], since, pattern, Delivered(inbox, pattern, r), offset)
    ensures Delivered(inbox, pattern, r)[..offset] == inbox[..offset]
  {
    RoutedMore(routes, since, pattern, r);
  }

  /** Every reference went to exactly one member. */
  ghost predicate Given(served: seq<Served>, refs: seq<Ref>) {
    |served| == |refs| && forall k :: 0 <= k < |served| ==> served[k].ref == refs[k]
  }

  function Occupied(slots: seq<object?>): (n: nat)
    ensures n <= |slots|
  {
    if slots == [] then 0 else Occupied(slots[..|slots| - 1]) + if slots[|slots| - 1] == null then 0 else 1
  }

  predicate Due(inbox: seq<Ref>, cursor: nat, now: nat) {
    cursor < |inbox| && (inbox[cursor].at == 0 || inbox[cursor].at <= now)
  }

  /** A reference as the reader sees it, with the stored post it refers to. */
  predicate Shows(r: Reading, ref: Ref, offset: nat, posts: seq<Post>) {
    ref.post < |posts| &&
    r == Got(Message(ref.post, offset, posts[ref.post].data, posts[ref.post].priority, ref.at, ref.flags))
  }

  class Router {
    var subs: seq<Sub?>
    var count: nat
    var nextId: nat
    var groups: seq<Group?>
    var groupCount: nat
    var posts: seq<Post>
    ghost var routes: seq<Route>
    ghost var all: set<Sub>  // the subscribers in the slots of `subs`
    ghost var teams: set<Group>  // the groups in the slots of `groups`

    /** A subscriber without a group has read a prefix of what was routed to it. */
    static ghost predicate SubOk(s: Sub, routes: seq<Route>)
      reads s`active, s`inbox, s`got, (if s.group == null then {s} else {})`offset
    {
      s.active && (s.group == null ==>
        Follows(routes, s.since, s.pattern, s.inbox, s.offset) && s.got == s.inbox[..s.offset])
    }

    static ghost predicate InboxOk(g: Group, routes: seq<Route>)
      reads g`inbox, g`offset, g`served
    {
      Follows(routes, g.since, g.pattern, g.inbox, g.offset) && Given(g.served, g.inbox[..g.offset])
    }

    static ghost predicate TeamOk(g: Group)
      reads g`members, g`turn, g`count, g`list, g`offset, g`served, g`round, g`first, g.list`next, g.list`offset
    {
      g.Linked() && g.Cyclic() && g.list != []
    }

    ghost predicate Slots()
      reads this`subs, this`count, this`nextId, this`groups, this`groupCount, this`all, this`teams
    {
      && Holds(subs, count, all) && Holds(groups, groupCount, teams)
      && (forall s, s' :: s in all && s' in all && s.id == s'.id ==> s == s') && (forall s :: s in all ==> s.id < nextId)
      && (forall g, g' :: g in teams && g' in teams && g.pattern == g'.pattern && g.name == g'.name ==> g == g')
    }

    ghost predicate Members()
      reads this`all, this`teams, teams`list
    {
      forall g, s :: g in teams && s in g.list ==> s in all
    }

    /** Slots, subscribers and inboxes are in order. */
    ghost predicate Books()
      reads this, all, teams
    {
      && Slots() && Stored(routes, |posts|) && (forall g :: g in teams ==> InboxOk(g, routes))
      && (forall s :: s in all ==> SubOk(s, routes) && (s.group != null ==> s.group in teams && s in s.group.list))
    }

    ghost predicate Valid()
      reads this, all, teams
    {
      Members() && Books() && forall g :: g in teams ==> TeamOk(g)
    }

    constructor ()
      ensures Valid() && posts == [] && routes == [] && all == {} && teams == {}
    {
      subs, groups, count, groupCount := seq(64, _ => null), seq(16, _ => null), 0, 0;
      nextId, posts, routes, all, teams := 1, [], [], {}, {};
      new;
      NoneOccupied(subs);
      NoneOccupied(groups);
    }

    /** Appends a reference to every inbox whose pattern accepts the topic. */
    method RouteRef(topic: string, ref: Ref)
      requires Valid() && ref.post < |posts|
      modifies this`routes, all`inbox, teams`inbox
      ensures Valid() && routes == old(routes) + [Route(topic, ref)]
    {
      hide TeamOk, Slots, SubOk, InboxOk;
      RouteToSubs(topic, ref);
      RouteToGroups(topic, ref);
      routes := routes + [Route(topic, ref)];
    }

    method RouteToSubs(topic: string, ref: Ref)
      requires Slots() && forall s :: s in all ==> SubOk(s, routes)
      modifies all`inbox
      ensures forall s :: s in all ==> SubOk(s, routes + [Route(topic, ref)])
    {
      hide SubOk;
      var i := 0;
      while i < |subs|
        invariant i <= |subs|
        invariant forall j :: 0 <= j < i && subs[j] != null ==> SubOk(subs[j], routes + [Route(topic, ref)])
        invariant forall j :: i <= j < |subs| && subs[j] != null ==> SubOk(subs[j], routes)
      {
        var s := subs[i];
        if s != null {
          RouteToSub(s, topic, ref, routes);
        }
        i := i + 1;
      }
    }

    static method RouteToSub(s: Sub, topic: string, ref: Ref, ghost routes: seq<Route>)
      requires SubOk(s, routes)
      modifies s`inbox
      ensures SubOk(s, routes + [Route(topic, ref)])
    {
      if s.active && s.group == null {
        FollowsMore(routes, s.since, s.pattern, s.inbox, s.offset, Route(topic, ref));
        var accepted := Topic.Match(s.pattern, topic);
        if accepted {
          s.inbox := s.inbox + [ref];
        }
      }
    }

    method RouteToGroups(topic: string, ref: Ref)
      requires Slots() && forall g :: g in teams ==> TeamOk(g) && InboxOk(g, routes)
      modifies teams`inbox
      ensures forall g :: g in teams ==> InboxOk(g, routes + [Route(topic, ref)])
    {
      hide InboxOk;
      var i := 0;
      while i < |groups|
        invariant i <= |groups|
        invariant forall j :: 0 <= j < i && groups[j] != null ==> InboxOk(groups[j], routes + [Route(topic, ref)])
        invariant forall j :: i <= j < |groups| && groups[j] != null ==> InboxOk(groups[j], routes)
      {
        var g := groups[i];
        if g != null && g.count != 0 {
          RouteToGroup(g, topic, ref, routes);
        }
        i := i + 1;
      }
    }

    static method RouteToGroup(g: Group, topic: string, ref: Ref, ghost routes: seq<Route>)
      requires InboxOk(g, routes)
      modifies g`inbox
      ensures InboxOk(g, routes + [Route(topic, ref)])
    {
      FollowsMore(routes, g.since, g.pattern, g.inbox, g.offset, Route(topic, ref));
      var accepted := Topic.Match(g.pattern, topic);
      if accepted {
        g.inbox := g.inbox + [ref];
      }
    }

    method Publish(topic: string, data: bytes, priority: nat, at: nat) returns (rc: int, offset: nat)
      requires Valid()
      modifies this`posts, this`routes, all`inbox, teams`inbox
      ensures Valid() && rc == if topic == "" || |data| > SIZE_MAX then INVALID else 0
      ensures rc == 0 ==> offset == |old(posts)| && posts == old(posts) + [Post(data, priority, at)] &&
                          routes == old(routes) + [Route(topic, Ref(offset, 0, at))]
      ensures rc != 0 ==> posts == old(posts) && routes == old(routes)
    {
      offset := |posts|;
      if topic == "" || |data| > SIZE_MAX {
        return INVALID, offset;
      }
      posts := posts + [Post(data, priority, at)];
      RouteRef(topic, Ref(offset, 0, at));
      rc := 0;
    }

    /** Routes a stored post once more. */
    method Retry(topic: string, post: nat, attempt: nat, at: nat) returns (rc: int)
      requires Valid()
      modifies this`routes, all`inbox, teams`inbox
      ensures Valid()
      ensures rc == if topic == "" || attempt > ATTEMPT_MASK then INVALID else if post >= |posts| then MISSING else 0
      ensures routes == old(routes) + if rc == 0 then [Route(topic, Ref(post, FLAG_RETRY + attempt, at))] else []
    {
      if topic == "" || attempt > ATTEMPT_MASK {
        return INVALID;
      }
      if post >= |posts| {
        return MISSING;
      }
      RouteRef(topic, Ref(post, FLAG_RETRY + attempt, at));
      rc := 0;
    }

    method DeadLetter(topic: string, post: nat, attempts: nat) returns (rc: int)
      requires Valid()
      modifies this`routes, all`inbox, teams`inbox
      ensures Valid()
      ensures rc == if topic == "" || attempts > ATTEMPT_MASK then INVALID else if post >= |posts| then MISSING else 0
      ensures routes == old(routes) + if rc == 0 then [Route(topic, Ref(post, FLAG_DEAD_LETTER + attempts, 0))] else []
    {
      if topic == "" || attempts > ATTEMPT_MASK {
        return INVALID;
      }
      if post >= |posts| {
        return MISSING;
      }
      RouteRef(topic, Ref(post, FLAG_DEAD_LETTER + attempts, 0));
      rc := 0;
    }

    /** Reads the reference at a cursor, unless there is none or its time has not come. */
    method NextAt(inbox: seq<Ref>, cursor: nat, now: nat) returns (r: Reading)
      requires forall ref :: ref in inbox ==> ref.post < |posts|
      ensures if Due(inbox, cursor, now) then Shows(r, inbox[cursor], cursor, posts) else r == Nothing(AGAIN)
    {
      if cursor < |inbox| {
        var ref := inbox[cursor];
        if ref.at != 0 && ref.at > now {
          return Nothing(AGAIN);
        }
        var post := posts[ref.post];
        return Got(Message(ref.post, cursor, post.data, post.priority, ref.at, ref.flags));
      }
      r := Nothing(AGAIN);
    }

    /** The next message of a subscriber without a group. */
    method NextOwn(sub: Sub, now: nat) returns (r: Reading)
      requires Valid() && sub.group == null && (sub.active ==> sub in all)
      modifies sub`offset, sub`got
      ensures Valid()
      ensures !sub.active ==> r == Nothing(CLOSED)
      ensures sub.active && Due(sub.inbox, old(sub.offset), now) ==>
                var ref := sub.inbox[old(sub.offset)];
                Shows(r, ref, old(sub.offset), posts) && sub.got == old(sub.got) + [ref]
      ensures sub.active && !Due(sub.inbox, old(sub.offset), now) ==> r == Nothing(AGAIN)
      ensures r.Nothing? ==> sub.got == old(sub.got) && sub.offset == old(sub.offset)
    {
      hide TeamOk, InboxOk, Slots, Shows, SubOk;
      if !sub.active {
        return Nothing(CLOSED);
      }
      SubStored(sub, routes, |posts|);
      forall g | g in teams { Outsider(g, sub); }
      r := NextAt(sub.inbox, sub.offset, now);
      if r.Got? {
        Take(sub, routes);
      }
    }

    static lemma SubStored(s: Sub, routes: seq<Route>, posts: nat)
      requires SubOk(s, routes) && s.group == null && Stored(routes, posts)
      ensures forall ref :: ref in s.inbox ==> ref.post < posts
    {
      RefsStored(routes, s.since, s.pattern, posts);
    }

    static lemma GroupStored(g: Group, routes: seq<Route>, posts: nat)
      requires InboxOk(g, routes) && Stored(routes, posts)
      ensures forall ref :: ref in g.inbox ==> ref.post < posts
    {
      RefsStored(routes, g.since, g.pattern, posts);
    }

    static lemma Outsider(g: Group, s: Sub)
      requires TeamOk(g) && s.group != g
      ensures s !in g.list
    {
    }

    static method Take(s: Sub, ghost routes: seq<Route>)
      requires SubOk(s, routes) && s.group == null && s.offset < |s.inbox|
      modifies s`offset, s`got
      ensures SubOk(s, routes) && s.got == old(s.got) + [s.inbox[old(s.offset)]] && s.offset == old(s.offset) + 1
    {
      s.got := s.got + [s.inbox[s.offset]];
      s.offset := s.offset + 1;
    }

    /** The next message of a group, for the member whose turn it is. */
    method NextShared(sub: Sub, g: Group, now: nat) returns (r: Reading)
      requires Valid() && sub.group == g && (sub.active ==> sub in all)
      modifies g`offset, g`turn, g`served, g.list`offset
      ensures Valid()
      ensures sub.active && old(g.turn) == sub && Due(g.inbox, old(g.offset), now) ==>
                var ref := g.inbox[old(g.offset)];
                && Shows(r, ref, old(g.offset), posts) && g.offset == old(g.offset) + 1
                && g.served == old(g.served) + [Served(sub.id, ref)]
      ensures !(sub.active && old(g.turn) == sub && Due(g.inbox, old(g.offset), now)) ==>
                r == Nothing(AGAIN) && g.offset == old(g.offset) && g.served == old(g.served) && g.turn == old(g.turn)
    {
      hide InboxOk, Slots, Shows, SubOk, TeamOk;
      if !sub.active || g.turn != sub {
        return Nothing(AGAIN);
      }
      GroupStored(g, routes, |posts|);
      TeamsApart(g);
      forall s | s in g.list { Insider(g, s); }
      r := NextAt(g.inbox, g.offset, now);
      if r.Got? {
        Serve(sub, g, routes);
      }
    }

    lemma TeamsApart(g: Group)
      requires TeamOk(g) && forall g' :: g' in teams ==> TeamOk(g')
      ensures forall g', i :: g' in teams && g' != g && 0 <= i < |g'.list| ==> g'.list[i] !in g.list
    {
      forall g', i | g' in teams && g' != g && 0 <= i < |g'.list|
        ensures g'.list[i] !in g.list
      {
        Insider(g', g'.list[i]);
        Outsider(g, g'.list[i]);
      }
    }

    static lemma Insider(g: Group, s: Sub)
      requires TeamOk(g) && s in g.list
      ensures s.group == g
    {
    }

    static method Serve(sub: Sub, g: Group, ghost routes: seq<Route>)
      requires TeamOk(g) && InboxOk(g, routes) && g.turn == sub && g.offset < |g.inbox|
      modifies g`offset, g`turn, g`served, g.list`offset
      ensures TeamOk(g) && InboxOk(g, routes) && g.offset == old(g.offset) + 1
      ensures g.served == old(g.served) + [Served(sub.id, g.inbox[old(g.offset)])]
    {
      g.Give(sub, g.inbox[g.offset]);
    }

    /** What a subscriber without a group has read: the accepted routes since it subscribed, in order, none left out. */
    static lemma ReadsInOrder(s: Sub, routes: seq<Route>)
      requires SubOk(s, routes) && s.group == null
      ensures var at := Positions(routes, s.since, s.pattern);
              && |s.got| <= |at| && s.got + s.inbox[s.offset..] == Routed(routes, s.since, s.pattern)
              && forall j :: 0 <= j < |s.got| ==> at[j] < |routes| && s.got[j] == routes[at[j]].ref
    {
      RoutedExactly(routes, s.since, s.pattern);
    }

    /** What the members of a group have read together: the same, each reference by one of them. */
    static lemma ServesInOrder(g: Group, routes: seq<Route>)
      requires InboxOk(g, routes)
      ensures var at := Positions(routes, g.since, g.pattern);
              && |g.served| == g.offset <= |at|
              && forall j :: 0 <= j < |g.served| ==> at[j] < |routes| && g.served[j].ref == routes[at[j]].ref
    {
      RoutedExactly(routes, g.since, g.pattern);
    }

    /** Among as many services in a row as there are members, every member has one. */
    static lemma EveryMemberHasATurn(g: Group, k: nat, i: nat)
      requires TeamOk(g) && i < |g.list| && g.round <= k && k + |g.list| <= |g.served|
      ensures exists j :: k <= j < k + |g.list| && g.served[j].member == g.list[i].id
    {
      var d := TurnOf(g.list, g.first, k - g.round, i);
      assert g.served[k + d].member == InTurn(g.list, g.first, k + d - g.round).id;
    }

    // ---- coming and going ----

    method ReserveSubs()
      requires Holds(subs, count, all)
      modifies this`subs
      ensures Holds(subs, count, all) && count < |subs|
    {
      if count < |subs| {
        return;
      }
      var more: seq<Sub?> := seq(if |subs| > 0 then |subs| else 64, _ => null);
      HoldsGrown(subs, count, all, more);
      subs := subs + more;
    }

    method ReserveGroups()
      requires Holds(groups, groupCount, teams)
      modifies this`groups
      ensures Holds(groups, groupCount, teams) && groupCount < |groups|
    {
      if groupCount < |groups| {
        return;
      }
      var more: seq<Group?> := seq(if |groups| > 0 then |groups| else 16, _ => null);
      HoldsGrown(groups, groupCount, teams, more);
      groups := groups + more;
    }

    method FindGroup(pattern: string, name: string) returns (g: Group?)
      requires Slots()
      ensures g == null ==> forall t :: t in teams ==> t.pattern != pattern || t.name != name
      ensures g != null ==> g in teams && g.pattern == pattern && g.name == name
    {
      var i := 0;
      while i < |groups|
        invariant i <= |groups|
        invariant forall j :: 0 <= j < i && groups[j] != null ==> groups[j].pattern != pattern || groups[j].name != name
      {
        g := groups[i];
        if g != null && g.pattern == pattern && g.name == name {
          return;
        }
        i := i + 1;
      }
      g := null;
    }

    /** Puts a new group into a free slot. */
    method Found(g: Group)
      requires Slots() && groupCount < |groups| && g !in teams
      requires forall t :: t in teams ==> t.pattern != g.pattern || t.name != g.name
      modifies this`groups, this`groupCount, this`teams
      ensures Slots() && teams == old(teams) + {g}
    {
      var i := 0;
      if forall j :: 0 <= j < |groups| ==> groups[j] != null { FullUp(groups); }
      while groups[i] != null
        invariant i < |groups| && (exists j :: i <= j < |groups| && groups[j] == null)
        decreases |groups| - i
      {
        i := i + 1;
      }
      HoldsMore(groups, groupCount, teams, i, g);
      groups := groups[i := g];
      groupCount := groupCount + 1;
      teams := teams + {g};
    }

    /** Puts a new subscriber into a free slot. */
    method Enlist(s: Sub)
      requires Slots() && count < |subs| && s !in all && s.id == nextId
      modifies this`subs, this`count, this`nextId, this`all
      ensures Slots() && all == old(all) + {s}
    {
      nextId := nextId + 1;
      var i := 0;
      if forall j :: 0 <= j < |subs| ==> subs[j] != null { FullUp(subs); }
      while subs[i] != null
        invariant i < |subs| && (exists j :: i <= j < |subs| && subs[j] == null)
        decreases |subs| - i
      {
        i := i + 1;
      }
      HoldsMore(subs, count, all, i, s);
      subs := subs[i := s];
      count := count + 1;
      all := all + {s};
    }

    /** A subscriber that its group already knows becomes one of the router. */
    method Enroll(s: Sub)
      requires Books() && (forall g :: g in teams ==> TeamOk(g)) && count < |subs| && s !in all && s.id == nextId
      requires SubOk(s, routes) && (s.group != null ==> s.group in teams && s in s.group.list)
      requires forall g, t :: g in teams && t in g.list ==> t in all || t == s
      modifies this`subs, this`count, this`nextId, this`all
      ensures Valid() && all == old(all) + {s}
    {
      hide SubOk, TeamOk, InboxOk, Holds;
      Enlist(s);
    }

    method Subscribe(pattern: string, name: string) returns (rc: int, sub: Sub?)
      requires Valid()
      modifies this`subs, this`count, this`nextId, this`groups, this`groupCount, this`all, this`teams
      modifies teams`members, teams`turn, teams`count, teams`list, teams`round, teams`first, all`next
      ensures Valid()
      ensures rc == if pattern == "" || |pattern| >= TOPIC_MAX || |name| >= NAME_MAX then INVALID else 0
      ensures rc != 0 ==> sub == null && all == old(all) && teams == old(teams)
      ensures rc == 0 ==> NewSub(sub, pattern, old(all)) && (sub.group == null <==> name == "")
      ensures rc == 0 && name == "" ==> teams == old(teams)
      ensures rc == 0 && name != "" ==> InGroup(sub.group, pattern, name) && teams == old(teams) + {sub.group}
      ensures rc == 0 && name != "" && sub.group !in old(teams) ==> NewGroup(sub.group, sub)
      ensures forall g :: g in old(teams) ==>
                (g.turn == old(g.turn) && g.list == old(g.list) + if rc == 0 && sub.group == g then [sub] else [])
    {
      hide SubOk, TeamOk, InboxOk, Holds;
      if pattern == "" || |pattern| >= TOPIC_MAX || |name| >= NAME_MAX {
        return INVALID, null;
      }
      ReserveSubs();
      if name == "" {
        sub := SubscribeAlone(pattern);
      } else {
        sub := SubscribeShared(pattern, name);
      }
      rc := 0;
    }

    /** A subscriber that starts with what is published from now on. */
    ghost predicate NewSub(s: Sub?, pattern: string, was: set<Sub>)
      reads this`all, this`routes, if s == null then {} else {s}
    {
      s != null && s !in was && all == was + {s} && s.pattern == pattern && s.since == |routes| && s.got == []
    }

    static ghost predicate InGroup(g: Group?, pattern: string, name: string) {
      g != null && g.pattern == pattern && g.name == name
    }

    ghost predicate NewGroup(g: Group, s: Sub)
      reads this`routes, g
    {
      g.list == [s] && g.since == |routes| && g.served == []
    }

    method SubscribeAlone(pattern: string) returns (s: Sub)
      requires Valid() && count < |subs|
      modifies this`subs, this`count, this`nextId, this`all
      ensures Valid() && fresh(s) && NewSub(s, pattern, old(all)) && s.group == null
    {
      s := new Sub(nextId, pattern, null, |routes|);
      Enroll(s);
    }

    method SubscribeShared(pattern: string, name: string) returns (s: Sub)
      requires Valid() && count < |subs|
      modifies this`subs, this`count, this`nextId, this`groups, this`groupCount, this`all, this`teams
      modifies teams`members, teams`turn, teams`count, teams`list, teams`round, teams`first, all`next
      ensures Valid() && fresh(s) && NewSub(s, pattern, old(all))
      ensures InGroup(s.group, pattern, name) && teams == old(teams) + {s.group}
      ensures s.group !in old(teams) ==> NewGroup(s.group, s)
      ensures forall g :: g in old(teams) ==>
                (g.turn == old(g.turn) && g.list == old(g.list) + if s.group == g then [s] else [])
    {
      hide SubOk, TeamOk, InboxOk, Holds;
      var g := FindGroup(pattern, name);
      if g == null {
        s := StartGroup(pattern, name);
      } else {
        s := JoinGroup(g);
      }
    }

    method StartGroup(pattern: string, name: string) returns (s: Sub)
      requires Valid() && count < |subs| && forall t :: t in teams ==> t.pattern != pattern || t.name != name
      modifies this`subs, this`count, this`nextId, this`groups, this`groupCount, this`all, this`teams
      ensures Valid() && fresh(s) && NewSub(s, pattern, old(all))
      ensures InGroup(s.group, pattern, name) && teams == old(teams) + {s.group} && fresh(s.group) && NewGroup(s.group, s)
    {
      hide SubOk, TeamOk, InboxOk, Holds, Follows;
      ReserveGroups();
      var g: Group;
      g, s := NewTeam(nextId, pattern, name, routes);
      Found(g);
      Enroll(s);
    }

    static method NewTeam(id: nat, pattern: string, name: string, ghost routes: seq<Route>) returns (g: Group, s: Sub)
      ensures fresh(g) && fresh(s) && InGroup(g, pattern, name) && g.list == [s] && g.since == |routes| && g.served == []
      ensures s.id == id && s.pattern == pattern && s.group == g && s.since == |routes| && s.got == []
      ensures TeamOk(g) && InboxOk(g, routes) && SubOk(s, routes)
    {
      hide Group.Linked, Group.Cyclic;
      g := new Group(pattern, name, |routes|);
      s := new Sub(id, pattern, g, |routes|);
      g.AddMember(s);
      MemberOk(s, routes);
      NewGroupOk(g, routes);
    }

    method JoinGroup(g: Group) returns (s: Sub)
      requires Valid() && count < |subs| && g in teams
      modifies this`subs, this`count, this`nextId, this`all
      modifies g`members, g`turn, g`count, g`list, g`round, g`first, g.list`next
      ensures Valid() && fresh(s) && NewSub(s, g.pattern, old(all)) && s.group == g
      ensures g.turn == old(g.turn) && g.list == old(g.list) + [s]
    {
      hide SubOk, InboxOk, Holds, Group.Linked, Group.Cyclic;
      TeamsApart(g);
      s := new Sub(nextId, g.pattern, g, |routes|);
      g.AddMember(s);
      MemberOk(s, routes);
      Enroll(s);
    }

    /** A member needs no inbox of its own. */
    static lemma MemberOk(s: Sub, routes: seq<Route>)
      requires s.active && s.group != null
      ensures SubOk(s, routes)
    {
    }

    static lemma NewGroupOk(g: Group, routes: seq<Route>)
      requires g.Linked() && g.Cyclic() && g.list != []
      requires g.inbox == [] && g.served == [] && g.offset == 0 && g.since == |routes|
      ensures TeamOk(g) && InboxOk(g, routes)
    {
    }

    method Unsubscribe(id: nat) returns (rc: int)
      requires Valid()
      modifies this`subs, this`count, this`groups, this`groupCount, this`all, this`teams, all`active, all`next, all`offset
      modifies teams`members, teams`turn, teams`count, teams`list, teams`round, teams`first
      ensures Valid()
      ensures rc == if exists s :: s in old(all) && s.id == id then 0 else MISSING
      ensures forall s :: s in all <==> s in old(all) && s.id != id
      ensures forall s :: s in old(all) ==> s.active == (s.id != id)
      ensures forall g :: g in teams <==> g in old(teams) && g.list != []
      ensures forall g :: g in old(teams) ==> Left(g.list, g.turn, old(g.list), old(g.turn), id)
    {
      hide SubOk, TeamOk, InboxOk;
      NobodyIdle();
      var i := 0;
      while i < |subs|
        invariant i <= |subs|
        invariant forall j :: 0 <= j < i && subs[j] != null ==> subs[j].id != id
      {
        var s := subs[i];
        if s != null && s.id == id {
          if s.group != null {
            DismissMember(i, s, s.group);
          } else {
            DismissAlone(i, s);
          }
          NobodyIdle();
          return 0;
        }
        i := i + 1;
      }
      rc := MISSING;
    }

    lemma NobodyIdle()
      requires Valid()
      ensures (forall s :: s in all ==> s.active) && forall g :: g in teams ==> g.list != []
    {
    }

    /** A group without the member `id`: the others stay in their order, and the turn passes on if it was its turn. */
    static ghost predicate Left(list: seq<Sub>, turn: Sub?, was: seq<Sub>, had: Sub?, id: nat) {
      && (forall i :: 0 <= i < |was| && was[i].id == id ==>
            list == Without(was, i) && (list != [] ==> turn == if had == was[i] then After(was, i) else had))
      && ((forall s :: s in was ==> s.id != id) ==> list == was && turn == had)
    }

    method Delist(i: nat)
      requires Slots() && i < |subs| && subs[i] != null
      modifies this`subs, this`count, this`all
      ensures Slots() && all == old(all) - {old(subs)[i]}
    {
      hide Occupied;
      HoldsLess(subs, count, all, i);
      ghost var s := subs[i];
      subs := subs[i := null];
      count := count - 1;
      all := all - {s};
    }

    method Disband(g: Group)
      requires Slots() && g in teams
      modifies this`groups, this`groupCount, this`teams
      ensures Slots() && teams == old(teams) - {g}
    {
      hide Occupied;
      var j := 0;
      while groups[j] != g
        invariant j < |groups| && g in groups[j..]
        decreases |groups| - j
      {
        j := j + 1;
      }
      HoldsLess(groups, groupCount, teams, j);
      groups := groups[j := null];
      groupCount := groupCount - 1;
      teams := teams - {g};
    }

    method DismissAlone(i: nat, s: Sub)
      requires Valid() && i < |subs| && subs[i] == s && s.group == null
      modifies this`subs, this`count, this`all, s`active
      ensures Valid() && all == old(all) - {s} && !s.active
    {
      hide SubOk, TeamOk, InboxOk, Holds;
      forall g | g in teams { Outsider(g, s); }
      Delist(i);
      s.active := false;
    }

    method DismissMember(i: nat, s: Sub, g: Group)
      requires Valid() && i < |subs| && subs[i] == s && s.group == g && s in all
      modifies this`subs, this`count, this`groups, this`groupCount, this`all, this`teams, s`active
      modifies g.list`next, g.list`offset, g`members, g`turn, g`count, g`list, g`round, g`first
      ensures Valid() && all == old(all) - {s} && !s.active
      ensures teams == if g.list == [] then old(teams) - {g} else old(teams)
      ensures Left(g.list, g.turn, old(g.list), old(g.turn), s.id)
    {
      hide SubOk, InboxOk, TeamOk, Holds, Left;
      TeamsApart(g);
      forall t | t in g.list { Insider(g, t); }
      Delist(i);
      Retire(s, g);
      CloseIfEmpty(g);
    }

    method CloseIfEmpty(g: Group)
      requires Books() && Members() && g in teams && g.count == |g.list| && (g.list != [] ==> TeamOk(g))
      requires forall t :: t in teams && t != g ==> TeamOk(t)
      modifies this`groups, this`groupCount, this`teams
      ensures Valid() && teams == if g.list == [] then old(teams) - {g} else old(teams)
    {
      hide SubOk, InboxOk, TeamOk, Holds;
      if g.count == 0 {
        Disband(g);
      }
    }

    /** Takes a member out of its group. */
    static method Retire(s: Sub, g: Group)
      requires TeamOk(g) && s in g.list && forall t :: t in g.list && t.id == s.id ==> t == s
      modifies s`active, g.list`next, g.list`offset, g`members, g`turn, g`count, g`list, g`round, g`first
      ensures !s.active && g.count == |g.list| && (g.list != [] ==> TeamOk(g))
      ensures forall t :: t in g.list <==> t in old(g.list) && t != s
      ensures Left(g.list, g.turn, old(g.list), old(g.turn), s.id)
    {
      hide Group.Cyclic, Without;
      s.active := false;
      ghost var k := g.RemoveMember(s);
      DistinctWithout(old(g.list), k);
      OnlyOne(old(g.list), k, g.list, g.turn, old(g.turn));
    }

    static lemma OnlyOne(was: seq<Sub>, k: nat, list: seq<Sub>, turn: Sub?, had: Sub?)
      requires Distinct(was) && k < |was| && list == Without(was, k)
      requires list != [] ==> turn == if had == was[k] then After(was, k) else had
      requires forall t :: t in was && t.id == was[k].id ==> t == was[k]
      ensures Left(list, turn, was, had, was[k].id)
    {
    }
  }

  /** The slots hold the elements of `all`, each in one of them. */
  ghost predicate Holds(slots: seq<object?>, count: nat, all: set<object>) {
    && count == Occupied(slots) && (forall x :: x in all ==> x in slots) && (forall x :: x in slots && x != null ==> x in all)
    && forall i, j :: 0 <= i < j < |slots| && slots[i] != null ==> slots[i] != slots[j]
  }

  lemma {:induction false} NoneOccupied(slots: seq<object?>)
    requires forall i :: 0 <= i < |slots| ==> slots[i] == null
    ensures Occupied(slots) == 0
  {
    if slots != [] {
      NoneOccupied(slots[..|slots| - 1]);
    }
  }

  lemma {:induction false} OccupiedSet(slots: seq<object?>, i: nat, x: object?)
    requires i < |slots|
    ensures Occupied(slots[i := x]) == Occupied(slots) + (if x == null then 0 else 1) - if slots[i] == null then 0 else 1
  {
    var n := |slots| - 1;
    if i < n {
      OccupiedSet(slots[..n], i, x);
      assert slots[i := x][..n] == slots[..n][i := x];
    } else {
      assert slots[i := x][..n] == slots[..n];
    }
  }

  lemma {:induction false} OccupiedGrown(slots: seq<object?>, more: seq<object?>)
    requires forall i :: 0 <= i < |more| ==> more[i] == null
    ensures Occupied(slots + more) == Occupied(slots)
  {
    if more == [] {
      assert slots + more == slots;
    } else {
      var n := |more| - 1;
      assert (slots + more)[..|slots| + n] == slots + more[..n];
      OccupiedGrown(slots, more[..n]);
    }
  }

  lemma {:induction false} FullUp(slots: seq<object?>)
    requires forall i :: 0 <= i < |slots| ==> slots[i] != null
    ensures Occupied(slots) == |slots|
  {
    if slots != [] {
      FullUp(slots[..|slots| - 1]);
    }
  }

  lemma HoldsMore(slots: seq<object?>, count: nat, all: set<object>, i: nat, x: object)
    requires Holds(slots, count, all) && i < |slots| && slots[i] == null && x !in all
    ensures Holds(slots[i := x], count + 1, all + {x})
  {
    OccupiedSet(slots, i, x);
    forall y | y in all
      ensures y in slots[i := x]
    {
      var j :| 0 <= j < |slots| && slots[j] == y;
      assert slots[i := x][j] == y;
    }
    assert slots[i := x][i] == x;
  }

  lemma HoldsLess(slots: seq<object?>, count: nat, all: set<object>, i: nat)
    requires Holds(slots, count, all) && i < |slots| && slots[i] != null
    ensures count > 0 && Holds(slots[i := null], count - 1, all - {slots[i]})
  {
    OccupiedSet(slots, i, null);
    forall y | y in all && y != slots[i]
      ensures y in slots[i := null]
    {
      var j :| 0 <= j < |slots| && slots[j] == y;
      assert slots[i := null][j] == y;
    }
  }

  lemma HoldsGrown(slots: seq<object?>, count: nat, all: set<object>, more: seq<object?>)
    requires Holds(slots, count, all) && forall i :: 0 <= i < |more| ==> more[i] == null
    ensures Holds(slots + more, count, all)
  {
    OccupiedGrown(slots, more);
  }
}
