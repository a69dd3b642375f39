/** Runs of the limiter: the limiter together with the TCP connections it has let in, taking one step
    after another in any order, and what holds in every state it can reach. */
module LimiterRuns {
  import opened Basics
  import opened LimiterModel

  datatype Conn = Conn(user: Uuid, ip: Ip)

  /** The limiter and the live TCP connections that it admitted, by connection number. */
  datatype World = World(s: State, live: map<nat, Conn>)

  /** One operation. `Ask` is a connection request, with the number its connection would have and the
      device that would be thrown out for it. */
  datatype Event =
    | Ask(user: Uuid, ip: Ip, tcp: bool, conn: nat, victim: Ip)
    | End(conn: nat)
    | Kick(uid: int, ip: Ip)
    | Purge
    | ResetDirty
    | Update(added: seq<UserInfo>, deleted: seq<UserInfo>, modified: seq<UserInfo>)
    | Push(table: map<int, seq<Ip>>)
    | SetAlive(alive: map<int, int>)

  datatype Tick = Tick(now: int, e: Event)

  /** Connection numbers are not used twice, and only live connections end. */
  predicate Possible(w: World, e: Event) {
    match e
    case Ask(_, _, _, conn, _) => conn !in w.live
    case End(conn) => conn in w.live
    case _ => true
  }

  ghost function Next(w: World, t: Tick): World
    requires Possible(w, t.e)
  {
    match t.e
    case Ask(x, ip, tcp, conn, victim) =>
      World(w.s.Checked(x, ip, tcp, t.now, victim),
            if tcp && !w.s.Refuses(x, ip, tcp, t.now) then w.live[conn := Conn(x, ip)] else w.live)
    case End(conn) => World(w.s.Closed(w.live[conn].user, w.live[conn].ip), w.live - {conn})
    case Kick(u, ip) => w.(s := w.s.Kicked(u, ip, t.now))
    case Purge => w.(s := w.s.Purged(t.now))
    case ResetDirty => w.(s := w.s.(dirty := false))
    case Update(added, deleted, modified) => w.(s := w.s.Updated(added, deleted, modified))
    case Push(table) => w.(s := w.s.WithGlobal(table, t.now))
    case SetAlive(alive) => w.(s := w.s.(alive := alive))
  }

  ghost predicate Run(w: World, ts: seq<Tick>)
    decreases |ts|
  {
    ts == [] || (Possible(w, ts[0].e) && Run(Next(w, ts[0]), ts[1..]))
  }

  ghost function After(w: World, ts: seq<Tick>): World
    requires Run(w, ts)
    decreases |ts|
  {
    if ts == [] then w else After(Next(w, ts[0]), ts[1..])
  }

  /** Time does not run backwards. */
  predicate Timed(from: int, ts: seq<Tick>)
    decreases |ts|
  {
    ts == [] || (from <= ts[0].now && Timed(ts[0].now, ts[1..]))
  }

  // ---------------------------------------------------------------------------------------------
  // Stored counts
  // ---------------------------------------------------------------------------------------------

  lemma NextWellFormed(w: World, t: Tick)
    requires w.s.WellFormed() && Possible(w, t.e)
    ensures Next(w, t).s.WellFormed()
  {
    match t.e
    case Ask(x, ip, tcp, conn, victim) =>
      if x in w.s.users {
        OpenedTidy(w.s, w.s.users[x].uid, ip);
      }
    case End(conn) => ClosedTidy(w.s, w.live[conn].user, w.live[conn].ip);
    case Kick(u, ip) => KickedTidy(w.s, u, ip, t.now);
    case Purge => UnexpiredTidy(w.s.cooldown, t.now);
    case Update(added, deleted, modified) =>
      DropAllTidy(w.s.refs, Ids(deleted));
      DropAllTidy(w.s.cooldown, Ids(deleted));
    case _ =>
  }

  lemma KickedTidy(s: State, u: int, ip: Ip, now: int)
    requires s.WellFormed()
    ensures s.Kicked(u, ip, now).WellFormed()
  {
    assert ip in s.Kicked(u, ip, now).cooldown[u];
  }

  /** In every reachable state the stored counts are positive and no inner map is empty. */
  lemma {:induction false} RunWellFormed(w: World, ts: seq<Tick>)
    requires w.s.WellFormed() && Run(w, ts)
    ensures After(w, ts).s.WellFormed()
    decreases |ts|
  {
    if ts == [] {
    } else {
      NextWellFormed(w, ts[0]);
      RunWellFormed(Next(w, ts[0]), ts[1..]);
    }
  }

  /** The live connections of user number `u` from `ip` whose user is in the table. */
  ghost function LiveOf(w: World, u: int, ip: Ip): set<nat> {
    set c | c in w.live && w.live[c].ip == ip && w.live[c].user in w.s.users && w.s.users[w.live[c].user].uid == u
  }

  /** Every user keeps the number `id` gives. */
  ghost predicate StableTable(id: Uuid -> int, users: Table) {
    forall x :: x in users ==> users[x].uid == id(x)
  }

  predicate StableList(id: Uuid -> int, us: seq<UserInfo>) {
    forall u :: u in us ==> u.id == id(u.uuid)
  }

  predicate StableEvent(id: Uuid -> int, e: Event) {
    e.Update? ==> StableList(id, e.added) && StableList(id, e.deleted) && StableList(id, e.modified)
  }

  predicate StableRun(id: Uuid -> int, ts: seq<Tick>) {
    forall t :: t in ts ==> StableEvent(id, t.e)
  }

  lemma {:induction false} StoreStable(id: Uuid -> int, t: Table, us: seq<UserInfo>)
    requires StableTable(id, t) && StableList(id, us)
    ensures StableTable(id, Store(t, us))
    decreases |us|
  {
    if us == [] {
    } else {
      StoreStable(id, t, us[..|us| - 1]);
    }
  }

  lemma {:induction false} AdjustKeepsNumbers(t: Table, us: seq<UserInfo>)
    ensures forall x :: x in t ==> Adjust(t, us)[x].uid == t[x].uid
    decreases |us|
  {
    if us == [] {
    } else {
      AdjustKeepsNumbers(t, us[..|us| - 1]);
    }
  }

  lemma OnlyUpdatesChangeUsers(w: World, t: Tick)
    requires Possible(w, t.e) && !t.e.Update?
    ensures Next(w, t).s.users == w.s.users
  {
    match t.e
    case Ask(x, ip, tcp, _, victim) => CheckedIs(w.s, x, ip, tcp, t.now, victim);
    case End(conn) => assert w.s.Closed(w.live[conn].user, w.live[conn].ip).users == w.s.users;
    case _ =>
  }

  lemma NextStable(id: Uuid -> int, w: World, t: Tick)
    requires StableTable(id, w.s.users) && Possible(w, t.e) && StableEvent(id, t.e)
    ensures StableTable(id, Next(w, t).s.users)
  {
    if t.e.Update? {
      var kept := w.s.users - Uuids(t.e.deleted);
      AdjustKeepsNumbers(kept, t.e.modified);
      StoreStable(id, Adjust(kept, t.e.modified), t.e.added);
    } else {
      OnlyUpdatesChangeUsers(w, t);
    }
  }

  /** No slot is counted that no live connection holds. */
  ghost predicate NoLeak(w: World) {
    forall u, ip :: w.s.RefCount(u, ip) <= |LiveOf(w, u, ip)|
  }

  /** Every live connection's user is in the table, and every count is the number of connections. */
  ghost predicate Exact(w: World) {
    && (forall c :: c in w.live ==> w.live[c].user in w.s.users)
    && (forall u, ip :: w.s.RefCount(u, ip) == |LiveOf(w, u, ip)|)
  }

  lemma LiveBut(w: World, conn: nat, x: Uuid, ip: Ip, v: int, i: Ip)
    requires conn !in w.live && x in w.s.users
    ensures var more := w.(live := w.live[conn := Conn(x, ip)]);
            forall c :: c in LiveOf(more, v, i) <==>
              c in LiveOf(w, v, i) || (c == conn && v == w.s.users[x].uid && i == ip)
  {
  }

  lemma LiveMore(w: World, conn: nat, x: Uuid, ip: Ip, v: int, i: Ip)
    requires conn !in w.live && x in w.s.users
    ensures var more := w.(live := w.live[conn := Conn(x, ip)]);
            |LiveOf(more, v, i)| == |LiveOf(w, v, i)| + if v == w.s.users[x].uid && i == ip then 1 else 0
  {
    var more := w.(live := w.live[conn := Conn(x, ip)]);
    LiveBut(w, conn, x, ip, v, i);
    if v == w.s.users[x].uid && i == ip {
      assert LiveOf(more, v, i) == LiveOf(w, v, i) + {conn};
    } else {
      assert LiveOf(more, v, i) == LiveOf(w, v, i);
    }
  }

  lemma LiveLess(w: World, conn: nat, v: int, i: Ip)
    requires conn in w.live
    ensures var c := w.live[conn];
            var counts := c.user in w.s.users && w.s.users[c.user].uid == v && c.ip == i;
            && |LiveOf(w.(live := w.live - {conn}), v, i)| == |LiveOf(w, v, i)| - (if counts then 1 else 0)
            && (counts ==> |LiveOf(w, v, i)| > 0)
  {
    var less := w.(live := w.live - {conn});
    if conn in LiveOf(w, v, i) {
      assert LiveOf(less, v, i) == LiveOf(w, v, i) - {conn};
    } else {
      assert LiveOf(less, v, i) == LiveOf(w, v, i);
    }
  }

  /** The limiter's own fields do not matter for which connections are live. */
  lemma LiveSame(w: World, s: State, v: int, i: Ip)
    requires s.users == w.s.users
    ensures LiveOf(w.(s := s), v, i) == LiveOf(w, v, i)
  {
  }

  /** What a request changes: the counts if a connection is let in, the throttle if a kick starts. */
  lemma CheckedIs(s: State, x: Uuid, ip: Ip, tcp: bool, now: int, victim: Ip)
    ensures var c := s.Checked(x, ip, tcp, now, victim);
            var kicks := tcp && x in s.users && s.Evicts(s.users[x].uid, ip, s.users[x].device, now, victim);
            && c.users == s.users && c.cooldown == s.cooldown && c.global == s.global
            && c.refs == (if tcp && !s.Refuses(x, ip, tcp, now) then Acquired(s.refs, s.users[x].uid, ip) else s.refs)
            && c.throttle == (if kicks then s.throttle[Shard(s.users[x].uid) := now] else s.throttle)
            && c.dirty == (s.dirty || (tcp && !s.Refuses(x, ip, tcp, now)))
  {
    if x in s.users && tcp {
      TryOpenIs(s, s.users[x].uid, ip, s.users[x].device, now, victim);
    }
  }

  lemma TryOpenIs(s: State, u: int, ip: Ip, limit: int, now: int, victim: Ip)
    ensures var c := s.TryOpen(u, ip, limit, now, victim);
            && c.users == s.users && c.cooldown == s.cooldown && c.global == s.global && c.speed == s.speed
            && c.buckets == s.buckets
            && c.refs == (if s.Admits(u, ip, limit, now) then Acquired(s.refs, u, ip) else s.refs)
            && c.throttle == (if s.Evicts(u, ip, limit, now, victim) then s.throttle[Shard(u) := now] else s.throttle)
            && c.dirty == (s.dirty || s.Admits(u, ip, limit, now))
  {
    if s.Admits(u, ip, limit, now) {
      assert !s.Evicts(u, ip, limit, now, victim);
    }
  }

  lemma AcquiredCount(refs: map<int, map<Ip, int>>, u: int, ip: Ip, v: int, i: Ip)
    ensures var r := Acquired(refs, u, ip);
            var before := if v in refs && i in refs[v] then refs[v][i] else 0;
            (if v in r && i in r[v] then r[v][i] else 0) == if v == u && i == ip then before + 1 else before
  {
  }

  lemma AskCounts(w: World, t: Tick, v: int, i: Ip)
    requires t.e.Ask? && Possible(w, t.e)
    ensures var n := Next(w, t);
            n.s.RefCount(v, i) - w.s.RefCount(v, i) == |LiveOf(n, v, i)| - |LiveOf(w, v, i)|
  {
    var Ask(x, ip, tcp, conn, victim) := t.e;
    var s := w.s.Checked(x, ip, tcp, t.now, victim);
    CheckedIs(w.s, x, ip, tcp, t.now, victim);
    if tcp && !w.s.Refuses(x, ip, tcp, t.now) {
      LiveSame(w.(live := w.live[conn := Conn(x, ip)]), s, v, i);
      LiveMore(w, conn, x, ip, v, i);
      AcquiredCount(w.s.refs, w.s.users[x].uid, ip, v, i);
    } else {
      LiveSame(w, s, v, i);
    }
  }

  lemma EndCounts(w: World, t: Tick, v: int, i: Ip)
    requires w.s.WellFormed() && t.e.End? && Possible(w, t.e)
    ensures var n := Next(w, t);
            && n.s.RefCount(v, i) <= w.s.RefCount(v, i)
            && (w.s.RefCount(v, i) <= |LiveOf(w, v, i)| ==> n.s.RefCount(v, i) <= |LiveOf(n, v, i)|)
            && (w.s.RefCount(v, i) == |LiveOf(w, v, i)| ==> n.s.RefCount(v, i) == |LiveOf(n, v, i)|)
  {
    var conn := t.e.conn;
    var c := w.live[conn];
    var n := Next(w, t);
    LiveLess(w, conn, v, i);
    LiveSame(w.(live := w.live - {conn}), n.s, v, i);
    if c.user in w.s.users {
      ReleasedCount(w.s.refs, w.s.users[c.user].uid, c.ip, v, i);
    }
  }

  lemma ReleasedCount(refs: map<int, map<Ip, int>>, u: int, ip: Ip, v: int, i: Ip)
    requires Positive(refs)
    ensures var r := Released(refs, u, ip);
            var before := if v in refs && i in refs[v] then refs[v][i] else 0;
            var after := if v in r && i in r[v] then r[v][i] else 0;
            after == if v == u && i == ip && before > 0 then before - 1 else before
  {
    if v == u && u in refs && i in refs[u] && (i != ip || refs[u][i] > 1) {
      var m := refs[u];
      var left := if ip in m && m[ip] > 1 then m[ip := m[ip] - 1] else m - {ip};
      assert i in left;
    }
  }

  lemma UpdateCounts(id: Uuid -> int, w: World, t: Tick, v: int, i: Ip)
    requires StableTable(id, w.s.users) && t.e.Update? && StableEvent(id, t.e)
    ensures var n := Next(w, t);
            && n.s.RefCount(v, i) == (if v in Ids(t.e.deleted) then 0 else w.s.RefCount(v, i))
            && (v !in Ids(t.e.deleted) ==> |LiveOf(w, v, i)| <= |LiveOf(n, v, i)|)
  {
    var n := Next(w, t);
    NextStable(id, w, t);
    if v !in Ids(t.e.deleted) {
      forall c | c in LiveOf(w, v, i)
        ensures c in LiveOf(n, v, i)
      {
        var x := w.live[c].user;
        assert forall d :: d in t.e.deleted ==> d.id in Ids(t.e.deleted) && d.uuid != x;
      }
      SubsetSize(LiveOf(w, v, i), LiveOf(n, v, i));
    }
  }

  lemma {:induction false} SubsetSize<T>(a: set<T>, b: set<T>)
    requires a <= b
    ensures |a| <= |b|
  {
    assert b == a + (b - a);
  }

  lemma OtherCounts(w: World, t: Tick, v: int, i: Ip)
    requires Possible(w, t.e) && !t.e.Ask? && !t.e.End? && !t.e.Update?
    ensures Next(w, t).s.RefCount(v, i) == w.s.RefCount(v, i) && LiveOf(Next(w, t), v, i) == LiveOf(w, v, i)
    ensures Next(w, t).live == w.live
  {
    OnlyUpdatesChangeUsers(w, t);
    LiveSame(w, Next(w, t).s, v, i);
  }

  lemma NextCounts(id: Uuid -> int, w: World, t: Tick, v: int, i: Ip)
    requires w.s.WellFormed() && StableTable(id, w.s.users) && Possible(w, t.e) && StableEvent(id, t.e)
    requires w.s.RefCount(v, i) <= |LiveOf(w, v, i)|
    ensures Next(w, t).s.RefCount(v, i) <= |LiveOf(Next(w, t), v, i)|
  {
    if t.e.Ask? {
      AskCounts(w, t, v, i);
    } else if t.e.End? {
      EndCounts(w, t, v, i);
    } else if t.e.Update? {
      UpdateCounts(id, w, t, v, i);
    } else {
      OtherCounts(w, t, v, i);
    }
  }

  lemma NextNoLeak(id: Uuid -> int, w: World, t: Tick)
    requires w.s.WellFormed() && StableTable(id, w.s.users) && NoLeak(w)
    requires Possible(w, t.e) && StableEvent(id, t.e)
    ensures NoLeak(Next(w, t))
  {
    forall v, i
      ensures Next(w, t).s.RefCount(v, i) <= |LiveOf(Next(w, t), v, i)|
    {
      NextCounts(id, w, t, v, i);
    }
  }

  /** No leaked device slot: in every state reachable from a sound one, whatever users are deleted and
      added back on the way, each count is at most the number of live connections behind it. */
  lemma {:induction false} RunNoLeak(id: Uuid -> int, w: World, ts: seq<Tick>)
    requires w.s.WellFormed() && StableTable(id, w.s.users) && NoLeak(w)
    requires Run(w, ts) && StableRun(id, ts)
    ensures NoLeak(After(w, ts))
    decreases |ts|
  {
    if ts == [] {
    } else {
      NextWellFormed(w, ts[0]);
      NextStable(id, w, ts[0]);
      NextNoLeak(id, w, ts[0]);
      RunNoLeak(id, Next(w, ts[0]), ts[1..]);
    }
  }

  /** The step deletes no user that has a live connection. */
  predicate Spares(w: World, e: Event) {
    e.Update? ==>
      forall c :: c in w.live && w.live[c].user in w.s.users ==> w.s.users[w.live[c].user].uid !in Ids(e.deleted)
  }

  ghost predicate RunSpares(w: World, ts: seq<Tick>)
    requires Run(w, ts)
    decreases |ts|
  {
    ts == [] || (Spares(w, ts[0].e) && RunSpares(Next(w, ts[0]), ts[1..]))
  }

  /** Counts are exact in every state of the run. */
  ghost predicate AlwaysExact(w: World, ts: seq<Tick>)
    requires Run(w, ts)
    decreases |ts|
  {
    Exact(w) && (ts != [] ==> AlwaysExact(Next(w, ts[0]), ts[1..]))
  }

  lemma UpdateExactCounts(id: Uuid -> int, w: World, t: Tick, v: int, i: Ip)
    requires StableTable(id, w.s.users) && Exact(w) && t.e.Update? && StableEvent(id, t.e) && Spares(w, t.e)
    ensures Next(w, t).s.RefCount(v, i) == |LiveOf(Next(w, t), v, i)|
  {
    UpdateCounts(id, w, t, v, i);
    NextStable(id, w, t);
    forall c | c in w.live
      ensures w.live[c].user in Next(w, t).s.users
    {
      UserSpared(id, w, t, c);
    }
    assert LiveOf(Next(w, t), v, i) == LiveOf(w, v, i);
    if v in Ids(t.e.deleted) {
      assert LiveOf(w, v, i) == {};
    }
  }

  lemma UserSpared(id: Uuid -> int, w: World, t: Tick, c: nat)
    requires StableTable(id, w.s.users) && t.e.Update? && StableEvent(id, t.e) && Spares(w, t.e)
    requires c in w.live && w.live[c].user in w.s.users
    ensures w.live[c].user in Next(w, t).s.users
  {
    var x := w.live[c].user;
    assert x !in Uuids(t.e.deleted) by {
      assert forall d :: d in t.e.deleted ==> d.id in Ids(t.e.deleted) && d.uuid != x;
    }
  }

  lemma NextKnown(id: Uuid -> int, w: World, t: Tick)
    requires StableTable(id, w.s.users) && (forall c :: c in w.live ==> w.live[c].user in w.s.users)
    requires Possible(w, t.e) && StableEvent(id, t.e) && Spares(w, t.e)
    ensures forall c :: c in Next(w, t).live ==> Next(w, t).live[c].user in Next(w, t).s.users
  {
    if t.e.Update? {
      forall c | c in w.live
        ensures w.live[c].user in Next(w, t).s.users
      {
        UserSpared(id, w, t, c);
      }
    } else {
      OnlyUpdatesChangeUsers(w, t);
    }
  }

  lemma NextExactCounts(id: Uuid -> int, w: World, t: Tick, v: int, i: Ip)
    requires w.s.WellFormed() && StableTable(id, w.s.users) && Exact(w)
    requires Possible(w, t.e) && StableEvent(id, t.e) && Spares(w, t.e)
    ensures Next(w, t).s.RefCount(v, i) == |LiveOf(Next(w, t), v, i)|
  {
    if t.e.Ask? {
      AskCounts(w, t, v, i);
    } else if t.e.End? {
      EndCounts(w, t, v, i);
    } else if t.e.Update? {
      UpdateExactCounts(id, w, t, v, i);
    } else {
      OtherCounts(w, t, v, i);
    }
  }

  /** A deletion takes the counts of a user to zero; with a connection that still lives they are wrong. */
  lemma NotSpared(id: Uuid -> int, w: World, t: Tick, c: nat)
    requires StableTable(id, w.s.users) && t.e.Update? && StableEvent(id, t.e)
    requires c in w.live && w.live[c].user in w.s.users && w.s.users[w.live[c].user].uid in Ids(t.e.deleted)
    ensures !Exact(Next(w, t))
  {
    var n := Next(w, t);
    var v, i := w.s.users[w.live[c].user].uid, w.live[c].ip;
    UpdateCounts(id, w, t, v, i);
    NextStable(id, w, t);
    if w.live[c].user in n.s.users {
      assert c in LiveOf(n, v, i);
    }
  }

  /** A step keeps the counts exact if and only if it deletes no user that has a live connection. */
  lemma NextExactIff(id: Uuid -> int, w: World, t: Tick)
    requires w.s.WellFormed() && StableTable(id, w.s.users) && Exact(w) && Possible(w, t.e) && StableEvent(id, t.e)
    ensures Exact(Next(w, t)) <==> Spares(w, t.e)
  {
    if Spares(w, t.e) {
      NextKnown(id, w, t);
      forall v, i
        ensures Next(w, t).s.RefCount(v, i) == |LiveOf(Next(w, t), v, i)|
      {
        NextExactCounts(id, w, t, v, i);
      }
    } else {
      var c :| c in w.live && w.live[c].user in w.s.users && w.s.users[w.live[c].user].uid in Ids(t.e.deleted);
      NotSpared(id, w, t, c);
    }
  }

  /** In all states of a run each count is exactly the number of live connections, if and only if no user
      is deleted while a connection of that user lives. */
  lemma {:induction false} RunExactIff(id: Uuid -> int, w: World, ts: seq<Tick>)
    requires w.s.WellFormed() && StableTable(id, w.s.users) && Exact(w) && Run(w, ts) && StableRun(id, ts)
    ensures AlwaysExact(w, ts) <==> RunSpares(w, ts)
    ensures RunSpares(w, ts) ==> Exact(After(w, ts))
    decreases |ts|
  {
    if ts == [] {
    } else {
      NextWellFormed(w, ts[0]);
      NextStable(id, w, ts[0]);
      NextExactIff(id, w, ts[0]);
      if Spares(w, ts[0].e) {
        RunExactIff(id, Next(w, ts[0]), ts[1..]);
      }
    }
  }

  /** A node that starts without connections is sound. */
  lemma StartExact(id: Uuid -> int, speed: int, us: seq<UserInfo>, alive: map<int, int>)
    requires StableList(id, us)
    ensures var w := World(Initial(speed, us, alive), map[]);
            w.s.WellFormed() && StableTable(id, w.s.users) && Exact(w) && NoLeak(w)
  {
    var w := World(Initial(speed, us, alive), map[]);
    StoreStable(id, map[], us);
    forall v, i
      ensures w.s.RefCount(v, i) == |LiveOf(w, v, i)|
    {
      assert LiveOf(w, v, i) == {};
    }
  }

  // ---------------------------------------------------------------------------------------------
  // Quota
  // ---------------------------------------------------------------------------------------------

  /** Every user with number `u` has the device limit `limit`. */
  ghost predicate LimitIs(s: State, u: int, limit: int) {
    forall x :: x in s.users && s.users[x].uid == u ==> s.users[x].device == limit
  }

  /** In every state of the run, users with number `u` have the device limit `limit`. */
  ghost predicate LimitStays(w: World, ts: seq<Tick>, u: int, limit: int)
    requires Run(w, ts)
    decreases |ts|
  {
    LimitIs(w.s, u, limit) && (ts != [] ==> LimitStays(Next(w, ts[0]), ts[1..], u, limit))
  }

  lemma OneMoreDevice(l: set<Ip>, g: set<Ip>, ip: Ip)
    requires ip !in l
    ensures |l + {ip}| == |l| + 1
    ensures ip !in g ==> |l + {ip} + g| == |l + g| + 1
    ensures |l + {ip}| <= |l + {ip} + g|
  {
    if ip !in g {
      assert l + {ip} + g == (l + g) + {ip};
    }
    SubsetSize(l + {ip}, l + {ip} + g);
  }

  /** An admitted device leaves the user within the limit, counted on this node and, while the panel's
      table is fresh and the device is new, counted over all nodes. */
  lemma AdmittedWithinLimit(s: State, u: int, ip: Ip, limit: int, now: int)
    requires limit > 0 && s.Admits(u, ip, limit, now) && |s.Local(u)| <= limit
    ensures |s.Local(u) + {ip}| <= limit
    ensures s.Fresh(now) && ip !in s.Local(u) ==> |s.Local(u) + {ip} + s.Global(u)| <= limit
  {
    if ip in s.Local(u) {
      assert s.Local(u) + {ip} == s.Local(u);
    } else {
      OneMoreDevice(s.Local(u), s.Global(u), ip);
    }
  }

  lemma AskLocal(w: World, t: Tick, u: int)
    requires t.e.Ask? && Possible(w, t.e)
    ensures var opens := t.e.tcp && !w.s.Refuses(t.e.user, t.e.ip, true, t.now) && w.s.users[t.e.user].uid == u;
            Next(w, t).s.Local(u) == if opens then w.s.Local(u) + {t.e.ip} else w.s.Local(u)
  {
    CheckedIs(w.s, t.e.user, t.e.ip, t.e.tcp, t.now, t.e.victim);
  }

  /** A step other than a connection request brings the user no device. */
  lemma OtherLocal(w: World, t: Tick, u: int)
    requires !t.e.Ask? && Possible(w, t.e)
    ensures Next(w, t).s.Local(u) <= w.s.Local(u)
  {
    match t.e
    case End(conn) => assert w.s.Closed(w.live[conn].user, w.live[conn].ip).Local(u) <= w.s.Local(u);
    case Update(added, deleted, modified) => assert w.s.Updated(added, deleted, modified).Local(u) <= w.s.Local(u);
    case _ =>
  }

  lemma NextWithinLimit(w: World, t: Tick, u: int, limit: int)
    requires limit > 0 && LimitIs(w.s, u, limit) && |w.s.Local(u)| <= limit && Possible(w, t.e)
    ensures |Next(w, t).s.Local(u)| <= limit
  {
    if t.e.Ask? {
      AskLocal(w, t, u);
      if t.e.tcp && !w.s.Refuses(t.e.user, t.e.ip, true, t.now) && w.s.users[t.e.user].uid == u {
        AdmittedWithinLimit(w.s, u, t.e.ip, limit, t.now);
      }
    } else {
      OtherLocal(w, t, u);
      SubsetSize(Next(w, t).s.Local(u), w.s.Local(u));
    }
  }

  /** Quota: while a user's limit stays the same, no interleaving of connections, kicks, pushes of the
      panel's table and spells without the panel makes the limiter count more devices of the user on this
      node than that. */
  lemma {:induction false} RunWithinLimit(w: World, ts: seq<Tick>, u: int, limit: int)
    requires limit > 0 && |w.s.Local(u)| <= limit
    requires Run(w, ts) && LimitStays(w, ts, u, limit)
    ensures |After(w, ts).s.Local(u)| <= limit
    decreases |ts|
  {
    if ts == [] {
    } else {
      NextWithinLimit(w, ts[0], u, limit);
      RunWithinLimit(Next(w, ts[0]), ts[1..], u, limit);
    }
  }

  /** One node and what it goes through. */
  datatype NodeRun = NodeRun(start: World, run: seq<Tick>)
  {
    /** On this node users with number `u` start within the limit, and it stays theirs. */
    ghost predicate Limited(u: int, limit: int) {
      |start.s.Local(u)| <= limit && Run(start, run) && LimitStays(start, run, u, limit)
    }

    /** Their devices that are counted here at the end. */
    ghost function Devices(u: int): set<Ip> {
      if Run(start, run) then After(start, run).s.Local(u) else {}
    }
  }

  /** The devices of users with number `u` that any of the nodes counts at the end. */
  ghost function AllDevices(nodes: seq<NodeRun>, u: int): set<Ip> {
    if nodes == [] then {} else nodes[0].Devices(u) + AllDevices(nodes[1..], u)
  }

  lemma UnionAtMost(a: set<Ip>, b: set<Ip>)
    ensures |a + b| <= |a| + |b|
  {
    assert a + b == a + (b - a);
    SubsetSize(b - a, b);
  }

  lemma NodeWithinLimit(n: NodeRun, u: int, limit: int)
    requires limit > 0 && n.Limited(u, limit)
    ensures |n.Devices(u)| <= limit
  {
    RunWithinLimit(n.start, n.run, u, limit);
  }

  /** So nodes on which a user has the same limit count, whatever runs they go through on their own, no
      more of the user's devices than that limit times their number. */
  lemma {:induction false} NodesWithinLimit(nodes: seq<NodeRun>, u: int, limit: int)
    requires limit > 0 && forall n :: n in nodes ==> n.Limited(u, limit)
    ensures |AllDevices(nodes, u)| <= |nodes| * limit
    decreases |nodes|
  {
    if nodes == [] {
    } else {
      assert nodes[0] in nodes && forall m :: m in nodes[1..] ==> m in nodes;
      NodeWithinLimit(nodes[0], u, limit);
      NodesWithinLimit(nodes[1..], u, limit);
      UnionAtMost(nodes[0].Devices(u), AllDevices(nodes[1..], u));
      OneMore(|nodes|, limit);
    }
  }

  lemma OneMore(n: int, limit: int)
    ensures n * limit == (n - 1) * limit + limit
  {
  }

  /** The devices of users with number `u` that have a live connection. */
  ghost function LiveDevices(w: World, u: int): set<Ip> {
    set c | c in w.live && w.live[c].user in w.s.users && w.s.users[w.live[c].user].uid == u :: w.live[c].ip
  }

  /** A counted device is connected as long as no slot leaks, and a connected one is counted when the
      counts are exact. */
  lemma CountedAreLive(w: World, u: int)
    requires w.s.WellFormed()
    ensures NoLeak(w) ==> w.s.Local(u) <= LiveDevices(w, u)
    ensures Exact(w) ==> w.s.Local(u) == LiveDevices(w, u)
  {
    LocalIsCounted(w.s);
    forall ip
      ensures LiveOf(w, u, ip) != {} <==> ip in LiveDevices(w, u)
    {
      if ip in LiveDevices(w, u) {
        var c :| c in w.live && w.live[c].user in w.s.users && w.s.users[w.live[c].user].uid == u && w.live[c].ip == ip;
        assert c in LiveOf(w, u, ip);
      }
    }
    if NoLeak(w) {
      assert forall ip :: w.s.RefCount(u, ip) > 0 ==> LiveOf(w, u, ip) != {};
    }
    if Exact(w) {
      assert forall ip :: w.s.RefCount(u, ip) > 0 <==> LiveOf(w, u, ip) != {};
    }
  }

  /** The quota on connected devices: it holds too, as long as no user is deleted while a connection of
      that user lives. */
  lemma LiveWithinLimit(id: Uuid -> int, w: World, ts: seq<Tick>, u: int, limit: int)
    requires w.s.WellFormed() && StableTable(id, w.s.users) && Exact(w) && limit > 0 && |w.s.Local(u)| <= limit
    requires Run(w, ts) && StableRun(id, ts) && RunSpares(w, ts) && LimitStays(w, ts, u, limit)
    ensures |LiveDevices(After(w, ts), u)| <= limit
  {
    RunWithinLimit(w, ts, u, limit);
    RunExactIff(id, w, ts);
    RunWellFormed(w, ts);
    CountedAreLive(After(w, ts), u);
  }

  /** A limiter that knows only one user, and of no devices. */
  ghost predicate Bare(s: State, u: UserInfo) {
    && s.users == map[u.uuid := LimitOf(u)]
    && s.refs == map[] && s.cooldown == map[] && s.global == map[] && s.alive == map[] && s.updated == None
  }

  lemma AskBare(w: World, u: UserInfo, ip: Ip, conn: nat, now: int)
    requires Bare(w.s, u) && u.deviceLimit == 1 && conn !in w.live
    ensures var n := Next(w, Tick(now, Ask(u.uuid, ip, true, conn, "")));
            && n.s.users == w.s.users && n.s.refs == map[u.id := map[ip := 1]]
            && n.live == w.live[conn := Conn(u.uuid, ip)]
            && n.s.cooldown == map[] && n.s.global == map[] && n.s.alive == map[] && n.s.updated == None
  {
    assert !w.s.Refuses(u.uuid, ip, true, now);
    CheckedIs(w.s, u.uuid, ip, true, now, "");
  }

  lemma DeleteAndReturn(w: World, u: UserInfo, ip: Ip, now: int)
    requires w.s.users == map[u.uuid := LimitOf(u)] && w.s.refs == map[u.id := map[ip := 1]]
    requires w.s.cooldown == map[] && w.s.global == map[] && w.s.alive == map[] && w.s.updated == None
    ensures var n := Next(Next(w, Tick(now, Update([], [u], []))), Tick(now, Update([u], [], [])));
            Bare(n.s, u) && n.live == w.live
  {
    assert Uuids([u]) == {u.uuid} && Ids([u]) == {u.id} && Uuids([]) == {} && Ids([]) == {};
    assert [u][..0] == [];
  }

  lemma TwoLive(w: World, u: UserInfo, a: Ip, b: Ip)
    requires w.s.users == map[u.uuid := LimitOf(u)]
    requires w.live == map[0 := Conn(u.uuid, a), 1 := Conn(u.uuid, b)]
    ensures LiveDevices(w, u.id) == {a, b}
  {
    assert 0 in w.live && 1 in w.live;
  }

  lemma FirstStep(w: World, t: Tick, ts: seq<Tick>)
    requires Possible(w, t.e) && Run(Next(w, t), ts)
    ensures Run(w, [t] + ts) && After(w, [t] + ts) == After(Next(w, t), ts)
  {
    assert ([t] + ts)[1..] == ts;
  }

  lemma FourSteps(w: World, t0: Tick, t1: Tick, t2: Tick, t3: Tick)
    requires Possible(w, t0.e) && Possible(Next(w, t0), t1.e)
    requires Possible(Next(Next(w, t0), t1), t2.e) && Possible(Next(Next(Next(w, t0), t1), t2), t3.e)
    ensures Run(w, [t0, t1, t2, t3]) && After(w, [t0, t1, t2, t3]) == Next(Next(Next(Next(w, t0), t1), t2), t3)
  {
    var w1 := Next(w, t0);
    var w2 := Next(w1, t1);
    var w3 := Next(w2, t2);
    FirstStep(w3, t3, []);
    assert [t3] + [] == [t3];
    FirstStep(w2, t2, [t3]);
    assert [t2] + [t3] == [t2, t3];
    FirstStep(w1, t1, [t2, t3]);
    assert [t1] + [t2, t3] == [t1, t2, t3];
    FirstStep(w, t0, [t1, t2, t3]);
    assert [t0] + [t1, t2, t3] == [t0, t1, t2, t3];
  }

  /** And else it may not: a user with a limit of one device connects, is deleted and added back, and
      connects with another device while the first connection still lives. */
  lemma DeletionAdmitsMore(u: UserInfo, a: Ip, b: Ip, now: int)
    requires u.deviceLimit == 1 && a != b
    ensures var w := World(Initial(0, [u], map[]), map[]);
            var ts := [Tick(now, Ask(u.uuid, a, true, 0, "")), Tick(now, Update([], [u], [])),
                       Tick(now, Update([u], [], [])), Tick(now, Ask(u.uuid, b, true, 1, ""))];
            Run(w, ts) && LiveDevices(After(w, ts), u.id) == {a, b} && After(w, ts).s.Local(u.id) == {b}
  {
    var w := World(Initial(0, [u], map[]), map[]);
    assert [u][..0] == [];
    AskBare(w, u, a, 0, now);
    var t0, t1 := Tick(now, Ask(u.uuid, a, true, 0, "")), Tick(now, Update([], [u], []));
    var t2, t3 := Tick(now, Update([u], [], [])), Tick(now, Ask(u.uuid, b, true, 1, ""));
    DeleteAndReturn(Next(w, t0), u, a, now);
    var n := Next(Next(Next(w, t0), t1), t2);
    AskBare(n, u, b, 1, now);
    FourSteps(w, t0, t1, t2, t3);
    TwoLive(Next(n, t3), u, a, b);
  }

  // ---------------------------------------------------------------------------------------------
  // Cooldown
  // ---------------------------------------------------------------------------------------------

  /** `ip` is kept out for user number `u` until `until`. */
  ghost predicate KeptOut(s: State, u: int, ip: Ip, until: int) {
    u in s.cooldown && ip in s.cooldown[u] && s.cooldown[u][ip] >= until
  }

  predicate KeepsUser(u: int, ts: seq<Tick>) {
    forall t :: t in ts && t.e.Update? ==> u !in Ids(t.e.deleted)
  }

  lemma NextKeptOut(w: World, t: Tick, u: int, ip: Ip, until: int)
    requires KeptOut(w.s, u, ip, until) && t.now < until <= t.now + KICK_COOLDOWN
    requires Possible(w, t.e) && (t.e.Update? ==> u !in Ids(t.e.deleted))
    ensures KeptOut(Next(w, t).s, u, ip, until)
  {
    if t.e.Ask? {
      CheckedIs(w.s, t.e.user, t.e.ip, t.e.tcp, t.now, t.e.victim);
    } else if t.e.Purge? {
      assert ip in Left(w.s.cooldown[u], t.now);
    }
  }

  lemma {:induction false} RunKeptOut(w: World, ts: seq<Tick>, from: int, u: int, ip: Ip, until: int)
    requires KeptOut(w.s, u, ip, until) && until <= from + KICK_COOLDOWN
    requires Run(w, ts) && Timed(from, ts) && KeepsUser(u, ts) && (forall t :: t in ts ==> t.now < until)
    ensures KeptOut(After(w, ts).s, u, ip, until)
    decreases |ts|
  {
    if ts == [] {
    } else {
      NextKeptOut(w, ts[0], u, ip, until);
      RunKeptOut(Next(w, ts[0]), ts[1..], ts[0].now, u, ip, until);
    }
  }

  /** Cooldown: after a kick, every later TCP connection of that user from that device is refused until
      the cooldown is over, through any run that does not delete the user. */
  lemma KickedStaysOut(w: World, kick: Tick, ts: seq<Tick>, now: int, x: Uuid)
    requires kick.e.Kick? && Run(w, [kick] + ts) && Timed(kick.now, ts + [Tick(now, Purge)])
    requires now < kick.now + KICK_COOLDOWN && KeepsUser(kick.e.uid, ts)
    requires var s := After(w, [kick] + ts).s;
             x in s.users && s.users[x].uid == kick.e.uid && s.users[x].device > 0
    ensures After(w, [kick] + ts).s.Refuses(x, kick.e.ip, true, now)
  {
    var n := Next(w, kick);
    assert ([kick] + ts)[1..] == ts;
    TimedBounds(kick.now, ts, Tick(now, Purge));
    RunKeptOut(n, ts, kick.now, kick.e.uid, kick.e.ip, kick.now + KICK_COOLDOWN);
  }

  lemma {:induction false} TimedBounds(from: int, ts: seq<Tick>, last: Tick)
    requires Timed(from, ts + [last])
    ensures Timed(from, ts) && forall t :: t in ts ==> t.now <= last.now
    decreases |ts|
  {
    if ts == [] {
    } else {
      assert (ts + [last])[1..] == ts[1..] + [last];
      TimedBounds(ts[0].now, ts[1..], last);
      if |ts| == 1 {
        assert (ts + [last])[1..] == [last];
      } else {
        assert ts[1] in ts[1..];
        TimedSecond(ts);
      }
    }
  }

  lemma TimedSecond(ts: seq<Tick>)
    requires |ts| > 1 && Timed(ts[0].now, ts[1..])
    ensures ts[0].now <= ts[1].now
  {
  }

  // ---------------------------------------------------------------------------------------------
  // Kick spacing
  // ---------------------------------------------------------------------------------------------

  /** Does this step start a kick in shard `sh`? */
  predicate StartsKick(w: World, t: Tick, sh: nat) {
    && t.e.Ask? && t.e.tcp && t.e.user in w.s.users
    && var u := w.s.users[t.e.user];
       Shard(u.uid) == sh && w.s.Evicts(u.uid, t.e.ip, u.device, t.now, t.e.victim)
  }

  /** The times at which kicks are started in a shard. */
  ghost function KickTimes(w: World, ts: seq<Tick>, sh: nat): (r: seq<int>)
    requires Run(w, ts)
    decreases |ts|
  {
    if ts == [] then []
    else (if StartsKick(w, ts[0], sh) then [ts[0].now] else []) + KickTimes(Next(w, ts[0]), ts[1..], sh)
  }

  /** Consecutive times are more than a second apart, and so is the first from `last`. */
  predicate Spaced(last: int, times: seq<int>)
    decreases |times|
  {
    times == [] || (times[0] - last > SECOND && Spaced(times[0], times[1..]))
  }

  lemma NextThrottle(w: World, t: Tick, sh: nat)
    requires w.s.WellFormed() && Possible(w, t.e) && sh < SHARDS
    ensures var n := Next(w, t).s;
            && |n.throttle| == SHARDS
            && n.throttle[sh] == (if StartsKick(w, t, sh) then t.now else w.s.throttle[sh])
    ensures StartsKick(w, t, sh) ==> t.now - w.s.throttle[sh] > SECOND
  {
    if t.e.Ask? {
      CheckedIs(w.s, t.e.user, t.e.ip, t.e.tcp, t.now, t.e.victim);
    } else {
      OtherThrottle(w, t);
    }
  }

  lemma OtherThrottle(w: World, t: Tick)
    requires Possible(w, t.e) && !t.e.Ask?
    ensures Next(w, t).s.throttle == w.s.throttle
  {
    match t.e
    case End(conn) => assert w.s.Closed(w.live[conn].user, w.live[conn].ip).throttle == w.s.throttle;
    case Update(added, deleted, modified) => assert w.s.Updated(added, deleted, modified).throttle == w.s.throttle;
    case _ =>
  }

  /** Kick spacing: two kicks started in the same shard are more than a second apart. */
  lemma {:induction false} RunSpaced(w: World, ts: seq<Tick>, sh: nat)
    requires w.s.WellFormed() && Run(w, ts) && sh < SHARDS
    ensures Spaced(w.s.throttle[sh], KickTimes(w, ts, sh))
    decreases |ts|
  {
    if ts == [] {
    } else {
      var rest := KickTimes(Next(w, ts[0]), ts[1..], sh);
      NextThrottle(w, ts[0], sh);
      NextWellFormed(w, ts[0]);
      RunSpaced(Next(w, ts[0]), ts[1..], sh);
      if StartsKick(w, ts[0], sh) {
        assert ([ts[0].now] + rest)[1..] == rest;
      } else {
        assert [] + rest == rest;
      }
    }
  }

  /** How many of the times fall into the window of length `len` from `from`. */
  function InWindow(times: seq<int>, from: int, len: nat): (n: nat) {
    if times == [] then 0
    else (if from <= times[0] <= from + len then 1 else 0) + InWindow(times[1..], from, len)
  }

  lemma {:induction false} SpacedInWindow(last: int, times: seq<int>, from: int, len: nat)
    requires Spaced(last, times) && from <= last
    ensures InWindow(times, from, len) * (SECOND + 1) <= Max0(from + len - last)
    decreases |times|
  {
    if times == [] {
    } else {
      SpacedInWindow(times[0], times[1..], from, len);
    }
  }

  /** Any window of `len` nanoseconds holds at most `len / (SECOND + 1) + 1` kicks of a shard. */
  lemma {:induction false} KicksInWindow(last: int, times: seq<int>, from: int, len: nat)
    requires Spaced(last, times)
    ensures InWindow(times, from, len) <= len / (SECOND + 1) + 1
    decreases |times|
  {
    if times == [] {
    } else {
      if from <= times[0] <= from + len {
        SpacedInWindow(times[0], times[1..], from, len);
      } else {
        KicksInWindow(times[0], times[1..], from, len);
      }
    }
  }

  /** So it is for the kicks that any run starts. */
  lemma RunKicksInWindow(w: World, ts: seq<Tick>, sh: nat, from: int, len: nat)
    requires w.s.WellFormed() && Run(w, ts) && sh < SHARDS
    ensures InWindow(KickTimes(w, ts, sh), from, len) <= len / (SECOND + 1) + 1
  {
    RunSpaced(w, ts, sh);
    KicksInWindow(w.s.throttle[sh], KickTimes(w, ts, sh), from, len);
  }

  // ---------------------------------------------------------------------------------------------
  // Eviction
  // ---------------------------------------------------------------------------------------------

  /** The device to go is never the one that arrives, it is connected here whenever the user has a
      device here, and a refusal names none exactly when the panel says the arriving device is online
      elsewhere, or when the panel is silent and the user has no device here. */
  lemma EvictionChoice(s: State, u: int, ip: Ip, limit: int, now: int)
    ensures var c := s.Candidates(u, ip, limit, now);
            && ip !in c
            && (s.Local(u) != {} ==> c <= s.Local(u))
            && (s.Rejects(u, ip, limit, now) ==>
                  (c == {} <==> if s.Fresh(now) then ip in s.Global(u) else s.Local(u) == {}))
  {
    if s.Rejects(u, ip, limit, now) && s.Fresh(now) && s.Local(u) == {} {
      assert s.Local(u) + s.Global(u) == s.Global(u);
    }
  }

  function Ends(now: int, conns: seq<nat>): (ts: seq<Tick>)
    ensures |ts| == |conns|
  {
    if conns == [] then [] else [Tick(now, End(conns[0]))] + Ends(now, conns[1..])
  }

  /** Ending some of a device's connections takes as many off its count, if there are as many, and off no
      other. */
  lemma {:induction false} EndsCount(w: World, now: int, conns: seq<nat>, u: int, ip: Ip)
    requires w.s.WellFormed() && NoRepeats(conns) && forall c :: c in conns ==> c in LiveOf(w, u, ip)
    ensures Run(w, Ends(now, conns))
    ensures var n := After(w, Ends(now, conns)).s;
            && n.WellFormed()
            && n.RefCount(u, ip) == Max0(w.s.RefCount(u, ip) - |conns|)
            && forall v, i :: (v, i) != (u, ip) ==> n.RefCount(v, i) == w.s.RefCount(v, i)
    decreases |conns|
  {
    if conns == [] {
      LocalIsCounted(w.s);
    } else {
      assert conns[0] in conns && conns[0] in LiveOf(w, u, ip);
      var t := Tick(now, End(conns[0]));
      var n := Next(w, t);
      forall v, i
        ensures n.s.RefCount(v, i)
                == if v == u && i == ip then Max0(w.s.RefCount(v, i) - 1) else w.s.RefCount(v, i)
      {
        ReleasedCount(w.s.refs, u, ip, v, i);
      }
      NextWellFormed(w, t);
      forall d | d in conns[1..]
        ensures d in LiveOf(n, u, ip)
      {
        assert d in conns && d != conns[0];
      }
      EndsCount(n, now, conns[1..], u, ip);
      assert Ends(now, conns)[1..] == Ends(now, conns[1..]);
    }
  }

  lemma CountGone(s: State, n: State, u: int, ip: Ip)
    requires s.WellFormed() && n.WellFormed() && n.RefCount(u, ip) == 0
    requires forall v, i :: (v, i) != (u, ip) ==> n.RefCount(v, i) == s.RefCount(v, i)
    ensures n.Local(u) == s.Local(u) - {ip} && forall v :: v != u ==> n.Local(v) == s.Local(v)
  {
    LocalIsCounted(s);
    LocalIsCounted(n);
    forall v
      ensures n.Local(v) == if v == u then s.Local(v) - {ip} else s.Local(v)
    {
      assert forall i :: i in n.Local(v) <==> (v, i) != (u, ip) && i in s.Local(v);
    }
  }

  /** Once every TCP connection of a device has ended, the user has exactly that device less here, if it
      was counted at all; users may have been deleted and added back before. */
  lemma DeviceFreed(w: World, now: int, conns: seq<nat>, u: int, ip: Ip)
    requires w.s.WellFormed() && NoLeak(w)
    requires NoRepeats(conns) && forall c :: c in conns <==> c in LiveOf(w, u, ip)
    ensures Run(w, Ends(now, conns))
    ensures var n := After(w, Ends(now, conns)).s;
            && n.Local(u) == w.s.Local(u) - {ip}
            && |n.Local(u)| == |w.s.Local(u)| - (if ip in w.s.Local(u) then 1 else 0)
            && forall v :: v != u ==> n.Local(v) == w.s.Local(v)
  {
    ListSize(conns, LiveOf(w, u, ip));
    EndsCount(w, now, conns, u, ip);
    CountGone(w.s, After(w, Ends(now, conns)).s, u, ip);
  }

  lemma LocalIsCounted(s: State)
    requires s.WellFormed()
    ensures forall u, ip :: ip in s.Local(u) <==> s.RefCount(u, ip) > 0
    ensures forall u, ip :: s.RefCount(u, ip) >= 0
  {
  }

  lemma {:induction false} ListSize<T>(l: seq<T>, s: set<T>)
    requires NoRepeats(l) && forall x :: x in l <==> x in s
    ensures |l| == |s|
    decreases |l|
  {
    if l == [] {
      assert s == {};
    } else {
      var rest := s - {l[0]};
      forall x
        ensures x in l[1..] <==> x in rest
      {
        assert x in l <==> x == l[0] || x in l[1..];
      }
      ListSize(l[1..], rest);
      assert l[0] in s;
    }
  }

  // ---------------------------------------------------------------------------------------------
  // Speed buckets
  // ---------------------------------------------------------------------------------------------

  lemma {:induction false} StoreOutside(t: Table, us: seq<UserInfo>, x: Uuid)
    ensures x !in Uuids(us) ==> (x in Store(t, us) <==> x in t) && (x in t ==> Store(t, us)[x] == t[x])
    ensures x in Uuids(us) ==> x in Store(map[], us) && Store(t, us)[x] == Store(map[], us)[x]
    decreases |us|
  {
    if us == [] {
    } else {
      var front, u := us[..|us| - 1], us[|us| - 1];
      StoreOutside(t, front, x);
      assert forall v :: v in us <==> v in front || v == u;
    }
  }

  lemma {:induction false} AdjustOutside(t: Table, us: seq<UserInfo>, x: Uuid)
    requires x in t && x !in Uuids(us)
    ensures Adjust(t, us)[x] == t[x]
    decreases |us|
  {
    if us == [] {
    } else {
      assert us[|us| - 1] in us && forall v :: v in us[..|us| - 1] ==> v in us;
      AdjustOutside(t, us[..|us| - 1], x);
    }
  }

  /** The rate that the last entry for `x` in the list gives. */
  function ListedRate(speed: int, us: seq<UserInfo>, x: Uuid): int
    requires x in Uuids(us)
  {
    var t := Store(map[], us);
    BytesPerSecond(Smaller(Max0(speed), Max0(t[x].speed)))
  }

  lemma UpdatedRate(s: State, added: seq<UserInfo>, deleted: seq<UserInfo>, modified: seq<UserInfo>, x: Uuid)
    requires x in s.users && x !in Uuids(deleted) && x !in Uuids(modified)
    ensures var n := s.Updated(added, deleted, modified);
            x in n.users && n.Rate(x) == if x in Uuids(added) then ListedRate(s.speed, added, x) else s.Rate(x)
  {
    var kept := s.users - Uuids(deleted);
    AdjustOutside(kept, modified, x);
    StoreOutside(Adjust(kept, modified), added, x);
  }

  /** An update leaves the cached buckets coherent exactly when it adds no user again, neither deleted
      nor modified in the same update, whose bucket is cached at another rate. */
  lemma CoherentAfterUpdateIff(s: State, added: seq<UserInfo>, deleted: seq<UserInfo>, modified: seq<UserInfo>)
    requires s.Coherent()
    ensures s.Updated(added, deleted, modified).Coherent() <==>
            forall x :: x in s.buckets && x in Uuids(added) && x !in Uuids(deleted) && x !in Uuids(modified) ==>
                          s.buckets[x] == ListedRate(s.speed, added, x)
  {
    var n := s.Updated(added, deleted, modified);
    forall x | x in n.buckets
      ensures x in n.users && n.buckets[x] == s.buckets[x] == s.Rate(x) > 0
      ensures n.Rate(x) == if x in Uuids(added) then ListedRate(s.speed, added, x) else s.Rate(x)
    {
      UpdatedRate(s, added, deleted, modified, x);
    }
    assert forall x :: x in n.buckets <==> x in s.buckets && x !in Uuids(deleted) && x !in Uuids(modified);
  }

  /** Users are added only if they are not in the table, or are deleted in the same update. */
  ghost predicate AddsNewUsers(w: World, e: Event) {
    e.Update? ==> forall u :: u in e.added ==> u.uuid !in w.s.users || u.uuid in Uuids(e.deleted)
  }

  ghost predicate RunAddsNewUsers(w: World, ts: seq<Tick>)
    requires Run(w, ts)
    decreases |ts|
  {
    ts != [] ==> AddsNewUsers(w, ts[0].e) && RunAddsNewUsers(Next(w, ts[0]), ts[1..])
  }

  lemma NextCoherent(w: World, t: Tick)
    requires w.s.Coherent() && Possible(w, t.e) && AddsNewUsers(w, t.e)
    ensures Next(w, t).s.Coherent()
  {
    match t.e
    case Ask(x, ip, tcp, _, victim) => CheckedCoherent(w.s, x, ip, tcp, t.now, victim);
    case End(conn) => assert w.s.Closed(w.live[conn].user, w.live[conn].ip).buckets == w.s.buckets;
    case Update(added, deleted, modified) =>
      CoherentAfterUpdateIff(w.s, added, deleted, modified);
    case _ =>
  }

  /** With coherent buckets, a user who is let in gets the bucket of the present rate. */
  lemma CheckedCoherent(s: State, x: Uuid, ip: Ip, tcp: bool, now: int, victim: Ip)
    requires s.Coherent()
    ensures s.Checked(x, ip, tcp, now, victim).Coherent()
    ensures x in s.users ==> s.Bucket(x) == if s.Rate(x) > 0 then Some(s.Rate(x)) else None
  {
    if x in s.users && tcp {
      TryOpenIs(s, s.users[x].uid, ip, s.users[x].device, now, victim);
    }
  }

  /** Speed buckets: through any run of requests, changed limits, deletions and returns of users, every
      cached bucket has the present rate of its user. */
  lemma {:induction false} RunCoherent(w: World, ts: seq<Tick>)
    requires w.s.Coherent() && Run(w, ts) && RunAddsNewUsers(w, ts)
    ensures After(w, ts).s.Coherent()
    decreases |ts|
  {
    if ts == [] {
    } else {
      NextCoherent(w, ts[0]);
      RunCoherent(Next(w, ts[0]), ts[1..]);
    }
  }

  /** Adding a user again with another limit, as a list with a repeated uuid makes it happen, leaves in
      place the bucket that an earlier request was given. */
  lemma RepeatedUserKeepsOldBucket(ip: Ip, now: int)
    ensures var s := Initial(0, [UserInfo(1, "a", 8, 0)], map[]).Checked("a", ip, false, now, "");
            s.Coherent() && "a" in s.buckets && !s.Updated([UserInfo(1, "a", 16, 0)], [], []).Coherent()
  {
    var u, v := UserInfo(1, "a", 8, 0), UserInfo(1, "a", 16, 0);
    var start := Initial(0, [u], map[]);
    assert [u][..0] == [] && [v][..0] == [];
    assert Store(map[], [u])["a"] == LimitOf(u);
    assert Store(map[], [v])["a"] == LimitOf(v);
    assert start.Rate("a") == 1000000 && !start.Refuses("a", ip, false, now);
    var s := start.Checked("a", ip, false, now, "");
    assert s == start.(buckets := map["a" := 1000000]);
    CheckedCoherent(start, "a", ip, false, now, "");
    assert v in [v];
    assert "a" in Uuids([v]);
    assert ListedRate(0, [v], "a") == 2000000;
    CoherentAfterUpdateIff(s, [v], [], []);
  }
}
