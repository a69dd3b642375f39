/** The device report: the node sends the panel what `LocalDeviceSnapshot` lists, but skips the rounds in
    which nothing changed. What may be skipped is decided by a dirty flag, the hash of the last accepted
    report, and the clearing of that hash when the connection comes back. */
module DeviceReport {
  import opened Basics
  import opened LimiterModel
  import opened LimiterRuns
  import opened DeviceHash
  import opened DeviceLimiter

  /** The connection, the hash of the last report, and the report that the panel holds for this node:
      the last one accepted since the connection came up. */
  datatype Link = Link(connected: bool, hash: string, panel: map<int, seq<Ip>>)

  /** One round of the report task: when cooldowns are purged, when the snapshot is taken, whether the
      write queue would take a message, and the snapshot in the order it comes and in sorted order. */
  datatype Round = Round(purge: int, snap: int, accepted: bool, out: map<int, seq<Ip>>, es: seq<Entry>)

  ghost predicate IsRound(s: State, r: Round) {
    s.Purged(r.purge).IsSnapshot(r.out, r.snap) && Ordered(r.es, r.out)
  }

  /** Does the round end before it takes a snapshot, because nothing has changed? */
  ghost predicate Skips(s: State, l: Link, r: Round) {
    l.connected && !s.Purged(r.purge).dirty && l.hash != ""
  }

  /** The report that the round tries to send, if it does. */
  ghost function Sends(h: string -> string, s: State, l: Link, r: Round): Option<map<int, seq<Ip>>> {
    if !l.connected || Skips(s, l, r) then None else Offers(h, l, r.out, r.es)
  }

  /** The report that is due when the snapshot is `out`. */
  ghost function Offers(h: string -> string, l: Link, out: map<int, seq<Ip>>, es: seq<Entry>)
    : Option<map<int, seq<Ip>>>
  {
    if out == map[] then (if l.hash != "" then Some(map[]) else None)
    else if h(Print(es)) == l.hash then None
    else Some(out)
  }

  /** The connection after `out` was reported. */
  ghost function Accepted(h: string -> string, out: map<int, seq<Ip>>, es: seq<Entry>): Link {
    Link(true, if out == map[] then "" else h(Print(es)), out)
  }

  ghost function StateAfter(h: string -> string, s: State, l: Link, r: Round): State {
    if !l.connected then s
    else if Skips(s, l, r) || (Sends(h, s, l, r).Some? && !r.accepted) then s.Purged(r.purge)
    else s.Purged(r.purge).(dirty := false)
  }

  ghost function LinkAfter(h: string -> string, s: State, l: Link, r: Round): Link {
    if Sends(h, s, l, r).Some? && r.accepted
    then Accepted(h, r.out, r.es)
    else l
  }

  method DevicesHash(sha: string -> string, devices: map<int, seq<Ip>>) returns (hash: string, ghost es: seq<Entry>)
    ensures Ordered(es, devices) && hash == sha(Print(es))
  {
    var text, sorted := DevicesText(devices);
    hash, es := sha(text), sorted;
  }

  lemma NothingOrdered(devices: map<int, seq<Ip>>)
    requires |devices| == 0
    ensures devices == map[] && Ordered([], devices)
  {
  }

  /** The part of the node's controller that reports devices. */
  class Controller {
    const limiter: Limiter
    const sha: string -> string
    var connected: bool
    var lastReportDevicesHash: string
    ghost var panel: map<int, seq<Ip>>

    ghost function Abs(): Link
      reads this
    {
      Link(connected, lastReportDevicesHash, panel)
    }

    constructor (limiter: Limiter, sha: string -> string)
      ensures this.limiter == limiter && this.sha == sha && Abs() == Link(false, "", map[])
    {
      this.limiter := limiter;
      this.sha := sha;
      connected, lastReportDevicesHash, panel := false, "", map[];
    }

    /** The connection comes up: whatever hash is left from before must not be trusted. */
    method OnConnected()
      modifies this
      ensures Abs() == old(Abs()).(connected := true, hash := "")
    {
      connected := true;
      lastReportDevicesHash := "";
    }

    /** The connection drops: the panel forgets what this node reported. */
    method OnDisconnected()
      modifies this
      ensures Abs() == old(Abs()).(connected := false, panel := map[])
    {
      connected := false;
      panel := map[];
    }

    method SendDeviceReport(devices: map<int, seq<Ip>>, room: bool) returns (ok: bool)
      modifies `panel
      ensures ok == (connected && room)
      ensures panel == if ok then devices else old(panel)
    {
      ok := connected && room;
      if ok {
        panel := devices;
      }
    }

    method ReportDevicesTask(purge: int, snap: int, room: bool) returns (ghost r: Round)
      requires limiter.Valid()
      modifies this, limiter
      ensures limiter.Valid() && r.purge == purge && r.snap == snap && r.accepted == room
      ensures old(connected) && !Skips(old(limiter.Abs()), old(Abs()), r) ==> IsRound(old(limiter.Abs()), r)
      ensures limiter.Abs() == StateAfter(sha, old(limiter.Abs()), old(Abs()), r)
      ensures Abs() == LinkAfter(sha, old(limiter.Abs()), old(Abs()), r)
    {
      r := Round(purge, snap, room, map[], []);
      if !connected {
        return;
      }
      var prevHash := lastReportDevicesHash;
      var dirty := limiter.DevicesDirty(purge);
      if !dirty && prevHash != "" {
        return;
      }
      var devices := limiter.LocalDeviceSnapshot(snap);
      var es := Evaluate(devices, room);
      r := r.(out := devices, es := es);
    }

    /** Compares the snapshot with what was reported last and sends it if it differs. */
    method Evaluate(devices: map<int, seq<Ip>>, room: bool) returns (ghost es: seq<Entry>)
      requires limiter.Valid() && connected
      modifies this, limiter`deviceDirty
      ensures limiter.Valid() && Ordered(es, devices)
      ensures var due := Offers(sha, old(Abs()), devices, es);
              && limiter.Abs() == old(limiter.Abs()).(dirty := due.Some? && !room && old(limiter.deviceDirty))
              && Abs() == if due.Some? && room then Accepted(sha, devices, es) else old(Abs())
    {
      es := [];
      if |devices| == 0 {
        NothingOrdered(devices);
        if lastReportDevicesHash != "" {
          var ok := SendDeviceReport(map[], room);
          if !ok {
            return;
          }
        }
        Settle("");
        return;
      }
      var hash, sorted := DevicesHash(sha, devices);
      es := sorted;
      if hash == lastReportDevicesHash {
        limiter.ResetDevicesDirty();
        return;
      }
      var ok := SendDeviceReport(devices, room);
      if !ok {
        return;
      }
      Settle(hash);
    }

    /** The snapshot has been dealt with. */
    method Settle(hash: string)
      requires limiter.Valid()
      modifies `lastReportDevicesHash, limiter`deviceDirty
      ensures limiter.Valid() && limiter.Abs() == old(limiter.Abs()).(dirty := false)
      ensures Abs() == old(Abs()).(hash := hash)
    {
      lastReportDevicesHash := hash;
      limiter.ResetDevicesDirty();
    }
  }

  // ---------------------------------------------------------------------------------------------
  // Runs
  // ---------------------------------------------------------------------------------------------

  datatype Node = Node(w: World, link: Link)

  datatype Step =
    | Local(t: Tick)
    | Connect
    | Disconnect
    | Report(r: Round)

  /** A connection comes up only when there is none, and only the report task clears the dirty flag. */
  ghost predicate CanStep(n: Node, e: Step) {
    match e
    case Local(t) => Possible(n.w, t.e) && !t.e.ResetDirty?
    case Connect => !n.link.connected
    case Disconnect => true
    case Report(r) => IsRound(n.w.s, r)
  }

  ghost function StepOn(h: string -> string, n: Node, e: Step): Node
    requires CanStep(n, e)
  {
    match e
    case Local(t) => n.(w := Next(n.w, t))
    case Connect => n.(link := n.link.(connected := true, hash := ""))
    case Disconnect => n.(link := n.link.(connected := false, panel := map[]))
    case Report(r) => Node(n.w.(s := StateAfter(h, n.w.s, n.link, r)), LinkAfter(h, n.w.s, n.link, r))
  }

  ghost predicate Steps(h: string -> string, n: Node, es: seq<Step>)
    decreases |es|
  {
    es == [] || (CanStep(n, es[0]) && Steps(h, StepOn(h, n, es[0]), es[1..]))
  }

  ghost function Reached(h: string -> string, n: Node, es: seq<Step>): Node
    requires Steps(h, n, es)
    decreases |es|
  {
    if es == [] then n else Reached(h, StepOn(h, n, es[0]), es[1..])
  }

  /** The time a step is over, when it begins after `from`. */
  function Clock(from: int, e: Step): int {
    match e
    case Local(t) => t.now
    case Report(r) => r.snap
    case _ => from
  }

  predicate InOrder(from: int, e: Step) {
    match e
    case Local(t) => from <= t.now
    case Report(r) => from <= r.purge <= r.snap
    case _ => true
  }

  predicate AllInOrder(from: int, es: seq<Step>)
    decreases |es|
  {
    es == [] || (InOrder(from, es[0]) && AllInOrder(Clock(from, es[0]), es[1..]))
  }

  /** Devices arrive under names without separators. */
  predicate CleanStep(e: Step) {
    e.Local? ==> (e.t.e.Ask? ==> CleanIp(e.t.e.ip)) && (e.t.e.Kick? ==> CleanIp(e.t.e.ip))
  }

  predicate AllClean(es: seq<Step>) {
    forall e :: e in es ==> CleanStep(e)
  }

  predicate Has(panel: map<int, seq<Ip>>, u: int, ip: Ip) {
    u in panel && ip in panel[u]
  }

  /** The panel holds exactly the (user, device) pairs that a report made at `now` would list. */
  ghost predicate Shows(panel: map<int, seq<Ip>>, s: State, now: int) {
    forall u, ip :: Has(panel, u, ip) <==> ip in s.Reported(u, now)
  }

  /** Two values that no collision can confuse, and none of them is the empty string that stands for no
      report at all. */
  ghost predicate IsHash(h: string -> string) {
    && (forall a, b :: h(a) == h(b) ==> a == b)
    && (forall a :: h(a) != "")
  }

  ghost predicate CleanTable<K(!new)>(m: map<K, map<Ip, int>>) {
    forall u, ip :: u in m && ip in m[u] ==> CleanIp(ip)
  }

  /** The hash is that of the report that the panel holds. */
  ghost predicate HashOf(h: string -> string, l: Link) {
    CleanReport(l.panel) && exists es :: Ordered(es, l.panel) && l.hash == h(Print(es))
  }

  /** The panel shows what the node had at some moment not after `at`, and nothing that matters for the
      report has changed since. */
  ghost predicate UpToDate(s: State, l: Link, at: int) {
    exists shown :: shown <= at && Shows(l.panel, s, shown)
  }

  ghost predicate Inv(h: string -> string, n: Node, at: int) {
    && n.w.s.WellFormed() && CleanTable(n.w.s.refs) && CleanTable(n.w.s.cooldown)
    && (!n.link.connected || n.link.hash == "" <==> n.link.panel == map[])
    && (n.link.connected && n.link.hash != "" ==> HashOf(h, n.link))
    && (n.link.connected && n.link.hash != "" && !n.w.s.dirty ==> UpToDate(n.w.s, n.link, at))
  }

  lemma NothingExpired<K(!new)>(cd: map<K, map<Ip, int>>, now: int)
    requires Tidy(cd) && !SomeExpired(cd, now)
    ensures Unexpired(cd, now) == cd
  {
    forall u | u in cd
      ensures Left(cd[u], now) == cd[u]
    {
    }
  }

  lemma SnapshotShows(s: State, out: map<int, seq<Ip>>, now: int)
    requires s.IsSnapshot(out, now)
    ensures Shows(out, s, now)
  {
    forall u, ip
      ensures Has(out, u, ip) <==> ip in s.Reported(u, now)
    {
      if u in out {
        assert Elements(out[u]) == s.Reported(u, now);
      } else {
        assert u !in out.Keys;
      }
    }
  }

  lemma SameReportShows(a: map<int, seq<Ip>>, b: map<int, seq<Ip>>, s: State, now: int)
    requires SameReport(a, b) && Shows(a, s, now)
    ensures Shows(b, s, now)
  {
    forall u, ip
      ensures Has(a, u, ip) <==> Has(b, u, ip)
    {
      assert u in a.Keys <==> u in b.Keys;
      if u in a {
        assert ip in multiset(a[u]) <==> ip in multiset(b[u]);
      }
    }
  }

  /** When nothing has expired unnoticed, what was shown is still what a report would list. */
  lemma StillShows(s: State, panel: map<int, seq<Ip>>, shown: int, now: int)
    requires Shows(panel, s, shown) && shown <= now && !SomeExpired(s.cooldown, now)
    ensures Shows(panel, s, now)
  {
    forall u, ip
      ensures ip in s.Reported(u, shown) <==> ip in s.Reported(u, now)
    {
    }
  }

  /** A skipped round leaves the state alone, and the panel shows it. */
  lemma SkipShows(h: string -> string, n: Node, r: Round, at: int)
    requires Inv(h, n, at) && Skips(n.w.s, n.link, r) && at <= r.purge
    ensures n.w.s.Purged(r.purge) == n.w.s && Shows(n.link.panel, n.w.s, r.purge)
  {
    NothingExpired(n.w.s.cooldown, r.purge);
    var shown :| shown <= at && Shows(n.link.panel, n.w.s, shown);
    StillShows(n.w.s, n.link.panel, shown, r.purge);
  }

  lemma SnapshotClean(s: State, out: map<int, seq<Ip>>, now: int)
    requires CleanTable(s.refs) && CleanTable(s.cooldown) && s.IsSnapshot(out, now)
    ensures CleanReport(out)
  {
    SnapshotShows(s, out, now);
    forall u, ip | u in out && ip in out[u]
      ensures CleanIp(ip)
    {
      assert Has(out, u, ip);
    }
  }

  lemma PurgedClean(s: State, now: int)
    requires s.WellFormed() && CleanTable(s.refs) && CleanTable(s.cooldown)
    ensures var p := s.Purged(now); p.WellFormed() && CleanTable(p.refs) && CleanTable(p.cooldown)
  {
    UnexpiredTidy(s.cooldown, now);
    UnexpiredClean(s.cooldown, now);
  }

  lemma UnexpiredClean<K(!new)>(m: map<K, map<Ip, int>>, now: int)
    requires CleanTable(m)
    ensures CleanTable(Unexpired(m, now))
  {
  }

  /** A round that looks at the devices and sends nothing finds them as the panel has them. */
  lemma SilentShows(h: string -> string, n: Node, r: Round, at: int, p: State)
    requires IsHash(h) && Inv(h, n, at) && n.link.connected && IsRound(n.w.s, r)
    requires Offers(h, n.link, r.out, r.es).None? && Shows(r.out, p, r.snap)
    ensures Shows(n.link.panel, p, r.snap)
  {
    if r.out == map[] {
      assert n.link.panel == r.out;
    } else {
      SameHashIff(h, n, r);
      SameReportShows(r.out, n.link.panel, p, r.snap);
    }
  }

  /** A round that looks at the devices, and sends nothing or has its report taken, tells the panel what it
      sees. */
  lemma LookedShows(h: string -> string, n: Node, r: Round, at: int)
    requires IsHash(h) && Inv(h, n, at) && n.link.connected && IsRound(n.w.s, r) && !Skips(n.w.s, n.link, r)
    requires Sends(h, n.w.s, n.link, r).None? || r.accepted
    ensures Shows(LinkAfter(h, n.w.s, n.link, r).panel, n.w.s.Purged(r.purge), r.snap)
  {
    SnapshotShows(n.w.s.Purged(r.purge), r.out, r.snap);
    if Sends(h, n.w.s, n.link, r).None? {
      SilentShows(h, n, r, at, n.w.s.Purged(r.purge));
    }
  }

  /** A round that sends nothing, or whose report is taken, leaves the panel showing the node's present
      devices. */
  lemma RoundShows(h: string -> string, n: Node, r: Round, at: int)
    requires IsHash(h) && Inv(h, n, at) && n.link.connected && IsRound(n.w.s, r) && at <= r.purge
    requires Sends(h, n.w.s, n.link, r).None? || r.accepted
    ensures Shows(LinkAfter(h, n.w.s, n.link, r).panel, StateAfter(h, n.w.s, n.link, r),
                  if Skips(n.w.s, n.link, r) then r.purge else r.snap)
  {
    if Skips(n.w.s, n.link, r) {
      SkipShows(h, n, r, at);
    } else {
      var p := n.w.s.Purged(r.purge);
      LookedShows(h, n, r, at);
      SameParts(LinkAfter(h, n.w.s, n.link, r).panel, p, p.(dirty := false), r.snap);
    }
  }

  lemma SameParts(panel: map<int, seq<Ip>>, s: State, t: State, now: int)
    requires Shows(panel, s, now) && s.refs == t.refs && s.cooldown == t.cooldown
    ensures Shows(panel, t, now)
  {
    forall u
      ensures s.Reported(u, now) == t.Reported(u, now)
    {
    }
  }

  /** An unchanged report has an unchanged hash, and the other way round. */
  lemma SameHashIff(h: string -> string, n: Node, r: Round)
    requires IsHash(h) && IsRound(n.w.s, r) && HashOf(h, n.link)
    requires n.w.s.WellFormed() && CleanTable(n.w.s.refs) && CleanTable(n.w.s.cooldown)
    ensures h(Print(r.es)) == n.link.hash <==> SameReport(r.out, n.link.panel)
  {
    var es :| Ordered(es, n.link.panel) && n.link.hash == h(Print(es));
    PurgedClean(n.w.s, r.purge);
    SnapshotClean(n.w.s.Purged(r.purge), r.out, r.snap);
    SameTextIffSameReport(r.es, es, r.out, n.link.panel);
  }

  /** A node whose panel shows it keeps the books in order. */
  lemma ShownInv(h: string -> string, m: Node, shown: int, at: int)
    requires m.w.s.WellFormed() && CleanTable(m.w.s.refs) && CleanTable(m.w.s.cooldown)
    requires m.link.connected && (m.link.hash == "" <==> m.link.panel == map[])
    requires m.link.hash != "" ==> HashOf(h, m.link)
    requires Shows(m.link.panel, m.w.s, shown) && shown <= at
    ensures Inv(h, m, at)
  {
  }

  lemma CleanAfter(h: string -> string, n: Node, r: Round)
    requires n.w.s.WellFormed() && CleanTable(n.w.s.refs) && CleanTable(n.w.s.cooldown) && n.link.connected
    ensures var s := StateAfter(h, n.w.s, n.link, r); s.WellFormed() && CleanTable(s.refs) && CleanTable(s.cooldown)
  {
    PurgedClean(n.w.s, r.purge);
  }

  /** A report that is due and refused leaves everything due. */
  lemma RefusedKeeps(h: string -> string, n: Node, r: Round, at: int)
    requires Inv(h, n, at) && n.link.connected && Sends(h, n.w.s, n.link, r).Some? && !r.accepted
    ensures Inv(h, Node(n.w.(s := StateAfter(h, n.w.s, n.link, r)), LinkAfter(h, n.w.s, n.link, r)), r.snap)
  {
    CleanAfter(h, n, r);
    var s := StateAfter(h, n.w.s, n.link, r);
    assert s.dirty || n.link.hash == "";
    assert LinkAfter(h, n.w.s, n.link, r) == n.link;
  }

  lemma AcceptedLink(h: string -> string, n: Node, r: Round)
    requires IsHash(h) && IsRound(n.w.s, r) && CleanTable(n.w.s.refs) && CleanTable(n.w.s.cooldown)
    requires n.w.s.WellFormed()
    ensures var l := Accepted(h, r.out, r.es);
            l.connected && (l.hash == "" <==> l.panel == map[]) && (l.hash != "" ==> HashOf(h, l))
  {
    PurgedClean(n.w.s, r.purge);
    SnapshotClean(n.w.s.Purged(r.purge), r.out, r.snap);
  }

  lemma LinkKeeps(h: string -> string, n: Node, r: Round, at: int)
    requires IsHash(h) && Inv(h, n, at) && IsRound(n.w.s, r) && n.link.connected
    ensures var l := LinkAfter(h, n.w.s, n.link, r);
            l.connected && (l.hash == "" <==> l.panel == map[]) && (l.hash != "" ==> HashOf(h, l))
  {
    AcceptedLink(h, n, r);
  }

  lemma ShownKeeps(h: string -> string, n: Node, r: Round, at: int)
    requires IsHash(h) && Inv(h, n, at) && IsRound(n.w.s, r) && at <= r.purge <= r.snap && n.link.connected
    requires Sends(h, n.w.s, n.link, r).None? || r.accepted
    ensures Inv(h, Node(n.w.(s := StateAfter(h, n.w.s, n.link, r)), LinkAfter(h, n.w.s, n.link, r)), r.snap)
  {
    CleanAfter(h, n, r);
    RoundShows(h, n, r, at);
    LinkKeeps(h, n, r, at);
    ShownInv(h, Node(n.w.(s := StateAfter(h, n.w.s, n.link, r)), LinkAfter(h, n.w.s, n.link, r)),
             if Skips(n.w.s, n.link, r) then r.purge else r.snap, r.snap);
  }

  lemma SilenceKeeps(h: string -> string, n: Node, r: Round, at: int)
    requires Inv(h, n, at) && !n.link.connected
    ensures Inv(h, Node(n.w.(s := StateAfter(h, n.w.s, n.link, r)), LinkAfter(h, n.w.s, n.link, r)), r.snap)
  {
    assert StateAfter(h, n.w.s, n.link, r) == n.w.s && LinkAfter(h, n.w.s, n.link, r) == n.link;
  }

  lemma ReportKeeps(h: string -> string, n: Node, r: Round, at: int)
    requires IsHash(h) && Inv(h, n, at) && IsRound(n.w.s, r) && at <= r.purge <= r.snap
    ensures Inv(h, Node(n.w.(s := StateAfter(h, n.w.s, n.link, r)), LinkAfter(h, n.w.s, n.link, r)), r.snap)
  {
    if !n.link.connected {
      SilenceKeeps(h, n, r, at);
    } else if Sends(h, n.w.s, n.link, r).None? || r.accepted {
      ShownKeeps(h, n, r, at);
    } else {
      RefusedKeeps(h, n, r, at);
    }
  }

  /** What a limiter step that leaves the node clean can have changed. */
  lemma LocalQuiet(w: World, t: Tick)
    requires w.s.WellFormed() && Possible(w, t.e) && !t.e.ResetDirty? && !Next(w, t).s.dirty
    ensures var n := Next(w, t).s; !w.s.dirty && n.refs == w.s.refs && n.cooldown == w.s.cooldown
  {
    match t.e
    case Ask(x, ip, tcp, _, victim) => CheckedIs(w.s, x, ip, tcp, t.now, victim);
    case End(conn) =>
    case Purge => NothingExpired(w.s.cooldown, t.now);
    case Update(added, deleted, modified) =>
      NoIds(deleted);
      assert w.s.refs - {} == w.s.refs && w.s.cooldown - {} == w.s.cooldown;
    case _ =>
  }

  lemma NoIds(us: seq<UserInfo>)
    ensures us == [] ==> Ids(us) == {}
  {
  }

  lemma AcquiredClean<K(!new)>(m: map<K, map<Ip, int>>, u: K, ip: Ip)
    requires CleanTable(m) && CleanIp(ip)
    ensures CleanTable(Acquired(m, u, ip))
  {
  }

  lemma ReleasedClean<K(!new)>(m: map<K, map<Ip, int>>, u: K, ip: Ip)
    requires CleanTable(m)
    ensures CleanTable(Released(m, u, ip))
  {
  }

  lemma WithoutClean<K(!new)>(m: map<K, map<Ip, int>>, us: set<K>)
    requires CleanTable(m)
    ensures CleanTable(m - us)
  {
  }

  lemma PutClean<K(!new)>(m: map<K, map<Ip, int>>, u: K, ip: Ip, t: int)
    requires CleanTable(m) && CleanIp(ip)
    ensures CleanTable(m[u := (if u in m then m[u] else map[])[ip := t]])
  {
  }

  lemma AskClean(w: World, t: Tick)
    requires CleanTable(w.s.refs) && t.e.Ask? && Possible(w, t.e) && CleanIp(t.e.ip)
    ensures CleanTable(Next(w, t).s.refs) && Next(w, t).s.cooldown == w.s.cooldown
  {
    var Ask(x, ip, tcp, _, victim) := t.e;
    CheckedIs(w.s, x, ip, tcp, t.now, victim);
    if x in w.s.users {
      AcquiredClean(w.s.refs, w.s.users[x].uid, ip);
    }
  }

  lemma EndClean(w: World, t: Tick)
    requires CleanTable(w.s.refs) && t.e.End? && Possible(w, t.e)
    ensures CleanTable(Next(w, t).s.refs) && Next(w, t).s.cooldown == w.s.cooldown
  {
    var c := w.live[t.e.conn];
    if c.user in w.s.users {
      ReleasedClean(w.s.refs, w.s.users[c.user].uid, c.ip);
    }
  }

  lemma UpdateClean(w: World, t: Tick)
    requires CleanTable(w.s.refs) && CleanTable(w.s.cooldown) && t.e.Update? && Possible(w, t.e)
    ensures var n := Next(w, t).s; CleanTable(n.refs) && CleanTable(n.cooldown)
  {
    WithoutClean(w.s.refs, Ids(t.e.deleted));
    WithoutClean(w.s.cooldown, Ids(t.e.deleted));
  }

  lemma OtherRefs(w: World, t: Tick)
    requires Possible(w, t.e) && !t.e.Ask? && !t.e.End? && !t.e.Update?
    ensures Next(w, t).s.refs == w.s.refs
    ensures !t.e.Kick? && !t.e.Purge? ==> Next(w, t).s.cooldown == w.s.cooldown
  {
    match t.e
    case Kick(u, ip) => assert w.s.Kicked(u, ip, t.now).refs == w.s.refs;
    case Push(table) => assert w.s.WithGlobal(table, t.now).cooldown == w.s.cooldown;
    case _ =>
  }

  lemma LocalClean(w: World, t: Tick)
    requires CleanTable(w.s.refs) && CleanTable(w.s.cooldown) && Possible(w, t.e) && CleanStep(Local(t))
    ensures var n := Next(w, t).s; CleanTable(n.refs) && CleanTable(n.cooldown)
  {
    if t.e.Ask? {
      AskClean(w, t);
    } else if t.e.End? {
      EndClean(w, t);
    } else if t.e.Update? {
      UpdateClean(w, t);
    } else {
      OtherRefs(w, t);
      if t.e.Kick? {
        PutClean(w.s.cooldown, t.e.uid, t.e.ip, t.now + KICK_COOLDOWN);
      } else if t.e.Purge? {
        UnexpiredClean(w.s.cooldown, t.now);
      }
    }
  }

  lemma LocalKeeps(h: string -> string, n: Node, t: Tick, at: int)
    requires Inv(h, n, at) && CanStep(n, Local(t)) && CleanStep(Local(t)) && at <= t.now
    ensures Inv(h, StepOn(h, n, Local(t)), t.now)
  {
    NextWellFormed(n.w, t);
    LocalClean(n.w, t);
    var m := Next(n.w, t).s;
    if n.link.connected && n.link.hash != "" && !m.dirty {
      LocalQuiet(n.w, t);
      var shown :| shown <= at && Shows(n.link.panel, n.w.s, shown);
      SameParts(n.link.panel, n.w.s, m, shown);
    }
  }

  lemma StepKeeps(h: string -> string, n: Node, e: Step, at: int)
    requires IsHash(h) && Inv(h, n, at) && CanStep(n, e) && CleanStep(e) && InOrder(at, e)
    ensures Inv(h, StepOn(h, n, e), Clock(at, e))
  {
    match e
    case Local(t) => LocalKeeps(h, n, t, at);
    case Report(r) => ReportKeeps(h, n, r, at);
    case _ =>
  }

  function EndClock(from: int, es: seq<Step>): int
    decreases |es|
  {
    if es == [] then from else EndClock(Clock(from, es[0]), es[1..])
  }

  lemma {:induction false} StepsKeep(h: string -> string, n: Node, es: seq<Step>, at: int)
    requires IsHash(h) && Inv(h, n, at) && Steps(h, n, es) && AllClean(es) && AllInOrder(at, es)
    ensures Inv(h, Reached(h, n, es), EndClock(at, es))
    decreases |es|
  {
    if es == [] {
    } else {
      StepKeeps(h, n, es[0], at);
      StepsKeep(h, StepOn(h, n, es[0]), es[1..], Clock(at, es[0]));
    }
  }

  /** A node that has just started: no connection yet, no report, no devices. */
  ghost predicate Started(n: Node) {
    n.w.s.WellFormed() && n.w.s.refs == map[] && n.w.s.cooldown == map[] && n.link == Link(false, "", map[])
  }

  /** Skipping is sound. After any run of limiter steps, lost and regained connections and report rounds,
      a connected round that sends nothing, because nothing is dirty or the hash is unchanged or there is
      nothing to take back, does so only when the panel already has exactly the present (user, device)
      pairs; and a round whose report is taken always brings that about. */
  lemma ReportsAreSound(h: string -> string, n: Node, es: seq<Step>, r: Round, at: int)
    requires IsHash(h) && Started(n) && Steps(h, n, es) && AllClean(es) && AllInOrder(at, es)
    requires var m := Reached(h, n, es); m.link.connected && IsRound(m.w.s, r)
    requires EndClock(at, es) <= r.purge <= r.snap
    ensures var m := Reached(h, n, es);
            Sends(h, m.w.s, m.link, r).None? || r.accepted ==>
              Shows(LinkAfter(h, m.w.s, m.link, r).panel, StateAfter(h, m.w.s, m.link, r),
                    if Skips(m.w.s, m.link, r) then r.purge else r.snap)
  {
    StepsKeep(h, n, es, at);
    var m := Reached(h, n, es);
    if Sends(h, m.w.s, m.link, r).None? || r.accepted {
      RoundShows(h, m, r, EndClock(at, es));
    }
  }

  /** Does the round have to tell the panel something? It has when something was flagged or the panel holds
      nothing, and the snapshot is not the report that the panel holds. */
  ghost predicate HasNews(n: Node, r: Round) {
    && n.link.connected
    && (n.w.s.Purged(r.purge).dirty || n.link.panel == map[])
    && !SameReport(r.out, n.link.panel)
  }

  lemma SendsIff(h: string -> string, n: Node, r: Round, at: int)
    requires IsHash(h) && Inv(h, n, at) && IsRound(n.w.s, r)
    ensures Sends(h, n.w.s, n.link, r) == if HasNews(n, r) then Some(r.out) else None
  {
    if n.link.connected && n.link.hash != "" {
      SameHashIff(h, n, r);
    }
  }

  lemma StateAfterNews(h: string -> string, n: Node, r: Round)
    requires Sends(h, n.w.s, n.link, r) == if HasNews(n, r) then Some(r.out) else None
    ensures var p := n.w.s.Purged(r.purge);
            StateAfter(h, n.w.s, n.link, r)
            == if n.link.connected then p.(dirty := p.dirty && HasNews(n, r) && !r.accepted) else n.w.s
  {
    var p := n.w.s.Purged(r.purge);
    assert p == p.(dirty := p.dirty);
  }

  /** What a round does after any run, without the hash: it sends its snapshot if and only if it has news;
      if the panel takes that, it holds the snapshot; otherwise link and panel stay as they are; and a
      connected round takes the flag down unless its report was due and refused. */
  lemma RoundsSendNews(h: string -> string, n: Node, es: seq<Step>, r: Round, at: int)
    requires IsHash(h) && Started(n) && Steps(h, n, es) && AllClean(es) && AllInOrder(at, es)
    requires IsRound(Reached(h, n, es).w.s, r)
    ensures var m := Reached(h, n, es);
            var p := m.w.s.Purged(r.purge);
            var news := HasNews(m, r);
            var after := StepOn(h, m, Report(r));
            && Sends(h, m.w.s, m.link, r) == (if news then Some(r.out) else None)
            && after.link.panel == (if news && r.accepted then r.out else m.link.panel)
            && (!(news && r.accepted) ==> after.link == m.link)
            && after.w == m.w.(s := if m.link.connected then p.(dirty := p.dirty && news && !r.accepted) else m.w.s)
  {
    StepsKeep(h, n, es, at);
    var m := Reached(h, n, es);
    SendsIff(h, m, r, EndClock(at, es));
    StateAfterNews(h, m, r);
  }

  /** So the report of an unchanged set is not sent again: with the same snapshot as last taken, a round
      leaves link and panel as they are and the flag down, whether or not the flag was up. */
  lemma SameIsNotSent(h: string -> string, n: Node, es: seq<Step>, r: Round, at: int)
    requires IsHash(h) && Started(n) && Steps(h, n, es) && AllClean(es) && AllInOrder(at, es)
    requires var m := Reached(h, n, es); m.link.connected && IsRound(m.w.s, r) && SameReport(r.out, m.link.panel)
    ensures var m := Reached(h, n, es);
            var after := StepOn(h, m, Report(r));
            after.link == m.link && !after.w.s.dirty && Sends(h, m.w.s, m.link, r).None?
  {
    RoundsSendNews(h, n, es, r, at);
  }

  /** A round will look at the devices. */
  predicate Due(n: Node) {
    n.w.s.dirty || n.link.hash == ""
  }

  /** Every round of the run that had something to send was refused. */
  ghost predicate OnlyRefused(h: string -> string, n: Node, es: seq<Step>)
    requires Steps(h, n, es)
    decreases |es|
  {
    es != [] ==>
      && (es[0].Report? && n.link.connected ==> !es[0].r.accepted && Sends(h, n.w.s, n.link, es[0].r).Some?)
      && OnlyRefused(h, StepOn(h, n, es[0]), es[1..])
  }

  /** A refused report is not lost: until a round finds the panel up to date or its report is taken, no
      round skips, whatever happens in between. */
  lemma {:induction false} RefusedStaysDue(h: string -> string, n: Node, es: seq<Step>, r: Round)
    requires n.w.s.WellFormed() && Steps(h, n, es) && OnlyRefused(h, n, es)
    requires Due(n) || (es != [] && es[0].Report? && n.link.connected)
    ensures !Skips(Reached(h, n, es).w.s, Reached(h, n, es).link, r)
    decreases |es|
  {
    if es == [] {
    } else {
      var m := StepOn(h, n, es[0]);
      match es[0] {
        case Local(t) =>
          NextWellFormed(n.w, t);
          if !m.w.s.dirty {
            LocalQuiet(n.w, t);
          }
        case Report(r0) => UnexpiredTidy(n.w.s.cooldown, r0.purge);
        case _ =>
      }
      RefusedStaysDue(h, m, es[1..], r);
    }
  }
}
