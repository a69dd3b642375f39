/** The limiter as the program keeps it, with its cached sizes, its counter of cooldown entries and its
    shortcuts. Every method is proved to do what `LimiterModel` says. */
module DeviceLimiter {
  import opened Basics
  import opened LimiterModel

  /** The (user, device) pairs of a nested table. */
  ghost function Pairs<K>(m: map<K, map<Ip, int>>): set<(K, Ip)> {
    set u, ip | u in m && ip in m[u] :: (u, ip)
  }

  /** How many entries a nested table has. */
  ghost function Entries<K>(m: map<K, map<Ip, int>>): nat {
    |Pairs(m)|
  }

  /** The sizes of the sets of a table, kept beside it. */
  ghost predicate SizesKept<K>(devices: map<K, set<Ip>>, sizes: map<K, int>) {
    sizes.Keys == devices.Keys && forall u :: u in devices ==> sizes[u] == |devices[u]|
  }

  lemma SizesWithout<K>(devices: map<K, set<Ip>>, sizes: map<K, int>, u: K)
    requires SizesKept(devices, sizes)
    ensures SizesKept(devices - {u}, sizes - {u})
  {
  }

  lemma {:induction false} RowSize<K>(u: K, ips: set<Ip>)
    ensures |set ip | ip in ips :: (u, ip)| == |ips|
    decreases |ips|
  {
    var row := set ip | ip in ips :: (u, ip);
    if ips == {} {
      assert row == {};
    } else {
      var ip :| ip in ips;
      RowSize(u, ips - {ip});
      assert row == (set i | i in ips - {ip} :: (u, i)) + {(u, ip)};
    }
  }

  lemma PairsWithout<K>(m: map<K, map<Ip, int>>, u: K)
    ensures Entries(m - {u}) == Entries(m) - if u in m then |m[u]| else 0
  {
    if u in m {
      var row := set ip | ip in m[u].Keys :: (u, ip);
      RowSize(u, m[u].Keys);
      assert Pairs(m) == Pairs(m - {u}) + row && Pairs(m - {u}) !! row;
    } else {
      assert m - {u} == m;
    }
  }

  lemma InPairs<K>(m: map<K, map<Ip, int>>, p: (K, Ip))
    ensures p in Pairs(m) <==> p.0 in m && p.1 in m[p.0]
  {
  }

  lemma PairsPut<K(!new)>(m: map<K, map<Ip, int>>, u: K, row: map<Ip, int>, ip: Ip, t: int)
    requires row == if u in m then m[u] else map[]
    ensures Entries(m[u := row[ip := t]]) == Entries(m) + if ip in row then 0 else 1
  {
    var n := m[u := row[ip := t]];
    forall p: (K, Ip)
      ensures p in Pairs(n) <==> p in Pairs(m) || p == (u, ip)
    {
      InPairs(m, p);
      InPairs(n, p);
    }
    InPairs(m, (u, ip));
    assert Pairs(n) == Pairs(m) + {(u, ip)};
  }

  /** Purging one user's row takes as many pairs away as the row loses. */
  lemma PairsPurge<K>(m: map<K, map<Ip, int>>, u: K, left: map<Ip, int>)
    requires u in m
    ensures Entries(m[u := left]) == Entries(m) - |m[u]| + |left|
    ensures left == map[] ==> Entries(m - {u}) == Entries(m) - |m[u]|
  {
    PairsWithout(m, u);
    PairsWithout(m[u := left], u);
    assert m[u := left] - {u} == m - {u};
  }

  lemma EmptyRows<K>(m: map<K, map<Ip, int>>, u: K)
    requires Entries(m) == 0 && u in m
    ensures m[u] == map[]
  {
    assert forall ip :: ip in m[u] ==> (u, ip) in Pairs(m);
  }

  lemma NoEntries<K(!new)>(m: map<K, map<Ip, int>>, now: int)
    requires Entries(m) == 0 && Tidy(m)
    ensures m == map[] && Unexpired(m, now) == m
  {
    forall u | u in m
      ensures m[u] == map[]
    {
      EmptyRows(m, u);
    }
  }

  lemma UnionSize(a: set<Ip>, b: set<Ip>)
    ensures |a + b| == |a| + |b - a|
    ensures |a| <= |a + b| && |b| <= |a + b| <= |a| + |b|
  {
    assert a + b == a + (b - a) && a !! (b - a);
    assert a + b == b + (a - b) && b !! (a - b);
    assert b == (b - a) + (a * b) && (b - a) !! (a * b);
  }

  class Limiter {
    const speedLimit: int
    var users: map<Uuid, UserLimit>
    var buckets: map<Uuid, int>
    var aliveList: map<int, int>
    var refs: map<int, map<Ip, int>>
    var deviceDirty: bool
    var kickThrottle: seq<int>
    var kickCooldown: map<int, map<Ip, int>>
    var cooldownCount: int
    var globalDevices: map<int, set<Ip>>
    var globalCount: map<int, int>
    var globalLastUpdate: Option<int>

    ghost function Abs(): State
      reads this
    {
      State(speedLimit, users, buckets, aliveList, refs, kickCooldown, kickThrottle, deviceDirty,
            globalDevices, globalLastUpdate)
    }

    /** The redundant fields agree with the tables they summarise. */
    ghost predicate Valid()
      reads this
    {
      && Abs().WellFormed()
      && cooldownCount == Entries(kickCooldown)
      && SizesKept(globalDevices, globalCount)
    }

    constructor (speedLimit: int, us: seq<UserInfo>, aliveList: map<int, int>)
      ensures Valid() && Abs() == Initial(speedLimit, us, aliveList)
    {
      this.speedLimit := speedLimit;
      this.buckets := map[];
      this.aliveList := aliveList;
      this.refs := map[];
      this.deviceDirty := false;
      this.kickThrottle := seq(SHARDS, _ => 0);
      this.kickCooldown := map[];
      this.cooldownCount := 0;
      this.globalDevices := map[];
      this.globalCount := map[];
      this.globalLastUpdate := None;
      var t := StoreAll(map[], us);
      this.users := t;
      new;
      assert Pairs(kickCooldown) == {};
    }

    method SetAliveList(m: map<int, int>)
      requires Valid()
      modifies `aliveList
      ensures Valid() && Abs() == old(Abs()).(alive := m)
    {
      aliveList := m;
    }

    /** Forgets all about a user, cooldown entries included. */
    method DropUser(d: UserInfo)
      requires Valid()
      modifies this
      ensures Valid() && Abs() == WithoutUser(old(Abs()), d)
    {
      users := users - {d.uuid};
      buckets := buckets - {d.uuid};
      aliveList := aliveList - {d.id};
      DropDevices(d.id);
      DropCooldown(d.id);
      deviceDirty := true;
    }

    method DropDevices(uid: int)
      requires Valid()
      modifies `refs, `globalDevices, `globalCount
      ensures Valid() && Abs() == old(Abs()).(refs := old(refs) - {uid}, global := old(globalDevices) - {uid})
    {
      DropTidy(refs, uid);
      SizesWithout(globalDevices, globalCount, uid);
      refs := refs - {uid};
      globalDevices := globalDevices - {uid};
      globalCount := globalCount - {uid};
    }

    method DropCooldown(uid: int)
      requires Valid()
      modifies `kickCooldown, `cooldownCount
      ensures Valid() && Abs() == old(Abs()).(cooldown := old(kickCooldown) - {uid})
    {
      DropTidy(kickCooldown, uid);
      PairsWithout(kickCooldown, uid);
      if uid in kickCooldown {
        cooldownCount := cooldownCount - |kickCooldown[uid]|;
      }
      kickCooldown := kickCooldown - {uid};
    }

    /** Gives a user new limits; the bucket cached for the old ones goes. */
    method ModifyUser(m: UserInfo)
      requires Valid()
      modifies `users, `buckets
      ensures Valid()
      ensures Abs() == old(Abs()).(users := Adjust(old(users), [m]), buckets := old(buckets) - {m.uuid})
    {
      assert [m][..0] == [] && Adjust(users, []) == users;
      if m.uuid in users {
        users := users[m.uuid := UserLimit(users[m.uuid].uid, m.speedLimit, m.deviceLimit)];
      }
      buckets := buckets - {m.uuid};
    }

    method UpdateUser(added: seq<UserInfo>, deleted: seq<UserInfo>, modified: seq<UserInfo>)
      requires Valid()
      modifies this
      ensures Valid() && Abs() == old(Abs()).Updated(added, deleted, modified)
    {
      ghost var was := Abs();
      NothingUpdated(was);
      for i := 0 to |deleted|
        invariant Valid() && Abs() == was.Updated([], deleted[..i], [])
      {
        DeleteStep(was, deleted, i);
        DropUser(deleted[i]);
      }
      assert deleted[..|deleted|] == deleted;
      for i := 0 to |modified|
        invariant Valid() && Abs() == was.Updated([], deleted, modified[..i])
      {
        ModifyStep(was, deleted, modified, i);
        ModifyUser(modified[i]);
      }
      assert modified[..|modified|] == modified;
      var t := StoreAll(users, added);
      users := t;
    }

    /** The panel's device table replaces the old one; the size of each user's set is kept beside it. */
    method UpdateGlobalDevices(table: map<int, seq<Ip>>, now: int)
      requires Valid()
      modifies this
      ensures Valid() && Abs() == old(Abs()).WithGlobal(table, now)
    {
      var devices := SetsOf(table);
      var counts := SizesOf(devices);
      globalDevices := devices;
      globalCount := counts;
      globalLastUpdate := Some(now);
    }

    method ConnOpened(uid: int, ip: Ip)
      requires Valid()
      modifies `refs, `deviceDirty
      ensures Valid() && Abs() == old(Abs()).Opened(uid, ip)
    {
      OpenedTidy(Abs(), uid, ip);
      var m := if uid in refs then refs[uid] else map[];
      m := m[ip := (if ip in m then m[ip] else 0) + 1];
      assert refs[uid := m] == Acquired(refs, uid, ip);
      refs := refs[uid := m];
      deviceDirty := true;
    }

    method ConnClosed(taguuid: Uuid, ip: Ip)
      requires Valid()
      modifies `refs, `deviceDirty
      ensures Valid() && Abs() == old(Abs()).Closed(taguuid, ip)
    {
      ClosedTidy(Abs(), taguuid, ip);
      if taguuid !in users {
        return;
      }
      var uid := users[taguuid].uid;
      refs := Release(refs, uid, ip);
      deviceDirty := true;
    }

    method InCooldown(uid: int, ip: Ip, now: int) returns (r: bool)
      requires Valid()
      ensures r == Abs().InCooldown(uid, ip, now)
    {
      if cooldownCount == 0 {
        NoEntries(kickCooldown, now);
        return false;
      }
      if uid in kickCooldown {
        var ips := kickCooldown[uid];
        if ip in ips && now < ips[ip] {
          return true;
        }
      }
      return false;
    }

    /** Refuse a new connection? If so, which device is to go? The sizes decide most cases without
        walking the panel's table. */
    method CheckDeviceGate(uid: int, ip: Ip, limit: int, now: int) returns (reject: bool, victim: Ip)
      requires Valid()
      ensures reject == Abs().Rejects(uid, ip, limit, now)
      ensures IsChoice(victim, Abs().Candidates(uid, ip, limit, now))
    {
      if limit <= 0 {
        return false, "";
      }
      var stale := globalLastUpdate.None? || now - globalLastUpdate.value > STALE_AFTER;
      var globalIPs := if uid in globalDevices then globalDevices[uid] else {};
      var count := if uid in globalCount then globalCount[uid] else 0;
      var local := if uid in refs then refs[uid] else map[];
      UnionSize(local.Keys, globalIPs);
      if ip in local && local[ip] > 0 {
        return false, "";
      }
      if !stale {
        if ip in globalIPs {
          return true, "";
        }
        if |local| >= limit || count >= limit {
          victim := PickVictim(local.Keys, globalIPs);
          return true, victim;
        }
        if |local| + count < limit {
          return false, "";
        }
        var n := UnionCount(local, globalIPs);
        if n >= limit {
          victim := PickVictim(local.Keys, globalIPs);
        } else {
          victim := "";
        }
        return n >= limit, victim;
      }
      if |local| < limit {
        victim := PickVictim(local.Keys, {});
        var alive := if uid in aliveList then aliveList[uid] else 0;
        if alive >= limit {
          return true, victim;
        }
        return false, "";
      }
      victim := PickVictim(local.Keys, {});
      return true, victim;
    }

    /** Decides about a TCP connection and counts it. `kick` is the device that is thrown out. */
    method TryOpenConn(uid: int, ip: Ip, deviceLimit: int, now: int)
      returns (ok: bool, ghost victim: Ip, kick: Option<Ip>)
      requires Valid()
      modifies `refs, `deviceDirty, `kickThrottle
      ensures Valid() && Abs() == old(Abs()).TryOpen(uid, ip, deviceLimit, now, victim)
      ensures ok == old(Abs()).Admits(uid, ip, deviceLimit, now)
      ensures IsChoice(victim, old(Abs()).Candidates(uid, ip, deviceLimit, now))
      ensures kick == if old(Abs()).Evicts(uid, ip, deviceLimit, now, victim) then Some(victim) else None
      ensures var cooling := uid in kickCooldown && ip in kickCooldown[uid] && now < kickCooldown[uid][ip];
              kick == if !ok && !cooling && victim != "" && now - old(kickThrottle)[Shard(uid)] > SECOND
                      then Some(victim) else None
      ensures kickThrottle == if kick.Some? then old(kickThrottle)[Shard(uid) := now] else old(kickThrottle)
    {
      victim, kick := "", None;
      if deviceLimit <= 0 {
        ConnOpened(uid, ip);
        return true, victim, None;
      }
      var cooling := InCooldown(uid, ip, now);
      var reject, v := CheckDeviceGate(uid, ip, deviceLimit, now);
      victim := v;
      if cooling {
        return false, victim, None;
      }
      if reject {
        if v != "" {
          var shard := Shard(uid);
          if now - kickThrottle[shard] > SECOND {
            kickThrottle := kickThrottle[shard := now];
            kick := Some(v);
          }
        }
        return false, victim, kick;
      }
      ConnOpened(uid, ip);
      return true, victim, None;
    }

    /** Puts a thrown-out device into the cooldown. */
    method KickDevice(uid: int, ip: Ip, now: int)
      requires Valid()
      modifies `kickCooldown, `cooldownCount, `deviceDirty
      ensures Valid() && Abs() == old(Abs()).Kicked(uid, ip, now)
    {
      var ips := if uid in kickCooldown then kickCooldown[uid] else map[];
      PairsPut(kickCooldown, uid, ips, ip, now + KICK_COOLDOWN);
      if ip !in ips {
        cooldownCount := cooldownCount + 1;
      }
      kickCooldown := kickCooldown[uid := ips[ip := now + KICK_COOLDOWN]];
      deviceDirty := true;
    }

    /** Decides about a connection of the user: TCP connections are counted, others only judged. The
        bucket is the one cached for the user, made now if there is none. */
    method CheckLimit(taguuid: Uuid, ip: Ip, noSSUDP: bool, now: int)
      returns (ghost victim: Ip, bucket: Option<int>, reject: bool, kick: Option<Ip>)
      requires Valid()
      modifies `refs, `deviceDirty, `kickThrottle, `buckets
      ensures Valid() && Abs() == old(Abs()).Checked(taguuid, ip, noSSUDP, now, victim)
      ensures reject == old(Abs()).Refuses(taguuid, ip, noSSUDP, now)
      ensures bucket == if reject then None else old(Abs()).Bucket(taguuid)
      ensures taguuid in users && noSSUDP ==>
                var u := users[taguuid];
                && IsChoice(victim, old(Abs()).Candidates(u.uid, ip, u.device, now))
                && kick == if old(Abs()).Evicts(u.uid, ip, u.device, now, victim) then Some(victim) else None
      ensures !(taguuid in users && noSSUDP) ==> kick == None
    {
      victim, kick := "", None;
      var nodeLimit := if speedLimit > 0 then speedLimit else 0;
      if taguuid !in users {
        return victim, None, true, None;
      }
      var u := users[taguuid];
      var userLimit := if u.speed > 0 then u.speed else 0;
      if noSSUDP {
        var ok, v, k := TryOpenConn(u.uid, ip, u.device, now);
        victim, kick := v, k;
        if !ok {
          return victim, None, true, kick;
        }
      } else if u.device > 0 {
        var no, _ := CheckDeviceGate(u.uid, ip, u.device, now);
        if no {
          return victim, None, true, kick;
        }
      }
      var mbit := DetermineSpeedLimit(nodeLimit, userLimit);
      var limit := mbit * 1000000 / 8;
      if limit > 0 {
        if taguuid in buckets {
          return victim, Some(buckets[taguuid]), false, kick;
        }
        buckets := buckets[taguuid := limit];
        return victim, Some(limit), false, kick;
      }
      return victim, None, false, kick;
    }

    /** Has the report changed since it was last looked at? Forgets cooldowns that are over. */
    method DevicesDirty(now: int) returns (dirty: bool)
      requires Valid()
      modifies `kickCooldown, `cooldownCount, `deviceDirty
      ensures Valid() && Abs() == old(Abs()).Purged(now) && dirty == Abs().dirty
    {
      var removed := PurgeExpiredCooldowns(now);
      dirty := deviceDirty || removed;
    }

    method ResetDevicesDirty()
      requires Valid()
      modifies `deviceDirty
      ensures Valid() && Abs() == old(Abs()).(dirty := false)
    {
      deviceDirty := false;
    }

    method PurgeExpiredCooldowns(now: int) returns (removed: bool)
      requires Valid()
      modifies `kickCooldown, `cooldownCount, `deviceDirty
      ensures Valid() && Abs() == old(Abs()).Purged(now) && removed == SomeExpired(old(kickCooldown), now)
    {
      if cooldownCount == 0 {
        NoEntries(kickCooldown, now);
        return false;
      }
      var left, n, gone := PurgeTable(kickCooldown, cooldownCount, now);
      removed := gone;
      kickCooldown := left;
      cooldownCount := n;
      if removed {
        deviceDirty := true;
      }
    }

    /** The report: every connected device and every kicked one in its cooldown, each listed once. */
    method LocalDeviceSnapshot(now: int) returns (out: map<int, seq<Ip>>)
      requires Valid()
      ensures Abs().IsSnapshot(out, now)
    {
      out := ListConnected(refs);
      if cooldownCount == 0 {
        NoEntries(kickCooldown, now);
        assert forall u :: u in out ==> Abs().Reported(u, now) == refs[u].Keys;
        return;
      }
      out := MergeCooling(out, refs, kickCooldown, now);
    }
  }

  /** The connected devices of every user, each listed once. */
  method ListConnected<K(==)>(refs: map<K, map<Ip, int>>) returns (out: map<K, seq<Ip>>)
    ensures out.Keys == refs.Keys && forall u :: u in out ==> Lists(out[u], refs[u].Keys)
  {
    out := map[];
    var todo := refs.Keys;
    while todo != {}
      invariant todo <= refs.Keys && out.Keys == refs.Keys - todo
      invariant forall u :: u in out ==> Lists(out[u], refs[u].Keys)
      decreases todo
    {
      var u :| u in todo;
      todo := todo - {u};
      var ips := Listing(refs[u].Keys);
      out := out[u := ips];
    }
  }

  /** The devices of a table's row, or none. */
  function Row<K>(refs: map<K, map<Ip, int>>, u: K): set<Ip> {
    if u in refs then refs[u].Keys else {}
  }

  /** Adds the kicked devices that are still in their cooldown. */
  method MergeCooling<K(==,!new)>(first: map<K, seq<Ip>>, ghost refs: map<K, map<Ip, int>>,
                                  cd: map<K, map<Ip, int>>, now: int)
    returns (out: map<K, seq<Ip>>)
    requires first.Keys == refs.Keys && forall u :: u in first ==> Lists(first[u], refs[u].Keys)
    ensures out.Keys == refs.Keys + cd.Keys
    ensures forall u :: u in out ==> Lists(out[u], Row(refs, u) + if u in cd then Left(cd[u], now).Keys else {})
  {
    out := first;
    var todo := cd.Keys;
    while todo != {}
      invariant todo <= cd.Keys && Merged(out, refs, cd, todo, now)
      decreases todo
    {
      var u :| u in todo;
      var cur := if u in out then out[u] else [];
      ghost var before := Row(refs, u);
      cur := WithCooling(cur, before, cd[u], now);
      MergeStep(out, refs, cd, todo, u, cur, now);
      todo := todo - {u};
      out := out[u := cur];
    }
    MergeEnd(out, refs, cd, todo, now);
  }

  /** The report while the cooldowns are being added; those of `todo` are still to come. */
  ghost predicate Merged<K(!new)>(out: map<K, seq<Ip>>, refs: map<K, map<Ip, int>>,
                                  cd: map<K, map<Ip, int>>, todo: set<K>, now: int)
  {
    && (forall u :: u in out <==> u in refs || (u in cd && u !in todo))
    && (forall u :: u in out && (u !in cd || u in todo) ==> Lists(out[u], Row(refs, u)))
    && (forall u :: u in cd && u !in todo ==> Lists(out[u], Row(refs, u) + Left(cd[u], now).Keys))
  }

  lemma MergeStep<K(!new)>(out: map<K, seq<Ip>>, refs: map<K, map<Ip, int>>,
                           cd: map<K, map<Ip, int>>, todo: set<K>, u: K, cur: seq<Ip>, now: int)
    requires Merged(out, refs, cd, todo, now) && u in todo && u in cd
    requires Lists(cur, Row(refs, u) + Left(cd[u], now).Keys)
    ensures Merged(out[u := cur], refs, cd, todo - {u}, now)
  {
  }

  lemma MergeEnd<K(!new)>(out: map<K, seq<Ip>>, refs: map<K, map<Ip, int>>,
                          cd: map<K, map<Ip, int>>, todo: set<K>, now: int)
    requires Merged(out, refs, cd, todo, now) && todo == {}
    ensures out.Keys == refs.Keys + cd.Keys
    ensures forall u :: u in out ==> Lists(out[u], Row(refs, u) + if u in cd then Left(cd[u], now).Keys else {})
  {
    forall u | u in out && u !in cd
      ensures Row(refs, u) + {} == Row(refs, u)
    {
    }
  }

  /** The cooldown table while it is being purged: the users in `todo` are still to come. */
  ghost function PartlyPurged<K>(was: map<K, map<Ip, int>>, todo: set<K>, now: int): map<K, map<Ip, int>> {
    map u | u in was && (u in todo || Left(was[u], now) != map[]) :: if u in todo then was[u] else Left(was[u], now)
  }

  /** Is an entry over that belongs to a user outside `todo`? */
  ghost predicate Expires<K>(was: map<K, map<Ip, int>>, todo: set<K>, now: int) {
    exists u, ip :: u in was && u !in todo && ip in was[u] && was[u][ip] <= now
  }

  lemma PartlyPurgedEnds<K(!new)>(was: map<K, map<Ip, int>>, now: int)
    ensures PartlyPurged(was, was.Keys, now) == was
    ensures PartlyPurged(was, {}, now) == Unexpired(was, now)
    ensures Expires(was, {}, now) == SomeExpired(was, now)
    ensures !Expires(was, was.Keys, now)
  {
  }

  lemma PartlyPurgedStep<K>(was: map<K, map<Ip, int>>, todo: set<K>, u: K, now: int)
    requires u in todo && todo <= was.Keys
    ensures var p := PartlyPurged(was, todo, now);
            && u in p && p[u] == was[u]
            && PartlyPurged(was, todo - {u}, now)
               == if Left(was[u], now) == map[] then p - {u} else p[u := Left(was[u], now)]
    ensures Expires(was, todo - {u}, now) <==> Expires(was, todo, now) || exists ip :: ip in was[u] && was[u][ip] <= now
  {
    if ip :| ip in was[u] && was[u][ip] <= now {
      assert u in was && u !in todo - {u};
    }
    if Expires(was, todo, now) {
      var v, ip :| v in was && v !in todo && ip in was[v] && was[v][ip] <= now;
      assert v !in todo - {u};
    }
  }

  /** The loop of the purge: drops the entries that are over and counts them off. */
  method PurgeTable<K(==,!new)>(was: map<K, map<Ip, int>>, count: int, now: int)
    returns (cd: map<K, map<Ip, int>>, n: int, removed: bool)
    requires count == Entries(was)
    ensures cd == Unexpired(was, now) && n == Entries(cd)
    ensures removed == SomeExpired(was, now)
  {
    cd, n, removed := was, count, false;
    var todo := was.Keys;
    PartlyPurgedEnds(was, now);
    while todo != {}
      invariant n == Entries(cd)
      invariant todo <= was.Keys && cd == PartlyPurged(was, todo, now)
      invariant removed == Expires(was, todo, now)
      decreases todo
    {
      var u :| u in todo;
      PartlyPurgedStep(was, todo, u, now);
      todo := todo - {u};
      var left, gone := PurgeRow(cd[u], now);
      PairsPurge(cd, u, left);
      n := n - gone;
      removed := removed || gone > 0;
      cd := if |left| == 0 then cd - {u} else cd[u := left];
    }
  }

  /** One user's cooldowns without those that are over, and how many those are. */
  method PurgeRow(row: map<Ip, int>, now: int) returns (left: map<Ip, int>, n: nat)
    ensures left == Left(row, now) && |left| + n == |row|
    ensures n > 0 <==> exists ip :: ip in row && row[ip] <= now
  {
    left, n := row, 0;
    var todo := row.Keys;
    while todo != {}
      invariant todo <= row.Keys
      invariant left == map ip | ip in row && (ip in todo || now < row[ip]) :: row[ip]
      invariant |left| + n == |row|
      invariant n > 0 <==> exists ip :: ip in row && ip !in todo && row[ip] <= now
      decreases todo
    {
      var ip :| ip in todo;
      todo := todo - {ip};
      if left[ip] <= now {
        OneLess(left, ip);
        left, n := left - {ip}, n + 1;
      }
    }
  }

  /** Counts one connection down, dropping what reaches zero. */
  method Release<K(==)>(refs: map<K, map<Ip, int>>, u: K, ip: Ip) returns (r: map<K, map<Ip, int>>)
    ensures r == Released(refs, u, ip)
  {
    r := refs;
    if u in r {
      var m := r[u];
      m := m[ip := (if ip in m then m[ip] else 0) - 1];
      if m[ip] <= 0 {
        m := m - {ip};
      }
      assert m == if ip in r[u] && r[u][ip] > 1 then r[u][ip := r[u][ip] - 1] else r[u] - {ip};
      r := if |m| == 0 then r - {u} else r[u := m];
    }
  }

  lemma UnionIs(local: set<Ip>, global: set<Ip>, extra: set<Ip>)
    requires forall x :: x in extra <==> x in global && x !in local
    ensures |local + global| == |local| + |extra|
  {
    assert local + global == local + extra && local !! extra;
  }

  lemma OneLess(m: map<Ip, int>, ip: Ip)
    requires ip in m
    ensures |m - {ip}| == |m| - 1
  {
    assert (m - {ip}).Keys == m.Keys - {ip};
  }

  /** The size of the union, counted by walking the second set only. */
  method UnionCount(local: map<Ip, int>, global: set<Ip>) returns (n: nat)
    ensures n == |local.Keys + global|
  {
    n := |local|;
    var todo := global;
    ghost var extra: set<Ip> := {};
    while todo != {}
      invariant todo <= global
      invariant forall x :: x in extra <==> x in global && x !in todo && x !in local
      invariant n == |local| + |extra|
      decreases todo
    {
      var gip :| gip in todo;
      todo := todo - {gip};
      if gip !in local {
        n := n + 1;
        extra := extra + {gip};
      }
    }
    UnionIs(local.Keys, global, extra);
  }

  method StoreAll(t: Table, us: seq<UserInfo>) returns (r: Table)
    ensures r == Store(t, us)
  {
    r := t;
    for i := 0 to |us|
      invariant r == Store(t, us[..i])
    {
      assert us[..i + 1][..i] == us[..i];
      r := r[us[i].uuid := UserLimit(us[i].id, us[i].speedLimit, us[i].deviceLimit)];
    }
    assert us[..|us|] == us;
  }

  method SetsOf<K(==)>(table: map<K, seq<Ip>>) returns (devices: map<K, set<Ip>>)
    ensures devices == Sets(table)
  {
    devices := map[];
    var todo := table.Keys;
    while todo != {}
      invariant todo <= table.Keys && devices.Keys == table.Keys - todo
      invariant forall u :: u in devices ==> devices[u] == Elements(table[u])
      decreases todo
    {
      var u :| u in todo;
      todo := todo - {u};
      var ips := table[u];
      var m: set<Ip> := {};
      for i := 0 to |ips|
        invariant m == Elements(ips[..i])
      {
        m := m + {ips[i]};
        assert ips[..i + 1] == ips[..i] + [ips[i]];
      }
      assert ips[..|ips|] == ips;
      devices := devices[u := m];
    }
  }

  method SizesOf<K(==)>(devices: map<K, set<Ip>>) returns (counts: map<K, int>)
    ensures SizesKept(devices, counts)
  {
    counts := map[];
    var todo := devices.Keys;
    while todo != {}
      invariant todo <= devices.Keys && counts.Keys == devices.Keys - todo
      invariant forall u :: u in counts ==> counts[u] == |devices[u]|
      decreases todo
    {
      var u :| u in todo;
      todo := todo - {u};
      counts := counts[u := |devices[u]|];
    }
  }

  /** The elements of a set in some order. */
  method Listing(ips: set<Ip>) returns (l: seq<Ip>)
    ensures Lists(l, ips)
  {
    l := [];
    var todo := ips;
    while todo != {}
      invariant todo <= ips && Lists(l, ips - todo)
      decreases todo
    {
      var ip :| ip in todo;
      ListsMore(l, ips - todo, ip);
      todo := todo - {ip};
      l := l + [ip];
      assert ips - (todo + {ip}) + {ip} == ips - todo;
    }
  }

  lemma ListsMore(l: seq<Ip>, ips: set<Ip>, ip: Ip)
    requires Lists(l, ips) && ip !in ips
    ensures Lists(l + [ip], ips + {ip})
  {
    assert ip !in l;
    assert forall x :: x in l + [ip] <==> x in l || x == ip;
  }

  /** A user's list with the kicked devices added that it lacks. */
  method WithCooling(l: seq<Ip>, ghost listed: set<Ip>, row: map<Ip, int>, now: int) returns (cur: seq<Ip>)
    requires Lists(l, listed)
    ensures Lists(cur, listed + Left(row, now).Keys)
  {
    cur := l;
    var todo := row.Keys;
    while todo != {}
      invariant todo <= row.Keys
      invariant Lists(cur, listed + set ip | ip in row && ip !in todo && now < row[ip])
      decreases todo
    {
      var ip :| ip in todo;
      ghost var before := listed + set i | i in row && i !in todo && now < row[i];
      todo := todo - {ip};
      ghost var after := listed + set i | i in row && i !in todo && now < row[i];
      assert after == if now < row[ip] then before + {ip} else before;
      if now < row[ip] {
        var dup := false;
        for i := 0 to |cur|
          invariant dup <==> ip in cur[..i]
        {
          dup := dup || cur[i] == ip;
        }
        assert cur[..|cur|] == cur;
        assert dup <==> ip in Elements(cur);
        if !dup {
          ListsMore(cur, before, ip);
          cur := cur + [ip];
        }
      }
    }
    assert (set ip | ip in row && ip !in {} && now < row[ip]) == Left(row, now).Keys;
  }

  /** The smaller limit that is not zero, or zero. */
  method DetermineSpeedLimit(limit1: int, limit2: int) returns (limit: int)
    ensures limit1 >= 0 && limit2 >= 0 ==> limit == Smaller(limit1, limit2)
    ensures limit1 >= 0 && limit2 >= 0 ==> (limit == 0 <==> limit1 == limit2 == 0)
    ensures limit1 > 0 && limit2 > 0 ==> limit <= limit1 && limit <= limit2
    ensures limit == limit1 || limit == limit2
  {
    if limit1 == 0 || limit2 == 0 {
      if limit1 > limit2 {
        return limit1;
      } else if limit1 < limit2 {
        return limit2;
      } else {
        return 0;
      }
    } else {
      if limit1 > limit2 {
        return limit2;
      } else {
        return limit1;
      }
    }
  }

  method PickVictim(local: set<Ip>, global: set<Ip>) returns (v: Ip)
    ensures IsChoice(v, if local != {} then local else global)
  {
    if local != {} {
      v :| v in local;
    } else if global != {} {
      v :| v in global;
    } else {
      v := "";
    }
  }

  ghost function WithoutUser(t: State, d: UserInfo): State {
    t.(users := t.users - {d.uuid}, buckets := t.buckets - {d.uuid}, alive := t.alive - {d.id},
       refs := t.refs - {d.id}, cooldown := t.cooldown - {d.id}, global := t.global - {d.id}, dirty := true)
  }

  lemma NothingUpdated(s: State)
    ensures s.Updated([], [], []) == s
  {
    assert Uuids([]) == {} && Ids([]) == {};
    assert s.users - {} == s.users && s.buckets - {} - {} == s.buckets && s.alive - {} == s.alive;
    assert s.refs - {} == s.refs && s.cooldown - {} == s.cooldown && s.global - {} == s.global;
  }

  lemma DropInTwo<K, V>(m: map<K, V>, a: set<K>, b: set<K>)
    ensures m - (a + b) == m - a - b
  {
  }

  lemma DeleteStep(s: State, ds: seq<UserInfo>, i: nat)
    requires i < |ds|
    ensures s.Updated([], ds[..i + 1], []) == WithoutUser(s.Updated([], ds[..i], []), ds[i])
  {
    assert ds[..i + 1] == ds[..i] + [ds[i]];
    UuidsMore(ds[..i], ds[i]);
    var x, n := {ds[i].uuid}, {ds[i].id};
    var xs, ns := Uuids(ds[..i]), Ids(ds[..i]);
    DropInTwo(s.users, xs, x);
    DropInTwo(s.buckets, xs, x);
    DropInTwo(s.alive, ns, n);
    DropInTwo(s.refs, ns, n);
    DropInTwo(s.cooldown, ns, n);
    DropInTwo(s.global, ns, n);
    assert Uuids([]) == {};
    assert s.buckets - (xs + x) - {} == s.buckets - (xs + x) && s.buckets - xs - {} == s.buckets - xs;
  }

  lemma ModifyStep(s: State, ds: seq<UserInfo>, ms: seq<UserInfo>, i: nat)
    requires i < |ms|
    ensures var t := s.Updated([], ds, ms[..i]);
            s.Updated([], ds, ms[..i + 1]) == t.(
              users := Adjust(t.users, [ms[i]]), buckets := t.buckets - {ms[i].uuid})
  {
    assert ms[..i + 1] == ms[..i] + [ms[i]] && ms[..i + 1][..i] == ms[..i];
    UuidsMore(ms[..i], ms[i]);
    var b, xs := s.buckets - Uuids(ds), Uuids(ms[..i]);
    assert b - (xs + {ms[i].uuid}) == b - xs - {ms[i].uuid};
    assert [ms[i]][..0] == [];
  }

  lemma UuidsMore(us: seq<UserInfo>, u: UserInfo)
    ensures Uuids(us + [u]) == Uuids(us) + {u.uuid}
    ensures Ids(us + [u]) == Ids(us) + {u.id}
  {
    assert forall x :: x in us + [u] <==> x in us || x == u;
  }
}
