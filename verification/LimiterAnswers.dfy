/** What the limiter answers and what it remembers, in both directions: said of the tables and of the steps
    that led to them, and not of the tests that the limiter makes. */
module LimiterAnswers {
  import opened Basics
  import opened LimiterModel
  import opened LimiterRuns

  // ---------------------------------------------------------------------------------------------
  // Who is let in
  // ---------------------------------------------------------------------------------------------

  /** The device is connected already, or it fits: next to all of the user's devices anywhere, and unless
      it is online elsewhere, if the panel spoke within the last minute; else next to those on this node,
      if the panel's last count of the user's devices is below the limit as well. */
  predicate HasRoom(s: State, u: int, ip: Ip, limit: int, now: int) {
    || ip in s.Local(u)
    || if s.updated.Some? && now - s.updated.value <= 60_000_000_000
       then ip !in s.Global(u) && |s.Local(u) + {ip} + s.Global(u)| <= limit
       else |s.Local(u) + {ip}| <= limit && s.Alive(u) < limit
  }

  /** A kick of the device is not over yet. */
  predicate Cools(s: State, u: int, ip: Ip, now: int) {
    u in s.cooldown && ip in s.cooldown[u] && now < s.cooldown[u][ip]
  }

  lemma RejectsIff(s: State, u: int, ip: Ip, limit: int, now: int)
    ensures s.Rejects(u, ip, limit, now) <==> limit > 0 && !HasRoom(s, u, ip, limit, now)
  {
    if ip !in s.Local(u) {
      OneMoreDevice(s.Local(u), s.Global(u), ip);
    }
  }

  /** A TCP connection of a user with a limit is let in exactly when its device has room and no cooldown. */
  lemma AdmitsIff(s: State, u: int, ip: Ip, limit: int, now: int)
    ensures s.Admits(u, ip, limit, now) <==>
            limit <= 0 || (HasRoom(s, u, ip, limit, now) && !Cools(s, u, ip, now))
  {
    RejectsIff(s, u, ip, limit, now);
  }

  /** Who is refused: an unknown user, and a user with a limit whose device has no room or, with TCP, has a
      cooldown. */
  lemma RefusesIff(s: State, x: Uuid, ip: Ip, tcp: bool, now: int)
    ensures s.Refuses(x, ip, tcp, now) <==>
            || x !in s.users
            || var u := s.users[x];
               u.device > 0 && (!HasRoom(s, u.uid, ip, u.device, now) || (tcp && Cools(s, u.uid, ip, now)))
  {
    if x in s.users {
      AdmitsIff(s, s.users[x].uid, ip, s.users[x].device, now);
      RejectsIff(s, s.users[x].uid, ip, s.users[x].device, now);
    }
  }

  // ---------------------------------------------------------------------------------------------
  // Who is kicked
  // ---------------------------------------------------------------------------------------------

  /** The devices that may be thrown out for want of room: those on this node, or else, if the panel spoke
      within the last minute, those elsewhere; but none for a device that is online elsewhere itself. */
  lemma VictimsAre(s: State, u: int, ip: Ip, limit: int, now: int)
    ensures var heard := s.updated.Some? && now - s.updated.value <= 60_000_000_000;
            s.Candidates(u, ip, limit, now)
            == if limit <= 0 || HasRoom(s, u, ip, limit, now) || (heard && ip in s.Global(u)) then {}
               else if s.Local(u) != {} then s.Local(u)
               else if heard then s.Global(u) else {}
    ensures (s.updated.Some? && now - s.updated.value <= 60_000_000_000 && ip !in s.Global(u)
             && limit > 0 && !HasRoom(s, u, ip, limit, now)) ==> s.Candidates(u, ip, limit, now) != {}
  {
    RejectsIff(s, u, ip, limit, now);
    if s.Local(u) == {} == s.Global(u) {
      assert s.Local(u) + {ip} + s.Global(u) == {ip};
    }
  }

  /** A TCP connection throws a device out exactly when it is refused for want of room outside its cooldown,
      there is a device to go, and the last kick among the users with these low eight bits is more than a
      second ago. */
  lemma EvictsIff(s: State, u: int, ip: Ip, limit: int, now: int, victim: Ip)
    requires |s.throttle| == SHARDS
    ensures s.Evicts(u, ip, limit, now, victim) <==>
            && limit > 0 && !HasRoom(s, u, ip, limit, now) && !Cools(s, u, ip, now)
            && victim != "" && now - s.throttle[u % 256] > 1_000_000_000
  {
    RejectsIff(s, u, ip, limit, now);
  }

  /** Does the request, made in state `s`, call for a kick in shard `sh`, the time of the last one aside? */
  predicate CallsForKick(s: State, t: Tick, sh: nat) {
    && t.e.Ask? && t.e.tcp && t.e.user in s.users
    && var u := s.users[t.e.user];
       && u.uid % 256 == sh && u.device > 0 && t.e.victim != ""
       && !HasRoom(s, u.uid, t.e.ip, u.device, t.now) && !Cools(s, u.uid, t.e.ip, t.now)
  }

  /** The last of the times, or `last` if there is none. */
  function LastOf(last: int, times: seq<int>): int {
    if times == [] then last else times[|times| - 1]
  }

  lemma {:induction false} RunSplits(w: World, ts: seq<Tick>, t: Tick)
    requires Run(w, ts + [t])
    ensures Run(w, ts) && Possible(After(w, ts), t.e) && After(w, ts + [t]) == Next(After(w, ts), t)
    decreases |ts|
  {
    if ts == [] {
      assert [] + [t] == [t];
    } else {
      assert (ts + [t])[1..] == ts[1..] + [t];
      RunSplits(Next(w, ts[0]), ts[1..], t);
    }
  }

  lemma {:induction false} KickTimesMore(w: World, ts: seq<Tick>, t: Tick, sh: nat)
    requires Run(w, ts + [t]) && Run(w, ts) && Possible(After(w, ts), t.e)
    ensures KickTimes(w, ts + [t], sh)
            == KickTimes(w, ts, sh) + if StartsKick(After(w, ts), t, sh) then [t.now] else []
    decreases |ts|
  {
    if ts == [] {
      assert [] + [t] == [t];
    } else {
      assert (ts + [t])[1..] == ts[1..] + [t];
      KickTimesMore(Next(w, ts[0]), ts[1..], t, sh);
    }
  }

  lemma {:induction false} ThrottleIsLast(w: World, ts: seq<Tick>, sh: nat)
    requires w.s.WellFormed() && Run(w, ts) && sh < SHARDS
    ensures After(w, ts).s.WellFormed()
    ensures After(w, ts).s.throttle[sh] == LastOf(w.s.throttle[sh], KickTimes(w, ts, sh))
    decreases |ts|
  {
    if ts == [] {
    } else {
      NextThrottle(w, ts[0], sh);
      NextWellFormed(w, ts[0]);
      ThrottleIsLast(Next(w, ts[0]), ts[1..], sh);
    }
  }

  /** Over any run: the next request starts a kick if and only if it calls for one and the last kick of the
      shard is more than a second ago. So the first request that does so after that second gets one. */
  lemma KickStartsIff(w: World, ts: seq<Tick>, t: Tick, sh: nat)
    requires w.s.WellFormed() && Run(w, ts + [t]) && sh < SHARDS
    ensures Run(w, ts)
    ensures var times := KickTimes(w, ts, sh);
            KickTimes(w, ts + [t], sh)
            == if CallsForKick(After(w, ts).s, t, sh) && t.now - LastOf(w.s.throttle[sh], times) > 1_000_000_000
               then times + [t.now] else times
  {
    RunSplits(w, ts, t);
    KickTimesMore(w, ts, t, sh);
    ThrottleIsLast(w, ts, sh);
    var s := After(w, ts).s;
    assert KickTimes(w, ts, sh) + [] == KickTimes(w, ts, sh);
    if t.e.Ask? && t.e.user in s.users {
      var u := s.users[t.e.user];
      EvictsIff(s, u.uid, t.e.ip, u.device, t.now, t.e.victim);
    }
  }

  // ---------------------------------------------------------------------------------------------
  // Cooldowns
  // ---------------------------------------------------------------------------------------------

  /** The pair's cooldown, if there is one, is over by `until`. */
  predicate OverBy(s: State, u: int, ip: Ip, until: int) {
    u in s.cooldown && ip in s.cooldown[u] ==> s.cooldown[u][ip] <= until
  }

  predicate KicksNot(u: int, ip: Ip, ts: seq<Tick>) {
    forall t :: t in ts && t.e.Kick? ==> t.e.uid != u || t.e.ip != ip
  }

  lemma NextOverBy(w: World, t: Tick, u: int, ip: Ip, until: int)
    requires OverBy(w.s, u, ip, until) && Possible(w, t.e) && KicksNot(u, ip, [t])
    ensures OverBy(Next(w, t).s, u, ip, until)
  {
    assert t in [t];
    if t.e.Ask? {
      CheckedIs(w.s, t.e.user, t.e.ip, t.e.tcp, t.now, t.e.victim);
    } else if t.e.Update? {
      assert Next(w, t).s.cooldown == w.s.cooldown - Ids(t.e.deleted);
    } else if t.e.End? {
      assert Next(w, t).s.cooldown == w.s.cooldown;
    }
  }

  lemma {:induction false} RunOverBy(w: World, ts: seq<Tick>, u: int, ip: Ip, until: int)
    requires OverBy(w.s, u, ip, until) && Run(w, ts) && KicksNot(u, ip, ts)
    ensures OverBy(After(w, ts).s, u, ip, until)
    decreases |ts|
  {
    if ts == [] {
    } else {
      assert ts[0] in ts && forall t :: t in ts[1..] ==> t in ts;
      NextOverBy(w, ts[0], u, ip, until);
      RunOverBy(Next(w, ts[0]), ts[1..], u, ip, until);
    }
  }

  /** A kick keeps the device out for 300 seconds and not longer, whatever happens in between, as long as it
      is not kicked again and its user not deleted. */
  lemma CooldownIff(w: World, kick: Tick, ts: seq<Tick>, now: int)
    requires kick.e.Kick? && Run(w, [kick] + ts) && Timed(kick.now, ts + [Tick(now, Purge)])
    requires KeepsUser(kick.e.uid, ts) && KicksNot(kick.e.uid, kick.e.ip, ts)
    ensures Cools(After(w, [kick] + ts).s, kick.e.uid, kick.e.ip, now) <==> now < kick.now + 300_000_000_000
  {
    var n, until := Next(w, kick), kick.now + KICK_COOLDOWN;
    assert ([kick] + ts)[1..] == ts;
    RunOverBy(n, ts, kick.e.uid, kick.e.ip, until);
    TimedBounds(kick.now, ts, Tick(now, Purge));
    if now < until {
      RunKeptOut(n, ts, kick.now, kick.e.uid, kick.e.ip, until);
    }
  }

  ghost predicate SomeOver(s: State, now: int) {
    exists u, ip :: u in s.cooldown && ip in s.cooldown[u] && s.cooldown[u][ip] <= now
  }

  lemma AnExpired<K(!new)>(cd: map<K, map<Ip, int>>, now: int) returns (u: K, ip: Ip)
    requires SomeExpired(cd, now)
    ensures u in cd && ip in cd[u] && cd[u][ip] <= now
  {
    u, ip :| u in cd && ip in cd[u] && cd[u][ip] <= now;
  }

  lemma OverIsExpired(s: State, now: int)
    ensures SomeOver(s, now) <==> SomeExpired(s.cooldown, now)
  {
    if SomeOver(s, now) {
      var u, ip :| u in s.cooldown && ip in s.cooldown[u] && s.cooldown[u][ip] <= now;
      assert u in s.cooldown;
    }
    if SomeExpired(s.cooldown, now) {
      var u, ip := AnExpired(s.cooldown, now);
    }
  }

  /** Purging forgets exactly the entries that are over, raises the flag exactly when there are any, and
      touches nothing else. */
  lemma PurgedAre(s: State, now: int)
    ensures var p := s.Purged(now);
            && (forall u, ip :: u in p.cooldown && ip in p.cooldown[u] <==> Cools(s, u, ip, now))
            && (forall u, ip :: Cools(s, u, ip, now) ==> p.cooldown[u][ip] == s.cooldown[u][ip])
            && (p.dirty <==> s.dirty || SomeOver(s, now))
            && p == s.(cooldown := p.cooldown, dirty := p.dirty)
  {
    var p := s.Purged(now);
    OverIsExpired(s, now);
    forall u, ip | Cools(s, u, ip, now)
      ensures u in p.cooldown && ip in p.cooldown[u] && p.cooldown[u][ip] == s.cooldown[u][ip]
    {
      assert ip in Left(s.cooldown[u], now);
    }
  }

  // ---------------------------------------------------------------------------------------------
  // The panel's table
  // ---------------------------------------------------------------------------------------------

  lemma NextKeepsPanel(w: World, t: Tick, u: int)
    requires Possible(w, t.e)
    ensures var n := Next(w, t).s;
            && (!t.e.Push? ==> n.updated == w.s.updated && (KeepsUser(u, [t]) ==> n.Global(u) == w.s.Global(u)))
            && (!t.e.SetAlive? && KeepsUser(u, [t]) ==> n.Alive(u) == w.s.Alive(u))
  {
    assert t in [t];
    match t.e
    case Ask(x, ip, tcp, _, victim) => AskKeepsPanel(w.s, x, ip, tcp, t.now, victim);
    case End(conn) =>
      var n := Next(w, t).s;
      assert n == w.s.(refs := n.refs, dirty := n.dirty);
    case _ =>
  }

  lemma AskKeepsPanel(s: State, x: Uuid, ip: Ip, tcp: bool, now: int, victim: Ip)
    ensures var c := s.Checked(x, ip, tcp, now, victim);
            c.updated == s.updated && c.global == s.global && c.alive == s.alive
  {
    if x in s.users {
      OpenKeepsPanel(s, s.users[x].uid, ip, s.users[x].device, now, victim);
    }
  }

  lemma OpenKeepsPanel(s: State, u: int, ip: Ip, limit: int, now: int, victim: Ip)
    ensures var c := s.TryOpen(u, ip, limit, now, victim);
            c.updated == s.updated && c.global == s.global && c.alive == s.alive
  {
    if s.Admits(u, ip, limit, now) {
      assert s.TryOpen(u, ip, limit, now, victim) == s.Opened(u, ip);
    }
  }

  lemma {:induction false} RunKeepsPanel(w: World, ts: seq<Tick>, u: int)
    requires Run(w, ts) && forall t :: t in ts ==> !t.e.Push?
    ensures After(w, ts).s.updated == w.s.updated
    ensures KeepsUser(u, ts) ==> After(w, ts).s.Global(u) == w.s.Global(u)
    ensures KeepsUser(u, ts) && (forall t :: t in ts ==> !t.e.SetAlive?) ==> After(w, ts).s.Alive(u) == w.s.Alive(u)
    decreases |ts|
  {
    if ts == [] {
    } else {
      assert ts[0] in ts && forall t :: t in ts[1..] ==> t in ts;
      assert forall t :: t in [ts[0]] ==> t == ts[0];
      NextKeepsPanel(w, ts[0], u);
      RunKeepsPanel(Next(w, ts[0]), ts[1..], u);
    }
  }

  /** The panel's last word counts for a minute from when it came, and until a user is deleted the user's
      devices are those it named. */
  lemma PushedIs(w: World, push: Tick, ts: seq<Tick>, u: int, now: int)
    requires push.e.Push? && Run(w, [push] + ts) && forall t :: t in ts ==> !t.e.Push?
    ensures var s := After(w, [push] + ts).s;
            && (s.Fresh(now) <==> now - push.now <= 60_000_000_000)
            && s.updated == Some(push.now)
            && (KeepsUser(u, ts) ==>
                  forall ip :: ip in s.Global(u) <==> u in push.e.table && ip in push.e.table[u])
  {
    assert ([push] + ts)[1..] == ts;
    RunKeepsPanel(Next(w, push), ts, u);
  }

  // ---------------------------------------------------------------------------------------------
  // Reports
  // ---------------------------------------------------------------------------------------------

  /** A report lists the counted devices and those with a cooldown; as long as the counts are exact, the
      former are the connected ones. */
  lemma ReportedIff(w: World, u: int, ip: Ip, now: int)
    requires w.s.WellFormed()
    ensures ip in w.s.Reported(u, now) <==> w.s.RefCount(u, ip) > 0 || Cools(w.s, u, ip, now)
    ensures Exact(w) ==> (ip in w.s.Reported(u, now) <==> ip in LiveDevices(w, u) || Cools(w.s, u, ip, now))
  {
    LocalIsCounted(w.s);
    CountedAreLive(w, u);
  }

  /** What raises the flag that asks for a report: a TCP connection let in, the end of a connection of a
      known user, a kick, a cooldown found over, a deletion, and nothing else. */
  lemma DirtyIff(w: World, t: Tick)
    requires Possible(w, t.e)
    ensures Next(w, t).s.dirty <==>
            match t.e
            case Ask(x, ip, tcp, _, _) => w.s.dirty || (tcp && !w.s.Refuses(x, ip, tcp, t.now))
            case End(conn) => w.s.dirty || w.live[conn].user in w.s.users
            case Kick(_, _) => true
            case Purge => w.s.dirty || SomeOver(w.s, t.now)
            case ResetDirty => false
            case Update(_, deleted, _) => w.s.dirty || deleted != []
            case _ => w.s.dirty
  {
    match t.e
    case Ask(x, ip, tcp, _, victim) => CheckedIs(w.s, x, ip, tcp, t.now, victim);
    case Purge => OverIsExpired(w.s, t.now);
    case _ =>
  }

  // ---------------------------------------------------------------------------------------------
  // Users
  // ---------------------------------------------------------------------------------------------

  /** Entry `k` is the last of the list for `x`. */
  predicate LastFor(us: seq<UserInfo>, x: Uuid, k: nat) {
    k < |us| && us[k].uuid == x && forall j :: k < j < |us| ==> us[j].uuid != x
  }

  lemma {:induction false} LastStored(t: Table, us: seq<UserInfo>, x: Uuid) returns (k: nat)
    requires x in Uuids(us)
    ensures LastFor(us, x, k)
    ensures Store(t, us)[x] == UserLimit(us[k].id, us[k].speedLimit, us[k].deviceLimit)
    decreases |us|
  {
    k := |us| - 1;
    if us[k].uuid != x {
      assert us == us[..|us| - 1] + [us[|us| - 1]];
      k := LastStored(t, us[..|us| - 1], x);
    }
  }

  lemma {:induction false} LastAdjusted(t: Table, us: seq<UserInfo>, x: Uuid) returns (k: nat)
    requires x in t && x in Uuids(us)
    ensures LastFor(us, x, k)
    ensures Adjust(t, us)[x] == UserLimit(t[x].uid, us[k].speedLimit, us[k].deviceLimit)
    decreases |us|
  {
    AdjustKeepsNumbers(t, us[..|us| - 1]);
    k := |us| - 1;
    if us[k].uuid != x {
      assert us == us[..|us| - 1] + [us[|us| - 1]];
      k := LastAdjusted(t, us[..|us| - 1], x);
    }
  }

  /** What an update makes of a user: the last entry of the added ones counts, with its number; else, for a
      user who stays, the limits of the last modified one with the old number. */
  lemma UserAfterUpdate(s: State, added: seq<UserInfo>, deleted: seq<UserInfo>, modified: seq<UserInfo>, x: Uuid)
    ensures var n := s.Updated(added, deleted, modified);
            && (x in n.users <==> x in Uuids(added) || (x in s.users && x !in Uuids(deleted)))
            && (x in n.users ==>
                  if x in Uuids(added) then
                    exists k: nat :: LastFor(added, x, k)
                                     && n.users[x] == UserLimit(added[k].id, added[k].speedLimit, added[k].deviceLimit)
                  else if x in Uuids(modified) then
                    exists k: nat :: LastFor(modified, x, k) && n.users[x].uid == s.users[x].uid
                                     && n.users[x].speed == modified[k].speedLimit
                                     && n.users[x].device == modified[k].deviceLimit
                  else n.users[x] == s.users[x])
  {
    var kept := s.users - Uuids(deleted);
    StoreOutside(Adjust(kept, modified), added, x);
    if x in Uuids(added) {
      var k := LastStored(Adjust(kept, modified), added, x);
    } else if x in kept {
      if x in Uuids(modified) {
        var k := LastAdjusted(kept, modified, x);
      } else {
        AdjustOutside(kept, modified, x);
      }
    }
  }

  /** A deletion leaves nothing under the user's number, cooldowns and the panel's counts included, and
      nothing else changes under any number; buckets go with deleted and modified users only. */
  lemma NumberAfterUpdate(s: State, added: seq<UserInfo>, deleted: seq<UserInfo>, modified: seq<UserInfo>, u: int)
    ensures var n := s.Updated(added, deleted, modified);
            && (if u in Ids(deleted)
                then u !in n.refs && u !in n.cooldown && u !in n.global && u !in n.alive
                else n.Local(u) == s.Local(u) && n.Global(u) == s.Global(u) && n.Alive(u) == s.Alive(u)
                     && (forall ip :: n.RefCount(u, ip) == s.RefCount(u, ip))
                     && (u in n.cooldown <==> u in s.cooldown)
                     && (u in s.cooldown ==> n.cooldown[u] == s.cooldown[u]))
            && (forall x :: x in n.buckets <==> x in s.buckets && x !in Uuids(deleted) && x !in Uuids(modified))
            && (forall x :: x in n.buckets ==> n.buckets[x] == s.buckets[x])
            && n.speed == s.speed && n.throttle == s.throttle && n.updated == s.updated
  {
  }

  /** A user's rate is 125000 bytes per second for each megabit of the smaller of the two limits that are
      set, and none if neither is. */
  lemma RateIs(s: State, x: Uuid)
    requires x in s.users
    ensures var a, b := s.speed, s.users[x].speed;
            s.Rate(x) == 125_000 * if a <= 0 && b <= 0 then 0
                                   else if a <= 0 then b
                                   else if b <= 0 then a
                                   else if a < b then a else b
  {
  }
}
