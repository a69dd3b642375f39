/** The device and speed limiter of one node as a value: what it remembers, and what each of its
    operations does to it. The value holds no cached size, no counter and no shortcut; `Limiter` in
    Limiter.dfy has them, and is proved to do the same. */
module LimiterModel {
  import opened Basics

  type Uuid = string
  type Ip = string

  const SECOND: int := 1_000_000_000
  const STALE_AFTER: int := 60 * SECOND
  const KICK_COOLDOWN: int := 300 * SECOND
  const SHARDS: nat := 256

  /** A user as the panel sends it. */
  datatype UserInfo = UserInfo(id: int, uuid: Uuid, speedLimit: int, deviceLimit: int)

  /** A user as the limiter keeps it. */
  datatype UserLimit = UserLimit(uid: int, speed: int, device: int)

  type Table = map<Uuid, UserLimit>

  datatype State = State(
    speed: int,
    users: Table,
    buckets: map<Uuid, int>,
    alive: map<int, int>,
    refs: map<int, map<Ip, int>>,
    cooldown: map<int, map<Ip, int>>,
    throttle: seq<int>,
    dirty: bool,
    global: map<int, set<Ip>>,
    updated: Option<int>)
  {
    /** Stored counts are positive and no empty inner map is kept. */
    ghost predicate WellFormed() {
      && |throttle| == SHARDS
      && Tidy(refs) && Positive(refs)
      && Tidy(cooldown)
    }

    /** The devices of a user that are counted on this node. */
    function Local(u: int): set<Ip> {
      if u in refs then refs[u].Keys else {}
    }

    /** The devices of a user that are online anywhere, as the panel last said. */
    function Global(u: int): set<Ip> {
      if u in global then global[u] else {}
    }

    function RefCount(u: int, ip: Ip): int {
      if u in refs && ip in refs[u] then refs[u][ip] else 0
    }

    function Alive(u: int): int {
      if u in alive then alive[u] else 0
    }

    /** Did the panel push its device table within the last minute? */
    predicate Fresh(now: int) {
      updated.Some? && now - updated.value <= STALE_AFTER
    }

    predicate InCooldown(u: int, ip: Ip, now: int) {
      u in cooldown && ip in cooldown[u] && now < cooldown[u][ip]
    }

    /** The kicked devices of a user that are still reported. */
    function Cooling(u: int, now: int): set<Ip> {
      if u in cooldown then Left(cooldown[u], now).Keys else {}
    }

    /** Must a new connection of a limited user be refused? The exact test on sets. */
    predicate Rejects(u: int, ip: Ip, limit: int, now: int) {
      && limit > 0
      && ip !in Local(u)
      && if Fresh(now) then ip in Global(u) || |Local(u) + Global(u)| >= limit
         else |Local(u)| >= limit || Alive(u) >= limit
    }

    /** The devices one of which is thrown out when the new one is refused. */
    function Candidates(u: int, ip: Ip, limit: int, now: int): set<Ip> {
      if !Rejects(u, ip, limit, now) then {}
      else if !Fresh(now) then Local(u)
      else if ip in Global(u) then {}
      else if Local(u) != {} then Local(u)
      else Global(u)
    }

    /** Is a TCP connection let in? */
    predicate Admits(u: int, ip: Ip, limit: int, now: int) {
      limit <= 0 || (!InCooldown(u, ip, now) && !Rejects(u, ip, limit, now))
    }

    /** Is `victim` thrown out because this TCP connection was refused? */
    predicate Evicts(u: int, ip: Ip, limit: int, now: int, victim: Ip) {
      && limit > 0 && !InCooldown(u, ip, now) && Rejects(u, ip, limit, now)
      && victim != ""
      && Shard(u) < |throttle| && now - throttle[Shard(u)] > SECOND
    }

    function Opened(u: int, ip: Ip): State {
      this.(refs := Acquired(refs, u, ip), dirty := true)
    }

    /** A connection of user `x` from `ip` ends. Nothing happens when the user is gone. */
    function Closed(x: Uuid, ip: Ip): State {
      if x !in users then this else
      var u := users[x].uid;
      this.(refs := Released(refs, u, ip), dirty := true)
    }

    function TryOpen(u: int, ip: Ip, limit: int, now: int, victim: Ip): State {
      if Admits(u, ip, limit, now) then Opened(u, ip)
      else if Evicts(u, ip, limit, now, victim) then this.(throttle := throttle[Shard(u) := now])
      else this
    }

    /** `ip` is thrown out: it may not come back for the length of the cooldown. */
    function Kicked(u: int, ip: Ip, now: int): State {
      var m := if u in cooldown then cooldown[u] else map[];
      this.(cooldown := cooldown[u := m[ip := now + KICK_COOLDOWN]], dirty := true)
    }

    ghost function Purged(now: int): State {
      this.(cooldown := Unexpired(cooldown, now), dirty := dirty || SomeExpired(cooldown, now))
    }

    function Updated(added: seq<UserInfo>, deleted: seq<UserInfo>, modified: seq<UserInfo>): State {
      var gone := Uuids(deleted);
      var ids := Ids(deleted);
      this.(users := Store(Adjust(users - gone, modified), added),
            buckets := buckets - gone - Uuids(modified),
            alive := alive - ids,
            refs := refs - ids,
            cooldown := cooldown - ids,
            global := global - ids,
            dirty := dirty || deleted != [])
    }

    function WithGlobal(table: map<int, seq<Ip>>, now: int): State {
      this.(global := Sets(table), updated := Some(now))
    }

    /** The rate in bytes per second that a user may have now, 0 for no limit. */
    function Rate(x: Uuid): int
      requires x in users
    {
      BytesPerSecond(Smaller(Max0(speed), Max0(users[x].speed)))
    }

    /** Every cached bucket belongs to a known user and has that user's present rate. */
    ghost predicate Coherent() {
      forall x :: x in buckets ==> x in users && buckets[x] == Rate(x) && buckets[x] > 0
    }

    /** The answer about a connection of user `x`: is it refused? */
    predicate Refuses(x: Uuid, ip: Ip, tcp: bool, now: int) {
      if x !in users then true
      else if tcp then !Admits(users[x].uid, ip, users[x].device, now)
      else Rejects(users[x].uid, ip, users[x].device, now)
    }

    /** The bucket handed out with a positive answer. */
    function Bucket(x: Uuid): Option<int>
      requires x in users
    {
      if Rate(x) <= 0 then None else if x in buckets then Some(buckets[x]) else Some(Rate(x))
    }

    /** What asking for a connection does. `victim` is the device that would be thrown out. */
    function Checked(x: Uuid, ip: Ip, tcp: bool, now: int, victim: Ip): State {
      if x !in users then this else
      var s := if tcp then TryOpen(users[x].uid, ip, users[x].device, now, victim) else this;
      if Refuses(x, ip, tcp, now) || Rate(x) <= 0 || x in buckets then s
      else s.(buckets := buckets[x := Rate(x)])
    }

    /** What a report should list for a user: connected devices and kicked ones in their cooldown. */
    function Reported(u: int, now: int): set<Ip> {
      Local(u) + Cooling(u, now)
    }

    /** `out` lists what should be reported, each device once, in some order. */
    ghost predicate IsSnapshot(out: map<int, seq<Ip>>, now: int) {
      && out.Keys == refs.Keys + cooldown.Keys
      && forall u :: u in out ==> Lists(out[u], Reported(u, now))
    }
  }

  /** `v` is one of the candidates, or empty when there is none. */
  ghost predicate IsChoice(v: Ip, candidates: set<Ip>) {
    if candidates == {} then v == "" else v in candidates
  }

  /** No row of the table is empty. */
  ghost predicate Tidy<K(!new)>(m: map<K, map<Ip, int>>) {
    forall u :: u in m ==> m[u] != map[]
  }

  ghost predicate Positive<K(!new)>(m: map<K, map<Ip, int>>) {
    forall u, ip :: u in m && ip in m[u] ==> m[u][ip] > 0
  }

  /** Users share locks and a kick throttle with those of equal low bits; Dafny's remainder is never
      negative, which is what masking a two's complement number gives. */
  function Shard(u: int): (i: nat)
    ensures i < SHARDS
  {
    u % SHARDS
  }

  /** One connection more. */
  function Acquired<K>(refs: map<K, map<Ip, int>>, u: K, ip: Ip): map<K, map<Ip, int>> {
    var m := if u in refs then refs[u] else map[];
    refs[u := m[ip := (if ip in m then m[ip] else 0) + 1]]
  }

  /** One connection less. An `ip` without connections leaves no trace, nor does a user without any. */
  function Released<K>(refs: map<K, map<Ip, int>>, u: K, ip: Ip): map<K, map<Ip, int>> {
    if u !in refs then refs else
    var m := refs[u];
    var left := if ip in m && m[ip] > 1 then m[ip := m[ip] - 1] else m - {ip};
    if left == map[] then refs - {u} else refs[u := left]
  }

  /** The entries of one user's cooldowns that have time left. */
  function Left(row: map<Ip, int>, now: int): map<Ip, int> {
    map ip | ip in row && now < row[ip] :: row[ip]
  }

  /** Is some cooldown over but not yet forgotten? */
  ghost predicate SomeExpired<K(!new)>(cd: map<K, map<Ip, int>>, now: int) {
    exists u, ip :: u in cd && ip in cd[u] && cd[u][ip] <= now
  }

  function Unexpired<K>(cd: map<K, map<Ip, int>>, now: int): map<K, map<Ip, int>> {
    map u | u in cd && Left(cd[u], now) != map[] :: Left(cd[u], now)
  }

  /** Every list of the table as a set. */
  function Sets<K>(table: map<K, seq<Ip>>): map<K, set<Ip>> {
    map u | u in table :: Elements(table[u])
  }

  function Elements(l: seq<Ip>): set<Ip> {
    set ip | ip in l
  }

  ghost predicate Lists(l: seq<Ip>, ips: set<Ip>) {
    NoRepeats(l) && Elements(l) == ips
  }

  function Uuids(us: seq<UserInfo>): set<Uuid> {
    set u | u in us :: u.uuid
  }

  function Ids(us: seq<UserInfo>): set<int> {
    set u | u in us :: u.id
  }

  function LimitOf(u: UserInfo): UserLimit {
    UserLimit(u.id, u.speedLimit, u.deviceLimit)
  }

  /** The table with the users put in, one after the other. */
  function Store(t: Table, us: seq<UserInfo>): (r: Table)
    ensures r.Keys == t.Keys + Uuids(us)
  {
    if us == [] then t else
    var u := us[|us| - 1];
    Store(t, us[..|us| - 1])[u.uuid := LimitOf(u)]
  }

  /** The table with new limits for those of the users that it holds. */
  function Adjust(t: Table, us: seq<UserInfo>): (r: Table)
    ensures r.Keys == t.Keys
  {
    if us == [] then t else
    var u := us[|us| - 1];
    var r := Adjust(t, us[..|us| - 1]);
    if u.uuid in r then r[u.uuid := UserLimit(r[u.uuid].uid, u.speedLimit, u.deviceLimit)] else r
  }

  lemma DropTidy<K(!new)>(m: map<K, map<Ip, int>>, u: K)
    ensures Tidy(m) ==> Tidy(m - {u})
    ensures Positive(m) ==> Positive(m - {u})
  {
  }

  lemma OpenedTidy(s: State, u: int, ip: Ip)
    requires s.WellFormed()
    ensures s.Opened(u, ip).WellFormed()
  {
    assert ip in s.Opened(u, ip).refs[u];
  }

  lemma ClosedTidy(s: State, x: Uuid, ip: Ip)
    requires s.WellFormed()
    ensures s.Closed(x, ip).WellFormed()
  {
  }

  lemma UnexpiredTidy<K(!new)>(m: map<K, map<Ip, int>>, now: int)
    ensures Tidy(Unexpired(m, now))
  {
  }

  lemma DropAllTidy<K(!new)>(m: map<K, map<Ip, int>>, us: set<K>)
    ensures Tidy(m) ==> Tidy(m - us)
    ensures Positive(m) ==> Positive(m - us)
  {
  }

  function Max0(n: int): int {
    if n > 0 then n else 0
  }

  /** The smaller of two limits where 0 stands for no limit. */
  function Smaller(a: int, b: int): int {
    if a == 0 || (b != 0 && b < a) then b else a
  }

  /** Megabits to bytes per second, for a limit that is not negative. */
  function BytesPerSecond(mbit: int): int {
    mbit * 1000000 / 8
  }

  function Initial(speed: int, us: seq<UserInfo>, alive: map<int, int>): (s: State)
    ensures s.WellFormed() && s.Coherent()
  {
    State(speed, Store(map[], us), map[], alive, map[], map[], seq(SHARDS, _ => 0), false, map[], None)
  }
}
