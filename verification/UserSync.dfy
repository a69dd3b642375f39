/** Keeping the limiter's user table in step with the panel's user list: by comparing each pulled list
    with the one before, and by the users that the panel adds and removes in between. */
module UserSync {
  import opened Basics
  import opened LimiterModel
  import opened LimiterRuns
  import opened DeviceLimiter

  /** The table that a limiter made for the list starts with. */
  function Build(us: seq<UserInfo>): Table {
    Store(map[], us)
  }

  /** The last entry of the list for each uuid. */
  function Index(us: seq<UserInfo>): map<Uuid, UserInfo> {
    if us == [] then map[] else
    var u := us[|us| - 1];
    Index(us[..|us| - 1])[u.uuid := u]
  }

  function Count(us: seq<UserInfo>, x: Uuid): (n: nat) {
    if us == [] then 0 else
    Count(us[..|us| - 1], x) + if us[|us| - 1].uuid == x then 1 else 0
  }

  predicate Differs(u: UserInfo, v: UserInfo) {
    u.speedLimit != v.speedLimit || u.deviceLimit != v.deviceLimit
  }

  /** A comparison under way: the old users not met yet, and what is to be added and modified. */
  datatype Diff = Diff(left: map<Uuid, UserInfo>, added: seq<UserInfo>, modified: seq<UserInfo>)

  function Met(d: Diff, u: UserInfo): Diff {
    if u.uuid !in d.left then d.(added := d.added + [u])
    else Diff(d.left - {u.uuid}, d.added, if Differs(d.left[u.uuid], u) then d.modified + [u] else d.modified)
  }

  function Compared(m: map<Uuid, UserInfo>, us: seq<UserInfo>): Diff {
    if us == [] then Diff(m, [], []) else
    Met(Compared(m, us[..|us| - 1]), us[|us| - 1])
  }

  /** The table after an update with the outcome of a comparison. */
  function Applied(t: Table, d: Diff): Table {
    Store(Adjust(t - d.left.Keys, d.modified), d.added)
  }

  /** `l` lists the users of `m` in some order. */
  ghost predicate ListsUsers(l: seq<UserInfo>, m: map<Uuid, UserInfo>) {
    && NoRepeats(l)
    && (forall u :: u in l ==> u.uuid in m && m[u.uuid] == u)
    && (forall x :: x in m ==> m[x] in l)
  }

  ghost predicate Keyed(m: map<Uuid, UserInfo>) {
    forall x :: x in m ==> m[x].uuid == x
  }

  method CompareUserList(before: seq<UserInfo>, after: seq<UserInfo>)
    returns (deleted: seq<UserInfo>, added: seq<UserInfo>, modified: seq<UserInfo>)
    ensures var d := Compared(Index(before), after);
            added == d.added && modified == d.modified && ListsUsers(deleted, d.left)
  {
    var oldMap: map<Uuid, UserInfo> := map[];
    for i := 0 to |before|
      invariant oldMap == Index(before[..i])
    {
      assert before[..i + 1][..i] == before[..i];
      oldMap := oldMap[before[i].uuid := before[i]];
    }
    assert before[..|before|] == before;
    IndexKeyed(before);
    added, modified := [], [];
    for i := 0 to |after|
      invariant Diff(oldMap, added, modified) == Compared(Index(before), after[..i])
      invariant Keyed(oldMap)
    {
      assert after[..i + 1][..i] == after[..i];
      var u := after[i];
      if u.uuid !in oldMap {
        added := added + [u];
      } else {
        var o := oldMap[u.uuid];
        if o.speedLimit != u.speedLimit || o.deviceLimit != u.deviceLimit {
          modified := modified + [u];
        }
        oldMap := oldMap - {u.uuid};
      }
    }
    assert after[..|after|] == after;
    deleted := Values(oldMap);
  }

  /** The users of a map, in some order. */
  method Values(m: map<Uuid, UserInfo>) returns (l: seq<UserInfo>)
    requires Keyed(m)
    ensures ListsUsers(l, m)
  {
    l := [];
    var todo := m.Keys;
    while todo != {}
      invariant todo <= m.Keys && ListsUsers(l, m - todo)
      decreases todo
    {
      var x :| x in todo;
      assert forall y :: y in m - (todo - {x}) <==> y in m - todo || y == x;
      assert m[x] !in l;
      todo := todo - {x};
      l := l + [m[x]];
    }
    assert m - todo == m;
  }

  lemma {:induction false} IndexKeyed(us: seq<UserInfo>)
    ensures Keyed(Index(us)) && Index(us).Keys == Uuids(us)
    decreases |us|
  {
    if us == [] {
    } else {
      var front, u := us[..|us| - 1], us[|us| - 1];
      IndexKeyed(front);
      assert us == front + [u];
      assert forall v :: v in us <==> v in front || v == u;
    }
  }

  lemma {:induction false} BuildIs(us: seq<UserInfo>, x: Uuid)
    requires x in Uuids(us)
    ensures x in Index(us) && Build(us)[x] == LimitOf(Index(us)[x])
    decreases |us|
  {
    IndexKeyed(us);
    var front, u := us[..|us| - 1], us[|us| - 1];
    assert us == front + [u];
    if u.uuid != x {
      assert forall v :: v in us <==> v in front || v == u;
      BuildIs(front, x);
    }
  }

  lemma DeletedAre(l: seq<UserInfo>, m: map<Uuid, UserInfo>)
    requires Keyed(m) && ListsUsers(l, m)
    ensures Uuids(l) == m.Keys
  {
    forall x | x in m
      ensures x in Uuids(l)
    {
      assert m[x] in l;
    }
  }

  lemma UuidsSplit(us: seq<UserInfo>)
    requires us != []
    ensures Uuids(us) == Uuids(us[..|us| - 1]) + {us[|us| - 1].uuid}
  {
    assert us == us[..|us| - 1] + [us[|us| - 1]];
    assert forall v :: v in us <==> v in us[..|us| - 1] || v == us[|us| - 1];
  }

  lemma UuidsAppend(us: seq<UserInfo>, u: UserInfo)
    ensures Uuids(us + [u]) == Uuids(us) + {u.uuid}
  {
    assert forall v :: v in us + [u] <==> v in us || v == u;
  }

  lemma {:induction false} CountIn(us: seq<UserInfo>, x: Uuid)
    ensures Count(us, x) > 0 <==> x in Uuids(us)
    decreases |us|
  {
    if us == [] {
    } else {
      UuidsSplit(us);
      CountIn(us[..|us| - 1], x);
    }
  }

  /** What is left over and what is added: an old user is left over if the new list lacks it; an entry is
      added unless it is the first for an old user. */
  lemma {:induction false} ComparedIs(m: map<Uuid, UserInfo>, us: seq<UserInfo>, x: Uuid)
    ensures var d := Compared(m, us);
            && (x in d.left <==> x in m && x !in Uuids(us))
            && (x in d.left ==> d.left[x] == m[x])
            && (x in Uuids(d.added) <==> Count(us, x) > if x in m then 1 else 0)
            && (x in Uuids(d.modified) ==> x in Uuids(us))
    decreases |us|
  {
    CountIn(us, x);
    if us == [] {
    } else {
      var front, u := us[..|us| - 1], us[|us| - 1];
      var d := Compared(m, front);
      UuidsSplit(us);
      CountIn(front, x);
      ComparedIs(m, front, x);
      UuidsAppend(d.added, u);
      UuidsAppend(d.modified, u);
    }
  }

  /** Entry `k` is the first of the list for `x`. */
  predicate FirstFor(us: seq<UserInfo>, x: Uuid, k: nat) {
    k < |us| && us[k].uuid == x && forall j :: 0 <= j < k ==> us[j].uuid != x
  }

  /** An old user is modified exactly when the first entry for it has another limit. */
  lemma {:induction false} ModifiedIff(m: map<Uuid, UserInfo>, us: seq<UserInfo>, x: Uuid)
    ensures x in Uuids(Compared(m, us).modified) <==>
            x in m && exists k: nat :: FirstFor(us, x, k) && (us[k].speedLimit != m[x].speedLimit
                                                              || us[k].deviceLimit != m[x].deviceLimit)
    decreases |us|
  {
    if us == [] {
    } else {
      var front, u := us[..|us| - 1], us[|us| - 1];
      ModifiedIff(m, front, x);
      ComparedIs(m, front, x);
      CountIn(front, x);
      UuidsAppend(Compared(m, front).modified, u);
      forall k: nat
        ensures FirstFor(us, x, k) <==> FirstFor(front, x, k) || (x !in Uuids(front) && u.uuid == x && k == |front|)
      {
        assert forall j :: 0 <= j < |front| ==> us[j] == front[j] && us[j] in front;
      }
    }
  }

  lemma {:induction false} AddedLast(m: map<Uuid, UserInfo>, us: seq<UserInfo>, x: Uuid)
    requires x in Uuids(Compared(m, us).added)
    ensures x in Uuids(us) && Build(Compared(m, us).added)[x] == Build(us)[x]
    decreases |us|
  {
    ComparedIs(m, us, x);
    CountIn(us, x);
    var front, u := us[..|us| - 1], us[|us| - 1];
    var d := Compared(m, front);
    ComparedIs(m, front, x);
    CountIn(front, x);
    UuidsAppend(d.added, u);
    assert (d.added + [u])[..|d.added|] == d.added;
    if u.uuid != x {
      AddedLast(m, front, x);
    }
  }

  /** An old user that the new list has once gets that entry's limits and keeps its number. */
  lemma {:induction false} ModifiedOnce(m: map<Uuid, UserInfo>, us: seq<UserInfo>, x: Uuid, t: Table)
    requires x in m && x in t && Count(us, x) == 1
    ensures x in Index(us)
    ensures var u := Index(us)[x];
            Adjust(t, Compared(m, us).modified)[x]
            == if Differs(m[x], u) then UserLimit(t[x].uid, u.speedLimit, u.deviceLimit) else t[x]
    decreases |us|
  {
    var front, u := us[..|us| - 1], us[|us| - 1];
    var d := Compared(m, front);
    CountIn(front, x);
    ComparedIs(m, front, x);
    assert (d.modified + [u])[..|d.modified|] == d.modified;
    if u.uuid == x {
      AdjustOutside(t, d.modified, x);
    } else {
      ModifiedOnce(m, front, x, t);
    }
  }

  /** What an update does to the entry of one uuid. */
  lemma UpdateAt(t: Table, m: map<Uuid, UserInfo>, us: seq<UserInfo>, x: Uuid)
    ensures var r := Applied(t, Compared(m, us));
            if x !in Uuids(us) then
              (x in r <==> x in t && x !in m) && (x in r ==> r[x] == t[x])
            else if x !in m || Count(us, x) > 1 then
              x in r && r[x] == Build(us)[x]
            else
              && (x in r <==> x in t)
              && x in Index(us)
              && var u := Index(us)[x];
                 (x in t ==>
                    r[x] == if Differs(m[x], u) then UserLimit(t[x].uid, u.speedLimit, u.deviceLimit) else t[x])
  {
    var d := Compared(m, us);
    var kept := t - d.left.Keys;
    ComparedIs(m, us, x);
    CountIn(us, x);
    IndexKeyed(us);
    StoreOutside(Adjust(kept, d.modified), d.added, x);
    if x in Uuids(d.added) {
      AddedLast(m, us, x);
    } else if x in kept {
      if x !in Uuids(us) {
        AdjustOutside(kept, d.modified, x);
      } else {
        ModifiedOnce(m, us, x, kept);
      }
    }
  }

  /** If this is an old user that the new list has exactly once, does it keep its number? */
  predicate KeepsId(before: seq<UserInfo>, after: seq<UserInfo>, x: Uuid) {
    x in Index(before) && x in Index(after) && Count(after, x) == 1 ==> Index(before)[x].id == Index(after)[x].id
  }

  /** Comparing two lists and updating the table of the old one gives the table built from the new one,
      whatever the lists and whatever uuids are repeated, exactly when every old user that the new list
      has once keeps its number. */
  lemma DiffThenUpdateIsRebuild(before: seq<UserInfo>, after: seq<UserInfo>)
    ensures Applied(Build(before), Compared(Index(before), after)) == Build(after)
            <==> forall x :: KeepsId(before, after, x)
  {
    var r, b := Applied(Build(before), Compared(Index(before), after)), Build(after);
    forall x
      ensures SameAt(r, b, x) <==> KeepsId(before, after, x)
    {
      RebuiltAt(before, after, x);
    }
    SameEverywhere(r, b);
  }

  predicate SameAt<V(==)>(a: map<Uuid, V>, b: map<Uuid, V>, x: Uuid) {
    (x in a <==> x in b) && (x in a ==> a[x] == b[x])
  }

  lemma SameEverywhere<V>(a: map<Uuid, V>, b: map<Uuid, V>)
    ensures a == b <==> forall x :: SameAt(a, b, x)
  {
    if forall x :: SameAt(a, b, x) {
      assert forall x :: x in a ==> SameAt(a, b, x);
      assert forall x :: x in b ==> SameAt(a, b, x);
    }
  }

  lemma RebuiltAt(before: seq<UserInfo>, after: seq<UserInfo>, x: Uuid)
    ensures SameAt(Applied(Build(before), Compared(Index(before), after)), Build(after), x)
            <==> KeepsId(before, after, x)
  {
    UpdateAt(Build(before), Index(before), after, x);
    IndexKeyed(before);
    IndexKeyed(after);
    CountIn(after, x);
    if x in Uuids(after) {
      BuildIs(after, x);
      if x in Uuids(before) {
        BuildIs(before, x);
      }
    }
  }

  // ---------------------------------------------------------------------------------------------
  // The controller
  // ---------------------------------------------------------------------------------------------

  /** The table and the list it should agree with. */
  datatype Sync = Sync(users: Table, list: seq<UserInfo>)

  /** A change of users: a pulled list or none, removals and additions that the panel pushes. `ok` says
      that the core, which has to be told first, does not fail. */
  datatype Change =
    | Pull(list: Option<seq<UserInfo>>, ok: bool)
    | Remove(ids: seq<int>, ok: bool)
    | Add(us: seq<UserInfo>, ok: bool)

  /** The listed users with one of these numbers. */
  function Listed(list: seq<UserInfo>, ids: set<int>): seq<UserInfo> {
    if list == [] then [] else
    Listed(list[..|list| - 1], ids) + if list[|list| - 1].id in ids then [list[|list| - 1]] else []
  }

  /** Those of the users that can be added: they have a uuid, and their number is not listed yet. */
  function Fresh(list: seq<UserInfo>, us: seq<UserInfo>): seq<UserInfo> {
    if us == [] then [] else
    var u := us[|us| - 1];
    Fresh(list, us[..|us| - 1]) + if u.uuid != "" && u.id !in Ids(list) then [u] else []
  }

  function Synced(s: Sync, c: Change): Sync {
    if c.Pull? then
      if c.list.None? || !c.ok then s
      else Sync(Applied(s.users, Compared(Index(s.list), c.list.value)), c.list.value)
    else if c.Remove? then
      if c.ok then s.(users := s.users - Uuids(Listed(s.list, Wanted(c.ids)))) else s
    else
      var newcomers := Fresh(s.list, c.us);
      Sync(if c.ok then Store(s.users, newcomers) else s.users, s.list + newcomers)
  }

  function Wanted(ids: seq<int>): set<int> {
    set i | i in ids
  }

  /** The new value if there is one. */
  function OrElse<T>(o: Option<T>, t: T): T {
    if o.Some? then o.value else t
  }

  /** What the core is asked for: to delete if some listed user is not in the new list, and to add if the
      new list has some uuid once more than needed to keep a listed user. */
  lemma DiffNeeds(list: seq<UserInfo>, us: seq<UserInfo>)
    ensures var d := Compared(Index(list), us);
            && (d.left == map[] <==> forall u :: u in list ==> u.uuid in Uuids(us))
            && (d.added == [] <==> forall x :: Count(us, x) <= if x in Uuids(list) then 1 else 0)
  {
    var d := Compared(Index(list), us);
    IndexKeyed(list);
    forall x
      ensures x in d.left <==> x in Uuids(list) && x !in Uuids(us)
      ensures x in Uuids(d.added) <==> Count(us, x) > if x in Uuids(list) then 1 else 0
    {
      ComparedIs(Index(list), us, x);
    }
    assert forall u :: u in list ==> u.uuid in Uuids(list);
    if d.added != [] {
      assert d.added[0].uuid in Uuids(d.added);
    }
  }

  lemma LeftIffDeleted(l: seq<UserInfo>, m: map<Uuid, UserInfo>)
    requires ListsUsers(l, m)
    ensures l == [] <==> m == map[]
  {
    if l != [] {
      assert l[0] in l;
    }
    assert forall x :: x in m ==> m[x] in l;
  }

  /** The update is the outcome of comparing the lists, the deleted in some order. */
  ghost predicate IsDiff(e: Event, list: seq<UserInfo>, us: seq<UserInfo>) {
    var d := Compared(Index(list), us);
    e.Update? && e.added == d.added && e.modified == d.modified && ListsUsers(e.deleted, d.left)
  }

  /** The part of the node's controller that keeps the users. */
  class Controller {
    const limiter: Limiter
    var userList: seq<UserInfo>

    ghost function Abs(): Sync
      reads this, limiter
    {
      Sync(limiter.users, userList)
    }

    constructor (limiter: Limiter, us: seq<UserInfo>)
      ensures this.limiter == limiter && userList == us
    {
      this.limiter := limiter;
      userList := us;
    }

    /** One round of the monitor. `newU` is the pulled list and `newA` the pulled alive counts, or none if
        they are unchanged or not pulled; the other flags say whether the node was changed and what the core
        answers. */
    method NodeInfoMonitor(newU: Option<seq<UserInfo>>, newA: Option<map<int, int>>, changed: bool,
                           delNodeOk: bool, delOk: bool, addOk: bool)
      returns (ghost ok: bool, ghost e: Event)
      requires limiter.Valid()
      modifies this, limiter
      ensures limiter.Valid() && Abs() == Synced(old(Abs()), Pull(newU, ok))
      ensures changed ==> ok == delNodeOk
      ensures !changed && newU.None? ==> ok
      ensures !changed && newU.Some? ==>
                (ok <==> && (delOk || forall u :: u in old(userList) ==> u.uuid in Uuids(newU.value))
                         && (addOk || forall x :: Count(newU.value, x) <= if x in Uuids(old(userList)) then 1 else 0))
      ensures !ok ==> userList == old(userList) && limiter.users == old(limiter.users)
      ensures if ok && newU.Some? then IsDiff(e, old(userList), newU.value) else e == Event.Update([], [], [])
      ensures var s := old(limiter.Abs());
              limiter.Abs() == if !changed
                               then s.(alive := OrElse(newA, s.alive)).Updated(e.added, e.deleted, e.modified)
                               else if ok
                               then var n := s.Updated(e.added, e.deleted, e.modified);
                                    n.(alive := OrElse(newA, n.alive))
                               else s
    {
      e := Event.Update([], [], []);
      ok := !changed || delNodeOk;
      if changed {
        if !delNodeOk {
          return;
        }
        e := Round(newU);
        Alive(newA);
        return;
      }
      Alive(newA);
      if newU.None? {
        NothingUpdated(limiter.Abs());
        return;
      }
      var deleted, added, modified := CompareUserList(userList, newU.value);
      LeftIffDeleted(deleted, Compared(Index(userList), newU.value).left);
      DiffNeeds(userList, newU.value);
      if (|deleted| > 0 && !delOk) || (|added| > 0 && !addOk) {
        ok := false;
        NothingUpdated(limiter.Abs());
        return;
      }
      e := Event.Update(added, deleted, modified);
      Update(newU.value, deleted, added, modified);
      userList := newU.value;
    }

    /** The limiter and the list follow a pulled list, if there is one. */
    method Round(newU: Option<seq<UserInfo>>) returns (ghost e: Event)
      requires limiter.Valid()
      modifies this, limiter
      ensures limiter.Valid() && Abs() == Synced(old(Abs()), Pull(newU, true))
      ensures if newU.Some? then IsDiff(e, old(userList), newU.value) else e == Event.Update([], [], [])
      ensures limiter.Abs() == old(limiter.Abs()).Updated(e.added, e.deleted, e.modified)
    {
      e := Event.Update([], [], []);
      NothingUpdated(limiter.Abs());
      if newU.Some? {
        var deleted, added, modified := CompareUserList(userList, newU.value);
        e := Event.Update(added, deleted, modified);
        Update(newU.value, deleted, added, modified);
        userList := newU.value;
      }
    }

    method Alive(newA: Option<map<int, int>>)
      requires limiter.Valid()
      modifies limiter`aliveList
      ensures limiter.Valid()
      ensures limiter.Abs() == old(limiter.Abs()).(alive := OrElse(newA, old(limiter.aliveList)))
    {
      if newA.Some? {
        limiter.SetAliveList(newA.value);
      }
    }

    method Update(ghost newU: seq<UserInfo>, deleted: seq<UserInfo>, added: seq<UserInfo>, modified: seq<UserInfo>)
      requires limiter.Valid()
      requires var d := Compared(Index(userList), newU);
               added == d.added && modified == d.modified && ListsUsers(deleted, d.left)
      modifies limiter
      ensures limiter.Valid() && limiter.Abs() == old(limiter.Abs()).Updated(added, deleted, modified)
      ensures limiter.users == Applied(old(limiter.users), Compared(Index(userList), newU))
    {
      ghost var d := Compared(Index(userList), newU);
      IndexKeyed(userList);
      forall x | x in d.left
        ensures d.left[x].uuid == x
      {
        ComparedIs(Index(userList), newU, x);
      }
      DeletedAre(deleted, d.left);
      if |added| > 0 || |deleted| > 0 || |modified| > 0 {
        limiter.UpdateUser(added, deleted, modified);
      } else {
        NothingUpdated(limiter.Abs());
      }
    }

    /** The panel removes users: the list stays as it is. */
    method RemoveUsersByIDs(ids: seq<int>, delOk: bool) returns (ghost e: Event)
      requires limiter.Valid()
      modifies limiter
      ensures e == Event.Update([], if delOk then Listed(userList, Wanted(ids)) else [], [])
      ensures limiter.Abs() == old(limiter.Abs()).Updated(e.added, e.deleted, e.modified)
      ensures limiter.Valid() && Abs() == Synced(old(Abs()), Remove(ids, delOk))
    {
      var want := Wanted(ids);
      var deleted: seq<UserInfo> := [];
      for i := 0 to |userList|
        invariant deleted == Listed(userList[..i], want)
      {
        assert userList[..i + 1][..i] == userList[..i];
        if userList[i].id in want {
          deleted := deleted + [userList[i]];
        }
      }
      assert userList[..|userList|] == userList;
      e := Event.Update([], [], []);
      NothingUpdated(limiter.Abs());
      if |deleted| == 0 {
        return;
      }
      if delOk {
        e := Event.Update([], deleted, []);
        limiter.UpdateUser([], deleted, []);
      }
    }

    /** The panel adds users: those with a known number are skipped, the others join the list at once. */
    method AddUsersByWS(us: seq<UserInfo>, addOk: bool) returns (ghost e: Event)
      requires limiter.Valid()
      modifies this, limiter
      ensures e == Event.Update(if addOk then Fresh(old(userList), us) else [], [], [])
      ensures limiter.Abs() == old(limiter.Abs()).Updated(e.added, e.deleted, e.modified)
      ensures limiter.Valid() && Abs() == Synced(old(Abs()), Add(us, addOk))
    {
      var newcomers := FreshUsers(userList, us);
      AddsOnly(limiter.Abs(), newcomers);
      e := Event.Update([], [], []);
      NothingUpdated(limiter.Abs());
      if |newcomers| == 0 {
        assert userList + [] == userList;
        return;
      }
      userList := userList + newcomers;
      if addOk {
        e := Event.Update(newcomers, [], []);
        limiter.UpdateUser(newcomers, [], []);
      }
    }
  }

  method FreshUsers(list: seq<UserInfo>, us: seq<UserInfo>) returns (newcomers: seq<UserInfo>)
    ensures newcomers == Fresh(list, us)
  {
    var existing := Ids(list);
    newcomers := [];
    for i := 0 to |us|
      invariant newcomers == Fresh(list, us[..i])
    {
      assert us[..i + 1][..i] == us[..i];
      if us[i].uuid != "" && us[i].id !in existing {
        newcomers := newcomers + [us[i]];
      }
    }
    assert us[..|us|] == us;
  }

  lemma AddsOnly(s: State, us: seq<UserInfo>)
    ensures s.Updated(us, [], []).users == Store(s.users, us)
    ensures us == [] ==> Store(s.users, us) == s.users
  {
    assert Uuids([]) == {};
    assert s.users - {} == s.users;
  }

  // ---------------------------------------------------------------------------------------------
  // Runs
  // ---------------------------------------------------------------------------------------------

  function SyncedAll(s: Sync, cs: seq<Change>): Sync
    decreases |cs|
  {
    if cs == [] then s else SyncedAll(Synced(s, cs[0]), cs[1..])
  }

  predicate Agrees(s: Sync) {
    s.users == Build(s.list)
  }

  /** Every user in the table is listed and has the limits of the list; some listed users may be missing. */
  ghost predicate Accurate(s: Sync) {
    forall x :: x in s.users ==> x in Build(s.list) && s.users[x] == Build(s.list)[x]
  }

  /** A listed user whom the limiter does not know, and so refuses. */
  predicate Missing(s: Sync, x: Uuid) {
    x in Build(s.list) && x !in s.users
  }

  predicate StableChange(id: Uuid -> int, c: Change) {
    && (c.Pull? && c.list.Some? ==> StableList(id, c.list.value))
    && (c.Add? ==> StableList(id, c.us))
  }

  predicate StableChanges(id: Uuid -> int, cs: seq<Change>) {
    forall c :: c in cs ==> StableChange(id, c)
  }

  lemma {:induction false} IndexIn(us: seq<UserInfo>, x: Uuid)
    requires x in Index(us)
    ensures Index(us)[x] in us && Index(us)[x].uuid == x
    decreases |us|
  {
    var front, u := us[..|us| - 1], us[|us| - 1];
    if u.uuid != x {
      IndexIn(front, x);
      assert forall v :: v in front ==> v in us;
    }
  }

  lemma {:induction false} StoreAppend(t: Table, a: seq<UserInfo>, b: seq<UserInfo>)
    ensures Store(t, a + b) == Store(Store(t, a), b)
    decreases |b|
  {
    if b == [] {
      assert a + b == a;
    } else {
      assert (a + b)[..|a + b| - 1] == a + b[..|b| - 1];
      StoreAppend(t, a, b[..|b| - 1]);
    }
  }

  lemma {:induction false} FreshAre(list: seq<UserInfo>, us: seq<UserInfo>)
    ensures forall u :: u in Fresh(list, us) <==> u in us && u.uuid != "" && u.id !in Ids(list)
    decreases |us|
  {
    if us == [] {
    } else {
      FreshAre(list, us[..|us| - 1]);
      assert us == us[..|us| - 1] + [us[|us| - 1]];
    }
  }

  lemma {:induction false} ListedAre(list: seq<UserInfo>, ids: set<int>)
    ensures forall u :: u in Listed(list, ids) <==> u in list && u.id in ids
    decreases |list|
  {
    if list == [] {
    } else {
      ListedAre(list[..|list| - 1], ids);
      assert list == list[..|list| - 1] + [list[|list| - 1]];
    }
  }

  /** With stable numbers, no one is added who is listed. */
  lemma FreshAreNew(id: Uuid -> int, list: seq<UserInfo>, us: seq<UserInfo>)
    requires StableList(id, list) && StableList(id, us)
    ensures Uuids(Fresh(list, us)) !! Uuids(list) && StableList(id, list + Fresh(list, us))
  {
    FreshAre(list, us);
    assert forall u :: u in list ==> u.id in Ids(list);
  }

  lemma SyncedStable(id: Uuid -> int, s: Sync, c: Change)
    requires StableList(id, s.list) && StableChange(id, c)
    ensures StableList(id, Synced(s, c).list)
  {
    if c.Add? {
      FreshAreNew(id, s.list, c.us);
    }
  }

  /** What a pulled list makes of the entry of one uuid, in an accurate table. */
  lemma PulledAt(id: Uuid -> int, s: Sync, l: seq<UserInfo>, x: Uuid)
    requires Accurate(s) && StableList(id, s.list) && StableList(id, l)
    ensures var n := Synced(s, Pull(Some(l), true));
            && (x in n.users <==> x in Uuids(l) && !(Missing(s, x) && Count(l, x) == 1))
            && (x in n.users ==> n.users[x] == Build(l)[x])
  {
    UpdateAt(s.users, Index(s.list), l, x);
    IndexKeyed(s.list);
    IndexKeyed(l);
    CountIn(l, x);
    if x in Uuids(l) {
      BuildIs(l, x);
      IndexIn(l, x);
      if x in Uuids(s.list) {
        BuildIs(s.list, x);
        IndexIn(s.list, x);
      }
    }
  }

  lemma SyncedAccurate(id: Uuid -> int, s: Sync, c: Change)
    requires Accurate(s) && StableList(id, s.list) && StableChange(id, c)
    ensures Accurate(Synced(s, c))
  {
    if c.Pull? && c.list.Some? && c.ok {
      forall x
        ensures var n := Synced(s, c); x in n.users ==> x in Build(n.list) && n.users[x] == Build(n.list)[x]
      {
        PulledAt(id, s, c.list.value, x);
      }
    } else if c.Add? {
      AddedAccurate(id, s, c.us, c.ok);
    }
  }

  lemma AddedAccurate(id: Uuid -> int, s: Sync, us: seq<UserInfo>, ok: bool)
    requires Accurate(s) && StableList(id, s.list) && StableList(id, us)
    ensures Accurate(Synced(s, Add(us, ok)))
  {
    var n := Synced(s, Add(us, ok));
    var newcomers := Fresh(s.list, us);
    FreshAreNew(id, s.list, us);
    StoreAppend(map[], s.list, newcomers);
    forall x | x in n.users
      ensures x in Build(n.list) && n.users[x] == Build(n.list)[x]
    {
      StoreOutside(s.users, newcomers, x);
      StoreOutside(Build(s.list), newcomers, x);
    }
  }

  /** Whatever is pulled, pushed or fails: with stable numbers the table never holds a user that is not
      listed, nor one with other limits than the list gives. */
  lemma {:induction false} RunAccurate(id: Uuid -> int, s: Sync, cs: seq<Change>)
    requires Accurate(s) && StableList(id, s.list) && StableChanges(id, cs)
    ensures Accurate(SyncedAll(s, cs)) && StableList(id, SyncedAll(s, cs).list)
    decreases |cs|
  {
    if cs == [] {
    } else {
      SyncedStable(id, s, cs[0]);
      SyncedAccurate(id, s, cs[0]);
      RunAccurate(id, Synced(s, cs[0]), cs[1..]);
    }
  }

  /** A round brings table and list back together exactly when the new list has none of the missing users
      exactly once. */
  lemma RoundRestoresIff(id: Uuid -> int, s: Sync, l: seq<UserInfo>)
    requires Accurate(s) && StableList(id, s.list) && StableList(id, l)
    ensures Agrees(Synced(s, Pull(Some(l), true))) <==> forall x :: Missing(s, x) ==> Count(l, x) != 1
  {
    var r, b := Synced(s, Pull(Some(l), true)).users, Build(l);
    forall x
      ensures SameAt(r, b, x) <==> (Missing(s, x) ==> Count(l, x) != 1)
    {
      PulledAt(id, s, l, x);
      CountIn(l, x);
    }
    SameEverywhere(r, b);
  }

  predicate NothingFails(cs: seq<Change>) {
    forall c :: c in cs ==> !c.Remove? && c.ok
  }

  /** Table agreement: as long as the core does not fail and nobody is removed out of turn, the table is
      at all times the one built from the list. */
  lemma {:induction false} RunAgrees(id: Uuid -> int, s: Sync, cs: seq<Change>)
    requires Agrees(s) && StableList(id, s.list) && StableChanges(id, cs) && NothingFails(cs)
    ensures Agrees(SyncedAll(s, cs))
    decreases |cs|
  {
    if cs == [] {
    } else {
      SyncedStable(id, s, cs[0]);
      if cs[0].Pull? && cs[0].list.Some? {
        RoundRestoresIff(id, s, cs[0].list.value);
      } else if cs[0].Add? {
        StoreAppend(map[], s.list, Fresh(s.list, cs[0].us));
      }
      RunAgrees(id, Synced(s, cs[0]), cs[1..]);
    }
  }

  /** After the panel has removed users, the next list restores agreement exactly when it has none of
      them exactly once; so it does if it omits them, and does not if it still has one. */
  lemma RemovedThenPulled(id: Uuid -> int, s: Sync, ids: seq<int>, l: seq<UserInfo>)
    requires Agrees(s) && StableList(id, s.list) && StableList(id, l)
    ensures var n := Synced(s, Remove(ids, true));
            Agrees(Synced(n, Pull(Some(l), true))) <==>
              forall u :: u in s.list && u.id in ids ==> Count(l, u.uuid) != 1
  {
    var n := Synced(s, Remove(ids, true));
    ListedAre(s.list, Wanted(ids));
    RoundRestoresIff(id, n, l);
    forall x
      ensures Missing(n, x) <==> exists u :: u in s.list && u.id in ids && u.uuid == x
    {
    }
  }

  /** Who is in the table after an addition by the panel: whoever was, and, if the core goes along, whoever
      comes with a number that is not listed. */
  lemma AddedIff(s: Sync, us: seq<UserInfo>, ok: bool, x: Uuid)
    ensures x in Synced(s, Add(us, ok)).users <==>
              x in s.users || (ok && x != "" && exists u :: u in us && u.uuid == x && u.id !in Ids(s.list))
  {
    FreshAre(s.list, us);
    StoreOutside(s.users, Fresh(s.list, us), x);
  }

  /** So an addition brings a user into the table if and only if the list does not have the number. */
  lemma AddRestoresIff(id: Uuid -> int, s: Sync, us: seq<UserInfo>, u: UserInfo)
    requires StableList(id, s.list) && StableList(id, us) && u in us && u.uuid != ""
    ensures u.uuid in Synced(s, Add(us, true)).users <==> u.uuid in s.users || u.id !in Ids(s.list)
  {
    AddedIff(s, us, true, u.uuid);
    assert u.id == id(u.uuid);
  }

  /** An addition that the core fails leaves its newcomers listed and missing, and nobody else. */
  lemma FailedAddMisses(id: Uuid -> int, s: Sync, us: seq<UserInfo>, x: Uuid)
    requires Accurate(s) && StableList(id, s.list) && StableList(id, us)
    ensures Missing(Synced(s, Add(us, false)), x) <==>
            Missing(s, x) || (x != "" && exists u :: u in us && u.uuid == x && u.id !in Ids(s.list))
  {
    FreshAre(s.list, us);
    FreshAreNew(id, s.list, us);
    StoreAppend(map[], s.list, Fresh(s.list, us));
  }

  /** The panel removes users and then adds some, be they others or the same ones again: missing are
      exactly the removed, whoever is added. */
  lemma RemovedThenAdded(id: Uuid -> int, s: Sync, ids: seq<int>, us: seq<UserInfo>, x: Uuid)
    requires Agrees(s) && StableList(id, s.list) && StableList(id, us)
    ensures Missing(Synced(Synced(s, Remove(ids, true)), Add(us, true)), x)
            <==> exists u :: u in s.list && u.id in ids && u.uuid == x
  {
    var n := Synced(s, Remove(ids, true));
    var newcomers := Fresh(s.list, us);
    ListedAre(s.list, Wanted(ids));
    FreshAreNew(id, s.list, us);
    StoreAppend(map[], s.list, newcomers);
    StoreOutside(n.users, newcomers, x);
    StoreOutside(Build(s.list), newcomers, x);
  }

  lemma {:induction false} NoneFresh(list: seq<UserInfo>, us: seq<UserInfo>)
    requires forall u :: u in us ==> u.id in Ids(list)
    ensures Fresh(list, us) == []
    decreases |us|
  {
    if us == [] {
    } else {
      assert us[|us| - 1] in us && forall v :: v in us[..|us| - 1] ==> v in us;
      NoneFresh(list, us[..|us| - 1]);
    }
  }

  /** The shortest such run: one user, removed and added again. */
  lemma RemovedIsNotRestored(u: UserInfo)
    ensures var n := Synced(Synced(Sync(Build([u]), [u]), Remove([u.id], true)), Add([u], true));
            n == Sync(map[], [u]) && Missing(n, u.uuid)
  {
    var s := Sync(Build([u]), [u]);
    var id := (x: Uuid) => u.id;
    RemovedThenAdded(id, s, [u.id], [u], u.uuid);
    ListedAre(s.list, Wanted([u.id]));
    assert u in [u];
    assert Build([u]).Keys == Uuids([u]) == {u.uuid};
    assert u in Listed(s.list, Wanted([u.id]));
    NoneFresh([u], [u]);
    assert Build([u]) - {u.uuid} == map[];
    assert [u] + [] == [u];
  }

  /** After a change a missing user is still missing exactly if no list was pulled, or the pulled one has
      the user exactly once. */
  predicate Leaves(c: Change, x: Uuid) {
    c.Pull? && c.list.Some? && c.ok ==> Count(c.list.value, x) == 1
  }

  lemma StillMissingIff(id: Uuid -> int, s: Sync, c: Change, x: Uuid)
    requires Accurate(s) && StableList(id, s.list) && StableChange(id, c) && Missing(s, x)
    ensures Missing(Synced(s, c), x) <==> Leaves(c, x)
  {
    if c.Pull? && c.list.Some? && c.ok {
      PulledAt(id, s, c.list.value, x);
      CountIn(c.list.value, x);
    } else if c.Add? {
      FreshAreNew(id, s.list, c.us);
      StoreOutside(s.users, Fresh(s.list, c.us), x);
      StoreAppend(map[], s.list, Fresh(s.list, c.us));
    }
  }

  /** Every list that is pulled with success has the user exactly once. */
  predicate AlwaysListed(cs: seq<Change>, x: Uuid) {
    forall c :: c in cs ==> Leaves(c, x)
  }

  /** The user is missing at first and after every change. */
  predicate AlwaysMissing(s: Sync, cs: seq<Change>, x: Uuid)
    decreases |cs|
  {
    Missing(s, x) && (cs != [] ==> AlwaysMissing(Synced(s, cs[0]), cs[1..], x))
  }

  /** A missing user is missing all along, and the limiter goes on refusing every connection, if and only
      if every list that is pulled with success has the user exactly once: additions by the panel do not
      bring the user back, only a list without the user or with repetitions ends it. */
  lemma {:induction false} MissingStaysMissing(id: Uuid -> int, s: Sync, cs: seq<Change>, x: Uuid)
    requires Accurate(s) && StableList(id, s.list) && StableChanges(id, cs) && Missing(s, x)
    ensures AlwaysMissing(s, cs, x) <==> AlwaysListed(cs, x)
    ensures AlwaysMissing(s, cs, x) ==> Missing(SyncedAll(s, cs), x)
    decreases |cs|
  {
    if cs == [] {
    } else {
      var c := cs[0];
      SyncedStable(id, s, c);
      SyncedAccurate(id, s, c);
      StillMissingIff(id, s, c, x);
      assert c in cs && forall d :: d in cs <==> d == c || d in cs[1..];
      if Missing(Synced(s, c), x) {
        MissingStaysMissing(id, Synced(s, c), cs[1..], x);
      }
    }
  }

  /** So a listed user whom the panel removes, and whether or not it adds the user again at once, is
      refused for as long as pulled lists have the user exactly once, and no longer. */
  lemma RestoredUserStaysMissing(id: Uuid -> int, s: Sync, us: seq<UserInfo>, cs: seq<Change>, u: UserInfo)
    requires Agrees(s) && StableList(id, s.list) && StableList(id, us) && StableChanges(id, cs) && u in s.list
    ensures var n := Synced(Synced(s, Remove([u.id], true)), Add(us, true));
            AlwaysMissing(n, cs, u.uuid) <==> AlwaysListed(cs, u.uuid)
  {
    var removed := Synced(s, Remove([u.id], true));
    SyncedAccurate(id, s, Remove([u.id], true));
    SyncedAccurate(id, removed, Add(us, true));
    SyncedStable(id, removed, Add(us, true));
    RemovedThenAdded(id, s, [u.id], us, u.uuid);
    MissingStaysMissing(id, Synced(removed, Add(us, true)), cs, u.uuid);
  }

  /** With stable numbers, and lists that repeat no uuid, no update adds a user who is in the table: what
      the coherence of cached buckets rests on. */
  lemma UpdatesAddNewUsers(id: Uuid -> int, s: Sync, us: seq<UserInfo>)
    requires Accurate(s) && StableList(id, s.list) && StableList(id, us)
    ensures (forall x :: Count(us, x) <= 1) ==> Uuids(Compared(Index(s.list), us).added) !! s.users.Keys
    ensures Uuids(Fresh(s.list, us)) !! s.users.Keys
  {
    IndexKeyed(s.list);
    FreshAreNew(id, s.list, us);
    forall x | x in Uuids(Compared(Index(s.list), us).added) && Count(us, x) <= 1
      ensures x !in s.users
    {
      ComparedIs(Index(s.list), us, x);
    }
  }

  // ---------------------------------------------------------------------------------------------
  // Users and connections together
  // ---------------------------------------------------------------------------------------------

  /** The limiter with its connections, and the list. */
  datatype Node = Node(w: World, list: seq<UserInfo>)

  /** A step of the limiter by itself, or a change of users, in which the deleted come in some order. */
  datatype Step =
    | Local(t: Tick)
    | Users(now: int, c: Change, deleted: seq<UserInfo>)

  /** The update of the limiter that a change of users brings about. */
  function UpdateFor(list: seq<UserInfo>, c: Change, deleted: seq<UserInfo>): Event {
    if !c.ok then Update([], [], [])
    else if c.Add? then Update(Fresh(list, c.us), [], [])
    else if c.Remove? then Update([], Listed(list, Wanted(c.ids)), [])
    else if c.list.None? then Update([], [], [])
    else
      var d := Compared(Index(list), c.list.value);
      Update(d.added, deleted, d.modified)
  }

  ghost predicate CanStep(n: Node, e: Step) {
    match e
    case Local(t) => Possible(n.w, t.e) && !t.e.Update?
    case Users(_, c, deleted) =>
      c.Pull? && c.list.Some? && c.ok ==> ListsUsers(deleted, Compared(Index(n.list), c.list.value).left)
  }

  ghost function StepOn(n: Node, e: Step): Node
    requires CanStep(n, e)
  {
    match e
    case Local(t) => n.(w := Next(n.w, t))
    case Users(now, c, deleted) =>
      Node(Next(n.w, Tick(now, UpdateFor(n.list, c, deleted))), Synced(Sync(n.w.s.users, n.list), c).list)
  }

  ghost predicate Steps(n: Node, es: seq<Step>)
    decreases |es|
  {
    es == [] || (CanStep(n, es[0]) && Steps(StepOn(n, es[0]), es[1..]))
  }

  ghost function Reached(n: Node, es: seq<Step>): Node
    requires Steps(n, es)
    decreases |es|
  {
    if es == [] then n else Reached(StepOn(n, es[0]), es[1..])
  }

  ghost function SyncOf(n: Node): Sync {
    Sync(n.w.s.users, n.list)
  }

  /** Users keep their numbers, and pulled lists repeat no uuid. */
  ghost predicate Orderly(id: Uuid -> int, es: seq<Step>) {
    forall e :: e in es && e.Users? ==>
      && StableChange(id, e.c)
      && (e.c.Pull? && e.c.list.Some? ==> forall x :: Count(e.c.list.value, x) <= 1)
  }

  lemma PullSynced(s: State, list: seq<UserInfo>, l: seq<UserInfo>, deleted: seq<UserInfo>)
    requires ListsUsers(deleted, Compared(Index(list), l).left)
    ensures var d := Compared(Index(list), l); s.Updated(d.added, deleted, d.modified).users == Applied(s.users, d)
  {
    var d := Compared(Index(list), l);
    IndexKeyed(list);
    forall x | x in d.left
      ensures d.left[x].uuid == x
    {
      ComparedIs(Index(list), l, x);
    }
    DeletedAre(deleted, d.left);
  }

  lemma RemoveSynced(s: State, deleted: seq<UserInfo>)
    ensures s.Updated([], deleted, []).users == s.users - Uuids(deleted)
  {
  }

  /** The update does to the table what the change is to do. */
  lemma UsersSynced(s: State, list: seq<UserInfo>, c: Change, deleted: seq<UserInfo>)
    requires c.Pull? && c.list.Some? && c.ok ==> ListsUsers(deleted, Compared(Index(list), c.list.value).left)
    ensures var e := UpdateFor(list, c, deleted);
            s.Updated(e.added, e.deleted, e.modified).users == Synced(Sync(s.users, list), c).users
  {
    if !c.ok || (c.Pull? && c.list.None?) {
      AddsOnly(s, []);
    } else if c.Pull? {
      PullSynced(s, list, c.list.value, deleted);
    } else if c.Remove? {
      RemoveSynced(s, Listed(list, Wanted(c.ids)));
    } else {
      AddsOnly(s, Fresh(list, c.us));
    }
  }

  lemma StepCoherent(id: Uuid -> int, n: Node, e: Step)
    requires n.w.s.Coherent() && Accurate(SyncOf(n)) && StableList(id, n.list) && CanStep(n, e) && Orderly(id, [e])
    ensures var m := StepOn(n, e); m.w.s.Coherent() && Accurate(SyncOf(m)) && StableList(id, m.list)
  {
    assert e in [e];
    match e
    case Local(t) =>
      NextCoherent(n.w, t);
      OnlyUpdatesChangeUsers(n.w, t);
    case Users(now, c, deleted) =>
      var t := Tick(now, UpdateFor(n.list, c, deleted));
      if c.Pull? && c.list.Some? {
        UpdatesAddNewUsers(id, SyncOf(n), c.list.value);
      } else if c.Add? {
        UpdatesAddNewUsers(id, SyncOf(n), c.us);
      }
      assert AddsNewUsers(n.w, t.e) by {
        assert forall u :: u in t.e.added ==> u.uuid in Uuids(t.e.added);
      }
      NextCoherent(n.w, t);
      UsersSynced(n.w.s, n.list, c, deleted);
      SyncedStable(id, SyncOf(n), c);
      SyncedAccurate(id, SyncOf(n), c);
  }

  /** Speed buckets over whole runs: with stable numbers and pulled lists that repeat no uuid, through any
      connections, kicks, pulled lists, additions and removals, and failures of the core, every cached
      bucket has the present rate of its user. */
  lemma {:induction false} BucketsStayCoherent(id: Uuid -> int, n: Node, es: seq<Step>)
    requires n.w.s.Coherent() && Accurate(SyncOf(n)) && StableList(id, n.list)
    requires Steps(n, es) && Orderly(id, es)
    ensures var m := Reached(n, es); m.w.s.Coherent() && Accurate(SyncOf(m)) && StableList(id, m.list)
    decreases |es|
  {
    if es == [] {
    } else {
      assert es[0] in es && forall e :: e in es[1..] ==> e in es;
      StepCoherent(id, n, es[0]);
      BucketsStayCoherent(id, StepOn(n, es[0]), es[1..]);
    }
  }

  /** The node when its limiter has just been built from the list. */
  function Started(speed: int, us: seq<UserInfo>, alive: map<int, int>): Node {
    Node(World(Initial(speed, us, alive), map[]), us)
  }

  /** So from the start of the node: every cached bucket has the present rate of its user, and the limiter
      knows none but listed users, with the limits of the list. */
  lemma NodeStaysCoherent(id: Uuid -> int, speed: int, us: seq<UserInfo>, alive: map<int, int>, es: seq<Step>)
    requires StableList(id, us) && Orderly(id, es) && Steps(Started(speed, us, alive), es)
    ensures var m := Reached(Started(speed, us, alive), es); m.w.s.Coherent() && Accurate(SyncOf(m))
  {
    BucketsStayCoherent(id, Started(speed, us, alive), es);
  }
}
