/** Counting users' bytes and reporting them: counters that connections add to, a collection that takes
    what has come together, a retry of what could not be reported, and the message to the panel. */
module Traffic {
  import opened Basics

  type Email = string

  /** Bytes up and down. */
  datatype Bytes = Bytes(up: nat, down: nat)
  {
    function Plus(b: Bytes): (r: Bytes)
      ensures r.up == up + b.up && r.down == down + b.down
    {
      if b == Bytes(0, 0) then this else Bytes(up + b.up, down + b.down)
    }

    function Both(): nat {
      up + down
    }
  }

  const NONE := Bytes(0, 0)

  /** One user's part of a report. */
  datatype Entry = Entry(uid: int, bytes: Bytes)

  /** All storages ever made with what they hold, which of them is the counter of which user, and the
      users' numbers. A connection holds on to its storage whether or not it is still a counter. `R` is
      what a storage is known by. */
  datatype Core<R> = Core(cells: map<R, Bytes>, table: map<Email, R>, uids: map<Email, int>)
  {
    function Uid(e: Email): int {
      if e in uids then uids[e] else 0
    }

    ghost predicate Valid() {
      forall e :: e in table ==> table[e] in cells
    }
  }

  /** A collection under way: the core, the report, and the bytes thrown away with unknown users. */
  datatype Take<R> = Take(core: Core<R>, out: seq<Entry>, gone: Bytes)

  /** What a visit to one counter finds above the threshold. */
  function Above<R>(c: Core<R>, e: Email, min: int): Option<Bytes> {
    if e in c.table && c.table[e] in c.cells && c.cells[c.table[e]].Both() > min then Some(c.cells[c.table[e]])
    else None
  }

  /** The core after the visit: what was found is set to zero, and an unknown user's counter goes. */
  function Visited<R>(c: Core<R>, e: Email, min: int): Core<R> {
    if Above(c, e, min).None? then c else
    var reset := c.(cells := c.cells[c.table[e] := NONE]);
    if c.Uid(e) == 0 then reset.(table := reset.table - {e}) else reset
  }

  function EntryOf<R>(c: Core<R>, e: Email, min: int): seq<Entry> {
    if Above(c, e, min).None? || c.Uid(e) == 0 then [] else [Entry(c.Uid(e), Above(c, e, min).value)]
  }

  function GoneWith<R>(c: Core<R>, e: Email, min: int): Bytes {
    if Above(c, e, min).None? || c.Uid(e) != 0 then NONE else Above(c, e, min).value
  }

  function TakeOne<R>(t: Take<R>, e: Email, min: int): Take<R> {
    Take(Visited(t.core, e, min), t.out + EntryOf(t.core, e, min), t.gone.Plus(GoneWith(t.core, e, min)))
  }

  /** The counters are visited in the order in which `order` names their users. */
  function TakeAll<R>(c: Core<R>, order: seq<Email>, min: int): Take<R> {
    if order == [] then Take(c, [], NONE)
    else TakeOne(TakeAll(c, order[..|order| - 1], min), order[|order| - 1], min)
  }

  /** What is sent: for each number the bytes of its last entry. */
  function Payload(l: seq<Entry>): map<int, Bytes> {
    if l == [] then map[] else
    Payload(l[..|l| - 1])[l[|l| - 1].uid := l[|l| - 1].bytes]
  }

  class Storage {
    var up: nat
    var down: nat

    constructor ()
      ensures up == down == 0
    {
      up, down := 0, 0;
    }

    ghost function Held(): Bytes
      reads this
    {
      Bytes(up, down)
    }

    method Add(more: Bytes)
      modifies this
      ensures Held() == old(Held()).Plus(more)
    {
      up := up + more.up;
      down := down + more.down;
    }
  }

  /** The core's counters and numbers, and every storage it has made. */
  class Counters {
    var table: map<Email, Storage>
    var uidMap: map<Email, int>
    ghost var made: set<Storage>

    ghost function Abs(): Core<Storage>
      reads this, made
    {
      Core(map s | s in made :: s.Held(), table, uidMap)
    }

    ghost predicate Valid()
      reads this
    {
      forall e :: e in table ==> table[e] in made
    }

    constructor ()
      ensures Valid() && Abs() == Core(map[], map[], map[]) && made == {}
    {
      table, uidMap, made := map[], map[], {};
    }

    /** The counter of a user, made if there is none. */
    method GetCounter(e: Email) returns (s: Storage)
      requires Valid()
      modifies this
      ensures Valid() && e in table && table[e] == s && s in made
      ensures if e in old(table) then Abs() == old(Abs()) && made == old(made)
              else fresh(s) && made == old(made) + {s}
                   && Abs() == old(Abs()).(cells := old(Abs()).cells[s := NONE], table := old(table)[e := s])
    {
      if e in table {
        return table[e];
      }
      s := new Storage();
      table := table[e := s];
      made := made + {s};
    }

    method AddUsers(users: seq<(Email, int)>)
      requires Valid()
      modifies this
      ensures Valid() && made == old(made) && Abs() == old(Abs()).(uids := Numbered(old(uidMap), users))
    {
      for i := 0 to |users|
        invariant Valid() && made == old(made) && table == old(table)
        invariant uidMap == Numbered(old(uidMap), users[..i])
      {
        assert users[..i + 1][..i] == users[..i];
        uidMap := uidMap[users[i].0 := users[i].1];
      }
      assert users[..|users|] == users;
    }

    /** Deleted users lose their number and their counter; connections keep the storage. */
    method DelUsers(users: seq<Email>)
      requires Valid()
      modifies this
      ensures Valid() && made == old(made)
      ensures Abs() == old(Abs()).(table := old(table) - Users(users), uids := old(uidMap) - Users(users))
    {
      for i := 0 to |users|
        invariant Valid() && made == old(made)
        invariant table == old(table) - Users(users[..i]) && uidMap == old(uidMap) - Users(users[..i])
      {
        assert users[..i + 1] == users[..i] + [users[i]];
        uidMap := uidMap - {users[i]};
        table := table - {users[i]};
      }
      assert users[..|users|] == users;
    }

    /** Collects what exceeds the threshold and sets it to zero; counters of unknown users go. */
    method GetUserTrafficSlice(min: int) returns (slice: seq<Entry>, ghost order: seq<Email>)
      requires Valid()
      modifies this, made
      ensures Valid() && made == old(made) && Enumerates(order, old(table).Keys)
      ensures Abs() == TakeAll(old(Abs()), order, min).core && slice == TakeAll(old(Abs()), order, min).out
    {
      slice, order := [], [];
      ghost var was := Abs();
      var todo := table.Keys;
      while todo != {}
        invariant Valid() && made == old(made) && todo <= old(table).Keys
        invariant forall e :: e in todo ==> e in table
        invariant Enumerates(order, old(table).Keys - todo)
        invariant Abs() == TakeAll(was, order, min).core && slice == TakeAll(was, order, min).out
        decreases todo
      {
        var email :| email in todo;
        todo := todo - {email};
        assert (order + [email])[..|order|] == order;
        order := order + [email];
        var entry := Collect(email, min);
        slice := slice + entry;
      }
    }

    /** Takes one user's bytes if they exceed the threshold. */
    method Collect(email: Email, min: int) returns (entry: seq<Entry>)
      requires Valid() && email in table
      modifies this, table[email]
      ensures Valid() && made == old(made)
      ensures Abs() == Visited(old(Abs()), email, min) && entry == EntryOf(old(Abs()), email, min)
      ensures forall e :: e in old(table) && e != email ==> e in table
    {
      entry := [];
      var s := table[email];
      ghost var was := Abs();
      assert was.cells[s] == s.Held();
      var bytes := Bytes(s.up, s.down);
      if bytes.up + bytes.down > min {
        s.up, s.down := 0, 0;
        assert Abs().cells == was.cells[s := NONE];
        if email !in uidMap || uidMap[email] == 0 {
          table := table - {email};
        } else {
          entry := [Entry(uidMap[email], bytes)];
        }
      }
    }
  }

  function Numbered(uids: map<Email, int>, users: seq<(Email, int)>): map<Email, int> {
    if users == [] then uids else
    Numbered(uids, users[..|users| - 1])[users[|users| - 1].0 := users[|users| - 1].1]
  }

  function Users(l: seq<Email>): set<Email> {
    set e | e in l
  }

  /** The message to the panel. */
  method ReportUserTraffic(l: seq<Entry>) returns (data: map<int, Bytes>)
    ensures data == Payload(l)
  {
    data := map[];
    for i := 0 to |l|
      invariant data == Payload(l[..i])
    {
      assert l[..i + 1][..i] == l[..i];
      data := data[l[i].uid := l[i].bytes];
    }
    assert l[..|l|] == l;
  }

  /** The part of the node's controller that reports traffic. */
  class Controller {
    const core: Counters
    var pendingTraffic: seq<Entry>

    constructor (core: Counters)
      ensures this.core == core && pendingTraffic == []
    {
      this.core := core;
      pendingTraffic := [];
    }

    /** One round. What could not be reported before goes behind what was just collected; if the panel
        does not take the report, all of it is kept for the next round. */
    method ReportUserTrafficTask(min: int, taken: bool) returns (sent: Option<map<int, Bytes>>, ghost order: seq<Email>)
      requires core.Valid()
      modifies this, core, core.made
      ensures core.Valid() && core.made == old(core.made) && Enumerates(order, old(core.table).Keys)
      ensures var t := TakeAll(old(core.Abs()), order, min);
              var due := t.out + old(pendingTraffic);
              && core.Abs() == t.core
              && pendingTraffic == (if taken then [] else due)
              && sent == (if due == [] then None else Some(Payload(due)))
    {
      var userTraffic, o := core.GetUserTrafficSlice(min);
      order := o;
      userTraffic := userTraffic + pendingTraffic;
      pendingTraffic := [];
      sent := None;
      if |userTraffic| > 0 {
        var data := ReportUserTraffic(userTraffic);
        sent := Some(data);
        if !taken {
          pendingTraffic := userTraffic;
        }
      }
    }
  }

  // ---------------------------------------------------------------------------------------------
  // Totals
  // ---------------------------------------------------------------------------------------------

  /** What the storages of the list hold together. */
  function Total<R>(cells: map<R, Bytes>, made: seq<R>): Bytes {
    if made == [] then NONE else
    Total(cells, made[1..]).Plus(if made[0] in cells then cells[made[0]] else NONE)
  }

  function Sum(l: seq<Entry>): Bytes {
    if l == [] then NONE else
    Sum(l[..|l| - 1]).Plus(l[|l| - 1].bytes)
  }

  /** Writing one storage changes the total by what it changes that storage. */
  lemma {:induction false} TotalPut<R>(cells: map<R, Bytes>, made: seq<R>, r: R, b: Bytes)
    requires NoRepeats(made)
    ensures Total(cells[r := b], made).Plus(if r in made && r in cells then cells[r] else NONE)
            == Total(cells, made).Plus(if r in made then b else NONE)
    decreases |made|
  {
    if made == [] {
    } else {
      assert r in made <==> r == made[0] || r in made[1..];
      TotalPut(cells, made[1..], r, b);
    }
  }

  lemma {:induction false} TotalElsewhere<R>(cells: map<R, Bytes>, made: seq<R>, r: R, b: Bytes)
    requires r !in made
    ensures Total(cells[r := b], made) == Total(cells, made)
    decreases |made|
  {
    if made == [] {
    } else {
      assert made[0] in made && forall x :: x in made[1..] ==> x in made;
      TotalElsewhere(cells, made[1..], r, b);
    }
  }

  lemma TotalFirst<R>(cells: map<R, Bytes>, r: R, made: seq<R>)
    requires r in cells
    ensures Total(cells, [r] + made) == Total(cells, made).Plus(cells[r])
  {
    assert ([r] + made)[1..] == made;
  }

  lemma SumOne(l: seq<Entry>, e: Entry)
    ensures Sum(l + [e]) == Sum(l).Plus(e.bytes)
  {
    assert (l + [e])[..|l|] == l;
  }

  lemma {:induction false} SumAppend(a: seq<Entry>, b: seq<Entry>)
    ensures Sum(a + b) == Sum(a).Plus(Sum(b))
    decreases |b|
  {
    if b == [] {
      assert a + b == a;
    } else {
      assert (a + b)[..|a + b| - 1] == a + b[..|b| - 1];
      SumAppend(a, b[..|b| - 1]);
    }
  }

  // ---------------------------------------------------------------------------------------------
  // The message
  // ---------------------------------------------------------------------------------------------

  ghost predicate UidsDiffer(l: seq<Entry>) {
    forall i, j :: 0 <= i < j < |l| ==> l[i].uid != l[j].uid
  }

  predicate AllPositive(l: seq<Entry>) {
    forall e :: e in l ==> e.bytes.Both() > 0
  }

  /** All the bytes that the list has for a number. */
  function SumFor(l: seq<Entry>, uid: int): Bytes {
    if l == [] then NONE else
    var e := l[|l| - 1];
    SumFor(l[..|l| - 1], uid).Plus(if e.uid == uid then e.bytes else NONE)
  }

  /** How many entries the list has for a number. */
  function Times(l: seq<Entry>, uid: int): (n: nat) {
    if l == [] then 0 else
    Times(l[..|l| - 1], uid) + if l[|l| - 1].uid == uid then 1 else 0
  }

  /** What the message has for a number. */
  function Sent(l: seq<Entry>, uid: int): Bytes {
    if uid in Payload(l) then Payload(l)[uid] else NONE
  }

  lemma SentLast(l: seq<Entry>, uid: int)
    requires l != []
    ensures var front, e := l[..|l| - 1], l[|l| - 1];
            if e.uid == uid then
              && Sent(l, uid) == e.bytes && SumFor(l, uid) == SumFor(front, uid).Plus(e.bytes)
              && Times(l, uid) == Times(front, uid) + 1
            else
              && Sent(l, uid) == Sent(front, uid) && SumFor(l, uid) == SumFor(front, uid)
              && Times(l, uid) == Times(front, uid)
  {
  }

  lemma {:induction false} SumForPositive(l: seq<Entry>, uid: int)
    requires AllPositive(l)
    ensures if Times(l, uid) == 0 then SumFor(l, uid) == NONE == Sent(l, uid)
            else SumFor(l, uid).Both() > 0 && Sent(l, uid).Both() > 0
    decreases |l|
  {
    if l == [] {
    } else {
      FrontPositive(l);
      SumForPositive(l[..|l| - 1], uid);
      SentLast(l, uid);
    }
  }

  /** The message holds all the bytes of a number exactly when the list has at most one entry for it; with
      more it holds less. */
  lemma {:induction false} PayloadCarriesIff(l: seq<Entry>, uid: int)
    requires AllPositive(l)
    ensures Sent(l, uid) == SumFor(l, uid) <==> Times(l, uid) <= 1
    ensures Sent(l, uid).Both() < SumFor(l, uid).Both() <==> Times(l, uid) > 1
    decreases |l|
  {
    if l == [] {
    } else {
      FrontPositive(l);
      SentLast(l, uid);
      if l[|l| - 1].uid == uid {
        SumForPositive(l[..|l| - 1], uid);
      } else {
        PayloadCarriesIff(l[..|l| - 1], uid);
      }
    }
  }

  lemma FrontPositive(l: seq<Entry>)
    requires AllPositive(l) && l != []
    ensures AllPositive(l[..|l| - 1]) && l[|l| - 1].bytes.Both() > 0
  {
    assert l[|l| - 1] in l && forall x :: x in l[..|l| - 1] ==> x in l;
  }

  lemma {:induction false} DifferOnce(l: seq<Entry>, uid: int)
    requires UidsDiffer(l)
    ensures Times(l, uid) <= 1 && (Times(l, uid) == 1 ==> exists i :: 0 <= i < |l| && l[i].uid == uid)
    decreases |l|
  {
    if l == [] {
    } else {
      DifferOnce(l[..|l| - 1], uid);
    }
  }

  lemma {:induction false} PayloadAppend(a: seq<Entry>, b: seq<Entry>)
    ensures Payload(a + b) == Payload(a) + Payload(b)
    decreases |b|
  {
    if b == [] {
      assert a + b == a;
    } else {
      assert (a + b)[..|a + b| - 1] == a + b[..|b| - 1];
      PayloadAppend(a, b[..|b| - 1]);
    }
  }

  /** The numbers of the list, each once. */
  function Numbers(l: seq<Entry>): seq<int> {
    if l == [] then [] else
    var front, u := Numbers(l[..|l| - 1]), l[|l| - 1].uid;
    if u in front then front else [u] + front
  }

  lemma {:induction false} NumbersAre(l: seq<Entry>)
    ensures NoRepeats(Numbers(l)) && forall u :: u in Numbers(l) <==> u in Payload(l)
    decreases |l|
  {
    if l == [] {
    } else {
      NumbersAre(l[..|l| - 1]);
    }
  }

  /** All the bytes that the message has. */
  function Carried(l: seq<Entry>): Bytes {
    Total(Payload(l), Numbers(l))
  }

  /** The bytes of the list that the message lacks, because a later entry takes their place. */
  function Hidden(l: seq<Entry>): Bytes {
    if l == [] then NONE else
    Hidden(l[..|l| - 1]).Plus(Sent(l[..|l| - 1], l[|l| - 1].uid))
  }

  lemma PayloadPut(m: map<int, Bytes>, ns: seq<int>, u: int, b: Bytes)
    requires NoRepeats(ns) && (forall n :: n in ns <==> n in m)
    ensures Total(m[u := b], if u in ns then ns else [u] + ns).Plus(if u in m then m[u] else NONE)
            == Total(m, ns).Plus(b)
  {
    if u in ns {
      TotalPut(m, ns, u, b);
    } else {
      TotalElsewhere(m, ns, u, b);
      TotalFirst(m[u := b], u, ns);
    }
  }

  lemma CarriedLast(l: seq<Entry>)
    requires l != []
    ensures var front, e := l[..|l| - 1], l[|l| - 1];
            Carried(l).Plus(Sent(front, e.uid)) == Carried(front).Plus(e.bytes)
  {
    var front, e := l[..|l| - 1], l[|l| - 1];
    NumbersAre(front);
    PayloadPut(Payload(front), Numbers(front), e.uid, e.bytes);
  }

  lemma SplitStep(sum: Bytes, carried: Bytes, hidden: Bytes, before: Bytes, more: Bytes, now: Bytes)
    requires sum == carried.Plus(hidden) && now.Plus(before) == carried.Plus(more)
    ensures sum.Plus(more) == now.Plus(hidden.Plus(before))
  {
  }

  /** What is due is carried by the message or hidden by it. */
  lemma {:induction false} SumSplits(l: seq<Entry>)
    ensures Sum(l) == Carried(l).Plus(Hidden(l))
    decreases |l|
  {
    if l == [] {
      assert Carried(l) == NONE;
    } else {
      var front, e := l[..|l| - 1], l[|l| - 1];
      SumSplits(front);
      CarriedLast(l);
      SplitStep(Sum(front), Carried(front), Hidden(front), Sent(front, e.uid), e.bytes, Carried(l));
    }
  }

  lemma {:induction false} TimesZero(l: seq<Entry>, uid: int)
    ensures Times(l, uid) == 0 <==> forall i :: 0 <= i < |l| ==> l[i].uid != uid
    decreases |l|
  {
    if l == [] {
    } else {
      TimesZero(l[..|l| - 1], uid);
    }
  }

  lemma DifferLast(l: seq<Entry>)
    requires l != []
    ensures var front, u := l[..|l| - 1], l[|l| - 1].uid;
            UidsDiffer(l) <==> UidsDiffer(front) && Times(front, u) == 0
  {
    var front, u := l[..|l| - 1], l[|l| - 1].uid;
    TimesZero(front, u);
    assert forall i :: 0 <= i < |front| ==> front[i] == l[i];
  }

  lemma SentNone(l: seq<Entry>, uid: int)
    requires AllPositive(l)
    ensures Sent(l, uid) == NONE <==> Times(l, uid) == 0
  {
    SumForPositive(l, uid);
  }

  lemma PlusNone(a: Bytes, b: Bytes)
    ensures a.Plus(b) == NONE <==> a == NONE && b == NONE
    ensures a.Plus(b) == a <==> b == NONE
  {
  }

  /** The message hides nothing exactly when no number repeats in the list. */
  lemma {:induction false} HidesIff(l: seq<Entry>)
    requires AllPositive(l)
    ensures Hidden(l) == NONE <==> UidsDiffer(l)
    decreases |l|
  {
    if l == [] {
    } else {
      var front, u := l[..|l| - 1], l[|l| - 1].uid;
      FrontPositive(l);
      HidesIff(front);
      SentNone(front, u);
      DifferLast(l);
      PlusNone(Hidden(front), Sent(front, u));
    }
  }

  // ---------------------------------------------------------------------------------------------
  // Runs
  // ---------------------------------------------------------------------------------------------

  /** The core, its storages with the latest first, what waits to be reported again, and the books: the
      bytes that connections have counted; those in the messages that the panel took; those that were
      due in one of these messages but hidden by a later entry of the same number; and those thrown away
      with unknown users. */
  datatype World<R> = World(core: Core<R>, made: seq<R>, pending: seq<Entry>,
                            counted: Bytes, sent: Bytes, hidden: Bytes, gone: Bytes)

  datatype Event<R> =
    | Open(e: Email, r: R)
    | Count(r: R, bytes: Bytes)
    | AddUsers(added: seq<(Email, int)>)
    | DelUsers(deleted: seq<Email>)
    | DelNode
    | Report(order: seq<Email>, min: int, ok: bool)

  /** A new storage is one that was never used, and only storages that were made are counted into. */
  ghost predicate Possible<R>(w: World<R>, ev: Event<R>) {
    match ev
    case Open(e, r) => r !in w.core.cells
    case Count(r, bytes) => r in w.core.cells
    case Report(order, _, _) => Enumerates(order, w.core.table.Keys)
    case _ => true
  }

  ghost function Due<R>(w: World<R>, ev: Event<R>): seq<Entry>
    requires ev.Report?
  {
    TakeAll(w.core, ev.order, ev.min).out + w.pending
  }

  ghost function Next<R>(w: World<R>, ev: Event<R>): World<R>
    requires Possible(w, ev)
  {
    var c := w.core;
    match ev
    case Open(e, r) =>
      if e in c.table then w
      else w.(core := c.(cells := c.cells[r := NONE], table := c.table[e := r]), made := [r] + w.made)
    case Count(r, bytes) =>
      w.(core := c.(cells := c.cells[r := c.cells[r].Plus(bytes)]), counted := w.counted.Plus(bytes))
    case AddUsers(users) => w.(core := c.(uids := Numbered(c.uids, users)))
    case DelUsers(users) => w.(core := c.(table := c.table - Users(users), uids := c.uids - Users(users)))
    case DelNode => w.(core := c.(table := map[]))
    case Report(order, min, ok) =>
      var t := TakeAll(c, order, min);
      var due := Due(w, ev);
      World(t.core, w.made, if ok then [] else due, w.counted,
            if ok then w.sent.Plus(Carried(due)) else w.sent,
            if ok then w.hidden.Plus(Hidden(due)) else w.hidden,
            w.gone.Plus(t.gone))
  }

  ghost predicate Run<R>(w: World<R>, es: seq<Event<R>>)
    decreases |es|
  {
    es == [] || (Possible(w, es[0]) && Run(Next(w, es[0]), es[1..]))
  }

  ghost function After<R>(w: World<R>, es: seq<Event<R>>): World<R>
    requires Run(w, es)
    decreases |es|
  {
    if es == [] then w else After(Next(w, es[0]), es[1..])
  }

  /** The list has every storage once. */
  ghost predicate Made<R>(made: seq<R>, cells: map<R, Bytes>) {
    && NoRepeats(made)
    && (forall r :: r in made ==> r in cells)
    && (forall r :: r in cells ==> r in made)
  }

  /** Every byte counted is in a storage, waiting, sent, hidden in a message, or thrown away with an unknown
      user. */
  ghost predicate Balanced<R>(w: World<R>) {
    && Made(w.made, w.core.cells)
    && w.counted == Total(w.core.cells, w.made).Plus(Sum(w.pending)).Plus(w.sent).Plus(w.hidden).Plus(w.gone)
  }

  lemma TakeOneBalanced<R>(t: Take<R>, made: seq<R>, e: Email, min: int)
    requires NoRepeats(made) && forall r :: r in t.core.cells ==> r in made
    ensures var n := TakeOne(t, e, min);
            Total(n.core.cells, made).Plus(Sum(n.out)).Plus(n.gone)
            == Total(t.core.cells, made).Plus(Sum(t.out)).Plus(t.gone)
  {
    var c := t.core;
    if Above(c, e, min).Some? {
      TotalPut(c.cells, made, c.table[e], NONE);
      SumOne(t.out, Entry(c.Uid(e), c.cells[c.table[e]]));
    }
    assert t.out + [] == t.out;
  }

  /** Collecting moves bytes and loses none. */
  lemma {:induction false} TakeAllBalanced<R>(c: Core<R>, made: seq<R>, order: seq<Email>, min: int)
    requires NoRepeats(made) && forall r :: r in c.cells ==> r in made
    ensures var t := TakeAll(c, order, min);
            Total(t.core.cells, made).Plus(Sum(t.out)).Plus(t.gone) == Total(c.cells, made)
    decreases |order|
  {
    if order == [] {
    } else {
      TakeAllBalanced(c, made, order[..|order| - 1], min);
      TakeAllTable(c, order[..|order| - 1], min);
      TakeOneBalanced(TakeAll(c, order[..|order| - 1], min), made, order[|order| - 1], min);
    }
  }

  lemma TotalWithNew<R>(cells: map<R, Bytes>, r: R, made: seq<R>)
    requires r !in made
    ensures Total(cells[r := NONE], [r] + made) == Total(cells, made)
  {
    TotalElsewhere(cells, made, r, NONE);
    TotalFirst(cells[r := NONE], r, made);
  }

  lemma MadeMore<R>(cells: map<R, Bytes>, r: R, made: seq<R>)
    requires Made(made, cells) && r !in cells
    ensures Made([r] + made, cells[r := NONE])
  {
    var more := [r] + made;
    assert forall x :: x in made ==> x in more;
    assert more[0] == r;
  }

  lemma OpenBalanced<R>(w: World<R>, ev: Event<R>)
    requires Balanced(w) && Possible(w, ev) && ev.Open? && ev.e !in w.core.table
    ensures Balanced(Next(w, ev))
  {
    TotalWithNew(w.core.cells, ev.r, w.made);
    MadeMore(w.core.cells, ev.r, w.made);
  }

  lemma ReportBalanced<R>(w: World<R>, ev: Event<R>)
    requires Balanced(w) && Possible(w, ev) && ev.Report?
    ensures Balanced(Next(w, ev))
  {
    var t := TakeAll(w.core, ev.order, ev.min);
    TakeAllBalanced(w.core, w.made, ev.order, ev.min);
    TakeAllTable(w.core, ev.order, ev.min);
    SumAppend(t.out, w.pending);
    SumSplits(t.out + w.pending);
    Regroup(Total(t.core.cells, w.made), Sum(t.out), Sum(w.pending), w.sent, w.hidden, w.gone, t.gone,
            Carried(t.out + w.pending), Hidden(t.out + w.pending));
  }

  lemma Regroup(left: Bytes, out: Bytes, pending: Bytes, sent: Bytes, hidden: Bytes, gone: Bytes, more: Bytes,
                carries: Bytes, hides: Bytes)
    requires out.Plus(pending) == carries.Plus(hides)
    ensures var was := left.Plus(out).Plus(more).Plus(pending).Plus(sent).Plus(hidden).Plus(gone);
            && left.Plus(out.Plus(pending)).Plus(sent).Plus(hidden).Plus(gone.Plus(more)) == was
            && left.Plus(NONE).Plus(sent.Plus(carries)).Plus(hidden.Plus(hides)).Plus(gone.Plus(more)) == was
  {
  }

  lemma NextBalanced<R>(w: World<R>, ev: Event<R>)
    requires Balanced(w) && Possible(w, ev)
    ensures Balanced(Next(w, ev))
  {
    match ev
    case Open(e, r) =>
      if e !in w.core.table {
        OpenBalanced(w, ev);
      }
    case Count(r, bytes) => TotalPut(w.core.cells, w.made, r, w.core.cells[r].Plus(bytes));
    case Report(_, _, _) => ReportBalanced(w, ev);
    case _ =>
  }

  /** Conservation: over any run of counting, collecting, refused and accepted reports and changes of
      users, every byte counted is accounted for once. */
  lemma {:induction false} RunBalanced<R>(w: World<R>, es: seq<Event<R>>)
    requires Balanced(w) && Run(w, es)
    ensures Balanced(After(w, es))
    decreases |es|
  {
    if es == [] {
    } else {
      NextBalanced(w, es[0]);
      RunBalanced(Next(w, es[0]), es[1..]);
    }
  }

  /** A storage that is no counter any more. */
  predicate Orphan<R(==)>(c: Core<R>, r: R) {
    r in c.cells && forall e :: e in c.table ==> c.table[e] != r
  }

  lemma {:induction false} TakeAllTable<R>(c: Core<R>, order: seq<Email>, min: int)
    ensures var n := TakeAll(c, order, min).core;
            && n.cells.Keys == c.cells.Keys && n.uids == c.uids
            && (forall e :: e in n.table ==> e in c.table && n.table[e] == c.table[e])
            && (forall e :: e in c.table && c.Uid(e) != 0 ==> e in n.table)
            && (forall r :: Orphan(c, r) ==> n.cells[r] == c.cells[r])
    decreases |order|
  {
    if order == [] {
    } else {
      TakeAllTable(c, order[..|order| - 1], min);
    }
  }

  lemma NextOrphan<R>(w: World<R>, ev: Event<R>, r: R)
    requires Possible(w, ev) && Orphan(w.core, r)
    ensures var n := Next(w, ev).core;
            Orphan(n, r) && n.cells[r].up >= w.core.cells[r].up && n.cells[r].down >= w.core.cells[r].down
  {
    if ev.Report? {
      TakeAllTable(w.core, ev.order, ev.min);
    }
  }

  /** What a deleted user's connections count is never reported: the storage is nobody's counter again,
      even if the user comes back, and what it holds only grows. */
  lemma {:induction false} OrphanNeverReported<R>(w: World<R>, es: seq<Event<R>>, r: R)
    requires Run(w, es) && Orphan(w.core, r)
    ensures var n := After(w, es).core;
            Orphan(n, r) && n.cells[r].up >= w.core.cells[r].up && n.cells[r].down >= w.core.cells[r].down
    decreases |es|
  {
    if es == [] {
    } else {
      NextOrphan(w, es[0], r);
      OrphanNeverReported(Next(w, es[0]), es[1..], r);
    }
  }

  /** No user goes, and every user whose traffic is collected is known. */
  ghost predicate Quiet<R>(w: World<R>, es: seq<Event<R>>)
    requires Run(w, es)
    decreases |es|
  {
    es != [] ==>
      && !es[0].DelUsers? && !es[0].DelNode?
      && (es[0].Report? ==> forall e :: e in w.core.table ==> w.core.Uid(e) != 0)
      && Quiet(Next(w, es[0]), es[1..])
  }

  lemma {:induction false} TakeAllKeeps<R>(c: Core<R>, order: seq<Email>, min: int)
    requires forall e :: e in c.table ==> c.Uid(e) != 0
    ensures var t := TakeAll(c, order, min); t.gone == NONE && t.core.table == c.table
    decreases |order|
  {
    if order == [] {
    } else {
      TakeAllKeeps(c, order[..|order| - 1], min);
      TakeAllTable(c, order[..|order| - 1], min);
    }
  }

  /** As long as no user goes, nothing is thrown away: what was counted is in the counters, waiting, sent,
      or hidden in a message. */
  lemma {:induction false} NothingDropped<R>(w: World<R>, es: seq<Event<R>>)
    requires Balanced(w) && w.gone == NONE && (forall r :: r in w.core.cells ==> !Orphan(w.core, r))
    requires Run(w, es) && Quiet(w, es)
    ensures var n := After(w, es);
            && n.counted == Total(n.core.cells, n.made).Plus(Sum(n.pending)).Plus(n.sent).Plus(n.hidden)
            && forall r :: r in n.core.cells ==> !Orphan(n.core, r)
    decreases |es|
  {
    if es == [] {
    } else {
      var n := Next(w, es[0]);
      NextBalanced(w, es[0]);
      NextKeepsAll(w, es[0]);
      NothingDropped(n, es[1..]);
    }
  }

  lemma NextKeepsAll<R>(w: World<R>, ev: Event<R>)
    requires w.gone == NONE && (forall r :: r in w.core.cells ==> !Orphan(w.core, r))
    requires Possible(w, ev) && !ev.DelUsers? && !ev.DelNode?
    requires ev.Report? ==> forall e :: e in w.core.table ==> w.core.Uid(e) != 0
    ensures var n := Next(w, ev); n.gone == NONE && forall r :: r in n.core.cells ==> !Orphan(n.core, r)
  {
    var n := Next(w, ev);
    NextTable(w, ev);
    forall r | r in n.core.cells
      ensures !Orphan(n.core, r)
    {
      if r in w.core.cells {
        var e :| e in w.core.table && w.core.table[e] == r;
        assert e in n.core.table && n.core.table[e] == r;
      }
    }
  }

  lemma NextTable<R>(w: World<R>, ev: Event<R>)
    requires Possible(w, ev) && !ev.DelUsers? && !ev.DelNode?
    requires ev.Report? ==> forall e :: e in w.core.table ==> w.core.Uid(e) != 0
    ensures var n := Next(w, ev);
            && n.gone == w.gone
            && (forall e :: e in w.core.table ==> e in n.core.table && n.core.table[e] == w.core.table[e])
            && (forall r :: r in n.core.cells && r !in w.core.cells ==>
                  exists e :: e in n.core.table && n.core.table[e] == r)
  {
    if ev.Report? {
      TakeAllKeeps(w.core, ev.order, ev.min);
      TakeAllTable(w.core, ev.order, ev.min);
    } else if ev.Open? {
      assert ev.e in Next(w, ev).core.table;
    }
  }

  /** A retry sends the old bytes of every user that is being retried, and none of those counted since:
      they leave the counters, go into a message that the panel takes, and are not in it. */
  lemma RetryHidesNewBytes<R>(w: World<R>, ev: Event<R>, uid: int)
    requires Possible(w, ev) && ev.Report? && uid in Payload(w.pending)
    ensures uid in Payload(Due(w, ev)) && Sent(Due(w, ev), uid) == Sent(w.pending, uid)
  {
    PayloadAppend(TakeAll(w.core, ev.order, ev.min).out, w.pending);
  }

  lemma {:induction false} TimesAppend(a: seq<Entry>, b: seq<Entry>, uid: int)
    ensures Times(a + b, uid) == Times(a, uid) + Times(b, uid)
    decreases |b|
  {
    if b == [] {
      assert a + b == a;
    } else {
      assert (a + b)[..|a + b| - 1] == a + b[..|b| - 1];
      TimesAppend(a, b[..|b| - 1], uid);
    }
  }

  /** So a user with bytes both waiting and newly collected gets less reported than is due. */
  lemma RetryLoses<R>(w: World<R>, ev: Event<R>, uid: int)
    requires Possible(w, ev) && ev.Report? && AllPositive(Due(w, ev))
    requires Times(w.pending, uid) > 0 && Times(TakeAll(w.core, ev.order, ev.min).out, uid) > 0
    ensures Sent(Due(w, ev), uid).Both() < SumFor(Due(w, ev), uid).Both()
  {
    TimesAppend(TakeAll(w.core, ev.order, ev.min).out, w.pending, uid);
    PayloadCarriesIff(Due(w, ev), uid);
  }

  /** No two counted users share a number. */
  ghost predicate UidsUnique<R>(c: Core<R>) {
    forall d, e :: d in c.table && e in c.table && c.Uid(d) != 0 && c.Uid(d) == c.Uid(e) ==> d == e
  }

  /** The entry belongs to one of the listed users. */
  ghost predicate BelongsTo<R>(x: Entry, c: Core<R>, order: seq<Email>) {
    x.uid != 0 && exists e :: e in order && e in c.table && c.Uid(e) == x.uid
  }

  lemma {:induction false} TakeAllBelong<R>(c: Core<R>, order: seq<Email>, min: int)
    requires min >= 0
    ensures AllPositive(TakeAll(c, order, min).out)
    ensures forall x :: x in TakeAll(c, order, min).out ==> BelongsTo(x, c, order)
    decreases |order|
  {
    if order == [] {
    } else {
      var front, e := order[..|order| - 1], order[|order| - 1];
      assert order == front + [e];
      var t := TakeAll(c, front, min);
      TakeAllBelong(c, front, min);
      TakeAllTable(c, front, min);
      forall x | x in TakeAll(c, order, min).out
        ensures BelongsTo(x, c, order) && x.bytes.Both() > 0
      {
        if x in t.out {
          assert BelongsTo(x, c, front);
        } else {
          assert x in EntryOf(t.core, e, min);
        }
      }
    }
  }

  lemma {:induction false} TakeAllUids<R>(c: Core<R>, order: seq<Email>, min: int)
    requires UidsUnique(c) && min >= 0 && NoRepeats(order)
    ensures UidsDiffer(TakeAll(c, order, min).out)
    decreases |order|
  {
    if order == [] {
    } else {
      var front, e := order[..|order| - 1], order[|order| - 1];
      var t := TakeAll(c, front, min);
      TakeAllUids(c, front, min);
      TakeAllBelong(c, front, min);
      TakeAllTable(c, front, min);
      if EntryOf(t.core, e, min) != [] {
        forall x | x in t.out
          ensures x.uid != c.Uid(e)
        {
          var d :| d in front && d in c.table && c.Uid(d) == x.uid;
        }
      }
    }
  }

  /** With nothing to retry and users of different numbers, a report carries exactly what was collected. */
  lemma FirstReportExact<R>(w: World<R>, ev: Event<R>, uid: int)
    requires Possible(w, ev) && ev.Report? && w.pending == [] && UidsUnique(w.core) && ev.min >= 0
    ensures Sent(Due(w, ev), uid) == SumFor(Due(w, ev), uid)
  {
    var out := TakeAll(w.core, ev.order, ev.min).out;
    assert Due(w, ev) == out;
    TakeAllBelong(w.core, ev.order, ev.min);
    TakeAllUids(w.core, ev.order, ev.min);
    PayloadCarriesIff(out, uid);
    DifferOnce(out, uid);
  }

  predicate MinsFine<R(==)>(es: seq<Event<R>>) {
    forall ev :: ev in es && ev.Report? ==> ev.min >= 0
  }

  /** In no message that the panel takes does a number repeat. */
  ghost predicate NoneRepeats<R>(w: World<R>, es: seq<Event<R>>)
    requires Run(w, es)
    decreases |es|
  {
    es != [] ==>
      && (es[0].Report? && es[0].ok ==> UidsDiffer(Due(w, es[0])))
      && NoneRepeats(Next(w, es[0]), es[1..])
  }

  lemma DuePositive<R>(w: World<R>, ev: Event<R>)
    requires AllPositive(w.pending) && Possible(w, ev) && ev.Report? && ev.min >= 0
    ensures AllPositive(Due(w, ev)) && AllPositive(Next(w, ev).pending)
  {
    TakeAllBelong(w.core, ev.order, ev.min);
  }

  /** At least as many bytes each way. */
  predicate AtLeast(a: Bytes, b: Bytes) {
    a.up >= b.up && a.down >= b.down
  }

  lemma NextHides<R>(w: World<R>, ev: Event<R>)
    requires AllPositive(w.pending) && Possible(w, ev) && (ev.Report? ==> ev.min >= 0)
    ensures var n, fine := Next(w, ev), ev.Report? && ev.ok ==> UidsDiffer(Due(w, ev));
            AllPositive(n.pending) && AtLeast(n.hidden, w.hidden) && (n.hidden == w.hidden <==> fine)
  {
    if ev.Report? {
      var due := Due(w, ev);
      DuePositive(w, ev);
      HidesIff(due);
      PlusNone(w.hidden, Hidden(due));
    }
  }

  /** What waits has bytes in every entry; and over any run the books hide nothing exactly when no number
      repeats in a message that the panel takes. */
  lemma {:induction false} RunHidesIff<R>(w: World<R>, es: seq<Event<R>>)
    requires Run(w, es) && AllPositive(w.pending) && MinsFine(es)
    ensures AllPositive(After(w, es).pending) && AtLeast(After(w, es).hidden, w.hidden)
    ensures After(w, es).hidden == w.hidden <==> NoneRepeats(w, es)
    decreases |es|
  {
    if es == [] {
    } else {
      assert es[0] in es && forall ev :: ev in es[1..] ==> ev in es;
      NextHides(w, es[0]);
      RunHidesIff(Next(w, es[0]), es[1..]);
    }
  }

  /** Users have the numbers that `id` gives, and no two the same, 0 aside. */
  ghost predicate Numbering(id: Email -> int) {
    forall d, e :: id(d) == id(e) && id(d) != 0 ==> d == e
  }

  predicate Follows(id: Email -> int, uids: map<Email, int>) {
    forall e :: e in uids ==> uids[e] == id(e)
  }

  /** Nothing is refused, and users are added under their numbers. */
  predicate Smooth<R(==)>(id: Email -> int, es: seq<Event<R>>) {
    && (forall ev :: ev in es && ev.Report? ==> ev.ok)
    && (forall ev :: ev in es && ev.AddUsers? ==> forall u :: u in ev.added ==> u.1 == id(u.0))
  }

  lemma {:induction false} NumberedFollows(id: Email -> int, uids: map<Email, int>, users: seq<(Email, int)>)
    requires Follows(id, uids) && forall u :: u in users ==> u.1 == id(u.0)
    ensures Follows(id, Numbered(uids, users))
    decreases |users|
  {
    if users == [] {
    } else {
      assert users[|users| - 1] in users && forall u :: u in users[..|users| - 1] ==> u in users;
      NumberedFollows(id, uids, users[..|users| - 1]);
    }
  }

  lemma NextFollows<R>(id: Email -> int, w: World<R>, ev: Event<R>)
    requires Follows(id, w.core.uids) && Possible(w, ev)
    requires ev.AddUsers? ==> forall u :: u in ev.added ==> u.1 == id(u.0)
    ensures Follows(id, Next(w, ev).core.uids)
  {
    if ev.AddUsers? {
      NumberedFollows(id, w.core.uids, ev.added);
    } else if ev.Report? {
      TakeAllTable(w.core, ev.order, ev.min);
    }
  }

  /** With numbers that differ, and as long as the panel takes every report, no number repeats. */
  lemma {:induction false} SmoothRunRepeatsNone<R>(id: Email -> int, w: World<R>, es: seq<Event<R>>)
    requires Numbering(id) && Follows(id, w.core.uids) && w.pending == []
    requires Run(w, es) && MinsFine(es) && Smooth(id, es)
    ensures NoneRepeats(w, es) && After(w, es).pending == []
    decreases |es|
  {
    if es == [] {
    } else {
      var n := Next(w, es[0]);
      assert es[0] in es && forall ev :: ev in es[1..] ==> ev in es;
      NextFollows(id, w, es[0]);
      if es[0].Report? {
        TakeAllUids(w.core, es[0].order, es[0].min);
        assert Due(w, es[0]) == TakeAll(w.core, es[0].order, es[0].min).out;
      }
      SmoothRunRepeatsNone(id, n, es[1..]);
    }
  }

  /** Then, and as long as no user goes, nothing is lost: what was counted is in the counters or was sent. */
  lemma NothingLost<R>(id: Email -> int, w: World<R>, es: seq<Event<R>>)
    requires Balanced(w) && w.gone == w.hidden == NONE && (forall r :: r in w.core.cells ==> !Orphan(w.core, r))
    requires Numbering(id) && Follows(id, w.core.uids) && w.pending == []
    requires Run(w, es) && Quiet(w, es) && MinsFine(es) && Smooth(id, es)
    ensures var n := After(w, es); n.counted == Total(n.core.cells, n.made).Plus(n.sent)
  {
    NothingDropped(w, es);
    SmoothRunRepeatsNone(id, w, es);
    RunHidesIff(w, es);
    var n := After(w, es);
    assert Sum(n.pending) == NONE;
    PlusNothing(Total(n.core.cells, n.made), n.sent);
  }

  lemma PlusNothing(a: Bytes, b: Bytes)
    ensures a.Plus(NONE).Plus(b).Plus(NONE) == a.Plus(b)
  {
  }

  const EMPTY: World<nat> := World(Core(map[], map[], map[]), [], [], NONE, NONE, NONE, NONE)

  lemma RunOne<R>(w: World<R>, ev: Event<R>, es: seq<Event<R>>)
    requires Possible(w, ev) && Run(Next(w, ev), es)
    ensures Run(w, [ev] + es) && After(w, [ev] + es) == After(Next(w, ev), es)
  {
    assert ([ev] + es)[1..] == es;
  }

  /** A core with one user, who has a counter and a number. */
  ghost predicate Single(c: Core<nat>, e: Email, r: nat, u: int) {
    c.table == map[e := r] && c.uids == map[e := u] && c.cells.Keys == {r} && u != 0
  }

  lemma TakeOnly(c: Core<nat>, e: Email, r: nat, u: int, min: int)
    requires Single(c, e, r, u) && c.cells[r].Both() > min
    ensures TakeAll(c, [e], min) == Take(c.(cells := c.cells[r := NONE]), [Entry(u, c.cells[r])], NONE)
  {
    var t := Take(c, [], NONE);
    assert [e][..0] == [];
    assert TakeAll(c, [], min) == t;
    TakeSingle(c, e, r, u, min);
  }

  lemma TakeSingle(c: Core<nat>, e: Email, r: nat, u: int, min: int)
    requires Single(c, e, r, u) && c.cells[r].Both() > min
    ensures TakeOne(Take(c, [], NONE), e, min) == Take(c.(cells := c.cells[r := NONE]), [Entry(u, c.cells[r])], NONE)
  {
    assert e in c.table && e in c.uids && c.Uid(e) == u;
    assert Above(c, e, min) == Some(c.cells[r]);
    assert [] + [Entry(u, c.cells[r])] == [Entry(u, c.cells[r])];
  }

  lemma PayloadTwo(d: Entry, e: Entry)
    requires d.uid == e.uid
    ensures Payload([d, e]) == map[e.uid := e.bytes] && Payload([d]) == map[d.uid := d.bytes]
  {
    assert [d, e][..1] == [d] && [d][..0] == [];
    assert Payload([d]) == map[d.uid := d.bytes];
  }

  lemma NumbersTwo(d: Entry, e: Entry)
    requires d.uid == e.uid
    ensures Numbers([d, e]) == [e.uid]
  {
    assert [d, e][..1] == [d] && [d][..0] == [];
    assert Numbers([d]) == [d.uid];
  }

  /** Of two entries for a number the message carries the second and hides the first. */
  lemma HiddenTwo(d: Entry, e: Entry)
    requires d.uid == e.uid
    ensures Carried([d, e]) == e.bytes && Hidden([d, e]) == d.bytes
  {
    PayloadTwo(d, e);
    NumbersTwo(d, e);
    var ns := [e.uid];
    assert ns[1..] == [];
    assert Total(map[e.uid := e.bytes], []) == NONE;
    assert [d, e][..1] == [d] && [d][..0] == [];
    assert Sent([], d.uid) == NONE && Hidden([d]) == NONE;
  }

  /** A round after some bytes were counted for the one user. */
  lemma CountedRound(w: World<nat>, e: Email, r: nat, u: int, b: Bytes, ok: bool)
    requires Single(w.core, e, r, u) && w.core.cells[r] == NONE && b != NONE
    ensures var es := [Count(r, b), Report([e], 0, ok)];
            Run(w, es) && var due := [Entry(u, b)] + w.pending;
            After(w, es) == World(w.core, w.made, if ok then [] else due, w.counted.Plus(b),
                                  if ok then w.sent.Plus(Carried(due)) else w.sent,
                                  if ok then w.hidden.Plus(Hidden(due)) else w.hidden, w.gone)
  {
    var e1, e2 := Event<nat>.Count(r, b), Event<nat>.Report([e], 0, ok);
    var w1 := Next(w, e1);
    assert w1.core.cells[r] == b && w1.core.cells.Keys == {r};
    TakeOnly(w1.core, e, r, u, 0);
    assert w1.core.cells[r := NONE] == w.core.cells;
    assert forall x :: x in [e] <==> x in w1.core.table.Keys;
    RunOne(w1, e2, []);
    RunOne(w, e1, [e2]);
  }

  lemma OpenedUser(e: Email, r: nat, u: int)
    requires u != 0
    ensures var es := [Open(e, r), AddUsers([(e, u)])];
            && Run(EMPTY, es)
            && var w := After(EMPTY, es);
               && Single(w.core, e, r, u) && w.core.cells[r] == NONE && w.pending == []
               && w.counted == w.sent == w.hidden == w.gone == NONE
  {
    var users := [(e, u)];
    assert users[..0] == [] && Numbered(map[], users) == map[e := u];
    var e1, e2 := Event<nat>.Open(e, r), Event<nat>.AddUsers(users);
    var w1 := Next(EMPTY, e1);
    assert w1.core.cells == map[r := NONE] && w1.core.table == map[e := r];
    RunOne(w1, e2, []);
    RunOne(EMPTY, e1, [e2]);
  }

  lemma {:induction false} RunTwo<R>(w: World<R>, es: seq<Event<R>>, fs: seq<Event<R>>)
    requires Run(w, es) && Run(After(w, es), fs)
    ensures Run(w, es + fs) && After(w, es + fs) == After(After(w, es), fs)
    decreases |es|
  {
    if es == [] {
      assert es + fs == fs;
    } else {
      RunTwo(Next(w, es[0]), es[1..], fs);
      assert (es + fs)[0] == es[0] && (es + fs)[1..] == es[1..] + fs;
    }
  }

  /** It happens, to any user and with any bytes: a report is refused, more is counted, and when the panel
      takes the next report it gets the old bytes and is never told of the new ones. */
  lemma RefusedReportLoses(e: Email, r: nat, u: int, b: Bytes, c: Bytes)
    requires u != 0 && b != NONE && c != NONE
    ensures var es := [Open(e, r), AddUsers([(e, u)])]
                      + [Count(r, b), Report([e], 0, false)]
                      + [Count(r, c), Report([e], 0, true)];
            && Run(EMPTY, es)
            && var w := After(EMPTY, es);
               && w.counted == b.Plus(c) && w.sent == b && w.hidden == c
               && w.pending == [] && w.core.cells == map[r := NONE]
  {
    var start := [Event<nat>.Open(e, r), AddUsers([(e, u)])];
    var first := [Event<nat>.Count(r, b), Report([e], 0, false)];
    var second := [Event<nat>.Count(r, c), Report([e], 0, true)];
    OpenedUser(e, r, u);
    var w := After(EMPTY, start);
    CountedRound(w, e, r, u, b, false);
    RunTwo(EMPTY, start, first);
    var v := After(EMPTY, start + first);
    assert [Entry(u, b)] + [] == [Entry(u, b)];
    CountedRound(v, e, r, u, c, true);
    RunTwo(EMPTY, start + first, second);
    assert [Entry(u, c)] + [Entry(u, b)] == [Entry(u, c), Entry(u, b)];
    HiddenTwo(Entry(u, c), Entry(u, b));
  }
}
