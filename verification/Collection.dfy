/** What a collection of traffic takes and what it leaves, counter by counter. */
module Collection {
  import opened Basics
  import opened Traffic

  /** Every counter is a storage that was made, and no two users share one. */
  ghost predicate Separate<R>(c: Core<R>) {
    && c.Valid()
    && forall d, e :: d in c.table && e in c.table && c.table[d] == c.table[e] ==> d == e
  }

  /** What a user's counter holds. */
  ghost function Held<R>(c: Core<R>, e: Email): Bytes
    requires c.Valid() && e in c.table
  {
    c.cells[c.table[e]]
  }

  /** The user's counter holds more than the threshold. */
  ghost predicate Exceeds<R>(c: Core<R>, e: Email, min: int)
    requires c.Valid() && e in c.table
  {
    Held(c, e).up + Held(c, e).down > min
  }

  /** The user is known, and the counter exceeds the threshold and makes the entry `x`. */
  ghost predicate Owns<R>(c: Core<R>, e: Email, min: int, x: Entry)
    requires c.Valid() && e in c.table
  {
    Exceeds(c, e, min) && e in c.uids && c.uids[e] != 0 && x.uid == c.uids[e] && x.bytes == Held(c, e)
  }

  /** The users among `es` to whom the entry belongs. */
  ghost function Owners<R>(c: Core<R>, es: set<Email>, min: int, x: Entry): set<Email>
    requires c.Valid()
  {
    set e | e in es && e in c.table && Owns(c, e, min, x)
  }

  /** After the counters of `es` have been visited: those that exceeded the threshold are zero, or gone too
      if the user was unknown, and all others are as they were. */
  ghost predicate Taken<R>(c: Core<R>, es: set<Email>, min: int, n: Core<R>)
    requires c.Valid()
  {
    && n.cells.Keys == c.cells.Keys && n.uids == c.uids
    && (forall e :: e in c.table ==>
          n.cells[c.table[e]] == if e in es && Exceeds(c, e, min) then Bytes(0, 0) else Held(c, e))
    && (forall e :: e in c.table ==>
          (e in n.table <==> !(e in es && Exceeds(c, e, min) && (e !in c.uids || c.uids[e] == 0))))
    && (forall e :: e in n.table ==> e in c.table && n.table[e] == c.table[e])
    && (forall r :: r in c.cells && (forall e :: e in c.table ==> c.table[e] != r) ==> n.cells[r] == c.cells[r])
  }

  /** The list has each entry once for every user among `es` to whom it belongs. */
  ghost predicate Listed<R>(c: Core<R>, es: set<Email>, min: int, out: seq<Entry>)
    requires c.Valid()
  {
    forall x :: multiset(out)[x] == |Owners(c, es, min, x)|
  }

  lemma VisitTakes<R>(c: Core<R>, es: set<Email>, min: int, n: Core<R>, e: Email)
    requires Separate(c) && Taken(c, es, min, n) && e in c.table && e !in es
    ensures Taken(c, es + {e}, min, Visited(n, e, min))
  {
    assert Above(n, e, min) == if Exceeds(c, e, min) then Some(Held(c, e)) else None;
  }

  lemma EntryIs<R>(c: Core<R>, es: set<Email>, min: int, n: Core<R>, e: Email, x: Entry)
    requires Separate(c) && Taken(c, es, min, n) && e in c.table && e !in es
    ensures EntryOf(n, e, min) == [x] <==> Owns(c, e, min, x)
    ensures multiset(EntryOf(n, e, min))[x] == if Owns(c, e, min, x) then 1 else 0
  {
    assert Above(n, e, min) == if Exceeds(c, e, min) then Some(Held(c, e)) else None;
  }

  lemma OwnersMore<R>(c: Core<R>, es: set<Email>, min: int, e: Email, x: Entry)
    requires c.Valid() && e in c.table && e !in es
    ensures |Owners(c, es + {e}, min, x)| == |Owners(c, es, min, x)| + if Owns(c, e, min, x) then 1 else 0
  {
    if Owns(c, e, min, x) {
      assert Owners(c, es + {e}, min, x) == Owners(c, es, min, x) + {e};
    } else {
      assert Owners(c, es + {e}, min, x) == Owners(c, es, min, x);
    }
  }

  lemma VisitLists<R>(c: Core<R>, es: set<Email>, min: int, n: Core<R>, out: seq<Entry>, e: Email)
    requires Separate(c) && Taken(c, es, min, n) && Listed(c, es, min, out) && e in c.table && e !in es
    ensures Listed(c, es + {e}, min, out + EntryOf(n, e, min))
  {
    forall x
      ensures multiset(out + EntryOf(n, e, min))[x] == |Owners(c, es + {e}, min, x)|
    {
      EntryIs(c, es, min, n, e, x);
      OwnersMore(c, es, min, e, x);
      assert multiset(out)[x] == |Owners(c, es, min, x)|;
    }
  }

  lemma OneTaken<R>(c: Core<R>, es: set<Email>, min: int, t: Take<R>, e: Email)
    requires Separate(c) && Taken(c, es, min, t.core) && Listed(c, es, min, t.out) && e in c.table && e !in es
    ensures var n := TakeOne(t, e, min); Taken(c, es + {e}, min, n.core) && Listed(c, es + {e}, min, n.out)
  {
    VisitTakes(c, es, min, t.core, e);
    VisitLists(c, es, min, t.core, t.out, e);
  }

  lemma NothingTaken<R>(c: Core<R>, min: int)
    requires Separate(c)
    ensures Taken(c, {}, min, c) && Listed(c, {}, min, [])
  {
    forall x
      ensures Owners(c, {}, min, x) == {}
    {
    }
  }

  lemma LastVisited(order: seq<Email>)
    requires NoRepeats(order) && order != []
    ensures var front, e := order[..|order| - 1], order[|order| - 1];
            && NoRepeats(front) && e !in front && Users(order) == Users(front) + {e}
            && forall d :: d in front ==> d in order
  {
    assert order == order[..|order| - 1] + [order[|order| - 1]];
  }

  lemma {:induction false} TakeAllIs<R>(c: Core<R>, order: seq<Email>, min: int)
    requires Separate(c) && NoRepeats(order) && forall e :: e in order ==> e in c.table
    ensures var t := TakeAll(c, order, min);
            Taken(c, Users(order), min, t.core) && Listed(c, Users(order), min, t.out)
    decreases |order|
  {
    if order == [] {
      NothingTaken(c, min);
    } else {
      var front, e := order[..|order| - 1], order[|order| - 1];
      LastVisited(order);
      TakeAllIs(c, front, min);
      OneTaken(c, Users(front), min, TakeAll(c, front, min), e);
    }
  }

  /** A collection: a counter that holds no more than the threshold keeps its bytes and makes no entry; one
      that holds more is zero afterwards, and makes one entry with its user's number and its bytes if the
      user is known, or else is dropped. Storages that are no counters keep what they hold. */
  lemma CollectionIs<R>(c: Core<R>, order: seq<Email>, min: int)
    requires Separate(c) && Enumerates(order, c.table.Keys)
    ensures var t := TakeAll(c, order, min);
            Taken(c, c.table.Keys, min, t.core) && Listed(c, c.table.Keys, min, t.out)
  {
    assert Users(order) == c.table.Keys;
    TakeAllIs(c, order, min);
  }

  lemma OneOwner<R>(c: Core<R>, e: Email, min: int)
    requires Separate(c) && UidsUnique(c) && e in c.table && c.Uid(e) != 0 && Exceeds(c, e, min)
    ensures Owners(c, c.table.Keys, min, Entry(c.Uid(e), Held(c, e))) == {e}
  {
  }

  lemma OtherOwners<R>(c: Core<R>, e: Email, min: int, x: Entry)
    requires Separate(c) && UidsUnique(c) && e in c.table && c.Uid(e) != 0 && x.uid == c.Uid(e)
    requires !Exceeds(c, e, min) || x.bytes != Held(c, e)
    ensures Owners(c, c.table.Keys, min, x) == {}
  {
  }

  /** With users of different numbers: the report has an entry with a user's number exactly if the counter
      exceeds the threshold; then it is the only one with that number, and has its bytes. */
  lemma ReportedOnceIff<R>(c: Core<R>, order: seq<Email>, min: int, e: Email)
    requires Separate(c) && UidsUnique(c) && Enumerates(order, c.table.Keys) && e in c.table && c.Uid(e) != 0
    ensures var out := TakeAll(c, order, min).out;
            forall x: Entry :: x.uid == c.Uid(e) ==>
              multiset(out)[x] == if Exceeds(c, e, min) && x.bytes == Held(c, e) then 1 else 0
  {
    CollectionIs(c, order, min);
    var out := TakeAll(c, order, min).out;
    forall x: Entry | x.uid == c.Uid(e)
      ensures multiset(out)[x] == if Exceeds(c, e, min) && x.bytes == Held(c, e) then 1 else 0
    {
      if Exceeds(c, e, min) && x.bytes == Held(c, e) {
        assert x == Entry(c.Uid(e), Held(c, e));
        OneOwner(c, e, min);
      } else {
        OtherOwners(c, e, min, x);
      }
    }
  }

  lemma NextSeparate<R>(w: World<R>, ev: Event<R>)
    requires Separate(w.core) && Possible(w, ev)
    ensures Separate(Next(w, ev).core)
  {
    if ev.Report? {
      TakeAllTable(w.core, ev.order, ev.min);
    }
  }

  /** In every reachable state users have counters of their own. */
  lemma {:induction false} RunSeparate<R>(w: World<R>, es: seq<Event<R>>)
    requires Separate(w.core) && Run(w, es)
    ensures Separate(After(w, es).core)
    decreases |es|
  {
    if es == [] {
    } else {
      NextSeparate(w, es[0]);
      RunSeparate(Next(w, es[0]), es[1..]);
    }
  }
}
