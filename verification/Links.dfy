/** The open connections of one user, kept so that they can be cut: all of them, or those of one device. */
module Links {
  import opened Basics
  import opened LimiterModel

  /** The end that the core reads from; interrupting it wakes up whoever waits there. */
  class Reader {
    var interrupted: bool

    constructor ()
      ensures !interrupted
    {
      interrupted := false;
    }

    method Interrupt()
      modifies this
      ensures interrupted
    {
      interrupted := true;
    }
  }

  /** The end that is written to. */
  class Writer {
    var closed: bool

    constructor ()
      ensures !closed
    {
      closed := false;
    }

    method Close()
      modifies this
      ensures closed
    {
      closed := true;
    }
  }

  /** One side of a connection. */
  datatype Link = Link(reader: Reader, writer: Writer)

  /** A writer that is kept so that it can be cut. Closing it takes it out of its manager first; `closed`
      stands for the writer behind it. */
  class ManagedWriter {
    const manager: LinkManager
    const ip: Ip
    var closed: bool

    constructor (manager: LinkManager, ip: Ip)
      ensures this.manager == manager && this.ip == ip && !closed
    {
      this.manager, this.ip := manager, ip;
      closed := false;
    }

    method Close()
      modifies this, manager
      ensures closed && manager.links == old(manager.links) - {this}
    {
      manager.RemoveWriter(this);
      closed := true;
    }
  }

  class LinkManager {
    var links: map<ManagedWriter, Reader>

    /** The writers of the manager are its own. */
    ghost predicate Valid()
      reads this
    {
      forall w :: w in links ==> w.manager == this
    }

    constructor ()
      ensures Valid() && links == map[]
    {
      links := map[];
    }

    method AddLink(writer: ManagedWriter, reader: Reader)
      requires Valid() && writer.manager == this
      modifies this
      ensures Valid() && links == old(links)[writer := reader]
    {
      links := links[writer := reader];
    }

    method RemoveWriter(writer: ManagedWriter)
      modifies this
      ensures links == old(links) - {writer}
    {
      links := links - {writer};
    }

    /** The links of a device. */
    ghost function Of(ip: Ip): set<ManagedWriter>
      reads this
    {
      set w | w in links && w.ip == ip
    }

    /** Cuts every link. */
    method CloseAll()
      requires Valid()
      modifies this, links.Keys, links.Values
      ensures Valid() && links == map[]
      ensures forall w :: w in old(links) ==> w.closed && old(links)[w].interrupted
    {
      ghost var was := links;
      var all, chosen := Matching("", false);
      Cut(all, chosen);
      assert links == was - was.Keys == map[];
      assert forall w :: w in was ==> was[w] in ReadersOf(was, chosen);
    }

    /** Cuts the links of one device and no others, and says how many they were. Without a device nothing
        is cut. */
    method CloseByIP(ip: Ip) returns (n: nat)
      requires Valid()
      modifies this, links.Keys, links.Values
      ensures Valid()
      ensures links == old(links) - if ip == "" then {} else old(Of(ip))
      ensures n == if ip == "" then 0 else |old(Of(ip))|
      ensures forall w :: w in old(links) ==> w.closed == ((ip != "" && w.ip == ip) || old(w.closed))
      ensures forall w :: w in old(links) ==>
                old(links)[w].interrupted ==
                ((ip != "" && old(links)[w] in ReadersOf(old(links), old(Of(ip)))) || old(links[w].interrupted))
    {
      if ip == "" {
        assert links - {} == links;
        return 0;
      }
      var matched, chosen := Matching(ip, true);
      assert chosen == Of(ip);
      Cut(matched, chosen);
      n := |matched|;
    }

    /** The snapshot: the links of a device, or all of them, in some order. */
    method Matching(ip: Ip, only: bool) returns (l: seq<ManagedWriter>, ghost chosen: set<ManagedWriter>)
      ensures NoRepeats(l) && |l| == |chosen| && (forall w :: w in l <==> w in chosen)
      ensures chosen == set w | w in links && (only ==> w.ip == ip)
    {
      l, chosen := [], {};
      var todo := links.Keys;
      while todo != {}
        invariant todo <= links.Keys && NoRepeats(l) && |l| == |chosen|
        invariant forall w :: w in l <==> w in chosen
        invariant forall w :: w in chosen <==> w in links && w !in todo && (only ==> w.ip == ip)
        decreases todo
      {
        var w :| w in todo;
        todo := todo - {w};
        if !only || w.ip == ip {
          l := l + [w];
          chosen := chosen + {w};
        }
      }
    }

    /** Closes the links of the snapshot one after the other; each closing changes the table. */
    method Cut(l: seq<ManagedWriter>, ghost chosen: set<ManagedWriter>)
      requires Valid() && NoRepeats(l) && chosen <= links.Keys && forall w :: w in l <==> w in chosen
      modifies this, links.Keys, links.Values
      ensures Valid() && links == old(links) - chosen
      ensures forall w :: w in old(links) ==> w.closed == (w in chosen || old(w.closed))
      ensures forall w :: w in old(links) ==>
                old(links)[w].interrupted
                == (old(links)[w] in ReadersOf(old(links), chosen) || old(links[w].interrupted))
    {
      var was := links;
      ghost var gone: set<ManagedWriter> := {};
      ghost var woken: set<Reader> := {};
      for i := 0 to |l|
        invariant forall w :: w in gone <==> w in l[..i]
        invariant gone <= chosen && links == was - gone
        invariant woken == ReadersOf(was, gone)
        invariant forall w :: w in was ==> w.closed == (w in gone || old(w.closed))
        invariant forall w :: w in was ==> was[w].interrupted == (was[w] in woken || old(links[w].interrupted))
      {
        var w := l[i];
        assert l[..i + 1] == l[..i] + [w];
        assert w in l;
        gone, woken := gone + {w}, woken + {was[w]};
        w.Close();
        was[w].Interrupt();
      }
      assert l[..|l|] == l;
      assert gone == chosen;
    }
  }

  ghost function ReadersOf(links: map<ManagedWriter, Reader>, ws: set<ManagedWriter>): set<Reader> {
    set w | w in ws && w in links :: links[w]
  }
}
