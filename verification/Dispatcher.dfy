/** Connections on their way through the core: the limiter decides, an admitted connection is registered
    under its user so that it can be cut, and its end is reported back whatever becomes of it. */
module Dispatcher {
  import opened Basics
  import opened LimiterModel
  import opened DeviceLimiter
  import opened Links

  type Email = Uuid

  /** Connections without a user or from an inbound without a tag are only passed on. */
  predicate Limited(email: Email, tag: string) {
    email != "" && tag != ""
  }

  /** Opening a connection and ending it again leaves the counts as they were. */
  lemma OpenedThenClosed(s: State, x: Uuid, ip: Ip)
    requires s.WellFormed() && x in s.users
    ensures s.Opened(s.users[x].uid, ip).Closed(x, ip) == s.(dirty := true)
  {
    AcquiredThenReleased(s.refs, s.users[x].uid, ip);
  }

  lemma AcquiredThenReleased<K(!new)>(refs: map<K, map<Ip, int>>, u: K, ip: Ip)
    requires Tidy(refs) && Positive(refs)
    ensures Released(Acquired(refs, u, ip), u, ip) == refs
  {
    if u in refs {
      var m := refs[u];
      if ip in m {
        assert m[ip := m[ip] + 1][ip := m[ip]] == m;
      } else {
        assert m[ip := 1] - {ip} == m;
      }
    } else {
      assert map[ip := 1] - {ip} == map[];
    }
  }

  /** So does a whole request, if its connection ends when it was let in. */
  lemma CheckedThenClosed(s: State, x: Uuid, ip: Ip, tcp: bool, now: int, victim: Ip)
    requires s.WellFormed()
    ensures var c := s.Checked(x, ip, tcp, now, victim);
            (if tcp && !s.Refuses(x, ip, tcp, now) then c.Closed(x, ip) else c).refs == s.refs
  {
    var c := s.Checked(x, ip, tcp, now, victim);
    if tcp && !s.Refuses(x, ip, tcp, now) {
      assert c.users == s.users && c.refs == Acquired(s.refs, s.users[x].uid, ip);
      AcquiredThenReleased(s.refs, s.users[x].uid, ip);
    }
  }

  class DefaultDispatcher {
    const limiter: Limiter
    var managers: map<Email, LinkManager>

    ghost predicate Valid()
      reads this, limiter, managers.Values
    {
      && limiter.Valid()
      && (forall e :: e in managers ==> managers[e].Valid())
      && (forall d, e :: d in managers && e in managers && d != e ==> managers[d] != managers[e])
    }

    constructor (limiter: Limiter)
      requires limiter.Valid()
      ensures Valid() && this.limiter == limiter && managers == map[]
    {
      this.limiter := limiter;
      managers := map[];
    }

    /** The links of a user. */
    ghost function LinksOf(e: Email): map<ManagedWriter, Reader>
      reads this, managers.Values
    {
      if e in managers then managers[e].links else map[]
    }

    /** The managers are the old ones, but for one that may have been made for `email`. */
    twostate predicate Kept(email: Email)
      reads this
    {
      && (forall e :: e in old(managers) ==> e in managers && managers[e] == old(managers[e]))
      && (forall e :: e in managers && e !in old(managers) ==> e == email && fresh(managers[e]))
    }

    /** The manager of a user, made if there is none. */
    method Manager(email: Email) returns (lm: LinkManager)
      requires Valid()
      modifies this
      ensures Valid() && email in managers && managers[email] == lm && Kept(email)
      ensures lm.links == old(LinksOf(email))
    {
      if email in managers {
        return managers[email];
      }
      lm := new LinkManager();
      managers := managers[email := lm];
    }

    /** Registers a connection under its user. */
    method Register(email: Email, ip: Ip, reader: Reader) returns (writer: ManagedWriter)
      requires Valid()
      modifies this, managers.Values
      ensures Valid() && Kept(email) && email in managers
      ensures fresh(writer) && writer.ip == ip && !writer.closed && writer.manager == managers[email]
      ensures LinksOf(email) == old(LinksOf(email))[writer := reader]
      ensures forall e :: e != email ==> LinksOf(e) == old(LinksOf(e))
    {
      var lm := Manager(email);
      writer := new ManagedWriter(lm, ip);
      lm.AddLink(writer, reader);
    }

    /** If `shut`, the link is closed for writing and its reader woken up; otherwise it is left alone. */
    static twostate predicate ShutIf(shut: bool, link: Link)
      reads link.reader, link.writer
    {
      && link.writer.closed == (old(link.writer.closed) || shut)
      && link.reader.interrupted == (old(link.reader.interrupted) || shut)
    }

    static method Shut(link: Link)
      modifies link.reader, link.writer
      ensures ShutIf(true, link)
    {
      link.writer.Close();
      link.reader.Interrupt();
    }

    /** Asks the limiter about a limited connection. `found` says whether the inbound's limiter is there. */
    method Ask(email: Email, tag: string, found: bool, ip: Ip, tcp: bool, now: int)
      returns (ok: bool, ghost victim: Ip, kick: Option<Ip>)
      requires Valid()
      modifies limiter
      ensures Valid()
      ensures ok == (!Limited(email, tag) || (found && !old(limiter.Abs()).Refuses(email, ip, tcp, now)))
      ensures limiter.Abs()
              == if Limited(email, tag) && found then old(limiter.Abs()).Checked(email, ip, tcp, now, victim)
                 else old(limiter.Abs())
      ensures Limited(email, tag) && found && tcp && email in old(limiter.users) ==>
                var u := old(limiter.users)[email];
                && IsChoice(victim, old(limiter.Abs()).Candidates(u.uid, ip, u.device, now))
                && kick == if old(limiter.Abs()).Evicts(u.uid, ip, u.device, now, victim) then Some(victim) else None
    {
      ok, victim, kick := true, "", None;
      if email != "" && tag != "" {
        if !found {
          return false, victim, None;
        }
        var v, bucket, reject, k := limiter.CheckLimit(email, ip, tcp, now);
        return !reject, v, k;
      }
    }

    /** Registers a limited connection that is let in, and shuts one that is not. */
    method Enter(ok: bool, email: Email, tag: string, ip: Ip, outbound: Link, inbound: Link)
      returns (writer: ManagedWriter?)
      requires Valid()
      modifies this, managers.Values, outbound.reader, outbound.writer, inbound.reader, inbound.writer
      ensures Valid() && Kept(email)
      ensures if ok && Limited(email, tag)
              then writer != null && fresh(writer) && writer.ip == ip
                   && email in managers && writer.manager == managers[email]
                   && LinksOf(email) == old(LinksOf(email))[writer := outbound.reader]
              else writer == null && LinksOf(email) == old(LinksOf(email))
      ensures forall e :: e != email ==> LinksOf(e) == old(LinksOf(e))
      ensures ShutIf(!ok, outbound) && ShutIf(!ok, inbound)
    {
      writer := null;
      if !ok {
        Shut(outbound);
        Shut(inbound);
      } else if Limited(email, tag) {
        writer := Register(email, ip, outbound.reader);
      }
    }

    /** The common head of `getLink` and `DispatchLink`: is the connection let in? If it is a limited one,
        it is registered; and what is not let in is shut, on both sides. `inbound` is the same link again
        where there is but one. */
    method Admit(email: Email, tag: string, found: bool, ip: Ip, tcp: bool, now: int, outbound: Link, inbound: Link)
      returns (ok: bool, writer: ManagedWriter?, ghost victim: Ip, kick: Option<Ip>)
      requires Valid()
      modifies this, limiter, managers.Values, outbound.reader, outbound.writer, inbound.reader, inbound.writer
      ensures Valid() && Kept(email)
      ensures ok == (!Limited(email, tag) || (found && !old(limiter.Abs()).Refuses(email, ip, tcp, now)))
      ensures limiter.Abs()
              == if Limited(email, tag) && found then old(limiter.Abs()).Checked(email, ip, tcp, now, victim)
                 else old(limiter.Abs())
      ensures Limited(email, tag) && found && tcp && email in old(limiter.users) ==>
                var u := old(limiter.users)[email];
                && IsChoice(victim, old(limiter.Abs()).Candidates(u.uid, ip, u.device, now))
                && kick == if old(limiter.Abs()).Evicts(u.uid, ip, u.device, now, victim) then Some(victim) else None
      ensures if ok && Limited(email, tag)
              then writer != null && fresh(writer) && writer.ip == ip
                   && email in managers && writer.manager == managers[email]
                   && LinksOf(email) == old(LinksOf(email))[writer := outbound.reader]
              else writer == null && LinksOf(email) == old(LinksOf(email))
      ensures forall e :: e != email ==> LinksOf(e) == old(LinksOf(e))
      ensures ShutIf(!ok, outbound) && ShutIf(!ok, inbound)
    {
      ok, victim, kick := Ask(email, tag, found, ip, tcp, now);
      writer := Enter(ok, email, tag, ip, outbound, inbound);
    }

    /** Closes the link of a connection that rules or routing refuse, with the managed writer that may be
        around its writer. */
    method Refuse(ghost email: Email, writer: ManagedWriter?, link: Link)
      requires Valid() && (writer != null ==> email in managers && writer.manager == managers[email])
      modifies writer, link.reader, link.writer, managers.Values
      ensures Valid() && ShutIf(true, link) && (writer != null ==> writer.closed)
      ensures LinksOf(email) == old(LinksOf(email)) - if writer != null then {writer} else {}
      ensures forall e :: e != email ==> LinksOf(e) == old(LinksOf(e))
    {
      ghost var was := LinksOf(email);
      assert was - {} == was;
      if writer != null {
        writer.Close();
      }
      Shut(link);
    }

    /** The rest of a connection's life on its outbound side, whose writer is a managed one or not. Rules and
        routing may refuse the connection, which closes that side; otherwise it is handed to an outbound
        that closes the side when it is done, which is not modelled. In every case the limiter is told at
        the end, if the connection was counted. */
    method RoutedDispatch(email: Email, tag: string, found: bool, ip: Ip, tcp: bool,
                          writer: ManagedWriter?, link: Link, refused: bool)
      requires Valid() && (writer != null ==> email in managers && writer.manager == managers[email])
      modifies limiter, writer, link.reader, link.writer, managers.Values
      ensures Valid()
      ensures limiter.Abs() == if Limited(email, tag) && tcp && found then old(limiter.Abs()).Closed(email, ip)
                               else old(limiter.Abs())
      ensures ShutIf(refused, link) && (refused && writer != null ==> writer.closed)
      ensures LinksOf(email)
              == if refused && writer != null then old(LinksOf(email)) - {writer} else old(LinksOf(email))
      ensures forall e :: e != email ==> LinksOf(e) == old(LinksOf(e))
    {
      if refused {
        Refuse(email, writer, link);
        assert writer == null ==> old(LinksOf(email)) - {} == old(LinksOf(email));
      }
      if email != "" && tag != "" && tcp && found {
        limiter.ConnClosed(email, ip);
      }
    }

    /** A connection whose two sides are joined by pipes. What the limiter does not let in is shut on both
        sides. The managed writer is on the inbound side, so a later refusal, which closes the outbound
        side, leaves the link registered until the inbound side is closed too; the counts are as they
        were. */
    method Dispatch(email: Email, tag: string, found: bool, ip: Ip, tcp: bool, now: int,
                    outbound: Link, inbound: Link, refused: bool)
      returns (ok: bool, writer: ManagedWriter?)
      requires Valid()
      requires outbound.reader != inbound.reader && outbound.writer != inbound.writer
      modifies this, limiter, managers.Values, outbound.reader, outbound.writer, inbound.reader, inbound.writer
      ensures Valid() && limiter.refs == old(limiter.refs)
      ensures email == "" || tag == "" ==> ok && limiter.Abs() == old(limiter.Abs())
      ensures ok == (!Limited(email, tag) || (found && !old(limiter.Abs()).Refuses(email, ip, tcp, now)))
      ensures ShutIf(!ok || refused, outbound) && ShutIf(!ok, inbound)
      ensures if ok && Limited(email, tag)
              then writer != null && writer.ip == ip && LinksOf(email) == old(LinksOf(email))[writer := outbound.reader]
              else writer == null && LinksOf(email) == old(LinksOf(email))
      ensures forall e :: e != email ==> LinksOf(e) == old(LinksOf(e))
    {
      var admitted, managed, victim, kick := Admit(email, tag, found, ip, tcp, now, outbound, inbound);
      ok, writer := admitted, managed;
      CheckedThenClosed(old(limiter.Abs()), email, ip, tcp, now, victim);
      if ok {
        RoutedDispatch(email, tag, found, ip, tcp, null, outbound, refused);
      }
    }

    /** A connection whose outbound side carries the managed writer, served in one go: by itself it leaves
        every count as it was, and whoever refuses it, its link is shut and not registered. */
    method DispatchLink(email: Email, tag: string, found: bool, ip: Ip, tcp: bool, now: int,
                        link: Link, refused: bool)
      returns (ok: bool)
      requires Valid()
      modifies this, limiter, managers.Values, link.reader, link.writer
      ensures Valid() && limiter.refs == old(limiter.refs)
      ensures email == "" || tag == "" ==> ok && limiter.Abs() == old(limiter.Abs())
      ensures ok == (!Limited(email, tag) || (found && !old(limiter.Abs()).Refuses(email, ip, tcp, now)))
      ensures ShutIf(!ok || refused, link)
      ensures !ok || refused ==> LinksOf(email) == old(LinksOf(email))
    {
      ghost var was := LinksOf(email);
      var admitted, writer, victim, kick := Admit(email, tag, found, ip, tcp, now, link, link);
      ok := admitted;
      assert writer != null ==> was[writer := link.reader] - {writer} == was;
      CheckedThenClosed(old(limiter.Abs()), email, ip, tcp, now, victim);
      if ok {
        RoutedDispatch(email, tag, found, ip, tcp, writer, link, refused);
      }
    }

    /** Cuts the connections of a user's device and no others. */
    method KickByUserIP(email: Email, ip: Ip)
      requires Valid()
      modifies managers.Values
      modifies if email in managers then managers[email].links.Keys else {}
      modifies if email in managers then managers[email].links.Values else {}
      ensures Valid()
      ensures LinksOf(email) == old(LinksOf(email)) - set w | ip != "" && w in old(LinksOf(email)) && w.ip == ip
      ensures forall e :: e != email ==> LinksOf(e) == old(LinksOf(e))
      ensures forall w :: w in old(LinksOf(email)) ==> w.closed == ((ip != "" && w.ip == ip) || old(w.closed))
    {
      ghost var was := LinksOf(email);
      assert was - {} == was;
      if ip == "" {
        return;
      }
      if email in managers {
        var n := managers[email].CloseByIP(ip);
      }
    }
  }
}
