/** The text that a device report is hashed from. It has to be the same whatever order the devices come
    in, and different for different reports: a report is sent only when its hash has changed. */
module DeviceHash {
  import opened Basics
  import opened LimiterModel

  // ---------------------------------------------------------------------------------------------
  // Sorting
  // ---------------------------------------------------------------------------------------------

  ghost predicate TotalOrder<T(!new)>(le: (T, T) -> bool) {
    && (forall a, b :: le(a, b) || le(b, a))
    && (forall a, b :: le(a, b) && le(b, a) ==> a == b)
    && (forall a, b, c :: le(a, b) && le(b, c) ==> le(a, c))
  }

  ghost predicate Sorted<T>(le: (T, T) -> bool, l: seq<T>) {
    forall i, j :: 0 <= i < j < |l| ==> le(l[i], l[j])
  }

  function Insert<T>(le: (T, T) -> bool, x: T, l: seq<T>): (r: seq<T>) {
    if l == [] then [x]
    else if le(x, l[0]) then [x] + l
    else [l[0]] + Insert(le, x, l[1..])
  }

  function Sort<T>(le: (T, T) -> bool, l: seq<T>): (r: seq<T>) {
    if l == [] then [] else Insert(le, l[0], Sort(le, l[1..]))
  }

  lemma {:induction false} InsertKeeps<T>(le: (T, T) -> bool, x: T, l: seq<T>)
    ensures multiset(Insert(le, x, l)) == multiset(l) + multiset{x}
    decreases |l|
  {
    if l == [] || le(x, l[0]) {
    } else {
      InsertKeeps(le, x, l[1..]);
      assert l == [l[0]] + l[1..];
    }
  }

  lemma {:induction false} InsertSorts<T(!new)>(le: (T, T) -> bool, x: T, l: seq<T>)
    requires TotalOrder(le) && Sorted(le, l)
    ensures Sorted(le, Insert(le, x, l))
    decreases |l|
  {
    if l == [] || le(x, l[0]) {
    } else {
      var r := Insert(le, x, l[1..]);
      InsertSorts(le, x, l[1..]);
      InsertKeeps(le, x, l[1..]);
      forall j | 0 <= j < |r|
        ensures le(l[0], r[j])
      {
        assert r[j] in multiset(r);
        assert r[j] == x || r[j] in l[1..];
      }
    }
  }

  /** Sorting gives the same elements in order. */
  lemma {:induction false} SortSorts<T(!new)>(le: (T, T) -> bool, l: seq<T>)
    requires TotalOrder(le)
    ensures multiset(Sort(le, l)) == multiset(l)
    ensures Sorted(le, Sort(le, l))
    decreases |l|
  {
    if l == [] {
    } else {
      SortSorts(le, l[1..]);
      InsertKeeps(le, l[0], Sort(le, l[1..]));
      InsertSorts(le, l[0], Sort(le, l[1..]));
      assert l == [l[0]] + l[1..];
    }
  }

  lemma {:induction false} SortedUnique<T(!new)>(le: (T, T) -> bool, a: seq<T>, b: seq<T>)
    requires TotalOrder(le) && Sorted(le, a) && Sorted(le, b) && multiset(a) == multiset(b)
    ensures a == b
    decreases |a|
  {
    assert |a| == |multiset(a)| == |multiset(b)| == |b|;
    if a == [] {
    } else {
      assert a[0] in multiset(b) && b[0] in multiset(a);
      assert le(a[0], b[0]) && le(b[0], a[0]);
      assert a == [a[0]] + a[1..] && b == [b[0]] + b[1..];
      assert multiset(a[1..]) == multiset(a) - multiset{a[0]};
      assert multiset(b[1..]) == multiset(b) - multiset{b[0]};
      SortedUnique(le, a[1..], b[1..]);
    }
  }

  predicate IntLe(a: int, b: int) {
    a <= b
  }

  /** Strings in the order of their bytes. */
  predicate IpLe(a: Ip, b: Ip)
    decreases |a|
  {
    a == [] || (b != [] && (a[0] < b[0] || (a[0] == b[0] && IpLe(a[1..], b[1..]))))
  }

  lemma {:induction false} IpLeTotal(a: Ip, b: Ip)
    ensures IpLe(a, b) || IpLe(b, a)
    ensures IpLe(a, b) && IpLe(b, a) ==> a == b
    decreases |a|
  {
    if a == [] || b == [] {
    } else {
      IpLeTotal(a[1..], b[1..]);
      assert a == [a[0]] + a[1..] && b == [b[0]] + b[1..];
    }
  }

  lemma {:induction false} IpLeTransitive(a: Ip, b: Ip, c: Ip)
    requires IpLe(a, b) && IpLe(b, c)
    ensures IpLe(a, c)
    decreases |a|
  {
    if a != [] && a[0] == b[0] == c[0] {
      IpLeTransitive(a[1..], b[1..], c[1..]);
    }
  }

  lemma OrdersAreTotal()
    ensures TotalOrder(IntLe) && TotalOrder(IpLe)
  {
    forall a: Ip, b: Ip
      ensures IpLe(a, b) || IpLe(b, a)
      ensures IpLe(a, b) && IpLe(b, a) ==> a == b
    {
      IpLeTotal(a, b);
    }
    forall a: Ip, b: Ip, c: Ip | IpLe(a, b) && IpLe(b, c)
      ensures IpLe(a, c)
    {
      IpLeTransitive(a, b, c);
    }
  }

  // ---------------------------------------------------------------------------------------------
  // Printing
  // ---------------------------------------------------------------------------------------------

  datatype Entry = Entry(uid: int, ips: seq<Ip>)

  function Digits(n: nat): (s: string) {
    var d := ['0' + (n % 10) as char];
    if n < 10 then d else Digits(n / 10) + d
  }

  function Itoa(n: int): (s: string) {
    if n < 0 then ['-'] + Digits(-n) else Digits(n)
  }

  function PrintIps(ips: seq<Ip>): (s: string) {
    if ips == [] then "" else ips[0] + [','] + PrintIps(ips[1..])
  }

  function PrintEntry(e: Entry): (s: string) {
    Itoa(e.uid) + [':'] + PrintIps(e.ips) + [';']
  }

  function Print(es: seq<Entry>): (s: string) {
    if es == [] then "" else PrintEntry(es[0]) + Print(es[1..])
  }

  lemma EnumeratesSame<K(!new)>(l: seq<K>, a: set<K>, b: set<K>)
    requires Enumerates(l, a) && Enumerates(l, b)
    ensures a == b
  {
  }

  /** The entries of a report: users in order, and the devices of each in order. */
  ghost predicate Ordered(es: seq<Entry>, devices: map<int, seq<Ip>>) {
    && Sorted(IntLe, Uids(es)) && Enumerates(Uids(es), devices.Keys)
    && forall e :: e in es ==> e.uid in devices && e.ips == Sort(IpLe, devices[e.uid])
  }

  function Uids(es: seq<Entry>): (r: seq<int>)
    ensures |r| == |es| && forall i :: 0 <= i < |es| ==> r[i] == es[i].uid
  {
    seq(|es|, i requires 0 <= i < |es| => es[i].uid)
  }

  /** The reports list the same devices for the same users, in whatever order. */
  ghost predicate SameReport(a: map<int, seq<Ip>>, b: map<int, seq<Ip>>) {
    a.Keys == b.Keys && forall u :: u in a ==> multiset(a[u]) == multiset(b[u])
  }

  /** The keys of a report, in some order. */
  method Keys<K(==,!new)>(keys: set<K>) returns (l: seq<K>)
    ensures Enumerates(l, keys)
  {
    l := [];
    var todo := keys;
    while todo != {}
      invariant todo <= keys && Enumerates(l, keys - todo)
      decreases todo
    {
      var k :| k in todo;
      todo := todo - {k};
      l := l + [k];
    }
  }

  /** One user's part of the text. */
  method EntryText(uid: int, unsorted: seq<Ip>) returns (text: string)
    ensures text == PrintEntry(Entry(uid, Sort(IpLe, unsorted)))
  {
    var ips := Sort(IpLe, unsorted);
    var list := "";
    for j := 0 to |ips|
      invariant list == PrintIps(ips[..j])
    {
      list := list + ips[j] + [','];
      PrintIpsMore(ips[..j], ips[j]);
      assert ips[..j + 1] == ips[..j] + [ips[j]];
    }
    assert ips[..|ips|] == ips;
    text := Itoa(uid) + [':'] + list + [';'];
  }

  method EntriesText(uids: seq<int>, devices: map<int, seq<Ip>>) returns (text: string)
    requires forall u :: u in uids ==> u in devices
    ensures text == Print(EntriesFor(uids, devices))
  {
    text := "";
    for i := 0 to |uids|
      invariant text == Print(EntriesFor(uids[..i], devices))
    {
      assert uids[i] in uids;
      var part := EntryText(uids[i], devices[uids[i]]);
      text := text + part;
      PrintMore(EntriesFor(uids[..i], devices), Entry(uids[i], Sort(IpLe, devices[uids[i]])));
      assert uids[..i + 1][..i] == uids[..i];
    }
    assert uids[..|uids|] == uids;
  }

  lemma EntriesForOrdered(unsorted: seq<int>, uids: seq<int>, devices: map<int, seq<Ip>>)
    requires Enumerates(unsorted, devices.Keys) && uids == Sort(IntLe, unsorted)
    ensures forall u :: u in uids ==> u in devices
    ensures Ordered(EntriesFor(uids, devices), devices)
  {
    OrdersAreTotal();
    SortSorts(IntLe, unsorted);
    SortKeepsElements(unsorted, uids, devices.Keys);
    EntriesForAre(uids, devices);
  }

  /** The entries for the listed users that the report holds. */
  ghost function EntriesFor(uids: seq<int>, devices: map<int, seq<Ip>>): (es: seq<Entry>) {
    if uids == [] then [] else
    var u := uids[|uids| - 1];
    EntriesFor(uids[..|uids| - 1], devices) + [Entry(u, if u in devices then Sort(IpLe, devices[u]) else [])]
  }

  lemma {:induction false} EntriesForAre(uids: seq<int>, devices: map<int, seq<Ip>>)
    requires forall u :: u in uids ==> u in devices
    ensures var es := EntriesFor(uids, devices);
            && Uids(es) == uids
            && forall e :: e in es ==> e.uid in devices && e.ips == Sort(IpLe, devices[e.uid])
    decreases |uids|
  {
    if uids == [] {
    } else {
      var front := uids[..|uids| - 1];
      assert uids == front + [uids[|uids| - 1]];
      EntriesForAre(front, devices);
    }
  }

  lemma SortKeepsElements<T(!new)>(a: seq<T>, b: seq<T>, keys: set<T>)
    requires Enumerates(a, keys) && multiset(a) == multiset(b)
    ensures Enumerates(b, keys)
  {
    forall i, j | 0 <= i < j < |b|
      ensures b[i] != b[j]
    {
      if b[i] == b[j] {
        TwiceInMultiset(b, i, j);
        OnceInMultiset(a, b[i]);
      }
    }
    forall x
      ensures x in b <==> x in a
    {
      assert x in b <==> x in multiset(b);
      assert x in a <==> x in multiset(a);
    }
  }

  lemma TwiceInMultiset<T>(b: seq<T>, i: nat, j: nat)
    requires i < j < |b| && b[i] == b[j]
    ensures multiset(b)[b[i]] >= 2
  {
    assert b == b[..j] + ([b[j]] + b[j + 1..]);
    assert b[..j][i] == b[i] && b[i] in multiset(b[..j]);
  }

  lemma {:induction false} OnceInMultiset<T>(a: seq<T>, x: T)
    requires NoRepeats(a)
    ensures multiset(a)[x] <= 1
    decreases |a|
  {
    if a == [] {
    } else {
      assert a == [a[0]] + a[1..];
      OnceInMultiset(a[1..], x);
      if a[0] == x {
        assert x !in a[1..];
        assert x !in multiset(a[1..]);
      }
    }
  }

  lemma {:induction false} PrintIpsMore(ips: seq<Ip>, ip: Ip)
    ensures PrintIps(ips + [ip]) == PrintIps(ips) + ip + [',']
    decreases |ips|
  {
    if ips == [] {
      assert [ip][1..] == [];
      assert PrintIps([ip]) == ip + [','] + "";
      assert [] + [ip] == [ip];
    } else {
      assert (ips + [ip])[1..] == ips[1..] + [ip];
      PrintIpsMore(ips[1..], ip);
    }
  }

  lemma {:induction false} PrintMore(es: seq<Entry>, e: Entry)
    ensures Print(es + [e]) == Print(es) + PrintEntry(e)
    decreases |es|
  {
    if es == [] {
      assert [] + [e] == [e] && [e][1..] == [];
    } else {
      assert (es + [e])[1..] == es[1..] + [e];
      PrintMore(es[1..], e);
    }
  }

  // ---------------------------------------------------------------------------------------------
  // Reading back
  // ---------------------------------------------------------------------------------------------

  /** Where `c` first stands in `t`, or the end. */
  function Find(t: string, c: char): (k: nat)
    ensures k <= |t|
  {
    if t == [] || t[0] == c then 0 else 1 + Find(t[1..], c)
  }

  function From(t: string, k: nat): (r: string)
    ensures k > 0 && t != [] ==> |r| < |t|
    ensures |r| <= |t|
  {
    if k <= |t| then t[k..] else []
  }

  function Value(s: string): int {
    if s == [] then 0 else Value(s[..|s| - 1]) * 10 + (s[|s| - 1] as int - '0' as int)
  }

  function Atoi(s: string): int {
    if s != [] && s[0] == '-' then -Value(s[1..]) else Value(s)
  }

  /** Reads devices up to the semicolon; the second part is the text after it. */
  function ReadIps(t: string): (r: (seq<Ip>, string))
    ensures |r.1| <= |t|
    decreases |t|
  {
    if t == [] || t[0] == ';' then ([], From(t, 1))
    else
      var k := Find(t, ',');
      var (ips, rest) := ReadIps(From(t, k + 1));
      ([t[..k]] + ips, rest)
  }

  function Read(t: string): (es: seq<Entry>)
    decreases |t|
  {
    if t == [] then []
    else
      var k := Find(t, ':');
      var (ips, rest) := ReadIps(From(t, k + 1));
      [Entry(Atoi(t[..k]), ips)] + Read(rest)
  }

  /** No separator occurs in the device's name. */
  predicate CleanIp(ip: Ip) {
    ',' !in ip && ';' !in ip
  }

  lemma {:induction false} FindAt(a: string, c: char, b: string)
    requires c !in a
    ensures Find(a + [c] + b, c) == |a|
    decreases |a|
  {
    var t := a + [c] + b;
    if a == [] {
    } else {
      assert t[1..] == a[1..] + [c] + b;
      FindAt(a[1..], c, b);
    }
  }

  lemma {:induction false} DigitsRead(n: nat)
    ensures Digits(n) != [] && Value(Digits(n)) == n
    ensures forall i :: 0 <= i < |Digits(n)| ==> '0' <= Digits(n)[i] <= '9'
    decreases n
  {
    var d := '0' + (n % 10) as char;
    if n < 10 {
      assert [d][..0] == [];
    } else {
      DigitsRead(n / 10);
      assert (Digits(n / 10) + [d])[..|Digits(n / 10)|] == Digits(n / 10);
    }
  }

  lemma ItoaRead(n: int)
    ensures Atoi(Itoa(n)) == n && ':' !in Itoa(n)
  {
    DigitsRead(if n < 0 then -n else n);
    if n < 0 {
      assert Itoa(n)[1..] == Digits(-n);
    }
  }

  /** Cutting a text at the separator that ends its first part. */
  lemma Cut(a: string, c: char, b: string)
    requires c !in a
    ensures var t := a + [c] + b;
            t != [] && Find(t, c) == |a| && t[..|a|] == a && From(t, |a| + 1) == b
    ensures a != [] ==> (a + [c] + b)[0] == a[0]
    ensures a == [] ==> (a + [c] + b)[0] == c
  {
    FindAt(a, c, b);
  }

  lemma Join(a: string, b: string, c: string, d: string)
    ensures (a + b + c) + d == a + b + (c + d)
  {
  }

  lemma ReadIpsCut(ip: Ip, more: string)
    requires CleanIp(ip)
    ensures ReadIps(ip + [','] + more) == ([ip] + ReadIps(more).0, ReadIps(more).1)
  {
    Cut(ip, ',', more);
  }

  lemma ReadIpsEnd(rest: string)
    ensures ReadIps([';'] + rest) == ([], rest)
  {
    assert ([';'] + rest)[1..] == rest;
  }

  lemma {:induction false} IpsRead(ips: seq<Ip>, rest: string)
    requires forall ip :: ip in ips ==> CleanIp(ip)
    ensures ReadIps(PrintIps(ips) + ([';'] + rest)) == (ips, rest)
    decreases |ips|
  {
    var end := [';'] + rest;
    if ips == [] {
      assert "" + end == end;
      ReadIpsEnd(rest);
    } else {
      assert CleanIp(ips[0]) && forall ip :: ip in ips[1..] ==> ip in ips;
      IpsRead(ips[1..], rest);
      Join(ips[0], [','], PrintIps(ips[1..]), end);
      ReadIpsCut(ips[0], PrintIps(ips[1..]) + end);
      assert ips == [ips[0]] + ips[1..];
    }
  }

  lemma ReadCut(uid: int, more: string)
    ensures var r := ReadIps(more);
            Read(Itoa(uid) + [':'] + more) == [Entry(uid, r.0)] + Read(r.1)
  {
    ItoaRead(uid);
    Cut(Itoa(uid), ':', more);
  }

  lemma EntryRead(e: Entry, rest: string)
    requires forall ip :: ip in e.ips ==> CleanIp(ip)
    ensures Read(PrintEntry(e) + rest) == [e] + Read(rest)
  {
    EntrySplit(e, rest);
    ReadCut(e.uid, PrintIps(e.ips) + ([';'] + rest));
    IpsRead(e.ips, rest);
  }

  /** Reading undoes printing. */
  lemma {:induction false} PrintRead(es: seq<Entry>)
    requires forall e :: e in es ==> forall ip :: ip in e.ips ==> CleanIp(ip)
    ensures Read(Print(es)) == es
    decreases |es|
  {
    if es == [] {
    } else {
      assert es[0] in es && forall x :: x in es[1..] ==> x in es;
      PrintRead(es[1..]);
      EntryRead(es[0], Print(es[1..]));
    }
  }

  lemma EntrySplit(e: Entry, rest: string)
    ensures PrintEntry(e) + rest == Itoa(e.uid) + [':'] + (PrintIps(e.ips) + ([';'] + rest))
  {
  }

  ghost predicate CleanReport(devices: map<int, seq<Ip>>) {
    forall u, ip :: u in devices && ip in devices[u] ==> CleanIp(ip)
  }

  lemma OrderedClean(es: seq<Entry>, devices: map<int, seq<Ip>>)
    requires Ordered(es, devices) && CleanReport(devices)
    ensures forall e :: e in es ==> forall ip :: ip in e.ips ==> CleanIp(ip)
  {
    OrdersAreTotal();
    forall e, ip | e in es && ip in e.ips
      ensures CleanIp(ip)
    {
      SortSorts(IpLe, devices[e.uid]);
      assert ip in multiset(e.ips) && ip in multiset(devices[e.uid]);
    }
  }

  /** Builds the text of a report: users and devices are sorted and joined. If no device has a separator in
      its name, reading the text gives the report back in order. */
  method DevicesText(devices: map<int, seq<Ip>>) returns (text: string, ghost es: seq<Entry>)
    ensures Ordered(es, devices) && text == Print(es)
    ensures CleanReport(devices) ==> Ordered(Read(text), devices)
  {
    var unsorted := Keys(devices.Keys);
    var uids := Sort(IntLe, unsorted);
    EntriesForOrdered(unsorted, uids, devices);
    es := EntriesFor(uids, devices);
    text := EntriesText(uids, devices);
    if CleanReport(devices) {
      OrderedClean(es, devices);
      PrintRead(es);
    }
  }

  lemma OrderedSame(es: seq<Entry>, a: map<int, seq<Ip>>, b: map<int, seq<Ip>>)
    requires Ordered(es, a) && Ordered(es, b)
    ensures SameReport(a, b)
  {
    OrdersAreTotal();
    forall u | u in a
      ensures u in b && multiset(a[u]) == multiset(b[u])
    {
      var i :| 0 <= i < |es| && Uids(es)[i] == u;
      assert es[i] in es;
      SortSorts(IpLe, a[u]);
      SortSorts(IpLe, b[u]);
    }
    EnumeratesSame(Uids(es), a.Keys, b.Keys);
  }

  lemma SameOrdered(es: seq<Entry>, fs: seq<Entry>, a: map<int, seq<Ip>>, b: map<int, seq<Ip>>)
    requires Ordered(es, a) && Ordered(fs, b) && SameReport(a, b)
    ensures es == fs
  {
    OrdersAreTotal();
    DistinctSame(Uids(es), Uids(fs));
    SortedUnique(IntLe, Uids(es), Uids(fs));
    forall i | 0 <= i < |es|
      ensures es[i] == fs[i]
    {
      var u := es[i].uid;
      assert Uids(es)[i] == Uids(fs)[i] && es[i] in es && fs[i] in fs;
      SortSorts(IpLe, a[u]);
      SortSorts(IpLe, b[u]);
      SortedUnique(IpLe, es[i].ips, fs[i].ips);
    }
  }

  lemma DistinctSame<T>(a: seq<T>, b: seq<T>)
    requires NoRepeats(a) && NoRepeats(b) && forall x :: x in a <==> x in b
    ensures multiset(a) == multiset(b)
  {
    forall x
      ensures multiset(a)[x] == multiset(b)[x]
    {
      OnceInMultiset(a, x);
      OnceInMultiset(b, x);
      assert x in multiset(a) <==> x in a;
      assert x in multiset(b) <==> x in b;
    }
  }

  /** Two reports have the same text exactly when they list the same devices for the same users, given
      device names without separators. */
  lemma SameTextIffSameReport(es: seq<Entry>, fs: seq<Entry>, a: map<int, seq<Ip>>, b: map<int, seq<Ip>>)
    requires Ordered(es, a) && Ordered(fs, b) && CleanReport(a) && CleanReport(b)
    ensures Print(es) == Print(fs) <==> SameReport(a, b)
  {
    if Print(es) == Print(fs) {
      OrderedClean(es, a);
      OrderedClean(fs, b);
      PrintRead(es);
      PrintRead(fs);
      OrderedSame(es, a, b);
    }
    if SameReport(a, b) {
      SameOrdered(es, fs, a, b);
    }
  }

  /** A comma in a device's name can make two reports look alike. */
  lemma CommaMakesReportsAlike()
    ensures Print([Entry(1, ["a,b"])]) == Print([Entry(1, ["a", "b"])])
  {
    var x: seq<Ip>, y: seq<Ip> := ["a,b"], ["a", "b"];
    assert x[1..] == [] && y[1..] == ["b"] && y[1..][1..] == [];
    assert PrintIps(x) == "a,b," == PrintIps(y);
  }
}
