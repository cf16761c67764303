/** `discoverNetworkPrinters`: the advertisements that arrive during the
    discovery window, kept once per identity key in order of first arrival.
    The service-discovery library and the timer are not modelled: the
    window's events are given as a sequence in arrival order. */
module Network {
  import opened Wrappers
  import Numbers

  /** A service advertisement as the discovery library delivers it; None
      fields are `undefined`. */
  datatype Advertisement = Advertisement(
    name: string,
    serviceType: string,
    host: Option<string>,
    port: Option<nat>,
    addresses: Option<seq<string>>,
    txt: Option<map<string, string>>)

  /** A discovered network printer: copies of the advertisement's fields,
      with missing addresses and TXT data replaced by empty ones. */
  datatype NetworkPrinter = NetworkPrinter(
    name: string,
    serviceType: string,
    host: Option<string>,
    port: Option<nat>,
    addresses: seq<string>,
    txt: map<string, string>)

  /** The record stored for a first-seen advertisement. */
  function Normalize(a: Advertisement): (p: NetworkPrinter)
    ensures p.name == a.name && p.serviceType == a.serviceType && p.host == a.host && p.port == a.port
    ensures a.addresses.None? ==> p.addresses == []
    ensures a.addresses.Some? ==> p.addresses == a.addresses.value
    ensures a.txt.None? ==> p.txt == map[]
    ensures a.txt.Some? ==> p.txt == a.txt.value
  {
    NetworkPrinter(a.name, a.serviceType, a.host, a.port, a.addresses.GetOr([]), a.txt.GetOr(map[]))
  }

  /** How a template literal renders a possibly undefined host. */
  function HostText(host: Option<string>): string {
    match host
    case Some(h) => h
    case None => "undefined"
  }

  /** How a template literal renders a possibly undefined port. */
  function PortText(port: Option<nat>): string {
    match port
    case Some(p) => Numbers.NatToString(p)
    case None => "undefined"
  }

  /** The key the source de-duplicates by: `${name}@${host}:${port}`. */
  function TextKey(a: Advertisement): string {
    a.name + "@" + HostText(a.host) + ":" + PortText(a.port)
  }

  /** The identity the de-duplication is meant to use: the triple itself. */
  datatype Identity = Identity(name: string, host: Option<string>, port: Option<nat>)

  function IdentityOf(a: Advertisement): Identity {
    Identity(a.name, a.host, a.port)
  }

  /** Which key de-duplication uses: the source's text key, or the triple. */
  datatype KeyKind = ByText | ByIdentity

  datatype Key = TextKeyOf(text: string) | IdentityKeyOf(identity: Identity)

  function KeyOf(kind: KeyKind, a: Advertisement): Key {
    match kind
    case ByText => TextKeyOf(TextKey(a))
    case ByIdentity => IdentityKeyOf(IdentityOf(a))
  }

  /** The key of every event, in arrival order. */
  function Keys(events: seq<Advertisement>, kind: KeyKind): (ks: seq<Key>)
    ensures |ks| == |events|
  {
    seq(|events|, j requires 0 <= j < |events| => KeyOf(kind, events[j]))
  }

  /** Whether a key before position `n` equals the key at `n`. */
  predicate SeenBefore<T(==)>(ks: seq<T>, n: nat)
    requires n < |ks|
  {
    exists j :: 0 <= j < n && ks[j] == ks[n]
  }

  /** The positions, among the first `n` keys, of the keys no earlier
      position holds: ascending and each a first arrival. */
  function FirstArrivalsUpTo<T(==)>(ks: seq<T>, n: nat): (idx: seq<nat>)
    requires n <= |ks|
    ensures forall m :: 0 <= m < |idx| ==> idx[m] < n
    ensures forall m, m' :: 0 <= m < m' < |idx| ==> idx[m] < idx[m']
    ensures forall m :: 0 <= m < |idx| ==> !SeenBefore(ks, idx[m])
    decreases n
  {
    if n == 0 then []
    else
      var earlier := FirstArrivalsUpTo(ks, n - 1);
      if SeenBefore(ks, n - 1) then earlier else earlier + [n - 1]
  }

  /** Some position listed in `idx`, at or before `j`, holds the key at `j`. */
  predicate KeyListed<T(==)>(ks: seq<T>, idx: seq<nat>, j: nat)
    requires j < |ks|
  {
    exists m :: 0 <= m < |idx| && idx[m] <= j && idx[m] < |ks| && ks[idx[m]] == ks[j]
  }

  /** Every key is the key of a first arrival at or before it. */
  lemma {:induction false} FirstArrivalsCover<T>(ks: seq<T>, n: nat)
    requires n <= |ks|
    ensures forall j :: 0 <= j < n ==> KeyListed(ks, FirstArrivalsUpTo(ks, n), j)
    decreases n
  {
    if n > 0 {
      FirstArrivalsCover(ks, n - 1);
      var idx := FirstArrivalsUpTo(ks, n);
      var earlier := FirstArrivalsUpTo(ks, n - 1);
      assert forall m :: 0 <= m < |earlier| ==> idx[m] == earlier[m];
      forall j | 0 <= j < n
        ensures KeyListed(ks, idx, j)
      {
        if j < n - 1 {
          assert KeyListed(ks, earlier, j);
          var m :| 0 <= m < |earlier| && earlier[m] <= j && ks[earlier[m]] == ks[j];
          assert idx[m] <= j && ks[idx[m]] == ks[j];
        } else if SeenBefore(ks, n - 1) {
          var j' :| 0 <= j' < n - 1 && ks[j'] == ks[n - 1];
          assert KeyListed(ks, earlier, j');
          var m :| 0 <= m < |earlier| && earlier[m] <= j' && ks[earlier[m]] == ks[j'];
          assert idx[m] <= j && ks[idx[m]] == ks[j];
        } else {
          assert idx[|idx| - 1] == n - 1;
        }
      }
    }
  }

  /** The first arrival of each key, in order of arrival. */
  function FirstArrivals<T(==)>(ks: seq<T>): seq<nat> {
    FirstArrivalsUpTo(ks, |ks|)
  }

  /** Exactly one first arrival per key: the first arrivals hold pairwise
      different keys, and every key is held by one of them. */
  lemma FirstArrivalsOnePerKey<T>(ks: seq<T>)
    ensures var idx := FirstArrivals(ks);
      && (forall m, m' :: 0 <= m < |idx| && 0 <= m' < |idx| && m != m' ==> ks[idx[m]] != ks[idx[m']])
      && (forall j :: 0 <= j < |ks| ==> KeyListed(ks, idx, j))
  {
    var idx := FirstArrivals(ks);
    FirstArrivalsCover(ks, |ks|);
    forall m, m' | 0 <= m < |idx| && 0 <= m' < |idx| && m != m'
      ensures ks[idx[m]] != ks[idx[m']]
    {
      if m < m' {
        assert !SeenBefore(ks, idx[m']);
      } else {
        assert !SeenBefore(ks, idx[m]);
      }
    }
  }

  /** The callback loop and `Object.values(found)`: `found` maps each key
      to the record of its first advertisement and `order` lists the keys
      in insertion order, which is the order `Object.values` returns for
      keys that are not array indices. The result holds one record per key,
      in order of first arrival, each built from the first advertisement
      with that key; later duplicates are dropped, not merged. */
  method Collect(events: seq<Advertisement>, kind: KeyKind) returns (list: seq<NetworkPrinter>)
    ensures var idx := FirstArrivals(Keys(events, kind));
      |list| == |idx| && forall m :: 0 <= m < |list| ==> idx[m] < |events| && list[m] == Normalize(events[idx[m]])
  {
    var ks := Keys(events, kind);
    var found: map<Key, NetworkPrinter> := map[];
    var order: seq<Key> := [];
    var i := 0;
    while i < |events|
      invariant 0 <= i <= |events|
      invariant Stored(ks, events, i, found, order)
      invariant Tracks(ks, i, found)
    {
      var k := ks[i];
      if k !in found {
        StoreFirst(ks, events, i, found, order);
        found := found[k := Normalize(events[i])];
        order := order + [k];
      } else {
        SkipDuplicate(ks, events, i, found, order);
      }
      i := i + 1;
    }
    list := seq(|order|, m requires 0 <= m < |order| && order[m] in found => found[order[m]]);
    assert ks[..|events|] == ks;
  }

  /** `order` lists the keys of the first arrivals among the first `i`
      events, and `found` maps each to its first advertisement's record. */
  ghost predicate Stored(ks: seq<Key>, events: seq<Advertisement>, i: nat, found: map<Key, NetworkPrinter>, order: seq<Key>)
    requires i <= |ks| == |events|
  {
    var idx := FirstArrivalsUpTo(ks, i);
    && |order| == |idx|
    && forall m :: 0 <= m < |order| ==>
         && order[m] in found
         && order[m] == ks[idx[m]]
         && found[order[m]] == Normalize(events[idx[m]])
  }

  /** `found` holds exactly the keys among the first `i`. */
  ghost predicate Tracks(ks: seq<Key>, i: nat, found: map<Key, NetworkPrinter>)
    requires i <= |ks|
  {
    forall id :: id in found <==> id in ks[..i]
  }

  /** Storing an unseen key extends what is stored by one first arrival. */
  lemma StoreFirst(ks: seq<Key>, events: seq<Advertisement>, i: nat, found: map<Key, NetworkPrinter>, order: seq<Key>)
    requires i < |ks| == |events|
    requires Stored(ks, events, i, found, order)
    requires Tracks(ks, i, found)
    requires ks[i] !in found
    ensures Stored(ks, events, i + 1, found[ks[i] := Normalize(events[i])], order + [ks[i]])
    ensures Tracks(ks, i + 1, found[ks[i] := Normalize(events[i])])
  {
    assert ks[..i + 1] == ks[..i] + [ks[i]];
    assert !SeenBefore(ks, i) by {
      forall j | 0 <= j < i ensures ks[j] != ks[i] {
        assert ks[j] == ks[..i][j];
      }
    }
    assert forall m :: 0 <= m < |order| ==> order[m] != ks[i];
  }

  /** A key seen before leaves what is stored as it is. */
  lemma SkipDuplicate(ks: seq<Key>, events: seq<Advertisement>, i: nat, found: map<Key, NetworkPrinter>, order: seq<Key>)
    requires i < |ks| == |events|
    requires Stored(ks, events, i, found, order)
    requires Tracks(ks, i, found)
    requires ks[i] in found
    ensures Stored(ks, events, i + 1, found, order)
    ensures Tracks(ks, i + 1, found)
  {
    assert ks[..i + 1] == ks[..i] + [ks[i]];
    assert SeenBefore(ks, i) by {
      var j :| 0 <= j < i && ks[..i][j] == ks[i];
      assert ks[j] == ks[i];
    }
  }

  /** `discoverNetworkPrinters`, keyed as the source keys it: by the text
      `${name}@${host}:${port}`. */
  method DiscoverNetworkPrinters(events: seq<Advertisement>) returns (list: seq<NetworkPrinter>)
    ensures var idx := FirstArrivals(Keys(events, ByText));
      |list| == |idx| && forall m :: 0 <= m < |list| ==> idx[m] < |events| && list[m] == Normalize(events[idx[m]])
  {
    list := Collect(events, ByText);
  }

  function PrinterIdentity(p: NetworkPrinter): Identity {
    Identity(p.name, p.host, p.port)
  }

  /** `list` holds, in order, the normalised first arrival of each key. */
  predicate Collected(events: seq<Advertisement>, kind: KeyKind, list: seq<NetworkPrinter>) {
    var idx := FirstArrivals(Keys(events, kind));
    |list| == |idx| && forall m :: 0 <= m < |list| ==> idx[m] < |events| && list[m] == Normalize(events[idx[m]])
  }

  /** Some record in `list` carries the triple `id`. */
  predicate ListsIdentity(list: seq<NetworkPrinter>, id: Identity) {
    exists m :: 0 <= m < |list| && PrinterIdentity(list[m]) == id
  }

  /** No event before position `j` has the triple of the event at `j`. */
  predicate FirstOfIdentity(events: seq<Advertisement>, j: nat)
    requires j < |events|
  {
    forall j' :: 0 <= j' < j ==> IdentityOf(events[j']) != IdentityOf(events[j])
  }

  /** `p` is the normalised record of the first event with its triple. */
  predicate FromFirstArrival(events: seq<Advertisement>, p: NetworkPrinter) {
    exists j :: 0 <= j < |events| && p == Normalize(events[j]) && FirstOfIdentity(events, j)
  }

  /** The records are the normalised events at ascending positions, each
      the first event with its triple: the order of first arrival. */
  ghost predicate InArrivalOrder(events: seq<Advertisement>, list: seq<NetworkPrinter>) {
    exists idx: seq<nat> ::
      && |idx| == |list|
      && (forall m, m' :: 0 <= m < m' < |idx| ==> idx[m] < idx[m'])
      && forall m :: 0 <= m < |idx| ==>
           idx[m] < |events| && list[m] == Normalize(events[idx[m]]) && FirstOfIdentity(events, idx[m])
  }

  /** De-duplication by the (name, host, port) triple: the result holds one
      record per distinct triple among the events, and each record is the
      normalised first advertisement of its triple, in order of first
      arrival. */
  method DiscoverByIdentity(events: seq<Advertisement>) returns (list: seq<NetworkPrinter>)
    ensures forall m, m' :: 0 <= m < |list| && 0 <= m' < |list| && m != m' ==>
      PrinterIdentity(list[m]) != PrinterIdentity(list[m'])
    ensures forall j :: 0 <= j < |events| ==> ListsIdentity(list, IdentityOf(events[j]))
    ensures forall m :: 0 <= m < |list| ==> FromFirstArrival(events, list[m])
    ensures InArrivalOrder(events, list)
  {
    list := Collect(events, ByIdentity);
    IdentitiesDistinct(events, list);
    IdentitiesCovered(events, list);
    IdentitiesFirst(events, list);
    IdentitiesInOrder(events, list);
  }

  lemma IdentitiesDistinct(events: seq<Advertisement>, list: seq<NetworkPrinter>)
    requires Collected(events, ByIdentity, list)
    ensures forall m, m' :: 0 <= m < |list| && 0 <= m' < |list| && m != m' ==>
      PrinterIdentity(list[m]) != PrinterIdentity(list[m'])
  {
    var ks := Keys(events, ByIdentity);
    var idx := FirstArrivals(ks);
    FirstArrivalsOnePerKey(ks);
    forall m, m' | 0 <= m < |list| && 0 <= m' < |list| && m != m'
      ensures PrinterIdentity(list[m]) != PrinterIdentity(list[m'])
    {
      assert ks[idx[m]] != ks[idx[m']];
    }
  }

  lemma IdentitiesCovered(events: seq<Advertisement>, list: seq<NetworkPrinter>)
    requires Collected(events, ByIdentity, list)
    ensures forall j :: 0 <= j < |events| ==> ListsIdentity(list, IdentityOf(events[j]))
  {
    var ks := Keys(events, ByIdentity);
    var idx := FirstArrivals(ks);
    FirstArrivalsOnePerKey(ks);
    forall j | 0 <= j < |events|
      ensures ListsIdentity(list, IdentityOf(events[j]))
    {
      assert KeyListed(ks, idx, j);
      var m :| 0 <= m < |idx| && idx[m] <= j && idx[m] < |ks| && ks[idx[m]] == ks[j];
      assert 0 <= m < |list| && PrinterIdentity(list[m]) == IdentityOf(events[j]);
    }
  }

  lemma IdentitiesInOrder(events: seq<Advertisement>, list: seq<NetworkPrinter>)
    requires Collected(events, ByIdentity, list)
    ensures InArrivalOrder(events, list)
  {
    var ks := Keys(events, ByIdentity);
    var idx := FirstArrivals(ks);
    forall m | 0 <= m < |idx|
      ensures idx[m] < |events| && FirstOfIdentity(events, idx[m])
    {
      var j := idx[m];
      assert !SeenBefore(ks, j);
      forall j' | 0 <= j' < j
        ensures IdentityOf(events[j']) != IdentityOf(events[j])
      {
        assert ks[j'] != ks[j];
      }
    }
  }

  lemma IdentitiesFirst(events: seq<Advertisement>, list: seq<NetworkPrinter>)
    requires Collected(events, ByIdentity, list)
    ensures forall m :: 0 <= m < |list| ==> FromFirstArrival(events, list[m])
  {
    var ks := Keys(events, ByIdentity);
    var idx := FirstArrivals(ks);
    forall m | 0 <= m < |list|
      ensures FromFirstArrival(events, list[m])
    {
      var j := idx[m];
      assert !SeenBefore(ks, j);
      forall j' | 0 <= j' < j
        ensures IdentityOf(events[j']) != IdentityOf(events[j])
      {
        assert ks[j'] != ks[j];
      }
      assert 0 <= j < |events| && list[m] == Normalize(events[j]) && FirstOfIdentity(events, j);
    }
  }

  /** Two key sequences with the same equalities between positions have the
      same first arrivals. */
  lemma {:induction false} FirstArrivalsSamePattern<T, U>(ks: seq<T>, us: seq<U>, n: nat)
    requires |ks| == |us| && n <= |ks|
    requires forall j, j' :: 0 <= j < |ks| && 0 <= j' < |ks| ==> (ks[j] == ks[j'] <==> us[j] == us[j'])
    ensures FirstArrivalsUpTo(ks, n) == FirstArrivalsUpTo(us, n)
    decreases n
  {
    if n > 0 {
      FirstArrivalsSamePattern(ks, us, n - 1);
      assert SeenBefore(ks, n - 1) <==> SeenBefore(us, n - 1);
    }
  }

  /** Where no two events share a text key without sharing the triple, the
      text key de-duplicates exactly as the triple does. */
  lemma TextKeyAgreesWithoutCollision(events: seq<Advertisement>)
    requires forall j, j' :: 0 <= j < |events| && 0 <= j' < |events| ==>
      (TextKey(events[j]) == TextKey(events[j']) ==> IdentityOf(events[j]) == IdentityOf(events[j']))
    ensures FirstArrivals(Keys(events, ByText)) == FirstArrivals(Keys(events, ByIdentity))
  {
    var ks, us := Keys(events, ByText), Keys(events, ByIdentity);
    forall j, j' | 0 <= j < |ks| && 0 <= j' < |ks|
      ensures ks[j] == ks[j'] <==> us[j] == us[j']
    {
      if us[j] == us[j'] {
        assert IdentityOf(events[j]) == IdentityOf(events[j']);
      }
    }
    FirstArrivalsSamePattern(ks, us, |ks|);
  }

  /** The text key runs name, host and port together, so a name holding `@`
      can collide with a host holding `@`: two printers with different
      triples share one key, and the source reports only the first. */
  lemma TextKeyCollision(port: Option<nat>)
    ensures var a := Advertisement("x@y", "ipp", Some("z"), port, None, None);
      var b := Advertisement("x", "ipp", Some("y@z"), port, None, None);
      && IdentityOf(a) != IdentityOf(b)
      && TextKey(a) == TextKey(b)
      && FirstArrivals(Keys([a, b], ByText)) == [0]
      && FirstArrivals(Keys([a, b], ByIdentity)) == [0, 1]
  {
    var a := Advertisement("x@y", "ipp", Some("z"), port, None, None);
    var b := Advertisement("x", "ipp", Some("y@z"), port, None, None);
    assert TextKey(a) == "x@y@z:" + PortText(port) == TextKey(b);
    var ks := Keys([a, b], ByText);
    assert ks[0] == ks[1];
    assert SeenBefore(ks, 1);
    assert FirstArrivalsUpTo(ks, 1) == [0];
    var us := Keys([a, b], ByIdentity);
    assert us[0] != us[1];
    assert FirstArrivalsUpTo(us, 1) == [0];
  }
}
