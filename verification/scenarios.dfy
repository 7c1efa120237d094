/** Concrete configurations, stated as lemmas about the model. */
module Scenarios {
  import opened Wrappers
  import opened CStrings
  import opened Ranges
  import opened Pool
  import opened Allocation
  import opened Matcher
  import opened Plugin

  /** A /24-style realm, 192.168.1.0 with netmask 255.255.255.0, spans
      192.168.1.0 to 192.168.1.255 and offers 252 addresses: .0, .1, .254
      and .255 are withheld. */
  lemma ClassCRealm()
    ensures var r := Derive([192, 168, 1, 0], [255, 255, 255, 0]);
      && r.end == [192, 168, 1, 255]
      && |Generate(r)| == 252
      && !PoolAddress(r, [192, 168, 1, 0]) && !PoolAddress(r, [192, 168, 1, 1])
      && !PoolAddress(r, [192, 168, 1, 254]) && !PoolAddress(r, [192, 168, 1, 255])
      && PoolAddress(r, [192, 168, 1, 2]) && PoolAddress(r, [192, 168, 1, 253])
  {
    var r := Derive([192, 168, 1, 0], [255, 255, 255, 0]);
    assert r.end == [192, 168, 1, 255];
    GenerateSize(r);
  }

  /** First match wins: with realms `a.*` then `.*`, a name starting with
      `a` matches both, and leases from the first while it has room. */
  lemma FirstMatchWins(realms: seq<Realm>, name: CString)
    requires |realms| == 2 && realms[0].conf.regex == "a.*" && realms[1].conf.regex == ".*"
    requires !Full(realms[0].pool)
    requires |name| > 0 && name[0] == 'a'
    ensures Matches(realms[0], name) && Matches(realms[1], name)
    ensures var c := Connect(realms, NoClient, name);
      c.status == Success && c.client.ip.value.realm == 0
  {
    assert MatchHere(".*", name);
    assert MatchHere(".*", name[1..]);
    assert "a.*"[1..] == ".*";
    assert MatchHere("a.*", name);
    assert FirstMatchAt(realms, name, 0);
  }

  /** One realm under `^client` with the single address 10.0.0.2. */
  function OneSlotRealms(): seq<Realm>
  {
    Configure([RealmConf([10, 0, 0, 0], "^client", [255, 255, 255, 251])])
  }

  lemma OneSlotPool()
    ensures |OneSlotRealms()| == 1
    ensures OneSlotRealms()[0].conf.regex == "^client"
    ensures OneSlotRealms()[0].pool == [FreeSlot([10, 0, 0, 2])]
  {
    var r := OneSlotRealms()[0].range;
    assert r.end == [10, 0, 0, 4];
    assert Generate(r) == [FreeSlot([10, 0, 0, 2])];
  }

  /** `^client` matches exactly the names that start with `client`. */
  lemma ClientPrefix(name: CString)
    ensures Match("^client", name) <==> (|name| >= 6 && name[..6] == "client")
  {
    assert "^client"[1..] == "client";
    LiteralMatchesPrefix("client", name);
  }

  /** In a lone realm under `^client` with one free slot, a client whose
      name starts with `client` gets that slot and its address is written. */
  lemma LoneRealmFirstClient(realms: seq<Realm>, name: CString)
    requires |realms| == 1 && realms[0].conf.regex == "^client"
    requires |realms[0].pool| == 1 && !realms[0].pool[0].used
    requires |name| >= 6 && name[..6] == "client"
    ensures var c := Connect(realms, NoClient, name);
      && c.status == Success
      && c.effect == WriteConf(name, realms[0].pool[0].address, realms[0].conf.netmask)
      && c.realms[0].pool == [Slot(realms[0].pool[0].address, true, Some(name))]
      && Full(c.realms[0].pool)
  {
    ClientPrefix(name);
    assert FirstMatchAt(realms, name, 0);
  }

  /** In a lone realm under `^client` whose pool is full, a client whose
      name starts with `client` is refused and its file is deleted. */
  lemma LoneRealmRefuses(realms: seq<Realm>, name: CString)
    requires |realms| == 1 && realms[0].conf.regex == "^client" && Full(realms[0].pool)
    requires |name| >= 6 && name[..6] == "client"
    ensures Connect(realms, NoClient, name) == Step(realms, NoClient, Error, DeleteConf(Some(name)))
  {
    ClientPrefix(name);
    assert FirstMatchAt(realms, name, 0);
  }

  /** The configured one-address realm: the first `client...` gets
      10.0.0.2, a second `client...` is refused and its file deleted. */
  lemma SingleSlotRealm(first: CString, second: CString)
    requires |first| >= 6 && first[..6] == "client"
    requires |second| >= 6 && second[..6] == "client"
    ensures var c1 := Connect(OneSlotRealms(), NoClient, first);
      && c1.status == Success
      && c1.effect == WriteConf(first, [10, 0, 0, 2], [255, 255, 255, 251])
      && Connect(c1.realms, NoClient, second) == Step(c1.realms, NoClient, Error, DeleteConf(Some(second)))
  {
    var realms := OneSlotRealms();
    OneSlotPool();
    LoneRealmFirstClient(realms, first);
    var c1 := Connect(realms, NoClient, first);
    LoneRealmRefuses(c1.realms, second);
  }

  /** A name that does not start with `client` matches no realm: error,
      and nothing changes. */
  lemma SingleSlotNoMatch(name: CString)
    requires !(|name| >= 6 && name[..6] == "client")
    ensures Connect(OneSlotRealms(), NoClient, name) == Step(OneSlotRealms(), NoClient, Error, NoEffect)
  {
    OneSlotPool();
    ClientPrefix(name);
  }

  /** A disconnect for a client that never leased anything changes nothing
      and succeeds. */
  lemma DisconnectWithoutLease(realms: seq<Realm>)
    ensures Disconnect(realms, NoClient) == Step(realms, NoClient, Success, NoEffect)
  {
  }
}
