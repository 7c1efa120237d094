/** The plugin state and its two events: client_connect picks the realm by
    pattern and leases a slot, client_disconnect releases it. File writes
    and deletions are returned as effects instead of being performed. */
module Plugin {
  import opened Wrappers
  import opened CStrings
  import opened Ranges
  import opened Pool
  import opened Allocation
  import opened Matcher
  import opened Search

  /** One configuration line `network#regex#netmask`, already parsed. */
  datatype RealmConf = RealmConf(network: Quad, regex: CString, netmask: Quad)

  /** realm_conf: the configuration, its derived range and its pool. */
  datatype Realm = Realm(conf: RealmConf, range: Range, pool: seq<Slot>)

  /** Where a client's `ip` pointer points: slot `index` of realm `realm`. */
  datatype SlotRef = SlotRef(realm: nat, index: nat)

  /** plugin_per_client_context: the leased slot, and the name the generated
      file was created under. Both start out NULL. */
  datatype ClientCtx = ClientCtx(ip: Option<SlotRef>, confFile: Option<CString>)

  /** OPENVPN_PLUGIN_FUNC_SUCCESS / OPENVPN_PLUGIN_FUNC_ERROR. */
  datatype Status = Success | Error

  /** The file-system work an event asks for, keyed by common name (the
      file lives at the configuration directory followed by that name).
      `DeleteConf(None)` is the deletion of a file named after a NULL holder. */
  datatype Effect =
    | NoEffect
    | WriteConf(name: CString, address: Quad, netmask: Quad)
    | DeleteConf(file: Option<CString>)

  /** The outcome of an event: the new realms, the client context, the
      return code and the requested effect. */
  datatype Step = Step(realms: seq<Realm>, client: ClientCtx, status: Status, effect: Effect)

  const NoClient := ClientCtx(None, None)

  /** Every pool keeps the holder-iff-used invariant. */
  ghost predicate Valid(realms: seq<Realm>)
  {
    forall i :: 0 <= i < |realms| ==> WellFormed(realms[i].pool)
  }

  /** The client's pointer, if set, points at an existing slot. */
  predicate RefersInto(realms: seq<Realm>, ctx: ClientCtx)
  {
    ctx.ip.Some? ==> ctx.ip.value.realm < |realms| && ctx.ip.value.index < |realms[ctx.ip.value.realm].pool|
  }

  ghost predicate Full(pool: seq<Slot>)
  {
    forall i :: 0 <= i < |pool| ==> pool[i].used
  }

  /** The realm's pattern matches the common name. */
  predicate Matches(realm: Realm, name: CString)
  {
    Match(realm.conf.regex, name)
  }

  /** Realm `i` is the first in configuration order whose pattern matches. */
  ghost predicate FirstMatchAt(realms: seq<Realm>, name: CString, i: int)
  {
    0 <= i < |realms| && Matches(realms[i], name) && forall j :: 0 <= j < i ==> !Matches(realms[j], name)
  }

  /** One realm as loaded at start-up: range from network and netmask, and
      one free slot, held by nobody, per pool address of the range, in
      ascending address order. */
  function LoadRealm(c: RealmConf): (r: Realm)
    ensures r.conf == c && r.range == Derive(c.network, c.netmask)
    ensures WellFormed(r.pool)
    ensures forall k :: 0 <= k < |r.pool| ==>
      r.pool[k] == FreeSlot(r.pool[k].address) && PoolAddress(r.range, r.pool[k].address)
    ensures forall a :: PoolAddress(r.range, a) <==> exists k :: 0 <= k < |r.pool| && r.pool[k].address == a
    ensures forall k, k' :: 0 <= k < k' < |r.pool| ==> Before(r.pool[k].address, r.pool[k'].address)
  {
    var range := Derive(c.network, c.netmask);
    GenerateContents(range);
    Realm(c, range, Generate(range))
  }

  /** The start-up sequence: every configuration line becomes a realm, in
      file order, with an all-free pool. */
  function Configure(confs: seq<RealmConf>): (r: seq<Realm>)
    ensures |r| == |confs|
    ensures forall i :: 0 <= i < |r| ==> r[i] == LoadRealm(confs[i])
    ensures Valid(r)
    ensures forall i, k :: 0 <= i < |r| && 0 <= k < |r[i].pool| ==> !r[i].pool[k].used
  {
    seq(|confs|, i requires 0 <= i < |confs| => LoadRealm(confs[i]))
  }

  /** The matched branch of client_connect, for realm `i`: if its pool has
      a free slot, the first one is leased to `name`, the client points at
      it and the file `ifconfig-push address netmask` is written; if the
      pool is full the result is an error and the client's file is deleted.
      Other realms are not touched. */
  function Lease(realms: seq<Realm>, ctx: ClientCtx, name: CString, i: nat): (r: Step)
    requires i < |realms|
    ensures |r.realms| == |realms|
    ensures forall j :: 0 <= j < |realms| && j != i ==> r.realms[j] == realms[j]
    ensures r.realms[i].conf == realms[i].conf && r.realms[i].range == realms[i].range
    ensures |r.realms[i].pool| == |realms[i].pool|
    ensures Valid(realms) ==> Valid(r.realms)
    ensures Full(realms[i].pool) ==> r == Step(realms, ctx, Error, DeleteConf(Some(name)))
    ensures !Full(realms[i].pool) ==> r.status == Success
    ensures r.status == Success ==>
      && r.client.ip.Some? && r.client.ip.value.realm == i
      && var k := r.client.ip.value.index;
      && k < |realms[i].pool|
      && !realms[i].pool[k].used
      && (forall k' :: 0 <= k' < k ==> realms[i].pool[k'].used)
      && r.realms[i].pool == realms[i].pool[k := Slot(realms[i].pool[k].address, true, Some(name))]
      && r.client.confFile == Some(name)
      && r.effect == WriteConf(name, realms[i].pool[k].address, realms[i].conf.netmask)
  {
    var a := Acquire(realms[i].pool, name);
    match a.index
    case None => Step(realms, ctx, Error, DeleteConf(Some(name)))
    case Some(k) =>
      assert a.pool == realms[i].pool[k := Slot(realms[i].pool[k].address, true, Some(name))];
      Step(realms[i := realms[i].(pool := a.pool)],
           ClientCtx(Some(SlotRef(i, k)), Some(name)),
           Success,
           WriteConf(name, a.pool[k].address, realms[i].conf.netmask))
  }

  /** client_connect for common name `name`: realms are tried in
      configuration order and the first whose pattern matches is the only
      one tried, with no fallback to later realms when its pool is full; if
      no realm matches the result is an error and nothing happens. An
      existing lease of the client is overwritten, not released. */
  function Connect(realms: seq<Realm>, ctx: ClientCtx, name: CString): (r: Step)
    ensures (forall i :: 0 <= i < |realms| ==> !Matches(realms[i], name)) ==>
      r == Step(realms, ctx, Error, NoEffect)
    ensures forall i :: FirstMatchAt(realms, name, i) ==> r == Lease(realms, ctx, name, i)
    ensures r.status == Success ==> r.client.ip.Some? && FirstMatchAt(realms, name, r.client.ip.value.realm)
    ensures r.status == Error ==> r.realms == realms && r.client == ctx
    ensures Valid(realms) ==> Valid(r.realms)
    ensures RefersInto(realms, ctx) ==> RefersInto(r.realms, r.client)
  {
    match FirstIndex(realms, (realm: Realm) => Matches(realm, name))
    case None => Step(realms, ctx, Error, NoEffect)
    case Some(i) => Lease(realms, ctx, name, i)
  }

  /** client_disconnect: when the client points at a slot, that slot is
      freed and loses its holder, and the file named after the slot's holder
      is deleted; nothing else changes. Without a slot nothing happens.
      Either way the result is success and the client context is left as
      it was (the C code never clears its pointer). */
  function Disconnect(realms: seq<Realm>, ctx: ClientCtx): (r: Step)
    requires RefersInto(realms, ctx)
    ensures r.status == Success && r.client == ctx
    ensures |r.realms| == |realms|
    ensures ctx.ip.None? ==> r.realms == realms && r.effect == NoEffect
    ensures ctx.ip.Some? ==>
      var i, k := ctx.ip.value.realm, ctx.ip.value.index;
      && r.effect == DeleteConf(realms[i].pool[k].holder)
      && |r.realms[i].pool| == |realms[i].pool|
      && r.realms[i].pool[k] == FreeSlot(realms[i].pool[k].address)
      && r.realms[i].conf == realms[i].conf && r.realms[i].range == realms[i].range
      && (forall k' :: 0 <= k' < |realms[i].pool| && k' != k ==> r.realms[i].pool[k'] == realms[i].pool[k'])
      && (forall j :: 0 <= j < |realms| && j != i ==> r.realms[j] == realms[j])
    ensures Valid(realms) ==> Valid(r.realms)
    ensures RefersInto(r.realms, r.client)
  {
    match ctx.ip
    case None => Step(realms, ctx, Success, NoEffect)
    case Some(ref) =>
      var realm := realms[ref.realm];
      Step(realms[ref.realm := realm.(pool := Release(realm.pool, ref.index))],
           ctx, Success, DeleteConf(realm.pool[ref.index].holder))
  }

  /** A second disconnect of the same client changes no slot. */
  lemma DisconnectIdempotent(realms: seq<Realm>, ctx: ClientCtx)
    requires RefersInto(realms, ctx)
    ensures var once := Disconnect(realms, ctx).realms;
      Disconnect(once, ctx).realms == once
  {
    if ctx.ip.Some? {
      var ref := ctx.ip.value;
      ReleaseIdempotent(realms[ref.realm].pool, ref.index);
    }
  }

  /** A successful connect followed by the client's disconnect restores
      every pool and deletes exactly the file that connect wrote. */
  lemma ConnectDisconnectRoundTrip(realms: seq<Realm>, ctx: ClientCtx, name: CString)
    requires Valid(realms)
    ensures var c := Connect(realms, ctx, name);
      c.status == Success ==>
        && RefersInto(c.realms, c.client)
        && Disconnect(c.realms, c.client).realms == realms
        && Disconnect(c.realms, c.client).effect == DeleteConf(Some(name))
  {
    var c := Connect(realms, ctx, name);
    if c.status == Success {
      var i, k := c.client.ip.value.realm, c.client.ip.value.index;
      assert WellFormed(realms[i].pool);
      assert realms[i].pool[k] == FreeSlot(realms[i].pool[k].address);
      var d := Disconnect(c.realms, c.client);
      assert d.realms[i].pool == realms[i].pool;
      assert d.realms[i] == realms[i];
    }
  }

  /** Connecting a client that already holds a slot leases a second slot
      and leaves the first one used and held: the old pointer is simply
      overwritten and the old slot is never released. */
  lemma ReconnectLeaksOldLease(realms: seq<Realm>, ctx: ClientCtx, name: CString)
    requires RefersInto(realms, ctx) && ctx.ip.Some?
    requires realms[ctx.ip.value.realm].pool[ctx.ip.value.index].used
    ensures var c := Connect(realms, ctx, name);
      var prev := ctx.ip.value;
      c.status == Success ==>
        && c.client.ip != ctx.ip
        && c.realms[prev.realm].pool[prev.index] == realms[prev.realm].pool[prev.index]
  {
  }
}
