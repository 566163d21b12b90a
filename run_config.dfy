/**
 * The start-up checks on the run configuration (`config.cc`): building the
 * table of request bodies by unique name, validating the groups against it,
 * and clearing the table at shutdown.
 */
module RunConfig {
  import opened Results
  import opened MessageRegistry
  import opened RobotConfig

  /** `kMaxTotalClientNum`: the most clients (one thread each) a run may ask for. */
  const KMaxTotalClientNum: int := 10000

  const TwoTo32: int := 0x1_0000_0000

  // ----- client identity keys -----

  /**
   * The 64-bit key of a client: `uid` shifted into the upper half (so only its
   * low 32 bits survive) and `role_time` truncated to `uint32_t` in the lower half.
   */
  function Key(c: ClientCfg): (k: int)
    ensures 0 <= k < TwoTo32 * TwoTo32
  {
    (c.uid % TwoTo32) * TwoTo32 + c.roleTime % TwoTo32
  }

  lemma SplitUnique(h1: int, l1: int, h2: int, l2: int)
    requires 0 <= l1 < TwoTo32 && 0 <= l2 < TwoTo32
    requires h1 * TwoTo32 + l1 == h2 * TwoTo32 + l2
    ensures h1 == h2 && l1 == l2
  {
  }

  /** Two clients clash exactly when their uids and their role times agree in the low 32 bits. */
  lemma KeysClashIff(a: ClientCfg, b: ClientCfg)
    ensures Key(a) == Key(b) <==> a.uid % TwoTo32 == b.uid % TwoTo32 && a.roleTime % TwoTo32 == b.roleTime % TwoTo32
  {
    if Key(a) == Key(b) {
      SplitUnique(a.uid % TwoTo32, a.roleTime % TwoTo32, b.uid % TwoTo32, b.roleTime % TwoTo32);
    }
  }

  /** For identities that fit 32 unsigned bits the key is injective: only the same client clashes. */
  lemma KeyInjectiveOn32Bits(a: ClientCfg, b: ClientCfg)
    requires 0 <= a.uid < TwoTo32 && 0 <= a.roleTime < TwoTo32
    requires 0 <= b.uid < TwoTo32 && 0 <= b.roleTime < TwoTo32
    ensures Key(a) == Key(b) <==> a == b
  {
    KeysClashIff(a, b);
  }

  // ----- what ValidationRobotConfigs accepts -----

  /** Every client of the groups, group after group. */
  function AllClients(groups: seq<Group>): (r: seq<ClientCfg>)
    decreases |groups|
  {
    if |groups| == 0 then [] else AllClients(groups[..|groups| - 1]) + groups[|groups| - 1].clients
  }

  /** The sum of `client_count` over the groups. */
  function TotalClients(groups: seq<Group>): int
    decreases |groups|
  {
    if |groups| == 0 then 0 else TotalClients(groups[..|groups| - 1]) + groups[|groups| - 1].clientCount
  }

  /** The keys of a sequence of clients. */
  function KeysOf(cs: seq<ClientCfg>): set<int>
    decreases |cs|
  {
    if |cs| == 0 then {} else KeysOf(cs[..|cs| - 1]) + {Key(cs[|cs| - 1])}
  }

  /** A key is in `KeysOf(cs)` exactly when some client of `cs` has it. */
  lemma {:induction false} KeysOfMembers(cs: seq<ClientCfg>, x: int)
    ensures x in KeysOf(cs) <==> exists k :: 0 <= k < |cs| && Key(cs[k]) == x
    decreases |cs|
  {
    if |cs| > 0 {
      var init := cs[..|cs| - 1];
      KeysOfMembers(init, x);
      assert forall k :: 0 <= k < |init| ==> init[k] == cs[k];
      if x in KeysOf(init) {
        var k :| 0 <= k < |init| && Key(init[k]) == x;
        assert Key(cs[k]) == x;
      }
    }
  }

  /** No two clients share a key. */
  predicate DistinctKeys(cs: seq<ClientCfg>) {
    forall i, j :: 0 <= i < j < |cs| ==> Key(cs[i]) != Key(cs[j])
  }

  /** A group lists at least the `client_count` clients it asks for. */
  predicate EnoughClients(g: Group) {
    |g.clients| >= g.clientCount
  }

  /**
   * The configuration `ValidationRobotConfigs` accepts: every group lists
   * enough clients and names only known request bodies, no two clients of
   * the whole run share a key, and the run asks for at most
   * `KMaxTotalClientNum` clients.
   */
  predicate ValidRobotConfig(groups: seq<Group>, uniqNameMap: map<string, UniqRequest>) {
    && (forall g :: 0 <= g < |groups| ==> EnoughClients(groups[g]) && NamesResolved(groups[g].actions, uniqNameMap))
    && DistinctKeys(AllClients(groups))
    && TotalClients(groups) <= KMaxTotalClientNum
  }

  lemma AllClientsSnoc(groups: seq<Group>, i: int)
    requires 0 <= i < |groups|
    ensures AllClients(groups[..i + 1]) == AllClients(groups[..i]) + groups[i].clients
    ensures TotalClients(groups[..i + 1]) == TotalClients(groups[..i]) + groups[i].clientCount
  {
    assert groups[..i + 1][..i] == groups[..i];
  }

  lemma {:induction false} AllClientsPrefix(groups: seq<Group>, n: int)
    requires 0 <= n <= |groups|
    ensures AllClients(groups[..n]) <= AllClients(groups)
    decreases |groups|
  {
    if n < |groups| {
      var init := groups[..|groups| - 1];
      AllClientsPrefix(init, n);
      assert init[..n] == groups[..n];
    } else {
      assert groups[..n] == groups;
    }
  }

  lemma KeysOfSnoc(seen: seq<ClientCfg>, c: ClientCfg)
    ensures KeysOf(seen + [c]) == KeysOf(seen) + {Key(c)}
  {
    assert (seen + [c])[..|seen|] == seen;
  }

  /** Adding a client whose key is new keeps the keys distinct. */
  lemma DistinctSnoc(seen: seq<ClientCfg>, c: ClientCfg)
    requires DistinctKeys(seen) && Key(c) !in KeysOf(seen)
    ensures DistinctKeys(seen + [c])
  {
    KeysOfMembers(seen, Key(c));
    var s := seen + [c];
    forall i, j | 0 <= i < j < |s| ensures Key(s[i]) != Key(s[j]) {
      if j == |seen| {
        assert s[i] == seen[i];
      } else {
        assert s[i] == seen[i] && s[j] == seen[j];
      }
    }
  }

  /** A client whose key was already seen, in a prefix of the run's clients, breaks distinctness of the whole. */
  lemma DuplicateBreaksDistinct(seen: seq<ClientCfg>, c: ClientCfg, all: seq<ClientCfg>)
    requires Key(c) in KeysOf(seen) && seen + [c] <= all
    ensures !DistinctKeys(all)
  {
    KeysOfMembers(seen, Key(c));
    var k :| 0 <= k < |seen| && Key(seen[k]) == Key(c);
    assert all[k] == seen[k] && all[|seen|] == (seen + [c])[|seen|];
  }

  /** A clash among the first clients is a clash of the whole run. */
  lemma ClashExtends(s: seq<ClientCfg>, all: seq<ClientCfg>)
    requires s <= all && !DistinctKeys(s)
    ensures !DistinctKeys(all)
  {
    var i, j :| 0 <= i < j < |s| && Key(s[i]) == Key(s[j]);
    assert s[i] == all[i] && s[j] == all[j];
  }

  /**
   * The client loop of one group: each client's key is inserted into
   * `keys` (those of `seen`), stopping at the first key already present.
   */
  method InsertClientKeys(clients: seq<ClientCfg>, keys: set<int>, ghost seen: seq<ClientCfg>)
    returns (unique: bool, keys': set<int>)
    requires keys == KeysOf(seen) && DistinctKeys(seen)
    ensures unique <==> DistinctKeys(seen + clients)
    ensures unique ==> keys' == KeysOf(seen + clients)
  {
    keys' := keys;
    var c := 0;
    ghost var cur := seen;
    while c < |clients|
      invariant 0 <= c <= |clients|
      invariant cur == seen + clients[..c]
      invariant keys' == KeysOf(cur) && DistinctKeys(cur)
    {
      var key := Key(clients[c]);
      assert seen + clients[..c + 1] == cur + [clients[c]] by {
        assert clients[..c + 1] == clients[..c] + [clients[c]];
      }
      if key in keys' {
        assert cur + [clients[c]] <= seen + clients by {
          assert clients[..c + 1] <= clients;
        }
        DuplicateBreaksDistinct(cur, clients[c], seen + clients);
        return false, keys';
      }
      DistinctSnoc(cur, clients[c]);
      KeysOfSnoc(cur, clients[c]);
      keys' := keys' + {key};
      cur := cur + [clients[c]];
      c := c + 1;
    }
    assert clients[..c] == clients;
    unique := true;
  }

  // ----- the global tables -----

  /**
   * The process-wide `uniq_name_map`: one `UniqRequest` per body, by its
   * unique name, filled at start-up and read by every worker.
   */
  class ConfigTables {
    var uniqNameMap: map<string, UniqRequest>

    constructor()
      ensures uniqNameMap == map[]
    {
      uniqNameMap := map[];
    }

    /**
     * `ValidationRobotConfigs(cfg)`: one pass over the groups that adds up
     * `client_count`, checks each group has enough clients, records every
     * client's key (refusing one already seen) and looks up every request
     * name; then the total against the limit.
     */
    method ValidationRobotConfigs(cfg: CfgRoot) returns (ok: bool)
      ensures ok <==> ValidRobotConfig(cfg.groups, uniqNameMap)
    {
      var groups := cfg.groups;
      var totalClient := 0;
      var totalClientSet: set<int> := {};
      ghost var seen: seq<ClientCfg> := [];
      var i := 0;
      while i < |groups|
        invariant 0 <= i <= |groups|
        invariant totalClient == TotalClients(groups[..i])
        invariant seen == AllClients(groups[..i])
        invariant totalClientSet == KeysOf(seen) && DistinctKeys(seen)
        invariant forall g :: 0 <= g < i ==> EnoughClients(groups[g]) && NamesResolved(groups[g].actions, uniqNameMap)
      {
        AllClientsSnoc(groups, i);
        totalClient := totalClient + groups[i].clientCount;
        var groupOk;
        groupOk, totalClientSet := CheckGroup(groups[i], totalClientSet, seen);
        if !groupOk {
          if EnoughClients(groups[i]) && NamesResolved(groups[i].actions, uniqNameMap) {
            AllClientsPrefix(groups, i + 1);
            ClashExtends(seen + groups[i].clients, AllClients(groups));
          }
          return false;
        }
        seen := seen + groups[i].clients;
        i := i + 1;
      }
      assert groups[..i] == groups;
      if totalClient > KMaxTotalClientNum {
        return false;
      }
      return true;
    }

    /**
     * The body of the group loop: enough clients, every client's key new
     * (added to `keys`), every request name known.
     */
    method CheckGroup(group: Group, keys: set<int>, ghost seen: seq<ClientCfg>) returns (ok: bool, keys': set<int>)
      requires keys == KeysOf(seen) && DistinctKeys(seen)
      ensures ok <==> EnoughClients(group) && DistinctKeys(seen + group.clients) && NamesResolved(group.actions, uniqNameMap)
      ensures ok ==> keys' == KeysOf(seen + group.clients)
    {
      keys' := keys;
      if |group.clients| < group.clientCount {
        return false, keys';
      }
      var unique;
      unique, keys' := InsertClientKeys(group.clients, keys, seen);
      if !unique {
        return false, keys';
      }
      ok := RequestNamesResolved(group.actions);
    }

    /** The request-name loops of one group: every name of every action is in the table. */
    method RequestNamesResolved(actions: seq<Action>) returns (ok: bool)
      ensures ok <==> NamesResolved(actions, uniqNameMap)
    {
      var j := 0;
      while j < |actions|
        invariant 0 <= j <= |actions|
        invariant forall a, k :: 0 <= a < j && 0 <= k < |actions[a].requestUniqNames| ==>
          actions[a].requestUniqNames[k] in uniqNameMap
      {
        var action := actions[j];
        var k := 0;
        while k < |action.requestUniqNames|
          invariant 0 <= k <= |action.requestUniqNames|
          invariant forall m :: 0 <= m < k ==> action.requestUniqNames[m] in uniqNameMap
        {
          if action.requestUniqNames[k] !in uniqNameMap {
            return false;
          }
          k := k + 1;
        }
        j := j + 1;
      }
      return true;
    }

    /**
     * `CollectConfigInfos(cfg)`: each body in turn, refusing a repeated
     * unique name or a type the registry cannot create, and otherwise
     * entering it with an empty message of its type.
     */
    method CollectConfigInfos(reg: Registry, cfg: CfgRoot) returns (ok: bool)
      modifies this
      ensures (ok, uniqNameMap) == CollectSpec(reg, cfg.bodies, old(uniqNameMap))
    {
      var bodies := cfg.bodies;
      var i := 0;
      while i < |bodies|
        invariant 0 <= i <= |bodies|
        invariant CollectSpec(reg, bodies, old(uniqNameMap)) == CollectSpec(reg, bodies[i..], uniqNameMap)
      {
        var body := bodies[i];
        assert bodies[i..][1..] == bodies[i + 1..];
        if body.uniqName in uniqNameMap {
          return false;
        }
        var bodymsg := CreateMessage(reg, body.typeName);
        if bodymsg.None? {
          return false;
        }
        uniqNameMap := uniqNameMap[body.uniqName := UniqRequest(body, bodymsg.value)];
        i := i + 1;
      }
      assert bodies[i..] == [];
      return true;
    }

    /** `cleanup_robot_config`: the table is emptied. */
    method CleanupRobotConfig()
      modifies this
      ensures uniqNameMap == map[]
    {
      uniqNameMap := map[];
    }
  }

  /** The unique names of the bodies. */
  function NamesOf(bodies: seq<Body>): (r: set<string>)
    ensures forall n :: n in r <==> exists i :: 0 <= i < |bodies| && bodies[i].uniqName == n
    decreases |bodies|
  {
    if |bodies| == 0 then {}
    else
      assert forall i :: 1 <= i < |bodies| ==> bodies[1..][i - 1] == bodies[i];
      {bodies[0].uniqName} + NamesOf(bodies[1..])
  }

  /** Bodies whose unique names are pairwise different. */
  predicate UniqueNames(bodies: seq<Body>) {
    forall i, j :: 0 <= i < j < |bodies| ==> bodies[i].uniqName != bodies[j].uniqName
  }

  /**
   * What `CollectConfigInfos` does to the table `m`: the bodies in order,
   * stopping (with the entries added so far kept) at a repeated unique name
   * or a type the registry cannot create.
   */
  function CollectSpec(reg: Registry, bodies: seq<Body>, m: map<string, UniqRequest>)
    : (r: (bool, map<string, UniqRequest>))
    ensures m.Keys <= r.1.Keys && (forall n :: n in m ==> r.1[n] == m[n])
    decreases |bodies|
  {
    if |bodies| == 0 then (true, m)
    else
      var b := bodies[0];
      if b.uniqName in m then (false, m)
      else match CreateMessage(reg, b.typeName)
        case None => (false, m)
        case Some(msg) => CollectSpec(reg, bodies[1..], m[b.uniqName := UniqRequest(b, msg)])
  }

  /**
   * Collection succeeds exactly when the bodies' unique names are new and
   * pairwise different and every type can be created.
   */
  lemma {:induction false} CollectSucceedsIff(reg: Registry, bodies: seq<Body>, m: map<string, UniqRequest>)
    ensures CollectSpec(reg, bodies, m).0 <==>
      && UniqueNames(bodies)
      && (forall i :: 0 <= i < |bodies| ==> bodies[i].uniqName !in m && bodies[i].typeName in reg.creatable)
    decreases |bodies|
  {
    if |bodies| > 0 {
      var b := bodies[0];
      assert forall i :: 1 <= i < |bodies| ==> bodies[1..][i - 1] == bodies[i];
      if b.uniqName !in m && b.typeName in reg.creatable {
        var m' := m[b.uniqName := UniqRequest(b, Message(b.typeName, map[]))];
        CollectSucceedsIff(reg, bodies[1..], m');
        var good := UniqueNames(bodies)
          && (forall i :: 0 <= i < |bodies| ==> bodies[i].uniqName !in m && bodies[i].typeName in reg.creatable);
        var goodRest := UniqueNames(bodies[1..])
          && (forall i :: 0 <= i < |bodies[1..]| ==> bodies[1..][i].uniqName !in m' && bodies[1..][i].typeName in reg.creatable);
        if goodRest {
          forall i, j | 0 <= i < j < |bodies| ensures bodies[i].uniqName != bodies[j].uniqName {
            if i == 0 {
              assert bodies[1..][j - 1].uniqName !in m';
            } else {
              assert bodies[1..][i - 1] == bodies[i] && bodies[1..][j - 1] == bodies[j];
            }
          }
        }
        if good {
          forall i | 0 <= i < |bodies[1..]| ensures bodies[1..][i].uniqName !in m' {
            assert bodies[1..][i] == bodies[i + 1];
          }
        }
      }
    }
  }

  /**
   * On success the table gains one entry per body, under its unique name,
   * holding that body and an empty message of its type; nothing else is added
   * and every earlier entry is kept.
   */
  lemma {:induction false} CollectEntries(reg: Registry, bodies: seq<Body>, m: map<string, UniqRequest>)
    requires CollectSpec(reg, bodies, m).0
    ensures var r := CollectSpec(reg, bodies, m).1;
      && r.Keys == m.Keys + NamesOf(bodies)
      && forall i :: 0 <= i < |bodies| ==> r[bodies[i].uniqName] == UniqRequest(bodies[i], Message(bodies[i].typeName, map[]))
    decreases |bodies|
  {
    if |bodies| > 0 {
      var b := bodies[0];
      var m' := m[b.uniqName := UniqRequest(b, Message(b.typeName, map[]))];
      CollectEntries(reg, bodies[1..], m');
      var r := CollectSpec(reg, bodies, m).1;
      assert r == CollectSpec(reg, bodies[1..], m').1;
      assert NamesOf(bodies) == {b.uniqName} + NamesOf(bodies[1..]);
      forall i | 0 <= i < |bodies| ensures r[bodies[i].uniqName] == UniqRequest(bodies[i], Message(bodies[i].typeName, map[])) {
        if i > 0 {
          assert bodies[1..][i - 1] == bodies[i];
        }
      }
    }
  }

  /** A run configuration that loads and validates gives every group's actions the table entries the engine needs. */
  lemma ValidConfigResolvesGroups(reg: Registry, cfg: CfgRoot, m: map<string, UniqRequest>)
    requires ValidRobotConfig(cfg.groups, CollectSpec(reg, cfg.bodies, m).1)
    ensures forall g :: 0 <= g < |cfg.groups| ==>
      NamesResolved(cfg.groups[g].actions, CollectSpec(reg, cfg.bodies, m).1)
    ensures forall g :: 0 <= g < |cfg.groups| ==> |cfg.groups[g].clients| >= cfg.groups[g].clientCount
  {
  }
}
