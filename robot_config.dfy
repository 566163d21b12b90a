/**
 * The run configuration the robot is started with (the `pbcfg` messages of
 * its configuration file), and the per-request record `UniqRequest` that
 * `CollectConfigInfos` builds from it.
 */
module RobotConfig {
  import opened MessageRegistry

  /** `pbcfg::Action`: requests to send, responses to wait for, and the pacing limits. */
  datatype Action = Action(
    requestUniqNames: seq<string>,
    responses: seq<string>,
    timeout: int,        // seconds; 0 waits for ever
    minDuration: int,    // milliseconds; 0 does not pace
    stopLoopCount: int)  // 0 runs the action on every loop

  /** `pbcfg::Client`: the identity one robot thread plays. */
  datatype ClientCfg = ClientCfg(uid: int, roleTime: int)

  /** `pbcfg::Group`: a peer, the clients that talk to it, and the actions each runs per loop. */
  datatype Group = Group(
    name: string,
    peerAddr: string,
    maxPkgLen: int,
    hasChecksum: bool,
    loopCount: int,
    clientCount: int,
    clients: seq<ClientCfg>,
    actions: seq<Action>)

  /** `pbcfg::Body`: a named request body in protobuf text format. */
  datatype Body = Body(uniqName: string, typeName: string, text: string)

  /** `pbcfg::CfgRoot`. */
  datatype CfgRoot = CfgRoot(groups: seq<Group>, bodies: seq<Body>)

  /** `struct UniqRequest`: a body's configuration and an empty message of its type. */
  datatype UniqRequest = UniqRequest(body: Body, prototype: Message)

  /** Every request name of every action has an entry (what `ValidationRobotConfigs` checks). */
  predicate NamesResolved(actions: seq<Action>, uniqNameMap: map<string, UniqRequest>) {
    forall i, k :: 0 <= i < |actions| && 0 <= k < |actions[i].requestUniqNames| ==>
      actions[i].requestUniqNames[k] in uniqNameMap
  }
}
