/** `fetch_metagraph_using_fiber`: the registry's node records for one subnet,
    turned into rows of (UID, AXON_IP, HOTKEY), and the hotkey lookup `main`
    does on those rows. */
module Metagraph {
  import opened Wrappers
  import opened Text
  import opened PyValues
  import opened Ipv4

  /** A registry node as the chain client returns it: every attribute may be
      missing, and present attributes may be of any Python type. */
  datatype Node = Node(nodeId: Option<Value>, ip: Option<Value>, port: Option<Value>, hotkey: Option<Value>)

  /** One row of the snapshot: the node's UID, its "ip:port" endpoint and its hotkey. */
  datatype Row = Row(uid: Value, axonIp: string, hotkey: string)

  /** What the registry query gives: the node records, or an exception
      (connection failure, a NETUID that `int()` rejects, a failed query). */
  datatype FetchReply = Fetched(nodes: seq<Node>) | FetchRaised

  /** `getattr(node, name, default)`. */
  function GetAttr(attr: Option<Value>, default: Value): Value {
    match attr
    case Some(v) => v
    case None => default
  }

  /** The text the endpoint begins with: an int (or bool) address through
      `int_to_ip`, anything else through `str()`. */
  function IpText(ipRaw: Value): string {
    if AsInt(ipRaw).Some? then IntToIp(ipRaw) else ToStr(ipRaw)
  }

  /** The row one node contributes. */
  function NodeRow(node: Node): (r: Row)
    ensures r.axonIp != ""
  {
    Row(GetAttr(node.nodeId, Int(0)),
        IpText(GetAttr(node.ip, Int(0))) + ":" + ToStr(GetAttr(node.port, Int(0))),
        ToStr(GetAttr(node.hotkey, Str(""))))
  }

  /** The snapshot built from a node sequence: one row per node, in node order. */
  function NodeRows(nodes: seq<Node>): seq<Row> {
    seq(|nodes|, i requires 0 <= i < |nodes| => NodeRow(nodes[i]))
  }

  /** The snapshot a registry reply yields, `None` when the query raised. */
  function SnapshotOf(reply: FetchReply): (r: Option<seq<Row>>)
    ensures r.None? <==> reply.FetchRaised?
    ensures reply.Fetched? ==> |r.value| == |reply.nodes|
    ensures reply.Fetched? ==> forall i :: 0 <= i < |reply.nodes| ==> r.value[i] == NodeRow(reply.nodes[i])
  {
    match reply
    case Fetched(nodes) => Some(NodeRows(nodes))
    case FetchRaised => None
  }

  /** The extraction loop: appends each node's UID, endpoint and hotkey to three
      columns, then builds the table from the columns. */
  method ExtractRows(nodes: seq<Node>) returns (rows: seq<Row>)
    ensures |rows| == |nodes|
    ensures forall i :: 0 <= i < |nodes| ==> rows[i] == NodeRow(nodes[i])
  {
    var uids: seq<Value> := [];
    var axonIps: seq<string> := [];
    var hotkeys: seq<string> := [];
    for j := 0 to |nodes|
      invariant |uids| == j && |axonIps| == j && |hotkeys| == j
      invariant forall i :: 0 <= i < j ==> Row(uids[i], axonIps[i], hotkeys[i]) == NodeRow(nodes[i])
    {
      var node := nodes[j];
      uids := uids + [GetAttr(node.nodeId, Int(0))];
      var ipRaw := GetAttr(node.ip, Int(0));
      var ip := if AsInt(ipRaw).Some? then Str(IntToIp(ipRaw)) else ipRaw;
      var port := GetAttr(node.port, Int(0));
      axonIps := axonIps + [ToStr(ip) + ":" + ToStr(port)];
      hotkeys := hotkeys + [ToStr(GetAttr(node.hotkey, Str("")))];
      assert ToStr(ip) == IpText(ipRaw);
    }
    rows := seq(|nodes|, i requires 0 <= i < |nodes| => Row(uids[i], axonIps[i], hotkeys[i]));
  }

  /** `fetch_metagraph_using_fiber`: the query's exception is re-raised
      (`None`), otherwise the nodes become the snapshot. */
  method FetchMetagraph(reply: FetchReply) returns (snapshot: Option<seq<Row>>)
    ensures snapshot.None? <==> reply.FetchRaised?
    ensures reply.Fetched? ==> snapshot == Some(NodeRows(reply.nodes))
  {
    match reply
    case FetchRaised =>
      snapshot := None;
    case Fetched(nodes) =>
      var rows := ExtractRows(nodes);
      assert rows == NodeRows(nodes);
      snapshot := Some(rows);
  }

  /** The first row whose hotkey is `hotkey` (`loc[... == hotkey]`, then row 0). */
  function FirstMatch(rows: seq<Row>, hotkey: string): (k: Option<nat>)
    ensures k.None? <==> forall i :: 0 <= i < |rows| ==> rows[i].hotkey != hotkey
    ensures k.Some? ==> k.value < |rows| && rows[k.value].hotkey == hotkey
                        && forall j :: 0 <= j < k.value ==> rows[j].hotkey != hotkey
  {
    if rows == [] then None
    else if rows[0].hotkey == hotkey then Some(0)
    else
      match FirstMatch(rows[1..], hotkey)
      case None => None
      case Some(k) => Some(k + 1)
  }

  /** The defaults of the extraction: a node without UID gets 0, a node
      without ip and port gets "0.0.0.0:0", a node without hotkey gets "". */
  lemma NodeRowDefaults(node: Node)
    ensures node.nodeId.None? ==> NodeRow(node).uid == Int(0)
    ensures node.ip.None? && node.port.None? ==> NodeRow(node).axonIp == "0.0.0.0:0"
    ensures node.hotkey.None? ==> NodeRow(node).hotkey == ""
  {
    if node.ip.None? && node.port.None? {
      IntToIpSentinelExactly(Int(0));
      assert ToStr(Int(0)) == "0";
    }
  }

  /** An endpoint whose address came in as an int reads back: the text before
      its first ':' is the dotted-decimal form of that int (0 when it is out of
      range or not positive), and what follows is `str(port)`. */
  lemma EndpointReadsBack(node: Node)
    requires AsInt(GetAttr(node.ip, Int(0))).Some?
    ensures var parts := Split(NodeRow(node).axonIp, ':');
            ParseDottedQuad(parts[0]) == Some(AddressOf(GetAttr(node.ip, Int(0))))
    ensures var port := ToStr(GetAttr(node.port, Int(0)));
            Split(NodeRow(node).axonIp, ':') == [IntToIp(GetAttr(node.ip, Int(0)))] + Split(port, ':')
  {
    var ipRaw := GetAttr(node.ip, Int(0));
    var text := IntToIp(ipRaw);
    IntToIpAlphabet(ipRaw);
    assert ':' !in text;
    SplitAfter(text, ':', ToStr(GetAttr(node.port, Int(0))));
    IntToIpParsesBack(ipRaw);
  }

  /** Every endpoint in a snapshot holds ':' and so is never empty, which makes
      the "no matching row" branch after the truthiness test unreachable. */
  lemma EndpointsNonEmpty(nodes: seq<Node>)
    ensures forall i :: 0 <= i < |NodeRows(nodes)| ==> ':' in NodeRows(nodes)[i].axonIp
  {
    forall i | 0 <= i < |NodeRows(nodes)|
      ensures ':' in NodeRows(nodes)[i].axonIp
    {
      var node := nodes[i];
      var prefix := IpText(GetAttr(node.ip, Int(0)));
      assert NodeRows(nodes)[i].axonIp[|prefix|] == ':';
    }
  }
}
