/** The calls of the ARP module in any order. */
module ArpRuns {
  import opened Words
  import opened Punt
  import opened ArpTable

  datatype Op =
    | OpAdd(ip: uint32, mac: Mac, port: uint8, vlan: uint16)
    | OpDelete(ip: uint32)
    | OpProcess(pkt: PuntPkt)
    | OpProbe(ip: uint32, port: uint8, vlan: uint16)
    | OpAge(now: uint32)
    | OpSetIntf(port: uint8, ip: uint32, mac: Mac)

  function Step(n: Node, op: Op): Node {
    match op
    case OpAdd(ip, mac, port, vlan) => n.(t := Add(n.t, ip, mac, port, vlan).1)
    case OpDelete(ip) => n.(t := Delete(n.t, ip).1)
    case OpProcess(pkt) => Process(n, pkt)
    case OpProbe(ip, port, vlan) => Probe(n, ip, port, vlan).1
    case OpAge(now) => Age(n, now)
    case OpSetIntf(port, ip, mac) => SetIntf(n, port, ip, mac)
  }

  function Run(n: Node, ops: seq<Op>): Node {
    if ops == [] then n else Step(Run(n, ops[..|ops| - 1]), ops[|ops| - 1])
  }

  function Initial(): Node {
    Node(seq(TABLE_SIZE, _ => ZERO), seq(32, _ => Intf(0, [0, 0, 0, 0, 0, 0], false)), [])
  }
}
