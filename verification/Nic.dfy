/** The bursts of a NIC, as their callers see them. */
module Nic {

  /** rte_eth_tx_burst takes as many of n packets, the first ones, as the NIC has room for. */
  method TxBurst(n: nat, room: nat) returns (taken: nat)
    ensures n <= room ==> taken == n
    ensures n > room ==> taken == room
  {
    taken := if n <= room then n else room;
  }

  /** rte_eth_rx_burst writes what arrives to the front of the array, and says how many. */
  method RxBurst<T>(pkts: array<T>, arriving: seq<T>) returns (n: nat)
    requires |arriving| <= pkts.Length
    modifies pkts
    ensures n == |arriving| && pkts[..n] == arriving
    ensures pkts[n..] == old(pkts[n..])
  {
    n := 0;
    while n < |arriving|
      invariant n <= |arriving| && pkts[..n] == arriving[..n] && pkts[n..] == old(pkts[n..])
    {
      pkts[n] := arriving[n];
      n := n + 1;
    }
  }
}
