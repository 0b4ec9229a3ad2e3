/**
 * The Bluetooth LE transport's state (ble/bitchat_ble.c): active or not, the
 * table of up to 8 known peers and its fill count, and the local peer id. The
 * radio, the event queue and the mutex are not modelled: the source's radio
 * calls are placeholders, so sending succeeds or fails on the state alone.
 * The hardware random words are a parameter.
 */
module Ble {
  import opened Bytes
  import Identity

  const Mtu: nat := 512
  const MaxPeers: nat := 8
  const PeerIdSize: nat := 8

  /** BitchatBlePeer: the nickname is its C string. */
  datatype Peer = Peer(peerId: seq<Byte>, nickname: seq<Byte>, connected: bool, lastSeen: U32)

  /** The zeroed entry a freshly allocated table holds. */
  function EmptyPeer(): (p: Peer)
    ensures |p.peerId| == PeerIdSize
  {
    Peer([0, 0, 0, 0, 0, 0, 0, 0], [], false, 0)
  }

  /** The peer count get_peers reports and copies: the table's count, capped by the caller's room. */
  function PeersCopied(peerCount: nat, maxPeers: nat): (n: nat)
    ensures n <= peerCount && n <= maxPeers
    ensures n == peerCount || n == maxPeers
  {
    if peerCount < maxPeers then peerCount else maxPeers
  }

  class Transport {
    const peers: array<Peer>
    var peerCount: nat
    var isActive: bool
    var localPeerId: seq<Byte>

    ghost predicate Valid()
      reads this, peers
    {
      && peers.Length == MaxPeers
      && peerCount <= MaxPeers
      && |localPeerId| == PeerIdSize
      && forall i :: 0 <= i < MaxPeers ==> |peers[i].peerId| == PeerIdSize
    }

    /** The peers in the table, in table order. */
    function KnownPeers(): seq<Peer>
      reads this, peers
      requires Valid()
    {
      peers[..peerCount]
    }

    /** bitchat_ble_alloc: zeroed, inactive, no peers, a local peer id from the low bytes of 8 random words. */
    constructor (random: seq<U32>)
      requires |random| == PeerIdSize
      ensures Valid() && fresh(peers)
      ensures !isActive && peerCount == 0
      ensures |localPeerId| == PeerIdSize && forall i :: 0 <= i < PeerIdSize ==> localPeerId[i] == random[i] % 256
    {
      var id := new Byte[PeerIdSize];
      var i := 0;
      while i < PeerIdSize
        invariant 0 <= i <= PeerIdSize
        invariant forall j :: 0 <= j < i ==> id[j] == random[j] % 256
      {
        id[i] := random[i] % 256;
        i := i + 1;
      }
      peers := new Peer[MaxPeers](_ => EmptyPeer());
      peerCount := 0;
      isActive := false;
      localPeerId := id[..];
    }

    /** bitchat_ble_start: a no-op when active; otherwise takes the identity's peer id and becomes active. */
    method Start(identity: Identity.Identity)
      requires Valid() && identity.Valid()
      modifies this
      ensures Valid() && isActive
      ensures old(isActive) ==> localPeerId == old(localPeerId)
      ensures !old(isActive) ==> localPeerId == identity.peerId
      ensures peerCount == old(peerCount)
    {
      if isActive {
        return;
      }
      localPeerId := identity.peerId;
      isActive := true;
    }

    /** bitchat_ble_stop: a no-op when inactive; otherwise becomes inactive and forgets every peer. */
    method Stop()
      requires Valid()
      modifies this
      ensures Valid() && !isActive
      ensures old(isActive) ==> peerCount == 0
      ensures !old(isActive) ==> peerCount == old(peerCount)
      ensures localPeerId == old(localPeerId)
    {
      if !isActive {
        return;
      }
      isActive := false;
      peerCount := 0;
    }

    /** bitchat_ble_broadcast: refused when inactive or when the packet is longer than the 512-byte MTU. */
    method Broadcast(size: nat) returns (sent: bool)
      ensures sent <==> isActive && size <= Mtu
    {
      if !isActive {
        return false;
      }
      if size > Mtu {
        return false;
      }
      return true;
    }

    /** bitchat_ble_send_to_peer: refused when inactive; otherwise a scan of the table for the 8-byte id. */
    method SendToPeer(peerId: seq<Byte>, size: nat) returns (sent: bool)
      requires Valid() && |peerId| == PeerIdSize
      ensures sent <==> isActive && exists i :: 0 <= i < peerCount && peers[i].peerId == peerId
    {
      if !isActive {
        return false;
      }
      var found := false;
      var i := 0;
      while i < peerCount
        invariant 0 <= i <= peerCount
        invariant !found
        invariant forall j :: 0 <= j < i ==> peers[j].peerId != peerId
      {
        if peers[i].peerId == peerId {
          found := true;
          break;
        }
        i := i + 1;
      }
      if !found {
        return false;
      }
      return true;
    }

    /** bitchat_ble_get_peers: the leading min(peer_count, max_peers) entries copied, in order, and their number. */
    method GetPeers(out: array<Peer>, maxPeers: nat) returns (count: nat)
      requires Valid() && out != peers && PeersCopied(peerCount, maxPeers) <= out.Length
      modifies out
      ensures count == PeersCopied(peerCount, maxPeers)
      ensures out[..count] == KnownPeers()[..count]
      ensures out[count..] == old(out[count..])
    {
      count := if peerCount < maxPeers then peerCount else maxPeers;
      forall i | 0 <= i < count {
        out[i] := peers[i];
      }
    }

    /** bitchat_ble_is_active. */
    method IsActive() returns (active: bool)
      ensures active == isActive
    {
      return isActive;
    }
  }
}
