/** The device, peer and allowed-IP records the tools pass around. Pointer-linked lists are
    sequences; the address unions keep their bytes, so that reading the IPv4 member of a union is
    reading its first bytes. */
module WgDevice {
  import opened Bits

  const AF_INET := 2
  const AF_INET6 := 10

  datatype AllowedIp = AllowedIp(family: nat, ip: seq<u8>, cidr: u8) {
    ghost predicate Valid() { family < 0x10000 && |ip| == 16 }
  }

  datatype Peer = Peer(
    removeMe: bool, replaceIps: bool, hasPsk: bool, hasKeepalive: bool,
    key: seq<u8>, psk: seq<u8>, endpoint: seq<u8>, keepalive: nat, ips: seq<AllowedIp>) {

    ghost predicate Valid() {
      && |key| == 32 && |psk| == 32 && |endpoint| == 28 && keepalive < 0x10000
      && forall i :: 0 <= i < |ips| ==> ips[i].Valid()
    }
  }

  datatype Device = Device(
    replacePeers: bool, hasPrivateKey: bool, hasListenPort: bool, hasFwmark: bool,
    name: seq<u8>, privateKey: seq<u8>, listenPort: nat, fwmark: u32, peers: seq<Peer>) {

    ghost predicate Valid() {
      && |name| <= 15 && |privateKey| == 32 && listenPort < 0x10000
      && forall i :: 0 <= i < |peers| ==> peers[i].Valid()
    }
  }
}
