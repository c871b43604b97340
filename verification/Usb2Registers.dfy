/**
 The hardware registers behind the USB2 endpoints: the endpoint-to-register map of
 usb/usb2_utils.h, the endpoint bits of usb/usb_types.h and the incompatibility table
 of usb/usb20.c.
 */
module Usb2Registers {

  /** Handshake an endpoint answers with. */
  datatype Resp = ACK | NAK | STALL

  /** A control register: response and data toggle (false is DATA0). */
  datatype Ctrl = Ctrl(resp: Resp, tog: bool)

  datatype Dir = Tx | Rx

  /** The register block that serves a logical endpoint; the same switch selects the control,
      address and length registers of both directions. */
  function Hw(ep: nat): (r: nat)
    requires ep < 16
    ensures r < 8
    ensures r == 0 <==> ep == 0
    ensures r == if ep < 8 then ep else if ep == 8 then 4 else ep - 8
  {
    match ep
    case 0 => 0
    case 1 => 1 case 9 => 1
    case 2 => 2 case 10 => 2
    case 3 => 3 case 11 => 3
    case 4 => 4 case 8 => 4 case 12 => 4
    case 5 => 5 case 13 => 5
    case 6 => 6 case 14 => 6
    case _ => 7
  }

  /** ENDPOINT_k_TX and ENDPOINT_k_RX. An endpoint mask is the set of its bits. */
  datatype Endpoint = Endpoint(dir: Dir, num: nat)

  type Mask = set<Endpoint>

  /** usb2_incompatibles_endpoints, in the order of the table. */
  const INCOMPATIBLE: seq<Mask> := [
    {Endpoint(Tx, 1), Endpoint(Tx, 9)}, {Endpoint(Tx, 2), Endpoint(Tx, 10)}, {Endpoint(Tx, 3), Endpoint(Tx, 11)},
    {Endpoint(Tx, 4), Endpoint(Tx, 12)}, {Endpoint(Tx, 5), Endpoint(Tx, 13)}, {Endpoint(Tx, 6), Endpoint(Tx, 14)},
    {Endpoint(Tx, 7), Endpoint(Tx, 15)},
    {Endpoint(Rx, 1), Endpoint(Rx, 9)}, {Endpoint(Rx, 2), Endpoint(Rx, 10)}, {Endpoint(Rx, 3), Endpoint(Rx, 11)},
    {Endpoint(Rx, 4), Endpoint(Rx, 12)}, {Endpoint(Rx, 5), Endpoint(Rx, 13)}, {Endpoint(Rx, 6), Endpoint(Rx, 14)},
    {Endpoint(Rx, 7), Endpoint(Rx, 15)},
    {Endpoint(Rx, 8), Endpoint(Rx, 4)}, {Endpoint(Tx, 8), Endpoint(Tx, 4)},
    {Endpoint(Rx, 8), Endpoint(Rx, 12)}, {Endpoint(Tx, 8), Endpoint(Tx, 12)}]

  /** Two endpoints of one direction that the same register serves. */
  ghost predicate Share(a: Endpoint, b: Endpoint)
  {
    a.dir == b.dir && a.num != b.num && 1 <= a.num < 16 && 1 <= b.num < 16 && Hw(a.num) == Hw(b.num)
  }

  ghost predicate Clash(mask: Mask)
  {
    exists a, b :: a in mask && b in mask && Share(a, b)
  }

  /** Every entry of the table is a pair that shares a register ... */
  lemma TableSound(i: nat) returns (a: Endpoint, b: Endpoint)
    requires i < |INCOMPATIBLE|
    ensures INCOMPATIBLE[i] == {a, b} && Share(a, b)
  {
    var dir := if i < 7 || i == 15 || i == 17 then Tx else Rx;
    if i < 14 {
      a, b := Endpoint(dir, i % 7 + 1), Endpoint(dir, i % 7 + 9);
    } else {
      a, b := Endpoint(dir, 8), Endpoint(dir, if i < 16 then 4 else 12);
    }
  }

  /** ... and every pair that shares a register is an entry of the table. */
  lemma TableComplete(a: Endpoint, b: Endpoint) returns (i: nat)
    requires Share(a, b) && a.num < b.num
    ensures i < |INCOMPATIBLE| && INCOMPATIBLE[i] == {a, b}
  {
    i := if a.num == 4 && b.num == 8 then (if a.dir == Tx then 15 else 14)
         else if a.num == 8 then (if a.dir == Tx then 17 else 16)
         else a.num - 1 + (if a.dir == Tx then 0 else 7);
  }

  /** The check at the head of usb2_setup_endpoints_in_mask: it refuses a mask exactly when two
      enabled endpoints of one direction share a register. */
  method CheckMask(mask: Mask) returns (ok: bool)
    ensures ok <==> !Clash(mask)
  {
    for i := 0 to |INCOMPATIBLE|
      invariant forall j :: 0 <= j < i ==> !(INCOMPATIBLE[j] <= mask)
    {
      if mask * INCOMPATIBLE[i] == INCOMPATIBLE[i] {
        var a, b := TableSound(i);
        assert a in INCOMPATIBLE[i] && b in INCOMPATIBLE[i];
        return false;
      }
    }
    forall a, b | Share(a, b) ensures !(a in mask && b in mask) {
      var i;
      if a.num < b.num {
        i := TableComplete(a, b);
      } else {
        i := TableComplete(b, a);
      }
      assert !(INCOMPATIBLE[i] <= mask);
    }
    return true;
  }
}
