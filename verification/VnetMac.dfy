/** Six-byte MAC addresses (src/vnet/vnet_mac.c): the group and local bits of
    section 8 of IEEE Std 802-2014 sit in the first byte. */
module VnetMac {
  import opened Base

  datatype Mac = Mac(b0: u8, b1: u8, b2: u8, b3: u8, b4: u8, b5: u8)

  const ZERO_MAC := Mac(0, 0, 0, 0, 0, 0)

  predicate IsMulticast(m: Mac) {
    m.b0 % 2 == 1
  }

  predicate IsLocal(m: Mac) {
    m.b0 / 2 % 2 == 1
  }

  predicate IsLocalUnicast(m: Mac) {
    m != ZERO_MAC && !IsMulticast(m) && IsLocal(m)
  }

  /** The address stored in a frame at byte offset `off`. */
  function MacAt(frame: seq<u8>, off: nat): Mac
    requires off + 6 <= |frame|
  {
    Mac(frame[off], frame[off + 1], frame[off + 2], frame[off + 3], frame[off + 4], frame[off + 5])
  }

  /** An address is read off a frame byte by byte, in the order in which it is written. */
  lemma ReadsInOrder(frame: seq<u8>, off: nat, m: Mac)
    requires off + 6 <= |frame|
    ensures MacAt(frame, off) == m <==> frame[off..off + 6] == [m.b0, m.b1, m.b2, m.b3, m.b4, m.b5]
    ensures IsMulticast(MacAt(frame, off)) <==> frame[off] % 2 == 1
  {
    var six := frame[off..off + 6];
    assert six[0] == frame[off] && six[1] == frame[off + 1] && six[2] == frame[off + 2];
    assert six[3] == frame[off + 3] && six[4] == frame[off + 4] && six[5] == frame[off + 5];
  }
}
