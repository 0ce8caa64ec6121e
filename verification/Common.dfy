/** Integer widths and small value types shared by the whole model. */
module Common {

  newtype byte = x: int | 0 <= x < 0x100
  type uint16 = x: int | 0 <= x < 0x1_0000
  type uint32 = x: int | 0 <= x < 0x1_0000_0000

  /** A host name, as bytes. */
  type Name = seq<byte>

  /** The identity (address) of a caller's dns_resolver object. */
  type Hnr = nat

  const TYPE_A: uint16 := 1
  const TYPE_AAAA: uint16 := 28
  const MAX_NAME := 253

  datatype Option<+T> = None | Some(value: T)

  /** How a lookup ends. */
  datatype DnsResult = Ok | Timeout | NotFound | DnsError | Error

  /** An IPv6 address as four quads; an IPv4 address h is stored as (0, 0, 0xffff, h). */
  datatype Ip = Ip(q0: uint32, q1: uint32, q2: uint32, q3: uint32) {
    predicate IsV4() {
      q2 == 0xffff && q1 == 0 && q0 == 0
    }

    function GetV4(): uint32 {
      q3
    }

    predicate IsValid() {
      if IsV4() then GetV4() != 0 else q3 != 0 || q2 != 0 || q1 != 0 || q0 != 0
    }
  }

  const NO_IP := Ip(0, 0, 0, 0)

  function V4(h: uint32): Ip {
    Ip(0, 0, 0xffff, h)
  }

  ghost predicate NoDup<T>(s: seq<T>) {
    forall i, j :: 0 <= i < j < |s| ==> s[i] != s[j]
  }
}
