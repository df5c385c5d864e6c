/**
 Octets, and the result codes of inc/define.h that the modelled operations return.
 */
module Bytes {
  type byte = bv8

  datatype Option<T> = None | Some(value: T)

  datatype TResult =
    | EOK
    | EFAILED
    | EINVALIDPARAM
    | EBUFFERBROKEN
    | EPORTSEND
    | EPORTRECEIVE
    | EPACKETSEND
    | EPACKETRECEIVECRC
    | EPACKETRECEIVETOOLARGE
    | EPACKETRECEIVETOOSHORT
    | EPACKETBROKEN
    | EACKPACKET
    | EACKFAILED
    | EDATARSP
    | EDATACRC

  lemma ByteCast(n: nat)
    requires n < 256
    ensures (n as byte) as nat == n
  {
  }

  lemma ByteCastBack(b: byte)
    ensures (b as nat) as byte == b
  {
  }
}
