/** Failure-compatible wrappers shared by every stage of the capture front end.
    Each constructor of `Error` but the last is one place where networkdump.py
    raises; `ReaderFault` stands for a failure of the packet cursor class of
    reader.py, which is not part of this model. */
module Results {

  /** Why a run stops abnormally. */
  datatype Error =
    | Eof                   // the byte stream ended before an exact-length read was satisfied
    | BadMagic              // global header magic is not 0xa1b2c3d4
    | BadMajorVersion       // global header major version is not 2
    | BadMinorVersion       // global header minor version is not 4
    | RecordLengthMismatch  // record header: captured length differs from original length
    | UnknownLinkType       // link type is neither LINKTYPE_RAW nor LINKTYPE_LINUX_SLL
    | BadHardwareType       // cooked header: ARP hardware type is not Ethernet
    | BadLinkAddrLength     // cooked header: link-layer address length exceeds 8
    | BadEtherType          // cooked header: protocol is not IPv4
    | BadIpVersion          // IPv4 header: version nibble is not 4
    | IpLengthMismatch      // IPv4 header: total length disagrees with the bytes present
    | NotUdp                // IPv4 header: protocol is not 17
    | UdpLengthMismatch     // UDP header: length disagrees with the bytes present
    | ReaderFault           // the cursor class (reader.py) could not serve a read or skip

  datatype Option<+T> = None | Some(value: T)

  datatype Result<+T> = Ok(value: T) | Err(error: Error) {

    predicate IsFailure() {
      Err?
    }

    function PropagateFailure<U>(): Result<U>
      requires Err?
    {
      Err(error)
    }

    function Extract(): T
      requires Ok?
    {
      value
    }
  }
}
