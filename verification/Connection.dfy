/** libpconn/PConnection.c: the connection to a Palm, with the state that each
    protocol of the stack keeps in it, over a line that delivers bytes in
    pieces of its own choosing. */
module Connection {
  import opened Bytes

  datatype Address = Address(protocol: ubyte, port: ubyte)

  datatype PalmErrno = NoErr | System | Timeout | Timeout2 | Eof | Abort | BadId | AckXid

  datatype Status = Idle | Up | Lost | Closed

  /** What the Desktop Link Protocol keeps of a received argument: `at` is where
      in the message its data begins. */
  datatype DlpSlot = DlpSlot(id: uword, size: udword, at: nat)

  datatype RespHeader = RespHeader(id: ubyte, argc: ubyte, error: uword)

  class PConnection {
    // The line: what it will still deliver before end of file, and what has been written to it.
    var incoming: seq<ubyte>
    var outgoing: seq<ubyte>

    // How many system calls on the line have failed, or waited in vain.
    ghost var faults: nat

    const emulatePalm: bool
    var palmErrno: PalmErrno
    var status: Status

    // Serial Link Protocol
    var localAddr: Address
    var remoteAddr: Address
    const headerInbuf: array<ubyte>
    var inbuf: array<ubyte>
    const crcInbuf: array<ubyte>
    var outbuf: array<ubyte>
    var lastXid: ubyte

    // Packet Assembly/Disassembly Protocol
    var xid: ubyte
    var padpInbuf: array?<ubyte>

    // Desktop Link Protocol
    var dlpArgv: array<DlpSlot>
    var dlpResp: RespHeader

    /** The buffers are of the sizes the protocols rely on, and none is another. */
    ghost predicate Valid()
      reads this
    {
      && headerInbuf.Length == 10 && crcInbuf.Length == 2
      && inbuf.Length >= 2048 && outbuf.Length >= 2048
      && headerInbuf != crcInbuf && inbuf != headerInbuf && inbuf != crcInbuf
      && outbuf != headerInbuf && outbuf != crcInbuf && outbuf != inbuf
      && padpInbuf != headerInbuf && padpInbuf != crcInbuf && padpInbuf != inbuf && padpInbuf != outbuf
    }

    constructor (incoming: seq<ubyte>, emulatePalm: bool, localAddr: Address, remoteAddr: Address)
      ensures Valid()
      ensures this.incoming == incoming && outgoing == [] && this.emulatePalm == emulatePalm
      ensures this.localAddr == localAddr && this.remoteAddr == remoteAddr
      ensures xid == 0 && lastXid == 0 && padpInbuf == null
    {
      this.incoming, outgoing, faults := incoming, [], 0;
      this.emulatePalm := emulatePalm;
      palmErrno, status := NoErr, Idle;
      this.localAddr, this.remoteAddr := localAddr, remoteAddr;
      headerInbuf := new ubyte[10];
      inbuf := new ubyte[2048];
      crcInbuf := new ubyte[2];
      outbuf := new ubyte[2048];
      lastXid, xid, padpInbuf := 0, 0, null;
      dlpArgv := new DlpSlot[10](_ => DlpSlot(0, 0, 0));
      dlpResp := RespHeader(0, 0, 0);
    }

    /** Reads between one and `len` bytes into `buf`, as many as the line cares
        to hand over. Zero is end of file; negative is a failed system call. */
    method Read(buf: array<ubyte>, at: nat, len: nat) returns (err: int)
      requires 0 < len && at + len <= buf.Length
      modifies this`incoming, this`palmErrno, this`faults, buf
      ensures faults == old(faults) + if err < 0 then 1 else 0
      ensures err <= len && err <= |old(incoming)|
      ensures err == 0 ==> old(incoming) == []
      ensures err < 0 ==> incoming == old(incoming) && buf[..] == old(buf[..]) && palmErrno == System
      ensures err == 0 ==> palmErrno == Eof
      ensures err > 0 ==> palmErrno == old(palmErrno)
      ensures err >= 0 ==> incoming == old(incoming)[err..]
      ensures err >= 0 ==> buf[..] == old(buf[..at]) + old(incoming)[..err] + old(buf[at + err..])
    {
      if * {
        palmErrno, faults := System, faults + 1;
        return -1;
      }
      if incoming == [] {
        palmErrno := Eof;
        return 0;
      }
      var n: nat :| 1 <= n <= len && n <= |incoming|;
      var data := incoming[..n];
      var end := PutBytes(buf, at, data);
      assert buf[..] == buf[..end] + buf[end..];
      incoming := incoming[n..];
      return n;
    }

    /** Writes between one and `len` bytes of `buf`, or fails. */
    method Write(buf: array<ubyte>, at: nat, len: nat) returns (err: int)
      requires 0 < len && at + len <= buf.Length
      modifies this`outgoing, this`palmErrno, this`faults
      ensures faults == old(faults) + if err < 0 then 1 else 0
      ensures err < 0 || 1 <= err <= len
      ensures err < 0 ==> outgoing == old(outgoing) && palmErrno == System
      ensures err > 0 ==> outgoing == old(outgoing) + buf[at..at + err] && palmErrno == old(palmErrno)
    {
      if * {
        palmErrno, faults := System, faults + 1;
        return -1;
      }
      var n: nat :| 1 <= n <= len;
      outgoing := outgoing + buf[at..at + n];
      return n;
    }

    /** `PConn_timedselect`: whether the line was ready before the time was up. */
    method TimedSelect() returns (ready: bool)
      modifies this`palmErrno, this`status, this`faults
      ensures faults == old(faults) + if ready then 0 else 1
      ensures ready ==> palmErrno == old(palmErrno) && status == old(status)
      ensures !ready ==> palmErrno == Timeout2 && status == Lost
    {
      if * {
        status := Lost;
        palmErrno, faults := Timeout2, faults + 1;
        return false;
      }
      return true;
    }
  }
}
