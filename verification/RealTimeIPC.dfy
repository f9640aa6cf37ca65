/**
 The class RealTimeIPC over a mapped region: local packets, byte copies and output buffers,
 with every method tied to the functions of Mailbox and Watchdog.  Each method is one
 uninterrupted call; interleaved calls are the subject of Mailbox.
 */
module RealTimeIPC {
  import opened Mailbox
  import opened Watchdog

  const HEADER_SIZE: nat := 10           // two flag bytes and a packed double
  const MAX_IPC_BUF_LENGTH: nat := 1024
  const PACKET_SIZE: nat := HEADER_SIZE + MAX_IPC_BUF_LENGTH

  /** The mapped region: the header, and as many payload bytes as the server asked for. */
  class SharedMap {
    var bond: Byte
    var rt: Byte
    var time: real
    const data: array<Byte>

    function Contents(): Packet
      reads this, data
    {
      Packet(bond, rt, time, data[..])
    }

    constructor (n: nat)
      ensures fresh(data) && data.Length == n && Contents() == Blank(n)
    {
      bond, rt, time := 0, 0, 0.0;
      data := new Byte[n](_ => 0);
    }
  }

  /** A local copy of the region. */
  class DataPacket {
    var bond: Byte
    var rt: Byte
    var time: real
    const buffer: array<Byte>

    ghost predicate Valid()
      reads this
    {
      buffer.Length == MAX_IPC_BUF_LENGTH
    }

    /** The part of the packet that a region with n payload bytes holds. */
    function Prefix(n: nat): Packet
      requires n <= buffer.Length
      reads this, buffer
    {
      Packet(bond, rt, time, buffer[..n])
    }

    constructor ()
      ensures Valid() && fresh(buffer)
      ensures Prefix(MAX_IPC_BUF_LENGTH) == Blank(MAX_IPC_BUF_LENGTH)
    {
      bond, rt, time := 0, 0, 0.0;
      buffer := new Byte[MAX_IPC_BUF_LENGTH](_ => 0);
    }

    method Clear()
      requires Valid()
      modifies this, buffer
      ensures Prefix(MAX_IPC_BUF_LENGTH) == Blank(MAX_IPC_BUF_LENGTH)
      ensures forall n :: 0 <= n <= MAX_IPC_BUF_LENGTH ==> buffer[n..] == Zeros(MAX_IPC_BUF_LENGTH - n)
    {
      bond, rt, time := 0, 0, 0.0;
      forall i | 0 <= i < buffer.Length {
        buffer[i] := 0;
      }
    }
  }

  method MemSetZero(buffer: array<Byte>, n: nat)
    requires n <= buffer.Length
    modifies buffer
    ensures buffer[..n] == Zeros(n) && buffer[n..] == old(buffer[n..])
  {
    forall i | 0 <= i < n {
      buffer[i] := 0;
    }
  }

  method MemCpy(target: array<Byte>, source: array<Byte>, n: nat)
    requires n <= target.Length && n <= source.Length && target != source
    modifies target
    ensures target[..n] == source[..n] && target[n..] == old(target[n..])
  {
    forall i | 0 <= i < n {
      target[i] := source[i];
    }
  }

  class RealTimeIPC {
    const mode: AccessMode
    const watchdog: real
    const dimWithHeader: nat
    const sharedMap: SharedMap
    var startWatchdogTime: real
    var dataTimePrev: real
    var flushTimePrev: real
    var bondedPrev: bool
    var isHardRTPrev: bool
    ghost var samples: seq<Sample>  // what each flush that got as far as the region has read

    /** The region has the size this endpoint believes it has, and a local packet can hold it. */
    predicate Mapped()
      reads this
    {
      && (mode == ShmemServer || mode == ShmemClient)
      && HEADER_SIZE <= dimWithHeader < PACKET_SIZE
      && sharedMap.data.Length == dimWithHeader - HEADER_SIZE
    }

    /** The watchdog fields are those that the flushes so far lead to. */
    ghost predicate Valid()
      reads this
    {
      Mapped() && State() == WatchAfter(Settings(), samples)
    }

    function Dim(): nat
      requires Mapped()
      reads this
    {
      dimWithHeader - HEADER_SIZE
    }

    function State(): Watch
      reads this
    {
      Watch(startWatchdogTime, dataTimePrev, flushTimePrev)
    }

    function Settings(): Config
      reads this
    {
      Config(mode, watchdog)
    }

    constructor (watchdog: real, mode: AccessMode, sharedMap: SharedMap)
      requires mode == ShmemServer || mode == ShmemClient
      requires sharedMap.data.Length < MAX_IPC_BUF_LENGTH
      ensures Valid() && this.sharedMap == sharedMap && Settings() == Config(mode, watchdog)
      ensures samples == [] && !bondedPrev && !isHardRTPrev
    {
      this.mode, this.watchdog, this.sharedMap := mode, watchdog, sharedMap;
      dimWithHeader := sharedMap.data.Length + HEADER_SIZE;
      startWatchdogTime, dataTimePrev, flushTimePrev := -1.0, 0.0, 0.0;
      bondedPrev, isHardRTPrev, samples := false, false, [];
    }

    /** Copies the region out; what it does not cover stays zero. */
    method GetDataPacket(packet: DataPacket)
      requires Mapped() && packet.Valid() && packet.buffer != sharedMap.data
      modifies packet, packet.buffer
      ensures packet.Prefix(Dim()) == sharedMap.Contents()
      ensures packet.buffer[Dim()..] == Zeros(MAX_IPC_BUF_LENGTH - Dim())
    {
      packet.Clear();
      packet.bond, packet.rt, packet.time := sharedMap.bond, sharedMap.rt, sharedMap.time;
      MemCpy(packet.buffer, sharedMap.data, sharedMap.data.Length);
    }

    method SetDataPacket(packet: DataPacket)
      requires Mapped() && packet.Valid() && packet.buffer != sharedMap.data
      modifies sharedMap, sharedMap.data
      ensures sharedMap.Contents() == packet.Prefix(Dim())
    {
      sharedMap.bond, sharedMap.rt, sharedMap.time := packet.bond, packet.rt, packet.time;
      MemCpy(sharedMap.data, packet.buffer, sharedMap.data.Length);
    }

    method IsBonded() returns (bonded: bool)
      requires Mapped()
      modifies this`bondedPrev
      ensures bonded <==> Dim() > 0 && sharedMap.bond == 1
      ensures Dim() > 0 ==> bondedPrev == bonded
      ensures Dim() == 0 ==> bondedPrev == old(bondedPrev)
    {
      if dimWithHeader == HEADER_SIZE { return false; }
      var shmem := new DataPacket();
      GetDataPacket(shmem);
      bonded := shmem.bond == 1;
      if bondedPrev != bonded {
        bondedPrev := bonded;
      }
    }

    method IsHardRT() returns (hard: bool)
      requires Mapped()
      modifies this`isHardRTPrev
      ensures hard <==> Dim() > 0 && sharedMap.rt == 1
      ensures Dim() > 0 ==> isHardRTPrev == hard
      ensures Dim() == 0 ==> isHardRTPrev == old(isHardRTPrev)
    {
      if dimWithHeader == HEADER_SIZE { return false; }
      var shmem := new DataPacket();
      GetDataPacket(shmem);
      hard := shmem.rt == 1;
      if isHardRTPrev != hard {
        isHardRTPrev := hard;
      }
    }

    method SetHardRT() returns (ok: bool)
      requires Mapped()
      modifies sharedMap, sharedMap.data
      ensures ok <==> Dim() > 0
      ensures sharedMap.Contents() ==
              if ok then Atomic(Op.SetHardRT, old(sharedMap.Contents()))
              else old(sharedMap.Contents())
      ensures ok ==> sharedMap.Contents() == old(sharedMap.Contents()).(rt := 1)
    {
      if dimWithHeader == HEADER_SIZE { return false; }
      var shmem := new DataPacket();
      GetDataPacket(shmem);
      shmem.rt := 1;
      SetDataPacket(shmem);
      ok := true;
    }

    method SetSoftRT() returns (ok: bool)
      requires Mapped()
      modifies sharedMap, sharedMap.data
      ensures ok <==> Dim() > 0
      ensures sharedMap.Contents() ==
              if ok then Atomic(Op.SetSoftRT, old(sharedMap.Contents()))
              else old(sharedMap.Contents())
      ensures ok ==> sharedMap.Contents() == old(sharedMap.Contents()).(rt := 0)
    {
      if dimWithHeader == HEADER_SIZE { return false; }
      var shmem := new DataPacket();
      GetDataPacket(shmem);
      shmem.rt := 0;
      SetDataPacket(shmem);
      ok := true;
    }

    method Bond() returns (ok: bool)
      requires Mapped()
      modifies sharedMap, sharedMap.data
      ensures ok <==> Dim() > 0 && Edit(Op.Bond, old(sharedMap.Contents())).Some?
      ensures sharedMap.Contents() ==
              if Dim() > 0 then Atomic(Op.Bond, old(sharedMap.Contents()))
              else old(sharedMap.Contents())
      ensures ok <==> Dim() > 0 && old(sharedMap.bond) != 1
      ensures sharedMap.Contents() == if ok then old(sharedMap.Contents()).(bond := 1) else old(sharedMap.Contents())
    {
      if dimWithHeader == HEADER_SIZE { return false; }
      var shmem := new DataPacket();
      GetDataPacket(shmem);
      if shmem.bond == 1 { return false; }
      shmem.bond := 1;
      SetDataPacket(shmem);
      ok := true;
    }

    /** Unlike its neighbours breakBond does not test for an empty region, which has no mutex. */
    method BreakBond() returns (ok: bool)
      requires Mapped() && Dim() > 0
      modifies sharedMap, sharedMap.data
      ensures ok && sharedMap.Contents() == Atomic(Op.BreakBond, old(sharedMap.Contents()))
      ensures sharedMap.Contents() == old(sharedMap.Contents()).(bond := 0, rt := 0)
    {
      var shmem := new DataPacket();
      GetDataPacket(shmem);
      shmem.rt := 0;
      shmem.bond := 0;
      SetDataPacket(shmem);
      ok := true;
    }

    method Update(ibuffer: array<Byte>, time: real, nBytes: nat) returns (code: ErrorCode)
      requires Mapped()
      requires nBytes == Dim() ==> ibuffer.Length >= nBytes
      modifies sharedMap, sharedMap.data
      ensures code == if nBytes != Dim() then UnmatchedDataDimension else NoneError
      ensures sharedMap.Contents() ==
              if nBytes == Dim() && Dim() > 0
              then Atomic(Op.Update(time, old(ibuffer[..nBytes])), old(sharedMap.Contents()))
              else old(sharedMap.Contents())
      ensures sharedMap.Contents() ==
              if nBytes == Dim() && Dim() > 0 && old(sharedMap.bond) == 1
              then old(sharedMap.Contents()).(time := time, payload := old(ibuffer[..nBytes]))
              else old(sharedMap.Contents())
    {
      if dimWithHeader - HEADER_SIZE != nBytes { return UnmatchedDataDimension; }
      if dimWithHeader - HEADER_SIZE <= 0 { return NoneError; }
      var shmem := new DataPacket();
      GetDataPacket(shmem);
      if shmem.bond == 1 {
        shmem.time := time;
        MemCpy(shmem.buffer, ibuffer, nBytes);
      }
      SetDataPacket(shmem);
      code := NoneError;
    }

    /** The head of flush: stamp and bytes of the packet if it is bonded, zeros if not. */
    method CopyOut(obuffer: array<Byte>, n: nat) returns (bonded: bool, hard: bool, time: real)
      requires Mapped() && obuffer != sharedMap.data && n == Dim() && n <= obuffer.Length
      modifies obuffer
      ensures var p := sharedMap.Contents();
              && bonded == (p.bond == 1) && hard == (p.rt == 1)
              && time == (if bonded then p.time else 0.0)
              && obuffer[..n] == if bonded then p.payload else Zeros(n)
      ensures obuffer[n..] == old(obuffer[n..])
    {
      var shmem := new DataPacket();
      GetDataPacket(shmem);
      assert shmem.Prefix(n) == sharedMap.Contents();
      bonded, hard := shmem.bond == 1, shmem.rt == 1;
      if bonded {
        time := shmem.time;
        MemCpy(obuffer, shmem.buffer, n);
      } else {
        time := 0.0;
        MemSetZero(obuffer, n);
      }
    }

    /** The middle of flush: what the latency of a bonded packet says about the writer. */
    method CheckLatency(latency: real, clock: real) returns (ret: ErrorCode)
      modifies this`startWatchdogTime
      ensures ret == NoneError || ret == WatchdogError
      ensures (startWatchdogTime, ret == WatchdogError) == Judge(Settings(), old(startWatchdogTime), latency, clock)
    {
      ret := NoneError;
      if latency < watchdog && latency > STALE_LIMIT {
        startWatchdogTime := -1.0;
      } else if latency > watchdog {
        ret := WatchdogError;
      } else if latency < STALE_LIMIT {
        if startWatchdogTime == -1.0 {
          startWatchdogTime := clock;
        } else if clock - startWatchdogTime > watchdog {
          ret := WatchdogError;
        }
      }
    }

    /** flush from the copy on, for a request of the right, non-zero, size. */
    method FlushPacket(obuffer: array<Byte>, nBytes: nat, clock: real)
      returns (code: ErrorCode, time: real, latency: real)
      requires Mapped() && obuffer != sharedMap.data && nBytes == Dim() && nBytes <= obuffer.Length
      modifies this`startWatchdogTime, this`dataTimePrev, this`flushTimePrev, obuffer
      ensures (State(), Output(code, time, obuffer[..nBytes], latency))
           == Watchdog.Flush(Settings(), old(State()), Sample(old(sharedMap.Contents()), clock))
      ensures time == if sharedMap.bond == 1 then sharedMap.time else 0.0
      ensures obuffer[..nBytes] == if sharedMap.bond == 1 && !(code == WatchdogError && mode.IsServer())
                                   then sharedMap.data[..] else Zeros(nBytes)
      ensures latency == time - old(dataTimePrev)
      ensures obuffer[nBytes..] == old(obuffer[nBytes..])
    {
      code := NoneError;
      var bonded, hard;
      bonded, hard, time := CopyOut(obuffer, nBytes);

      latency := time - dataTimePrev;
      if mode.IsClient() && Abs(clock - time) > 2.0 * watchdog {
        code := WatchdogError;
        return;
      }

      if bonded {
        code := CheckLatency(latency, clock);
        if code == WatchdogError {
          if hard {
            if mode.IsServer() {
              MemSetZero(obuffer, nBytes);
            }
          } else {
            code := NoneError;
          }
        }
      }
      dataTimePrev := time;
      flushTimePrev := clock;
    }

    /**
     The values behind the time and latency pointers are passed in and returned, because the
     early exits leave them alone; `clock` is what clock_gettime reads.
     */
    method Flush(obuffer: array<Byte>, time0: real, latency0: real, nBytes: nat, clock: real)
      returns (code: ErrorCode, time: real, latency: real)
      requires Valid() && obuffer != sharedMap.data
      requires nBytes == Dim() ==> obuffer.Length >= nBytes
      modifies this`startWatchdogTime, this`dataTimePrev, this`flushTimePrev, this`samples, obuffer
      ensures Valid()
      ensures nBytes != Dim() || Dim() == 0 ==>
                && code == (if nBytes != Dim() then UnmatchedDataDimension else NoneError)
                && time == time0 && latency == latency0
                && State() == old(State()) && samples == old(samples) && obuffer[..] == old(obuffer[..])
      ensures nBytes == Dim() && Dim() > 0 ==>
                && samples == old(samples) + [Sample(old(sharedMap.Contents()), clock)]
                && Output(code, time, obuffer[..nBytes], latency)
                   == OutputOf(Settings(), old(samples), Sample(old(sharedMap.Contents()), clock))
                && time == (if sharedMap.bond == 1 then sharedMap.time else 0.0)
                && obuffer[..nBytes] == (if sharedMap.bond == 1 && !(code == WatchdogError && mode.IsServer())
                                         then sharedMap.data[..] else Zeros(nBytes))
                && latency == time - old(dataTimePrev)
                && obuffer[nBytes..] == old(obuffer[nBytes..])
    {
      code, time, latency := NoneError, time0, latency0;
      if dimWithHeader - HEADER_SIZE != nBytes {
        code := UnmatchedDataDimension;
        return;
      }
      if dimWithHeader - HEADER_SIZE <= 0 { return; }

      ghost var sample := Sample(sharedMap.Contents(), clock);
      OneMoreFlush(Settings(), samples, sample);
      code, time, latency := FlushPacket(obuffer, nBytes, clock);
      samples := samples + [sample];
    }
  }
}
