/** The firmware as the object the boot loader calls. */
module FirmwareServices {
  import opened Bits
  import opened Bytes
  import opened Uefi

  class Firmware {
    var mem: seq<byte>
    var pages: map<nat, Kind>
    var pools: map<nat, Pool>
    var granted: seq<Grant>
    var file: seq<byte>
    var open: bool
    var position: nat
    var mapKey: nat
    var services: bool
    const stride: pos
    const answers: nat -> Answer
    var tick: nat

    function State(): Machine
      reads this
    {
      Machine(mem, pages, pools, granted, file, open, position, mapKey, services, stride, answers, tick)
    }

    /** Takes over the state after a call. */
    method Become(m: Machine)
      requires m.stride == stride && m.answers == answers
      modifies this
      ensures State() == m
    {
      mem, pages, pools, granted, file, open := m.mem, m.pages, m.pools, m.granted, m.file, m.open;
      position, mapKey, services, tick := m.position, m.mapKey, m.services, m.tick;
    }

    method AllocatePages(kind: Kind, count: nat, address: nat) returns (status: Status)
      modifies this
      ensures var r := old(State()).AllocatePages(kind, count, address); State() == r.m && status == r.Status()
    {
      var r := State().AllocatePages(kind, count, address);
      Become(r.m);
      status := r.Status();
    }

    /** A failing call leaves the caller's pointer alone. */
    method AllocatePool(kind: Kind, size: nat, pointer: nat) returns (status: Status, buffer: nat)
      modifies this
      ensures var r := old(State()).AllocatePool(kind, size);
        State() == r.m && status == r.Status() && buffer == if r.Done? then r.value else pointer
    {
      var r := State().AllocatePool(kind, size);
      Become(r.m);
      status, buffer := r.Status(), if r.Done? then r.value else pointer;
    }

    method FreePool(buffer: nat) returns (status: Status)
      modifies this
      ensures var r := old(State()).FreePool(buffer); State() == r.m && status == r.Status()
    {
      var r := State().FreePool(buffer);
      Become(r.m);
      status := r.Status();
    }

    method GetMemoryMap(size: nat, buffer: nat) returns (status: Status, newSize: nat, key: nat, descriptorSize: pos)
      modifies this
      ensures var r := old(State()).GetMemoryMap(size, buffer);
        State() == r.m && status == r.status && newSize == r.size && key == r.key && descriptorSize == stride
      ensures status == EFI_SUCCESS || IsError(status)
    {
      var r := State().GetMemoryMap(size, buffer);
      Become(r.m);
      status, newSize, key, descriptorSize := r.status, r.size, r.key, stride;
    }

    method CopyMem(dst: nat, src: nat, n: nat) returns (status: Status)
      modifies this
      ensures var r := old(State()).CopyMem(dst, src, n); State() == r.m && status == r.Status()
    {
      var r := State().CopyMem(dst, src, n);
      Become(r.m);
      status := r.Status();
    }

    method SetMem(dst: nat, n: nat, v: byte) returns (status: Status)
      modifies this
      ensures var r := old(State()).SetMem(dst, n, v); State() == r.m && status == r.Status()
    {
      var r := State().SetMem(dst, n, v);
      Become(r.m);
      status := r.Status();
    }

    method ExitBootServices(key: nat) returns (status: Status)
      modifies this
      ensures var r := old(State()).ExitBootServices(key); State() == r.m && status == r.Status()
    {
      var r := State().ExitBootServices(key);
      Become(r.m);
      status := r.Status();
    }

    method Open() returns (status: Status)
      modifies this
      ensures var r := old(State()).Open(); State() == r.m && status == r.Status()
    {
      var r := State().Open();
      Become(r.m);
      status := r.Status();
    }

    method Close() returns (status: Status)
      modifies this
      ensures var r := old(State()).Close(); State() == r.m && status == r.Status()
    {
      var r := State().Close();
      Become(r.m);
      status := r.Status();
    }

    method SetPosition(pos: nat) returns (status: Status)
      modifies this
      ensures var r := old(State()).SetPosition(pos); State() == r.m && status == r.Status()
    {
      var r := State().SetPosition(pos);
      Become(r.m);
      status := r.Status();
    }

    method Read(n: nat, buffer: nat) returns (status: Status, amount: nat)
      modifies this
      ensures var r := old(State()).Read(n, buffer);
        State() == r.m && status == r.Status() && amount == if r.Done? then r.value else n
    {
      var r := State().Read(n, buffer);
      Become(r.m);
      status, amount := r.Status(), if r.Done? then r.value else n;
    }
  }
}
