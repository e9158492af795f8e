/** How the two parcelables move bytes through anonymous shared memory: every descriptor and
    mapping that is opened is released exactly once, on every path, except that a successful
    write leaves one duplicate owned by the parcel. */
module SharedMemory {
  import opened Ipc

  const MAX_BUFFER_SIZE := 32 * 1024 * 1024
  const MAX_FORM_DATA_BUFFER_SIZE := 128 * 1024 * 1024

  /** FormProviderData::WriteFileDescriptor and FormJsInfo::WriteFdToParcel. */
  method WriteFileDescriptor(parcel: Parcel, fd: int) returns (ok: bool)
    requires parcel.Valid() && (fd >= 0 ==> fd in parcel.kernel.open)
    modifies parcel`tokens, parcel.kernel`open, parcel.kernel`faulted
    ensures old(parcel.kernel.faulted) ==> parcel.kernel.faulted
    ensures ok ==> fd >= 0 && parcel.Sent(old(parcel.kernel.open[fd]))
    ensures !ok ==> parcel.tokens == old(parcel.tokens) && parcel.kernel.open == old(parcel.kernel.open)
    ensures ok ==> parcel.kernel.faulted == old(parcel.kernel.faulted)
    ensures !parcel.kernel.faulted ==> (ok <==> fd >= 0)
  {
    var kernel := parcel.kernel;
    if fd < 0 {
      return false;
    }
    var dupFd := kernel.Dup(fd);
    if dupFd < 0 {
      return false;
    }
    ok := parcel.WriteObject(dupFd);
    if !ok {
      kernel.Close(dupFd);
      assert kernel.open == old(kernel.open);
    }
  }

  /** FormProviderData::ReadFileDescriptor and FormJsInfo::ReadFdFromParcel: a duplicate of the
      parcel's descriptor, or -1. */
  method ReadFileDescriptor(parcel: Parcel) returns (fd: int)
    requires parcel.Valid()
    modifies parcel`cursor, parcel`torn, parcel.kernel`open, parcel.kernel`faulted
    ensures parcel.Valid() && parcel.tokens == old(parcel.tokens)
    ensures old(parcel.kernel.faulted) ==> parcel.kernel.faulted
    ensures fd >= 0 ==> old(parcel.Rest()) != [] && old(parcel.Rest())[0].Memory?
    ensures fd >= 0 ==> fd !in old(parcel.kernel.open)
    ensures fd >= 0 ==> parcel.kernel.open == old(parcel.kernel.open)[fd := old(parcel.Rest())[0].bytes]
    ensures fd >= 0 ==> parcel.Rest() == old(parcel.Rest())[1..]
    ensures fd < 0 ==> parcel.kernel.open == old(parcel.kernel.open)
    ensures !parcel.kernel.faulted ==> (fd >= 0 <==> old(parcel.Rest()) != [] && old(parcel.Rest())[0].Memory?)
  {
    var kernel := parcel.kernel;
    var owned := parcel.ReadObject();
    if owned < 0 {
      return -1;
    }
    fd := kernel.Dup(owned);
    if fd >= 0 {
      ResolveFrame(parcel.tokens, old(kernel.open), kernel.open);
    }
  }

  /** The part both writers share: create the memory, map it and copy the bytes in. A negative
      descriptor means that one step failed and everything was released again. */
  method FillNewMemory(kernel: Kernel, size: nat, data: string) returns (fd: int, ptr: int)
    requires size <= |data|
    modifies kernel
    ensures old(kernel.faulted) ==> kernel.faulted
    ensures fd < 0 ==> kernel.open == old(kernel.open) && kernel.mapped == old(kernel.mapped)
    ensures fd >= 0 ==> fd !in old(kernel.open) && kernel.open == old(kernel.open)[fd := data[..size]]
    ensures fd >= 0 ==> ptr !in old(kernel.mapped) && kernel.mapped == old(kernel.mapped)[ptr := fd]
    ensures fd >= 0 ==> kernel.faulted == old(kernel.faulted)
    ensures !kernel.faulted ==> (fd >= 0 <==> size > 0)
  {
    ptr := -1;
    fd := kernel.AshmemCreate(size);
    if fd < 0 {
      return;
    }
    var result := kernel.AshmemSetProt(fd);
    if result < 0 {
      kernel.Close(fd);
      assert kernel.open == old(kernel.open);
      return -1, ptr;
    }
    ptr := kernel.Mmap(fd);
    if ptr < 0 {
      kernel.Close(fd);
      assert kernel.open == old(kernel.open);
      return -1, ptr;
    }
    var copied := kernel.CopyIn(ptr, data[..size]);
    if !copied {
      kernel.Munmap(ptr);
      kernel.Close(fd);
      assert kernel.open == old(kernel.open) && kernel.mapped == old(kernel.mapped);
      return -1, ptr;
    }
  }

  /** FormProviderData::WriteAshmemDataToParcel: unmaps after handing the descriptor over. */
  method WriteAshmemDataToParcel(parcel: Parcel, size: nat, data: string) returns (ok: bool)
    requires parcel.Valid() && size <= |data|
    modifies parcel`tokens, parcel.kernel
    ensures parcel.KeptByWrite() && parcel.kernel.mapped == old(parcel.kernel.mapped)
    ensures ok ==> parcel.Sent(data[..size]) && parcel.Content() == old(parcel.Content()) + [Memory(data[..size])]
    ensures !ok ==> parcel.tokens == old(parcel.tokens) && parcel.kernel.open == old(parcel.kernel.open)
    ensures ok ==> parcel.kernel.faulted == old(parcel.kernel.faulted)
    ensures !parcel.kernel.faulted ==> (ok <==> size > 0)
  {
    hide Parcel.KeptByWrite, Parcel.Content;
    var kernel := parcel.kernel;
    var fd, ptr := FillNewMemory(kernel, size, data);
    if fd < 0 {
      parcel.AfterNothing();
      return false;
    }
    ok := WriteFileDescriptor(parcel, fd);
    kernel.Munmap(ptr);
    kernel.Close(fd);
    assert kernel.mapped == old(kernel.mapped);
    if ok {
      assert kernel.open == old(kernel.open)[parcel.tokens[|old(parcel.tokens)|].fd := data[..size]];
      parcel.AfterSent(data[..size]);
    } else {
      assert kernel.open == old(kernel.open);
      parcel.AfterNothing();
    }
  }

  /** FormJsInfo::WriteAshmemFormData: checks the size, unmaps first, then drops the write
      protection; a failure to drop it is only logged. */
  method WriteAshmemFormData(parcel: Parcel, size: int, data: string) returns (ok: bool)
    requires parcel.Valid() && size <= |data|
    modifies parcel`tokens, parcel.kernel
    ensures parcel.KeptByWrite() && parcel.kernel.mapped == old(parcel.kernel.mapped)
    ensures ok ==> 0 < size <= MAX_FORM_DATA_BUFFER_SIZE
    ensures ok ==> parcel.Sent(data[..size]) && parcel.Content() == old(parcel.Content()) + [Memory(data[..size])]
    ensures !ok ==> parcel.tokens == old(parcel.tokens) && parcel.kernel.open == old(parcel.kernel.open)
    ensures !parcel.kernel.faulted ==> (ok <==> 0 < size <= MAX_FORM_DATA_BUFFER_SIZE)
  {
    hide Parcel.KeptByWrite, Parcel.Content;
    var kernel := parcel.kernel;
    if size <= 0 || size > MAX_FORM_DATA_BUFFER_SIZE {
      parcel.AfterNothing();
      return false;
    }
    var fd, ptr := FillNewMemory(kernel, size, data);
    if fd < 0 {
      parcel.AfterNothing();
      return false;
    }
    kernel.Munmap(ptr);
    assert kernel.mapped == old(kernel.mapped);
    var result := kernel.AshmemSetProt(fd);
    ok := WriteFileDescriptor(parcel, fd);
    kernel.Close(fd);
    if ok {
      assert kernel.open == old(kernel.open)[parcel.tokens[|old(parcel.tokens)|].fd := data[..size]];
      parcel.AfterSent(data[..size]);
    } else {
      assert kernel.open == old(kernel.open);
      parcel.AfterNothing();
    }
  }

  /** FormProviderData::ReleaseMemory with SHARE_MEM_ALLOC. */
  method ReleaseMemory(kernel: Kernel, addr: int, fd: int)
    requires addr in kernel.mapped && fd in kernel.open
    modifies kernel`open, kernel`mapped
    ensures kernel.open == old(kernel.open) - {fd} && kernel.mapped == old(kernel.mapped) - {addr}
  {
    kernel.Munmap(addr);
    kernel.Close(fd);
  }

  /** The memory a reader asking for `size` bytes would be given next. */
  ghost predicate Holds(rest: seq<Token>, size: int)
  {
    rest != [] && rest[0].Memory? && |rest[0].bytes| == size
  }

  /** FormProviderData::ReadAshmemDataFromParcel; None stands for nullptr. */
  method ReadAshmemDataFromParcel(parcel: Parcel, bufferSize: int) returns (ok: bool, data: string)
    requires parcel.Valid()
    modifies parcel`cursor, parcel`torn, parcel.kernel
    ensures parcel.KeptByRead()
    ensures parcel.kernel.open == old(parcel.kernel.open) && parcel.kernel.mapped == old(parcel.kernel.mapped)
    ensures ok ==> Holds(old(parcel.Rest()), bufferSize) && 0 < bufferSize <= MAX_BUFFER_SIZE
    ensures ok ==> data == old(parcel.Rest())[0].bytes && parcel.Rest() == old(parcel.Rest())[1..]
    ensures !parcel.kernel.faulted && Holds(old(parcel.Rest()), bufferSize) ==>
      (ok <==> 0 < bufferSize <= MAX_BUFFER_SIZE)
  {
    var kernel := parcel.kernel;
    data := "";
    var fd := ReadFileDescriptor(parcel);
    if fd < 0 {
      return false, data;
    }
    ghost var after := kernel.open;
    assert after - {fd} == old(kernel.open);
    if |kernel.open[fd]| != bufferSize {
      kernel.Close(fd);
      return false, data;
    }
    if bufferSize <= 0 || bufferSize > MAX_BUFFER_SIZE {
      kernel.Close(fd);
      return false, data;
    }
    var ptr := kernel.Mmap(fd);
    if ptr < 0 {
      kernel.Close(fd);
      return false, data;
    }
    ok, data := kernel.CopyOut(ptr);
    if !ok {
      kernel.Munmap(ptr);
      assert kernel.mapped == old(kernel.mapped);
      kernel.Close(fd);
      return false, data;
    }
    ReleaseMemory(kernel, ptr, fd);
    assert kernel.mapped == old(kernel.mapped);
    ResolveFrame(parcel.tokens, after, kernel.open);
  }

  /** FormJsInfo::ReadAshmemFormData: the length is checked before the memory's size. */
  method ReadAshmemFormData(parcel: Parcel, formDataLength: int) returns (ok: bool, data: string)
    requires parcel.Valid()
    modifies parcel`cursor, parcel`torn, parcel.kernel
    ensures parcel.KeptByRead()
    ensures parcel.kernel.open == old(parcel.kernel.open) && parcel.kernel.mapped == old(parcel.kernel.mapped)
    ensures ok ==> Holds(old(parcel.Rest()), formDataLength) && 0 < formDataLength <= MAX_FORM_DATA_BUFFER_SIZE
    ensures ok ==> data == old(parcel.Rest())[0].bytes && parcel.Rest() == old(parcel.Rest())[1..]
    ensures !parcel.kernel.faulted && Holds(old(parcel.Rest()), formDataLength) ==>
      (ok <==> 0 < formDataLength <= MAX_FORM_DATA_BUFFER_SIZE)
  {
    var kernel := parcel.kernel;
    data := "";
    var fd := ReadFileDescriptor(parcel);
    if fd < 0 {
      return false, data;
    }
    ghost var after := kernel.open;
    assert after - {fd} == old(kernel.open);
    if formDataLength <= 0 || formDataLength > MAX_FORM_DATA_BUFFER_SIZE {
      kernel.Close(fd);
      return false, data;
    }
    if |kernel.open[fd]| != formDataLength {
      kernel.Close(fd);
      return false, data;
    }
    var ptr := kernel.Mmap(fd);
    if ptr < 0 {
      kernel.Close(fd);
      return false, data;
    }
    data := kernel.open[kernel.mapped[ptr]];
    kernel.Munmap(ptr);
    assert kernel.mapped == old(kernel.mapped);
    kernel.Close(fd);
    ResolveFrame(parcel.tokens, after, kernel.open);
    return true, data;
  }
}
