/** The system below the codec: descriptors, shared memory, mappings and parcels. Every system
    call may fail; a failure that the arguments do not explain raises `faulted`. */
module Ipc {
  import opened SortedMaps

  // A value in a parameter map is a smart pointer to an interface, which may be null.
  datatype Interface = NullInterface | Boxed(text: string)

  datatype Want = Want(element: string, params: map<string, Interface>)

  // One typed item of a parcel. `Descriptor` is an IPCFileDescriptor, owned by the parcel;
  // seen from a reader it stands for the memory behind it, written `Memory`.
  datatype Token =
    | Int32(i: int)
    | Int64(l: int)
    | Uint32(n: int)
    | Boolean(b: bool)
    | Utf16(s: string)
    | Strings(v: seq<string>)
    | Ashmem(content: string)
    | WantBody(want: Want)
    | Descriptor(fd: int)
    | Memory(bytes: string)
    | Torn // the rest of a value that was read in part

  const INT32_MAX := 0x7FFF_FFFF

  /** static_cast<int32_t> of a size. */
  function ToInt32(n: nat): (r: int)
    ensures r <= n && r <= INT32_MAX
    ensures n <= INT32_MAX ==> r == n
  {
    (n + 0x8000_0000) % 0x1_0000_0000 - 0x8000_0000
  }

  /** The only value within 32 bits that differs from the size by a multiple of 2 to the 32. */
  lemma ToInt32Wraps(n: nat, i: int)
    ensures -0x8000_0000 <= i <= INT32_MAX && (n - i) % 0x1_0000_0000 == 0 <==> i == ToInt32(n)
  {
  }

  /** What one write leaves on the parcel. */
  function Landed(ok: bool, t: Token): seq<Token> { if ok then [t] else [] }

  function Resolve(ts: seq<Token>, open: map<int, string>): (r: seq<Token>)
    ensures |r| == |ts|
  {
    seq(|ts|, i requires 0 <= i < |ts| =>
      if ts[i].Descriptor? && ts[i].fd in open then Memory(open[ts[i].fd]) else ts[i])
  }

  function Owned(ts: seq<Token>): set<int>
  {
    set t | t in ts && t.Descriptor? :: t.fd
  }

  lemma ResolveFrame(ts: seq<Token>, a: map<int, string>, b: map<int, string>)
    requires forall fd :: fd in Owned(ts) ==> fd in a && fd in b && a[fd] == b[fd]
    ensures Resolve(ts, a) == Resolve(ts, b)
  {
  }

  lemma ResolveAppend(ts: seq<Token>, t: Token, open: map<int, string>)
    ensures Resolve(ts + [t], open) == Resolve(ts, open) + Resolve([t], open)
    ensures Owned(ts + [t]) == Owned(ts) + (if t.Descriptor? then {t.fd} else {})
  {
  }

  /** A finite set of integers leaves some non-negative one out. */
  lemma {:induction false} UnusedExists(used: set<int>, from: nat) returns (n: nat)
    ensures from <= n && n !in used
    decreases |used|
  {
    if from !in used {
      n := from;
    } else {
      n := UnusedExists(used - {from}, from + 1);
    }
  }

  class Kernel {
    var open: map<int, string> // descriptor -> bytes of the memory behind it
    var mapped: map<int, int>  // address -> descriptor mapped there
    ghost var faulted: bool

    method AshmemCreate(size: int) returns (fd: int)
      modifies this`open, this`faulted
      ensures old(faulted) ==> faulted
      ensures fd < 0 ==> open == old(open) && (faulted || size <= 0)
      ensures fd >= 0 ==> faulted == old(faulted)
      ensures fd >= 0 ==> size > 0 && fd !in old(open) && fd in open
      ensures fd >= 0 ==> open == old(open)[fd := open[fd]] && |open[fd]| == size
    {
      var fails: bool := *;
      if size <= 0 || fails {
        faulted := faulted || fails;
        return -1;
      }
      fd := Fresh(open.Keys);
      open := open[fd := seq(size, _ => 0 as char)];
    }

    method AshmemSetProt(fd: int) returns (r: int)
      requires fd in open
      modifies this`faulted
      ensures old(faulted) ==> faulted
      ensures r < 0 ==> faulted
      ensures r >= 0 ==> faulted == old(faulted)
    {
      var fails: bool := *;
      if fails {
        faulted := true;
      }
      r := if fails then -1 else 0;
    }

    /** Address of the new mapping, or -1 for MAP_FAILED. */
    method Mmap(fd: int) returns (addr: int)
      requires fd in open
      modifies this`mapped, this`faulted
      ensures old(faulted) ==> faulted
      ensures addr < 0 ==> mapped == old(mapped) && faulted
      ensures addr >= 0 ==> faulted == old(faulted)
      ensures addr >= 0 ==> addr !in old(mapped) && mapped == old(mapped)[addr := fd]
    {
      var fails: bool := *;
      if fails {
        faulted := true;
        return -1;
      }
      addr := Fresh(mapped.Keys);
      mapped := mapped[addr := fd];
    }

    /** Releasing a mapping that is not there is the error this precondition excludes. */
    method Munmap(addr: int)
      requires addr in mapped
      modifies this`mapped
      ensures mapped == old(mapped) - {addr}
    {
      mapped := mapped - {addr};
    }

    /** memcpy_s into a mapping that covers the whole memory. */
    method CopyIn(addr: int, data: string) returns (ok: bool)
      requires addr in mapped && mapped[addr] in open && |open[mapped[addr]]| == |data|
      modifies this`open, this`faulted
      ensures old(faulted) ==> faulted
      ensures ok ==> open == old(open)[mapped[addr] := data]
      ensures !ok ==> open == old(open) && faulted
      ensures ok ==> faulted == old(faulted)
    {
      ok := *;
      if ok {
        open := open[mapped[addr] := data];
      } else {
        faulted := true;
      }
    }

    /** memcpy_s out of a mapping into memory just allocated; either step may fail. */
    method CopyOut(addr: int) returns (ok: bool, data: string)
      requires addr in mapped && mapped[addr] in open
      modifies this`faulted
      ensures old(faulted) ==> faulted
      ensures ok ==> data == open[mapped[addr]]
      ensures !ok ==> faulted
    {
      ok := *;
      data := open[mapped[addr]];
      if !ok {
        faulted := true;
      }
    }

    method Dup(fd: int) returns (d: int)
      requires fd in open
      modifies this`open, this`faulted
      ensures old(faulted) ==> faulted
      ensures d < 0 ==> open == old(open) && faulted
      ensures d >= 0 ==> faulted == old(faulted)
      ensures d >= 0 ==> d !in old(open) && open == old(open)[d := old(open)[fd]]
    {
      var fails: bool := *;
      if fails {
        faulted := true;
        return -1;
      }
      d := Fresh(open.Keys);
      open := open[d := open[fd]];
    }

    /** Closing twice, or closing what is not open, is the error this precondition excludes. */
    method Close(fd: int)
      requires fd in open
      modifies this`open
      ensures open == old(open) - {fd}
    {
      open := open - {fd};
    }

    /** From here on a stored image owns the descriptor; it is no longer accounted for here. */
    method HandOver(fd: int)
      requires fd in open
      modifies this`open
      ensures open == old(open) - {fd}
    {
      open := open - {fd};
    }

    method Fresh(used: set<int>) returns (n: int)
      ensures n >= 0 && n !in used
    {
      ghost var m := UnusedExists(used, 0);
      n :| n >= 0 && n !in used;
    }
  }

  predicate Plain(t: Token) { !t.Descriptor? && !t.Memory? && !t.Torn? }

  // Where a read of another type leaves the cursor: some values further on, and possibly in the
  // middle of one.
  datatype Left = Left(torn: bool, skip: nat)

  // What the bytes of a value of another type make of a read, given everything that is left. The
  // byte layout of a parcel decides it; nothing is assumed about it here. Objects and shared
  // memory are only ever obtained where one was written.
  datatype Misread = Misread(
    int32: seq<Token> -> (int, Left),
    int64: seq<Token> -> (int, Left),
    uint32: seq<Token> -> (int, Left),
    boolean: seq<Token> -> (bool, Left),
    utf16: seq<Token> -> (string, Left),
    strings: seq<Token> -> (Option<seq<string>>, Left),
    want: seq<Token> -> (Option<Want>, Left),
    handle: seq<Token> -> Left)

  // One way to misread: every value of another type is taken for a default one, and what is left
  // of it stands in front of everything else for good.
  const DEAD_END := Misread(
    _ => (0, Left(true, 0)), _ => (0, Left(true, 0)), _ => (0, Left(true, 0)), _ => (false, Left(true, 0)),
    _ => ("", Left(true, 0)), _ => (None, Left(true, 0)), _ => (None, Left(true, 0)), _ => Left(true, 0))

  predicate InPieces(ts: seq<Token>) { ts != [] && ts[0].Torn? }

  function After(ts: seq<Token>, l: Left): seq<Token>
  {
    (if l.torn then [Torn] else []) + ts[if l.skip <= |ts| then l.skip else |ts|..]
  }

  // What a read of each type yields, and the tokens left. A read past the end yields the default
  // value and leaves the cursor where it is.
  function TakeInt32(m: Misread, ts: seq<Token>): (int, seq<Token>)
  {
    if ts == [] then (0, ts)
    else if ts[0].Int32? then (ts[0].i, ts[1..])
    else (m.int32(ts).0, After(ts, m.int32(ts).1))
  }

  function TakeInt64(m: Misread, ts: seq<Token>): (int, seq<Token>)
  {
    if ts == [] then (0, ts)
    else if ts[0].Int64? then (ts[0].l, ts[1..])
    else (m.int64(ts).0, After(ts, m.int64(ts).1))
  }

  function TakeUint32(m: Misread, ts: seq<Token>): (int, seq<Token>)
  {
    if ts == [] then (0, ts)
    else if ts[0].Uint32? then (ts[0].n, ts[1..])
    else (m.uint32(ts).0, After(ts, m.uint32(ts).1))
  }

  function TakeBool(m: Misread, ts: seq<Token>): (bool, seq<Token>)
  {
    if ts == [] then (false, ts)
    else if ts[0].Boolean? then (ts[0].b, ts[1..])
    else (m.boolean(ts).0, After(ts, m.boolean(ts).1))
  }

  function TakeUtf16(m: Misread, ts: seq<Token>): (string, seq<Token>)
  {
    if ts == [] then ("", ts)
    else if ts[0].Utf16? then (ts[0].s, ts[1..])
    else (m.utf16(ts).0, After(ts, m.utf16(ts).1))
  }

  function TakeStrings(m: Misread, ts: seq<Token>): (Option<seq<string>>, seq<Token>)
  {
    if ts == [] then (None, ts)
    else if ts[0].Strings? then (Some(ts[0].v), ts[1..])
    else (m.strings(ts).0, After(ts, m.strings(ts).1))
  }

  /** ReadParcelable<FormAshmem>: a presence flag, then the shared memory. */
  function TakeAshmem(m: Misread, ts: seq<Token>): (Option<string>, seq<Token>)
  {
    var (flag, r) := TakeInt32(m, ts);
    if flag == 0 || r == [] then (None, r)
    else if r[0].Ashmem? then (Some(r[0].content), r[1..])
    else (None, After(r, m.handle(r)))
  }

  function TakeWant(m: Misread, ts: seq<Token>): (Option<Want>, seq<Token>)
  {
    var (flag, r) := TakeInt32(m, ts);
    if flag == 0 || r == [] then (None, r)
    else if r[0].WantBody? then (Some(r[0].want), r[1..])
    else (m.want(r).0, After(r, m.want(r).1))
  }

  class Parcel {
    const kernel: Kernel
    const misread: Misread
    var tokens: seq<Token>
    var cursor: nat
    var torn: nat // parts of values in front of the cursor

    ghost predicate Valid()
      reads this, kernel
    {
      && cursor <= |tokens| && Owned(tokens) <= kernel.open.Keys
      && forall t :: t in tokens ==> !t.Memory? && (t.Descriptor? ==> t.fd >= 0)
    }

    /** The tokens as a reader sees them. */
    function Content(): seq<Token>
      reads `tokens, kernel`open
    {
      Resolve(tokens, kernel.open)
    }

    function Rest(): seq<Token>
      requires Valid()
      reads this, kernel
    {
      seq(torn, _ => Torn) + Content()[cursor..]
    }

    lemma Ahead()
      requires Valid()
      ensures Rest() == [] <==> torn == 0 && cursor == |tokens|
      ensures torn > 0 ==> Rest()[0] == Torn
      ensures torn == 0 && cursor < |tokens| ==>
        && tokens[cursor] in tokens && Rest()[0] == Content()[cursor] && Rest()[1..] == Content()[cursor + 1..]
        && (if tokens[cursor].Descriptor? then Rest()[0].Memory? else Rest()[0] == tokens[cursor])
    {
      if torn == 0 && cursor < |tokens| && tokens[cursor].Descriptor? {
        assert tokens[cursor].fd in Owned(tokens);
      }
    }

    /** Open descriptors that the parcel does not own. */
    ghost function Loose(): set<int>
      reads this, kernel
    {
      kernel.open.Keys - Owned(tokens)
    }

    /** What every write keeps, whether it succeeds or not. */
    twostate predicate KeptByWrite()
      reads this, kernel
    {
      && Valid()
      && old(tokens) <= tokens && cursor == old(cursor) && torn == old(torn)
      && old(Content()) <= Content()
      && Loose() == old(Loose()) && kernel.mapped == old(kernel.mapped)
      && (forall fd :: fd in old(kernel.open) ==> fd in kernel.open && kernel.open[fd] == old(kernel.open[fd]))
      && (old(kernel.faulted) ==> kernel.faulted)
    }

    /** Nothing leaks: no mapping is left, what was open is open with the same bytes, and every new
        descriptor belongs to the parcel. */
    twostate predicate NothingLeaked()
      reads this, kernel
    {
      && kernel.mapped == old(kernel.mapped)
      && (forall fd :: fd in old(kernel.open) ==> fd in kernel.open && kernel.open[fd] == old(kernel.open[fd]))
      && (forall fd :: fd in kernel.open && fd !in old(kernel.open) ==> Descriptor(fd) in tokens)
    }

    twostate lemma KeptLeaksNothing()
      requires KeptByWrite()
      ensures NothingLeaked()
    {
      forall fd | fd in kernel.open && fd !in old(kernel.open) ensures Descriptor(fd) in tokens {
        assert fd !in old(Loose());
        assert fd !in Loose();
      }
    }

    /** What every read keeps, whether it succeeds or not. */
    twostate predicate KeptByRead()
      reads this, kernel
    {
      && Valid()
      && tokens == old(tokens) && kernel.open == old(kernel.open) && kernel.mapped == old(kernel.mapped)
      && (old(kernel.faulted) ==> kernel.faulted)
    }

    /** One new descriptor over `data` was opened since, and it belongs to the parcel. */
    twostate predicate Sent(data: string)
      reads this, kernel
    {
      && |tokens| == |old(tokens)| + 1 && tokens[..|old(tokens)|] == old(tokens)
      && var t := tokens[|old(tokens)|];
      && t.Descriptor? && t.fd >= 0 && t.fd !in old(kernel.open)
      && kernel.open == old(kernel.open)[t.fd := data]
    }

    twostate lemma AfterSent(data: string)
      requires old(Valid()) && Sent(data)
      requires cursor == old(cursor) && torn == old(torn) && kernel.mapped == old(kernel.mapped)
      requires old(kernel.faulted) ==> kernel.faulted
      ensures KeptByWrite() && Content() == old(Content()) + [Memory(data)]
    {
      var t := tokens[|old(tokens)|];
      assert tokens == old(tokens) + [t];
      ResolveAppend(old(tokens), t, kernel.open);
      ResolveFrame(old(tokens), old(kernel.open), kernel.open);
      assert Resolve([t], kernel.open) == [Memory(data)];
    }

    twostate lemma AfterNothing()
      requires old(Valid()) && tokens == old(tokens) && cursor == old(cursor) && torn == old(torn)
      requires kernel.open == old(kernel.open) && kernel.mapped == old(kernel.mapped)
      requires old(kernel.faulted) ==> kernel.faulted
      ensures KeptByWrite()
    {
    }

    constructor (kernel: Kernel, misread: Misread)
      ensures this.kernel == kernel && this.misread == misread
      ensures tokens == [] && cursor == 0 && torn == 0 && Valid()
    {
      this.kernel := kernel;
      this.misread := misread;
      tokens := [];
      cursor := 0;
      torn := 0;
    }

    method Write(t: Token) returns (ok: bool)
      requires Valid() && Plain(t)
      modifies this`tokens, kernel`faulted
      ensures KeptByWrite()
      ensures Content() == old(Content()) + Landed(ok, t)
      ensures !ok ==> tokens == old(tokens) && kernel.faulted
      ensures ok ==> kernel.faulted == old(kernel.faulted)
    {
      ok := *;
      if ok {
        ResolveAppend(tokens, t, kernel.open);
        tokens := tokens + [t];
      } else {
        kernel.faulted := true;
      }
    }

    /** WriteObject<IPCFileDescriptor>: on success the parcel owns `fd`. */
    method WriteObject(fd: int) returns (ok: bool)
      requires Valid() && fd >= 0 && fd in kernel.open
      modifies this`tokens, kernel`faulted
      ensures Valid() && cursor == old(cursor) && torn == old(torn)
      ensures old(kernel.faulted) ==> kernel.faulted
      ensures ok ==> tokens == old(tokens) + [Descriptor(fd)]
      ensures !ok ==> tokens == old(tokens) && kernel.faulted
      ensures ok ==> kernel.faulted == old(kernel.faulted)
    {
      ok := *;
      if ok {
        ResolveAppend(tokens, Descriptor(fd), kernel.open);
        tokens := tokens + [Descriptor(fd)];
      } else {
        kernel.faulted := true;
      }
    }

    method Advance()
      requires Valid() && torn == 0 && cursor < |tokens|
      modifies this`cursor
      ensures KeptByRead() && Rest() == old(Rest())[1..]
    {
      Ahead();
      cursor := cursor + 1;
      assert Rest() == Content()[cursor..];
    }

    method Skip(l: Left)
      requires Valid()
      modifies this`cursor, this`torn
      ensures KeptByRead() && Rest() == After(old(Rest()), l)
    {
      if l.skip <= torn {
        torn := torn - l.skip;
      } else {
        cursor := if cursor + (l.skip - torn) <= |tokens| then cursor + (l.skip - torn) else |tokens|;
        torn := 0;
      }
      if l.torn {
        torn := torn + 1;
      }
    }

    method ReadInt32() returns (v: int)
      requires Valid()
      modifies this`cursor, this`torn
      ensures KeptByRead() && (v, Rest()) == TakeInt32(misread, old(Rest()))
    {
      hide After, Resolve, Owned;
      Ahead();
      if torn == 0 && cursor == |tokens| {
        v := 0;
      } else if torn == 0 && tokens[cursor].Int32? {
        v := tokens[cursor].i;
        Advance();
      } else {
        var l: Left;
        v, l := misread.int32(Rest()).0, misread.int32(Rest()).1;
        Skip(l);
      }
    }

    method ReadInt64() returns (v: int)
      requires Valid()
      modifies this`cursor, this`torn
      ensures KeptByRead() && (v, Rest()) == TakeInt64(misread, old(Rest()))
    {
      hide After, Resolve, Owned;
      Ahead();
      if torn == 0 && cursor == |tokens| {
        v := 0;
      } else if torn == 0 && tokens[cursor].Int64? {
        v := tokens[cursor].l;
        Advance();
      } else {
        var l: Left;
        v, l := misread.int64(Rest()).0, misread.int64(Rest()).1;
        Skip(l);
      }
    }

    method ReadUint32() returns (v: int)
      requires Valid()
      modifies this`cursor, this`torn
      ensures KeptByRead() && (v, Rest()) == TakeUint32(misread, old(Rest()))
    {
      hide After, Resolve, Owned;
      Ahead();
      if torn == 0 && cursor == |tokens| {
        v := 0;
      } else if torn == 0 && tokens[cursor].Uint32? {
        v := tokens[cursor].n;
        Advance();
      } else {
        var l: Left;
        v, l := misread.uint32(Rest()).0, misread.uint32(Rest()).1;
        Skip(l);
      }
    }

    method ReadBool() returns (v: bool)
      requires Valid()
      modifies this`cursor, this`torn
      ensures KeptByRead() && (v, Rest()) == TakeBool(misread, old(Rest()))
    {
      hide After, Resolve, Owned;
      Ahead();
      if torn == 0 && cursor == |tokens| {
        v := false;
      } else if torn == 0 && tokens[cursor].Boolean? {
        v := tokens[cursor].b;
        Advance();
      } else {
        var l: Left;
        v, l := misread.boolean(Rest()).0, misread.boolean(Rest()).1;
        Skip(l);
      }
    }

    method ReadString16() returns (v: string)
      requires Valid()
      modifies this`cursor, this`torn
      ensures KeptByRead() && (v, Rest()) == TakeUtf16(misread, old(Rest()))
    {
      hide After, Resolve, Owned;
      Ahead();
      if torn == 0 && cursor == |tokens| {
        v := "";
      } else if torn == 0 && tokens[cursor].Utf16? {
        v := tokens[cursor].s;
        Advance();
      } else {
        var l: Left;
        v, l := misread.utf16(Rest()).0, misread.utf16(Rest()).1;
        Skip(l);
      }
    }

    method ReadStringVector() returns (v: Option<seq<string>>)
      requires Valid()
      modifies this`cursor, this`torn
      ensures KeptByRead() && (v, Rest()) == TakeStrings(misread, old(Rest()))
    {
      hide After, Resolve, Owned;
      Ahead();
      if torn == 0 && cursor == |tokens| {
        v := None;
      } else if torn == 0 && tokens[cursor].Strings? {
        v := Some(tokens[cursor].v);
        Advance();
      } else {
        var l: Left;
        v, l := misread.strings(Rest()).0, misread.strings(Rest()).1;
        Skip(l);
      }
    }

    method ReadFormAshmem() returns (v: Option<string>)
      requires Valid()
      modifies this`cursor, this`torn
      ensures KeptByRead() && (v, Rest()) == TakeAshmem(misread, old(Rest()))
    {
      hide After, TakeInt32, Resolve, Owned;
      var flag := ReadInt32();
      Ahead();
      v := None;
      if flag == 0 || (torn == 0 && cursor == |tokens|) {
        return;
      }
      if torn == 0 && tokens[cursor].Ashmem? {
        v := Some(tokens[cursor].content);
        Advance();
      } else {
        Skip(misread.handle(Rest()));
      }
    }

    method ReadWant() returns (v: Option<Want>)
      requires Valid()
      modifies this`cursor, this`torn
      ensures KeptByRead() && (v, Rest()) == TakeWant(misread, old(Rest()))
    {
      hide After, TakeInt32, Resolve, Owned;
      var flag := ReadInt32();
      Ahead();
      v := None;
      if flag == 0 || (torn == 0 && cursor == |tokens|) {
        return;
      }
      if torn == 0 && tokens[cursor].WantBody? {
        v := Some(tokens[cursor].want);
        Advance();
      } else {
        var l: Left;
        v, l := misread.want(Rest()).0, misread.want(Rest()).1;
        Skip(l);
      }
    }

    /** ReadObject<IPCFileDescriptor>: the parcel keeps the descriptor, a negative result is null. */
    method ReadObject() returns (fd: int)
      requires Valid()
      modifies this`cursor, this`torn
      ensures KeptByRead()
      ensures fd >= 0 <==> old(Rest()) != [] && old(Rest())[0].Memory?
      ensures fd >= 0 ==> fd in kernel.open && old(Rest())[0] == Memory(kernel.open[fd]) && Rest() == old(Rest())[1..]
    {
      Ahead();
      if torn == 0 && cursor < |tokens| && tokens[cursor].Descriptor? {
        assert tokens[cursor].fd in Owned(tokens);
        fd := tokens[cursor].fd;
        Advance();
      } else {
        if torn > 0 || cursor < |tokens| {
          Skip(misread.handle(Rest()));
        }
        fd := -1;
      }
    }
  }
}
