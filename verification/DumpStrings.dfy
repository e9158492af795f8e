/** Dump answers: the service cuts a long text into chunks that fit a parcel, the caller puts the
    chunks back together. */
module DumpStrings {
  import opened SortedMaps
  import opened Ipc

  const LIMIT_PARCEL_SIZE := 1024
  const ERR_OK := 0
  const ERR_APPEXECFWK_FORM_COMMON_CODE := 2293761

  // What a handler returns to the transport.
  datatype Handled = Result(code: int) | ParcelError

  function Concat(chunks: seq<string>): string
  {
    if chunks == [] then "" else Concat(chunks[..|chunks| - 1]) + chunks[|chunks| - 1]
  }

  /** What a reader of the chunks may rely on, without saying how they are cut. */
  ghost predicate IsSplit(chunks: seq<string>, source: string)
  {
    && Concat(chunks) == source
    && (forall i :: 0 <= i < |chunks| - 1 ==> |chunks[i]| == LIMIT_PARCEL_SIZE)
    && (chunks != [] ==> 0 < |chunks[|chunks| - 1]| <= LIMIT_PARCEL_SIZE)
  }

  lemma {:induction false} ConcatLength(chunks: seq<string>)
    requires forall i :: 0 <= i < |chunks| ==> |chunks[i]| == LIMIT_PARCEL_SIZE
    ensures |Concat(chunks)| == LIMIT_PARCEL_SIZE * |chunks|
  {
    if chunks == [] {
    } else {
      ConcatLength(chunks[..|chunks| - 1]);
    }
  }

  lemma OneChunk()
    ensures forall v: seq<string> :: |v| == 1 ==> Concat(v) == v[0]
  {
    forall v: seq<string> | |v| == 1 ensures Concat(v) == v[0] {
      assert v[..0] == [];
    }
  }

  /** Where each chunk comes from. */
  lemma {:induction false} ChunkAt(chunks: seq<string>, source: string, i: nat)
    requires IsSplit(chunks, source) && i < |chunks|
    ensures LIMIT_PARCEL_SIZE * i + |chunks[i]| <= |source|
    ensures source[LIMIT_PARCEL_SIZE * i..LIMIT_PARCEL_SIZE * i + |chunks[i]|] == chunks[i]
    decreases |chunks|
  {
    var front := chunks[..|chunks| - 1];
    ConcatLength(front);
    if i == |chunks| - 1 {
    } else {
      assert source[..|Concat(front)|] == Concat(front);
      ChunkAt(front, Concat(front), i);
    }
  }

  /** The number of chunks is the length over 1024, rounded up. */
  lemma SplitCount(chunks: seq<string>, source: string)
    requires IsSplit(chunks, source)
    ensures |chunks| == (|source| + LIMIT_PARCEL_SIZE - 1) / LIMIT_PARCEL_SIZE
  {
    if chunks != [] { ConcatLength(chunks[..|chunks| - 1]); }
  }

  /** There is only one way to split a text. */
  lemma {:induction false} SplitIsUnique(a: seq<string>, b: seq<string>, source: string)
    requires IsSplit(a, source) && IsSplit(b, source)
    ensures a == b
    decreases |a|
  {
    SplitCount(a, source);
    SplitCount(b, source);
    if a == [] {
    } else {
      var (p, q) := (a[..|a| - 1], b[..|b| - 1]);
      ConcatLength(p);
      ConcatLength(q);
      var cut := LIMIT_PARCEL_SIZE * |p|;
      assert source[..cut] == Concat(p) == Concat(q);
      assert source[cut..] == a[|p|] == b[|q|];
      SplitIsUnique(p, q, Concat(p));
      assert a == p + [a[|p|]] && b == q + [b[|q|]];
    }
  }

  /** Appends the chunks of `source` to `strings`. */
  method SplitString(source: string, strings: seq<string>) returns (r: seq<string>)
    ensures strings <= r && IsSplit(r[|strings|..], source)
  {
    r := strings;
    var splitSize := |source| / LIMIT_PARCEL_SIZE;
    if |source| % LIMIT_PARCEL_SIZE != 0 {
      splitSize := splitSize + 1;
    }
    var i := 0;
    ghost var done: seq<string> := [];
    while i < splitSize
      invariant 0 <= i <= splitSize && r == strings + done && |done| == i
      invariant i < splitSize ==> LIMIT_PARCEL_SIZE * i < |source|
      invariant i < splitSize ==> forall j :: 0 <= j < i ==> |done[j]| == LIMIT_PARCEL_SIZE
      invariant i < splitSize ==> Concat(done) == source[..LIMIT_PARCEL_SIZE * i]
      invariant i == splitSize ==> IsSplit(done, source)
    {
      var start := LIMIT_PARCEL_SIZE * i;
      var end := if start + LIMIT_PARCEL_SIZE <= |source| then start + LIMIT_PARCEL_SIZE else |source|;
      r := r + [source[start..end]];
      done := done + [source[start..end]];
      assert done[..i] + [source[start..end]] == done;
      assert source[..start] + source[start..end] == source[..end];
      i := i + 1;
    }
    assert r[|strings|..] == done;
  }

  // ---- the answer on the wire ----

  /** `ts` carries an answer: the status, and on success the chunks of the text. */
  ghost predicate Answers(ts: seq<Token>, result: int, text: string)
  {
    if result == ERR_OK then |ts| == 2 && ts[0] == Int32(ERR_OK) && ts[1].Strings? && IsSplit(ts[1].v, text)
    else ts == [Int32(result)]
  }

  // What the two writes of a handler left on the reply. Only the second one is checked.
  datatype Reply = Reply(status: bool, chunks: Option<seq<string>>)

  function WireReply(result: int, w: Reply): seq<Token>
  {
    Landed(w.status, Int32(result)) + if w.chunks.Some? then [Strings(w.chunks.value)] else []
  }

  /** A Dump handler, given what the service answered. */
  method HandleDump(reply: Parcel, result: int, text: string) returns (r: Handled, ghost w: Reply)
    requires reply.Valid()
    modifies reply`tokens, reply.kernel`faulted
    ensures reply.KeptByWrite()
    ensures r == if result == ERR_OK && w.chunks.None? then ParcelError else Result(result)
    ensures w.chunks.Some? ==> result == ERR_OK && IsSplit(w.chunks.value, text)
    ensures reply.Content() == old(reply.Content()) + WireReply(result, w)
    ensures !w.status || r.ParcelError? ==> reply.kernel.faulted
    ensures w.status && !r.ParcelError? ==> Answers(WireReply(result, w), result, text)
  {
    hide Parcel.Loose, Resolve, Owned, Concat;
    var status := reply.Write(Int32(result));
    w := Reply(status, None);
    if result == ERR_OK {
      var dumpInfos := SplitString(text, []);
      assert dumpInfos[0..] == dumpInfos;
      var written := reply.Write(Strings(dumpInfos));
      if !written {
        return ParcelError, w;
      }
      w := Reply(status, Some(dumpInfos));
    }
    r := Result(result);
  }

  /** The caller's view: `sent` is the transport's result, `before` the string to append to. */
  function Fetched(m: Misread, ts: seq<Token>, sent: int, before: string): (int, string)
  {
    if sent != ERR_OK then (sent, before)
    else
      var (status, rest) := TakeInt32(m, ts);
      if status != ERR_OK then (status, before)
      else
        match TakeStrings(m, rest).0
        case None => (0, before) // the code returns `false` here
        case Some(v) =>
          if v == [] then (ERR_APPEXECFWK_FORM_COMMON_CODE, before) else (ERR_OK, before + Concat(v))
  }

  method GetStringInfo(reply: Parcel, sent: int, stringInfo: string) returns (error: int, r: string)
    requires reply.Valid()
    modifies reply`cursor, reply`torn
    ensures reply.KeptByRead()
    ensures (error, r) == Fetched(reply.misread, old(reply.Rest()), sent, stringInfo)
    ensures sent != ERR_OK ==> error == sent && r == stringInfo && reply.Rest() == old(reply.Rest())
    ensures var (status, rest) := TakeInt32(reply.misread, old(reply.Rest()));
            sent == ERR_OK ==>
              && (status != ERR_OK ==> error == status && r == stringInfo)
              && (status == ERR_OK ==>
                    match TakeStrings(reply.misread, rest).0
                    case None => error == ERR_OK && r == stringInfo
                    case Some(v) =>
                      if |v| == 0 then error == ERR_APPEXECFWK_FORM_COMMON_CODE && r == stringInfo
                      else error == ERR_OK && stringInfo <= r && (|v| == 1 ==> r == stringInfo + v[0]))
  {
    OneChunk();
    hide Parcel.Rest, Parcel.Content, Parcel.Loose, TakeInt32, TakeStrings;
    r := stringInfo;
    error := sent;
    if error != ERR_OK {
      return;
    }
    error := reply.ReadInt32();
    if error != ERR_OK {
      return;
    }
    var list := reply.ReadStringVector();
    if list.None? {
      return 0, r;
    }
    if list.value == [] {
      return ERR_APPEXECFWK_FORM_COMMON_CODE, r;
    }
    for i := 0 to |list.value|
      invariant r == stringInfo + Concat(list.value[..i])
    {
      r := r + list.value[i];
      assert list.value[..i + 1][..i] == list.value[..i];
    }
    assert list.value[..|list.value|] == list.value;
  }

  /** An answer that arrives whole appends exactly the service's text; an empty text is reported
      as the common error and a refused dump as its own error, both without touching the output. */
  lemma AnswerArrives(m: Misread, ts: seq<Token>, rest: seq<Token>, result: int, text: string, before: string)
    requires Answers(ts, result, text)
    ensures Fetched(m, ts + rest, ERR_OK, before)
         == if result != ERR_OK then (result, before)
            else if text == "" then (ERR_APPEXECFWK_FORM_COMMON_CODE, before)
            else (ERR_OK, before + text)
  {
  }

  /** The output is untouched although the caller is told ERR_OK exactly when the status reads
      as zero and then either no string vector can be read or all its strings are empty. */
  lemma SilentExactlyWhen(m: Misread, ts: seq<Token>, before: string)
    ensures Fetched(m, ts, ERR_OK, before) == (ERR_OK, before)
       <==> var (status, rest) := TakeInt32(m, ts);
            && status == ERR_OK
            && match TakeStrings(m, rest).0
               case None => true
               case Some(v) => v != [] && forall i :: 0 <= i < |v| ==> v[i] == ""
  {
    var rest := TakeInt32(m, ts).1;
    match TakeStrings(m, rest).0 {
      case None =>
      case Some(v) =>
        ConcatEmpty(v);
        assert |before + Concat(v)| == |before| + |Concat(v)|;
        if Concat(v) == "" { assert before + Concat(v) == before; }
    }
  }

  lemma {:induction false} ConcatEmpty(v: seq<string>)
    ensures Concat(v) == "" <==> forall i :: 0 <= i < |v| ==> v[i] == ""
  {
    if v == [] {
    } else {
      var front := v[..|v| - 1];
      ConcatEmpty(front);
      assert v == front + [v[|v| - 1]];
      assert forall i :: 0 <= i < |front| ==> v[i] == front[i];
    }
  }

  /** Whole or nothing: the caller's string keeps its value or gains the whole text. */
  ghost predicate WholeOrNothing(got: (int, string), before: string, result: int, text: string)
  {
    got.1 == before || (got.1 == before + text && result == ERR_OK && got.0 == ERR_OK)
  }

  ghost predicate Written(w: Reply, result: int, text: string)
  {
    w.chunks.Some? ==> result == ERR_OK && IsSplit(w.chunks.value, text)
  }

  // One way to misread a vector for which there is no status: as some other vector.
  function Inventing(v: seq<string>): Misread
  {
    DEAD_END.(strings := _ => (Some(v), Left(true, 0)))
  }

  /** Whatever writes failed: every caller gains the whole text or nothing exactly when the
      unchecked status is on the reply or the chunks are not. */
  lemma WholeOrNothingExactlyWhen(w: Reply, result: int, text: string, before: string)
    requires Written(w, result, text)
    ensures (forall m: Misread ::
               WholeOrNothing(Fetched(m, WireReply(result, w), ERR_OK, before), before, result, text))
       <==> w.status || w.chunks.None?
  {
    hide WholeOrNothing, Fetched, IsSplit;
    if w.status || w.chunks.None? {
      forall m: Misread
        ensures WholeOrNothing(Fetched(m, WireReply(result, w), ERR_OK, before), before, result, text)
      {
        StatusKept(m, w, result, text, before);
      }
    } else {
      InventedText(w, result, text, before);
    }
  }

  lemma StatusKept(m: Misread, w: Reply, result: int, text: string, before: string)
    requires Written(w, result, text) && (w.status || w.chunks.None?)
    ensures WholeOrNothing(Fetched(m, WireReply(result, w), ERR_OK, before), before, result, text)
  {
  }

  lemma InventedText(w: Reply, result: int, text: string, before: string)
    requires Written(w, result, text) && !w.status && w.chunks.Some?
    ensures var m := Inventing([text + "x"]);
            !WholeOrNothing(Fetched(m, WireReply(result, w), ERR_OK, before), before, result, text)
  {
  }

  /** One dump from service to caller over a fresh reply, whatever writes fail on the way and
      whatever the caller makes of misread bytes: the caller's string keeps its value or gains the
      whole text, unless the status alone is missing on the reply, and then it is what misreading
      the chunks yields. */
  method DumpOverIpc(kernel: Kernel, m: Misread, result: int, text: string, sent: int, before: string)
    returns (error: int, r: string, ghost w: Reply)
    modifies kernel`faulted
    ensures old(kernel.faulted) ==> kernel.faulted
    ensures Written(w, result, text) && (error, r) == Fetched(m, WireReply(result, w), sent, before)
    ensures sent != ERR_OK || w.status || w.chunks.None? ==> WholeOrNothing((error, r), before, result, text)
    ensures sent != ERR_OK ==> error == sent && r == before
    ensures !kernel.faulted ==> w.status && (result == ERR_OK ==> w.chunks.Some?)
    ensures !kernel.faulted && sent == ERR_OK ==>
      (error, r) == if result != ERR_OK then (result, before)
                    else if text == "" then (ERR_APPEXECFWK_FORM_COMMON_CODE, before)
                    else (ERR_OK, before + text)
  {
    hide Concat;
    var reply := new Parcel(kernel, m);
    assert reply.Content() == [];
    var handled;
    handled, w := HandleDump(reply, result, text);
    ghost var ts := WireReply(result, w);
    assert reply.Rest() == reply.Content() == ts;
    if !kernel.faulted { AnswerArrives(m, ts, [], result, text, before); }
    if w.status || w.chunks.None? { StatusKept(m, w, result, text, before); }
    assert ts + [] == ts;
    error, r := GetStringInfo(reply, sent, before);
  }
}
