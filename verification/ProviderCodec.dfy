/** The wire form of FormProviderData: what Marshalling writes and ReadFromParcel makes of it. */
module ProviderCodec {
  import opened SortedMaps
  import opened JsonValues
  import opened JsonDepth
  import opened Ipc
  import opened SharedMemory

  const BIG_DATA := 32 * 1024
  const IMAGE_DATA_STATE_REMOVED := -1
  const IMAGE_DATA_STATE_NO_OPERATION := 0
  const IMAGE_DATA_STATE_ADDED := 1
  const READ_PARCEL_MAX_IMAGE_DATA_NUM_SIZE := 1000
  const MAX_IMAGE_BYTE_SIZE := 50 * 1024 * 1024
  // sizeof(std::pair<std::shared_ptr<char>, int32_t>) where pointers have 64 bits, which the
  // source writes as image length
  const RAW_ENTRY_SIZE := 24

  datatype SharedImage = SharedImage(content: string, len: int)

  datatype Data = Data(
    json: Json,
    raw: seq<Entry<string>>,          // rawImageBytesMap_
    shared: seq<Entry<SharedImage>>,  // imageDataMap_
    imageState: int)

  const FRESH := Data(Null, [], [], IMAGE_DATA_STATE_NO_OPERATION)

  /** A length-prefixed text: inline up to 32 KiB, in shared memory above. */
  function EncText(s: string): seq<Token>
  {
    var n := ToInt32(|s|);
    [Int32(n), if n > BIG_DATA then Memory(s[..n]) else Utf16(s)]
  }

  function DecText(m: Misread, ts: seq<Token>, limit: int): Option<(string, seq<Token>)>
  {
    var (n, r) := TakeInt32(m, ts);
    if n > BIG_DATA then
      if r != [] && r[0].Memory? && |r[0].bytes| == n && n <= limit then Some((r[0].bytes, r[1..])) else None
    else
      Some(TakeUtf16(m, r))
  }

  /** What arrives of a text of any length: one that goes through shared memory is cut there to
      the length that the int32 field announces. */
  function ArrivedText(s: string): string
  {
    var n := ToInt32(|s|);
    if n > BIG_DATA then s[..n] else s
  }

  /** The length fits the field, or wraps round to one that lets the text travel inline. */
  predicate Uncut(s: string) { |s| <= INT32_MAX || ToInt32(|s|) <= BIG_DATA }

  predicate TextArrives(s: string, limit: int) { ToInt32(|s|) <= limit && Uncut(s) }

  lemma ArrivedWhole(s: string)
    ensures ArrivedText(s) == s <==> Uncut(s)
  {
  }

  /** Texts of every length: refused exactly above the limit, otherwise with the cursor at what
      follows, and then whole or silently cut, exactly as the announced length is true or not. */
  lemma TextRoundTrip(m: Misread, s: string, limit: int, k: seq<Token>)
    requires BIG_DATA <= limit
    ensures DecText(m, EncText(s) + k, limit) == if ToInt32(|s|) <= limit then Some((ArrivedText(s), k)) else None
    ensures ArrivedText(s) == s <==> Uncut(s)
    ensures DecText(m, EncText(s) + k, limit) == Some((s, k)) <==> TextArrives(s, limit)
  {
  }

  // ---- images ----

  function EncImage(e: Entry<string>): seq<Token>
  {
    [Int32(1), Ashmem(e.val), Int32(RAW_ENTRY_SIZE), Utf16(e.key)]
  }

  function EncImages(es: seq<Entry<string>>): seq<Token>
  {
    if es == [] then [] else EncImage(es[0]) + EncImages(es[1..])
  }

  lemma {:induction false} EncImagesConcat(a: seq<Entry<string>>, b: seq<Entry<string>>)
    ensures EncImages(a + b) == EncImages(a) + EncImages(b)
    decreases |a|
  {
    hide EncImage;
    if a == [] {
      assert a + b == b;
    } else {
      assert (a + b)[1..] == a[1..] + b;
      EncImagesConcat(a[1..], b);
    }
  }

  /** One image: shared memory, a length nobody checks, and a name. */
  function TakeImage(m: Misread, ts: seq<Token>): (Option<Entry<SharedImage>>, seq<Token>)
  {
    match TakeAshmem(m, ts)
    case (None, r) => (None, r)
    case (Some(content), r) =>
      var (len, r1) := TakeInt32(m, r);
      var (name, r2) := TakeUtf16(m, r1);
      (Some(Entry(name, SharedImage(content, len))), r2)
  }

  function DecImages(m: Misread, ts: seq<Token>, n: int, done: seq<Entry<SharedImage>>)
    : Option<(seq<Entry<SharedImage>>, seq<Token>)>
    decreases n
  {
    if n <= 0 then Some((done, ts))
    else match TakeImage(m, ts)
      case (None, _) => None
      case (Some(e), r) => DecImages(m, r, n - 1, Put(done, e.key, e.val))
  }

  /** The receiver's view of raw images: same names and bytes, but a meaningless length. */
  function Received(es: seq<Entry<string>>): (r: seq<Entry<SharedImage>>)
    ensures |r| == |es|
    ensures forall i :: 0 <= i < |es| ==> r[i] == Entry(es[i].key, SharedImage(es[i].val, RAW_ENTRY_SIZE))
  {
    if es == [] then [] else [Entry(es[0].key, SharedImage(es[0].val, RAW_ENTRY_SIZE))] + Received(es[1..])
  }

  lemma OneImageRoundTrip(m: Misread, e: Entry<string>, k: seq<Token>, n: int, done: seq<Entry<SharedImage>>)
    requires n > 0
    ensures DecImages(m, EncImage(e) + k, n, done)
         == DecImages(m, k, n - 1, Put(done, e.key, SharedImage(e.val, RAW_ENTRY_SIZE)))
  {
  }

  lemma {:induction false} ImagesRoundTrip(
      m: Misread, es: seq<Entry<string>>, k: seq<Token>, done: seq<Entry<SharedImage>>)
    ensures DecImages(m, EncImages(es) + k, |es|, done) == Some((PutAll(done, Received(es)), k))
    decreases es
  {
    if es == [] {
      assert EncImages(es) + k == k;
    } else {
      var e := es[0];
      assert EncImages(es) + k == EncImage(e) + (EncImages(es[1..]) + k);
      OneImageRoundTrip(m, e, EncImages(es[1..]) + k, |es|, done);
      ImagesRoundTrip(m, es[1..], k, Put(done, e.key, SharedImage(e.val, RAW_ENTRY_SIZE)));
      assert Received(es)[1..] == Received(es[1..]);
    }
  }

  /** What the count `n` on the wire makes of the images behind it. */
  lemma CountedImages(m: Misread, es: seq<Entry<string>>, n: int, k: seq<Token>)
    requires n <= |es| && Sorted(es)
    ensures DecImages(m, EncImages(es) + k, n, []) == Some((Received(es[..Clip(n)]), EncImages(es[Clip(n)..]) + k))
  {
    var (a, b) := (es[..Clip(n)], es[Clip(n)..]);
    EncImagesConcat(a, b);
    assert a + b == es;
    assert EncImages(es) + k == EncImages(a) + (EncImages(b) + k);
    if n > 0 {
      ImagesRoundTrip(m, a, EncImages(b) + k, []);
    }
    ReceivedSorted(a);
  }

  function Clip(n: int): nat { if n < 0 then 0 else n }

  lemma ReceivedSorted(es: seq<Entry<string>>)
    requires Sorted(es)
    ensures PutAll([], Received(es)) == Received(es) && Sorted(Received(es))
  {
    assert [] + Received(es) == Received(es);
    PutAllAscending([], Received(es));
  }

  // ---- the whole object ----

  function Normal(j: Json): Json { if IsEmpty(j) then Obj([]) else j }

  /** Only null, [] and {} travel as {}; every other value travels as it is. */
  lemma NormalIs(j: Json)
    ensures Normal(j) == if j in {Null, Arr([]), Obj([])} then Obj([]) else j
  {
  }

  function EncImageSection(d: Data): seq<Token>
  {
    [Int32(d.imageState)]
    + if d.imageState == IMAGE_DATA_STATE_ADDED then [Int32(ToInt32(|d.raw|))] + EncImages(d.raw) else []
  }

  function EncData(d: Data): seq<Token>
  {
    EncText(Dump(Normal(d.json))) + EncImageSection(d)
  }

  /** ReadFromParcel on an object whose previous state is `init`. */
  function DecData(m: Misread, ts: seq<Token>, init: Data): Option<(Data, seq<Token>)>
  {
    match DecText(m, ts, MAX_BUFFER_SIZE)
    case None => None
    case Some((text, r)) =>
      match SafeParse(text)
      case None => None
      case Some(j) => DecImageSection(m, r, init.(json := j))
  }

  function DecImageSection(m: Misread, ts: seq<Token>, init: Data): Option<(Data, seq<Token>)>
  {
    var (state, r) := TakeInt32(m, ts);
    var d := init.(imageState := state);
    if state != IMAGE_DATA_STATE_ADDED then Some((d, r))
    else
      var (n, r1) := TakeInt32(m, r);
      if n > READ_PARCEL_MAX_IMAGE_DATA_NUM_SIZE then None
      else match DecImages(m, r1, n, init.shared)
        case None => None
        case Some((images, r2)) => Some((d.(shared := images), r2))
  }

  /** What arrives: empty JSON as {}, raw images as shared ones, and no trace of shared ones. */
  function Arrival(d: Data): Data
  {
    Data(Normal(d.json), [], if d.imageState == IMAGE_DATA_STATE_ADDED then Received(d.raw) else [], d.imageState)
  }

  /** What AddImageData stores: named images of 1 byte to 50 MiB. */
  ghost predicate ProperRaw(raw: seq<Entry<string>>)
  {
    Sorted(raw) && forall e :: e in raw ==> e.key != "" && 0 < |e.val| <= MAX_IMAGE_BYTE_SIZE
  }

  /** The type's own invariant: JSON values are proper, maps are maps, raw images come from files. */
  ghost predicate Representable(d: Data)
  {
    Canonical(d.json) && ProperRaw(d.raw) && Sorted(d.shared)
  }

  /** The sizes are ones that the int32 fields on the wire can carry. */
  predicate InRange(d: Data) { |Dump(Normal(d.json))| <= INT32_MAX && |d.raw| <= INT32_MAX }

  ghost predicate Readable(d: Data)
  {
    && Nesting(Normal(d.json)) <= MAX_JSON_PARSE_DEPTH
    && TextArrives(Dump(Normal(d.json)), MAX_BUFFER_SIZE)
    && (d.imageState == IMAGE_DATA_STATE_ADDED ==> |d.raw| <= READ_PARCEL_MAX_IMAGE_DATA_NUM_SIZE)
  }

  /** Within range, readable means what the limits in the source say. */
  lemma ReadableInRange(d: Data)
    requires InRange(d)
    ensures Readable(d) <==>
      && Nesting(Normal(d.json)) <= MAX_JSON_PARSE_DEPTH
      && |Dump(Normal(d.json))| <= MAX_BUFFER_SIZE
      && (d.imageState == IMAGE_DATA_STATE_ADDED ==> |d.raw| <= READ_PARCEL_MAX_IMAGE_DATA_NUM_SIZE)
  {
  }

  /** Self-delimiting for every state and any number of images, except that a count which wraps
      round leaves images unread. */
  lemma ImageSectionRoundTrip(m: Misread, d: Data, j: Json, k: seq<Token>)
    requires Sorted(d.raw)
    ensures DecImageSection(m, EncImageSection(d) + k, FRESH.(json := j)) ==
      if d.imageState != IMAGE_DATA_STATE_ADDED then Some((Arrival(d).(json := j), k))
      else if ToInt32(|d.raw|) > READ_PARCEL_MAX_IMAGE_DATA_NUM_SIZE then None
      else
        var n := Clip(ToInt32(|d.raw|));
        Some((Arrival(d.(raw := d.raw[..n])).(json := j), EncImages(d.raw[n..]) + k))
  {
    var ts := EncImageSection(d) + k;
    if d.imageState == IMAGE_DATA_STATE_ADDED {
      assert ts[1..] == [Int32(ToInt32(|d.raw|))] + (EncImages(d.raw) + k);
      assert ts[1..][1..] == EncImages(d.raw) + k;
      CountedImages(m, d.raw, ToInt32(|d.raw|), k);
    } else {
      assert ts[1..] == k;
    }
  }

  lemma ImagesArriveWhole(m: Misread, d: Data, j: Json, k: seq<Token>)
    requires Sorted(d.raw)
    ensures var r := DecImageSection(m, EncImageSection(d) + k, FRESH.(json := j));
            if d.imageState == IMAGE_DATA_STATE_ADDED && |d.raw| > READ_PARCEL_MAX_IMAGE_DATA_NUM_SIZE then
              (r.Some? ==> r.value.0.shared != Arrival(d).shared) && (|d.raw| <= INT32_MAX ==> r == None)
            else r == Some((Arrival(d).(json := j), k))
  {
    ImageSectionRoundTrip(m, d, j, k);
    assert d.raw[..|d.raw|] == d.raw && d.raw[|d.raw|..] == [];
    assert EncImages([]) + k == k;
  }

  /** A dump that is cut, or too deep, is never read as the value it was printed from. */
  lemma DumpArrives(j: Json)
    requires Canonical(j)
    ensures SafeParse(ArrivedText(Dump(j))) == Some(j)
       <==> Nesting(j) <= MAX_JSON_PARSE_DEPTH && Uncut(Dump(j))
    ensures Uncut(Dump(j)) ==>
      SafeParse(ArrivedText(Dump(j))) == if Nesting(j) <= MAX_JSON_PARSE_DEPTH then Some(j) else None
  {
    var text := Dump(j);
    ArrivedWhole(text);
    SafeParseOfDump(j);
    if !Uncut(text) {
      CutDumpNeverParsesBack(j, ToInt32(|text|));
    }
  }

  /** Self-delimiting, and read back as what was sent under exactly one condition on the sender's
      object; within the range of the wire's own fields anything else is refused. */
  lemma DataRoundTrip(m: Misread, d: Data, k: seq<Token>)
    requires Representable(d)
    ensures var r := DecData(m, EncData(d) + k, FRESH);
            if Readable(d) then r == Some((Arrival(d), k))
            else (r.Some? ==> r.value.0 != Arrival(d)) && (InRange(d) ==> r == None)
    ensures var r := DecData(m, EncData(d) + k, FRESH);
            Readable(d) ==>
              r.Some? && r.value.0.json == if d.json in {Null, Arr([]), Obj([])} then Obj([]) else d.json
  {
    hide EncText, DecText, EncImageSection, DecImageSection, ArrivedText, SafeParse, Dump;
    var j := Normal(d.json);
    var text := Dump(j);
    assert EncData(d) + k == EncText(text) + (EncImageSection(d) + k);
    TextRoundTrip(m, text, MAX_BUFFER_SIZE, EncImageSection(d) + k);
    DumpArrives(j);
    if ToInt32(|text|) <= MAX_BUFFER_SIZE && SafeParse(ArrivedText(text)).Some? {
      var got := SafeParse(ArrivedText(text)).value;
      ImagesArriveWhole(m, d, got, k);
      SectionKeepsJson(m, EncImageSection(d) + k, FRESH.(json := got));
    }
  }

  /** Field by field, for objects whose sizes fit an int32: the JSON unless it is empty, the state,
      and with ADDED every raw image by name and bytes; or nothing, beyond one of three limits. */
  lemma DataArrives(m: Misread, d: Data, k: seq<Token>)
    requires Representable(d) && |Dump(d.json)| <= INT32_MAX && |d.raw| <= INT32_MAX
    ensures var r := DecData(m, EncData(d) + k, FRESH);
            var added := d.imageState == IMAGE_DATA_STATE_ADDED;
            if Nesting(d.json) <= 128 && |Dump(d.json)| <= 32 * 1024 * 1024 && (added ==> |d.raw| <= 1000) then
              && r.Some? && r.value.1 == k
              && r.value.0.json == (if d.json in {Null, Arr([]), Obj([])} then Obj([]) else d.json)
              && r.value.0.imageState == d.imageState && r.value.0.raw == []
              && |r.value.0.shared| == (if added then |d.raw| else 0)
              && forall i :: 0 <= i < |r.value.0.shared| ==>
                   r.value.0.shared[i] == Entry(d.raw[i].key, SharedImage(d.raw[i].val, RAW_ENTRY_SIZE))
            else r == None
  {
    hide EncData, DecData, Dump, Nesting, Representable;
    DataRoundTrip(m, d, k);
    NormalIs(d.json);
    EmptyDumps();
  }

  /** The values that are replaced by {} are as short and as flat as it. */
  lemma EmptyDumps()
    ensures Dump(Null) == "null" && Dump(Arr([])) == "[]" && Dump(Obj([])) == "{}"
    ensures Nesting(Null) == 0 && Nesting(Arr([])) == Nesting(Obj([])) == 1
  {
  }

  lemma SectionKeepsJson(m: Misread, ts: seq<Token>, init: Data)
    ensures DecImageSection(m, ts, init).Some? ==> DecImageSection(m, ts, init).value.0.json == init.json
  {
  }

  /** Arrivals can be sent on: the type's invariant survives the trip. */
  lemma ArrivalRepresentable(d: Data)
    requires Representable(d)
    ensures Representable(Arrival(d))
  {
  }
}
