/** FormProviderData as an object: marshalling, images and merged JSON. */
module FormProviderDataModel {
  import opened SortedMaps
  import opened JsonValues
  import opened JsonDepth
  import JsonGrammar
  import opened Ipc
  import opened SharedMemory
  import opened ProviderCodec
  import opened LostWrites

  // ---- installed and merged JSON ----

  predicate Shallow(j: Json) { Nesting(j) <= MAX_JSON_PARSE_DEPTH }

  /** What SetDataString leaves in the object. */
  function Installed(before: Json, text: string): Json
  {
    match SafeParse(if text == "" then "{}" else text)
    case Some(Obj(ms)) => Obj(ms)
    case _ => before
  }

  /** The installed value is the one the text denotes; texts of other values, of none, or with more
      than 128 containers open change nothing. */
  lemma InstalledIs(before: Json, text: string)
    ensures var t := if text == "" then "{}" else text;
            && (forall ms :: JsonGrammar.IsText(t, Obj(ms), 128) ==> Installed(before, text) == Obj(ms))
            && ((forall ms :: !JsonGrammar.IsText(t, Obj(ms), 128)) ==> Installed(before, text) == before)
  {
    hide JsonGrammar.IsText, SafeParse;
    var t := if text == "" then "{}" else text;
    forall v ensures SafeParse(t) == Some(v) <==> JsonGrammar.IsText(t, v, 128) {
      JsonGrammar.SafeParseIsShallowGrammar(t, v);
    }
  }

  /** Installing what was printed from an object gives that object. */
  lemma InstallsDump(before: Json, ms: seq<Entry<Json>>)
    requires Canonical(Obj(ms)) && Nesting(Obj(ms)) <= 128
    ensures Installed(before, Dump(Obj(ms))) == Obj(ms)
    ensures Installed(before, "") == Obj([])
  {
    SafeParseOfDump(Obj(ms));
    SafeParseOfDump(Obj([]));
    DumpEndsSolid(Obj(ms));
    EmptyDumps();
  }

  function Decimal(n: nat): string
  {
    if n < 10 then [(n + '0' as int) as char] else Decimal(n / 10) + [(n % 10 + '0' as int) as char]
  }

  predicate IsNumeral(s: string)
  {
    && (forall i :: 0 <= i < |s| ==> '0' <= s[i] <= '9')
    && (|s| == 1 || (|s| > 1 && s[0] != '0'))
  }

  function NumeralValue(s: string): int
  {
    if s == "" then 0 else 10 * NumeralValue(s[..|s| - 1]) + (s[|s| - 1] as int - '0' as int)
  }

  /** std::to_string of an index. */
  lemma {:induction false} DecimalReads(n: nat)
    ensures IsNumeral(Decimal(n)) && NumeralValue(Decimal(n)) == n
    ensures n > 0 ==> Decimal(n)[0] != '0'
  {
    if n < 10 {
      assert Decimal(n)[..0] == "";
    } else {
      DecimalReads(n / 10);
      assert Decimal(n)[..|Decimal(n)| - 1] == Decimal(n / 10);
    }
  }

  function Indexed(es: seq<Json>): (r: seq<Entry<Json>>)
    ensures |r| == |es|
    ensures forall i :: 0 <= i < |es| ==> r[i] == Entry(Decimal(i), es[i])
  {
    seq(|es|, i requires 0 <= i < |es| => Entry(Decimal(i), es[i]))
  }

  /** nlohmann's items(): array elements are keyed by their index, a scalar by "". */
  function ItemsOf(j: Json): seq<Entry<Json>>
  {
    match j
    case Null => []
    case Arr(es) => Indexed(es)
    case Obj(ms) => ms
    case _ => [Entry("", j)]
  }

  /** The merged value; None when assigning a member of a non-empty non-object throws. */
  function Merged(current: Json, add: Json): Option<Json>
  {
    if IsEmpty(add) then Some(current)
    else if IsEmpty(current) then Some(add)
    else if current.Obj? then Some(Obj(PutAll(current.members, ItemsOf(add))))
    else None
  }

  lemma ItemsFit(j: Json, n: nat)
    requires Canonical(j) && Nesting(j) <= n && 1 <= n
    ensures forall e :: e in ItemsOf(j) ==> Canonical(e.val) && Nesting(e.val) < n
  {
    match j {
      case Arr(es) => NestingElemsBound(es, n - 1);
      case Obj(ms) => NestingMembersBound(ms, n - 1);
      case _ =>
    }
  }

  lemma {:induction false} PutAllFits(ms: seq<Entry<Json>>, es: seq<Entry<Json>>, n: nat)
    requires Sorted(ms)
    requires forall e :: e in ms || e in es ==> Canonical(e.val) && Nesting(e.val) < n
    ensures Canonical(Obj(PutAll(ms, es))) && Nesting(Obj(PutAll(ms, es))) <= Max(n, 1)
    decreases es
  {
    if es == [] {
      NestingMembersBound(ms, if n == 0 then 0 else n - 1);
    } else {
      PutSorted(ms, es[0].key, es[0].val);
      PutKeys(ms, es[0].key, es[0].val);
      PutAllFits(Put(ms, es[0].key, es[0].val), es[1..], n);
    }
  }

  /** Merging never deepens the tree, whatever kinds the two values are. */
  lemma MergedFits(current: Json, add: Json, n: nat)
    requires Canonical(current) && Canonical(add) && Nesting(current) <= n && Nesting(add) <= n && 1 <= n
    ensures Merged(current, add).Some? ==>
      Canonical(Merged(current, add).value) && Nesting(Merged(current, add).value) <= n
  {
    if !IsEmpty(add) && !IsEmpty(current) && current.Obj? {
      ItemsFit(current, n);
      ItemsFit(add, n);
      PutAllFits(current.members, ItemsOf(add), n);
    }
  }

  /** Merging objects overrides member by member and keeps the others. */
  lemma MergedLookup(ms: seq<Entry<Json>>, es: seq<Entry<Json>>, k: string)
    requires Sorted(ms) && Sorted(es)
    ensures Merged(Obj(ms), Obj(es)).Some? && Merged(Obj(ms), Obj(es)).value.Obj?
    ensures Lookup(Merged(Obj(ms), Obj(es)).value.members, k)
         == if Lookup(es, k).Some? then Lookup(es, k) else Lookup(ms, k)
  {
    PutAllLookup(ms, es, k);
    if ms == [] && es != [] {
      PutAllLookup([], es, k);
    }
  }

  predicate Bare(j: Json) { j in {Null, Arr([]), Obj([])} }

  /** Which value wins where, for values of every kind. */
  lemma MergedCases(current: Json, add: Json)
    ensures Bare(add) ==> Merged(current, add) == Some(current)
    ensures !Bare(add) && Bare(current) ==> Merged(current, add) == Some(add)
    ensures !Bare(add) && !Bare(current) && !current.Obj? ==> Merged(current, add) == None
    ensures !Bare(add) && !Bare(current) && current.Obj? ==>
      Merged(current, add).Some? && Merged(current, add).value.Obj?
  {
  }

  /** Members of a merged array are found under their index, a merged scalar under the empty key,
      and every other member stays. */
  lemma MergedElements(ms: seq<Entry<Json>>, add: Json, k: string)
    requires Sorted(ms) && ms != [] && !Bare(add) && !add.Obj?
    ensures var r := Merged(Obj(ms), add).value.members;
            && (add.Arr? ==> forall i :: 0 <= i < |add.elems| ==> Lookup(r, Decimal(i)) == Some(add.elems[i]))
            && (!add.Arr? ==> Lookup(r, "") == Some(add))
            && ((if add.Arr? then forall i :: 0 <= i < |add.elems| ==> k != Decimal(i) else k != "") ==>
                  Lookup(r, k) == Lookup(ms, k))
  {
    hide Lookup, Put;
    if add.Arr? {
      var es := Indexed(add.elems);
      forall a, b | 0 <= a < b < |es| ensures es[a].key != es[b].key {
        DecimalReads(a);
        DecimalReads(b);
      }
      forall i | 0 <= i < |es| ensures Lookup(PutAll(ms, es), Decimal(i)) == Some(add.elems[i]) {
        PutAllDistinct(ms, es, i);
      }
      if forall i :: 0 <= i < |add.elems| ==> k != Decimal(i) { AbsentStays(ms, es, k); }
    } else {
      PutAllDistinct(ms, [Entry("", add)], 0);
      if k != "" { AbsentStays(ms, [Entry("", add)], k); }
    }
  }

  /** Any sequence of merges; one that throws leaves the object as it was. */
  function MergedAll(current: Json, adds: seq<Json>): Json
    decreases adds
  {
    if adds == [] then current
    else
      var next := match Merged(current, adds[0]) case Some(j) => j case None => current;
      MergedAll(next, adds[1..])
  }

  /** One merge at a time, in order. */
  lemma {:induction false} MergedAllOneMore(current: Json, adds: seq<Json>, add: Json)
    ensures MergedAll(current, []) == current
    ensures var before := MergedAll(current, adds);
            var last := Merged(before, add);
            MergedAll(current, adds + [add]) == if last.Some? then last.value else before
    decreases adds
  {
    hide Merged;
    if adds == [] {
      assert [] + [add] == [add] && [add][1..] == [];
    } else {
      var next := match Merged(current, adds[0]) case Some(j) => j case None => current;
      assert (adds + [add])[1..] == adds[1..] + [add];
      MergedAllOneMore(next, adds[1..], add);
    }
  }

  lemma {:induction false} MergedAllShallow(current: Json, adds: seq<Json>)
    requires Canonical(current) && Shallow(current)
    requires forall a :: a in adds ==> Canonical(a) && Shallow(a)
    ensures Canonical(MergedAll(current, adds)) && Shallow(MergedAll(current, adds))
    decreases adds
  {
    if adds == [] {
    } else {
      MergedFits(current, adds[0], MAX_JSON_PARSE_DEPTH);
      var next := match Merged(current, adds[0]) case Some(j) => j case None => current;
      MergedAllShallow(next, adds[1..]);
    }
  }

  /** JSON installed from any text, then merged any number of times with values of depth at
      most 128, is always accepted by the receiver's guard and comes back unchanged. */
  lemma InstalledAndMergedPassesGuard(before: Json, text: string, adds: seq<Json>)
    requires Canonical(before) && Shallow(before)
    requires forall a :: a in adds ==> Canonical(a) && Shallow(a)
    ensures var j := Normal(MergedAll(Installed(before, text), adds));
            DepthSafe(Dump(j)) && SafeParse(Dump(j)) == Some(j)
  {
    var t := if text == "" then "{}" else text;
    if SafeParse(t).Some? { SafeParseFits(t); }
    MergedAllShallow(Installed(before, text), adds);
    SafeParseOfDump(Normal(MergedAll(Installed(before, text), adds)));
  }

  // ---- converting raw images ----

  function AsShared(e: Entry<string>): Entry<SharedImage>
  {
    Entry(e.key, SharedImage(e.val, |e.val|))
  }

  function AllShared(es: seq<Entry<string>>): (r: seq<Entry<SharedImage>>)
    ensures |r| == |es|
    ensures forall i :: 0 <= i < |es| ==> r[i] == AsShared(es[i])
  {
    seq(|es|, i requires 0 <= i < |es| => AsShared(es[i]))
  }

  /** The receiver's records equal the sender's, lengths included, only if every image happens to
      be as long as the pair whose size is written in place of the length. */
  lemma LengthsSurviveByChance(es: seq<Entry<string>>)
    ensures Received(es) == AllShared(es) <==> forall e :: e in es ==> |e.val| == RAW_ENTRY_SIZE
  {
    var (r, a) := (Received(es), AllShared(es));
    assert forall i :: 0 <= i < |es| ==> (r[i] == a[i] <==> |es[i].val| == RAW_ENTRY_SIZE);
    if r == a {
      assert forall i :: 0 <= i < |es| ==> r[i] == a[i];
    }
  }

  /** All images the object knows: the shared ones overridden by the raw ones. */
  function AllImages(d: Data): seq<Entry<SharedImage>> { PutAll(d.shared, AllShared(d.raw)) }

  lemma {:induction false} LookupShared(raw: seq<Entry<string>>, k: string)
    ensures var bytes := Lookup(raw, k);
            Lookup(AllShared(raw), k)
              == if bytes.Some? then Some(SharedImage(bytes.value, |bytes.value|)) else None
  {
    if raw == [] {
    } else {
      assert AllShared(raw)[1..] == AllShared(raw[1..]);
      LookupShared(raw[1..], k);
    }
  }

  /** By name: the raw image where there is one, the shared one of before elsewhere. */
  lemma ConvertedByName(now: seq<Entry<SharedImage>>, shared: seq<Entry<SharedImage>>, raw: seq<Entry<string>>)
    requires Sorted(shared) && Sorted(raw) && now == PutAll(shared, AllShared(raw))
    ensures forall k, bytes :: Lookup(raw, k) == Some(bytes) ==> Lookup(now, k) == Some(SharedImage(bytes, |bytes|))
    ensures forall k :: Lookup(raw, k) == None ==> Lookup(now, k) == Lookup(shared, k)
  {
    forall k
      ensures Lookup(raw, k).Some? ==>
        Lookup(now, k) == Some(SharedImage(Lookup(raw, k).value, |Lookup(raw, k).value|))
      ensures Lookup(raw, k) == None ==> Lookup(now, k) == Lookup(shared, k)
    {
      LookupShared(raw, k);
      PutAllLookup(shared, AllShared(raw), k);
    }
  }

  /** Names without a raw image are left alone by a conversion that stops anywhere. */
  lemma OthersStay(now: seq<Entry<SharedImage>>, shared: seq<Entry<SharedImage>>, raw: seq<Entry<string>>, i: nat)
    requires Sorted(shared) && i <= |raw| && now == PutAll(shared, AllShared(raw)[..i])
    ensures forall k :: Lookup(raw, k) == None ==> Lookup(now, k) == Lookup(shared, k)
  {
    hide Put, Less;
    forall k | Lookup(raw, k) == None ensures Lookup(now, k) == Lookup(shared, k) {
      AbsentMeans(raw, k);
      AbsentStays(shared, AllShared(raw)[..i], k);
    }
  }

  lemma {:induction false} AbsentMeans(raw: seq<Entry<string>>, k: string)
    requires Lookup(raw, k) == None
    ensures forall i :: 0 <= i < |raw| ==> raw[i].key != k
  {
    if raw == [] {
    } else {
      AbsentMeans(raw[1..], k);
      assert forall i :: 0 < i < |raw| ==> raw[i] == raw[1..][i - 1];
    }
  }

  /** After any number of failed attempts, each stopping anywhere, a success still yields every
      image: the original shared map overridden by the raw images. */
  function AfterFailures(shared: seq<Entry<SharedImage>>, raw: seq<Entry<string>>, stops: seq<nat>)
    : seq<Entry<SharedImage>>
    requires forall i :: 0 <= i < |stops| ==> stops[i] <= |raw|
    decreases stops
  {
    if stops == [] then shared
    else AfterFailures(PutAll(shared, AllShared(raw)[..stops[0]]), raw, stops[1..])
  }

  /** One failure at a time: it stores the leading images over what earlier ones left. */
  lemma {:induction false} AfterOneMoreFailure(
      shared: seq<Entry<SharedImage>>, raw: seq<Entry<string>>, stops: seq<nat>, stop: nat)
    requires (forall i :: 0 <= i < |stops| ==> stops[i] <= |raw|) && stop <= |raw|
    ensures AfterFailures(shared, raw, []) == shared
    ensures AfterFailures(shared, raw, stops + [stop])
         == PutAll(AfterFailures(shared, raw, stops), AllShared(raw)[..stop])
    decreases stops
  {
    hide PutAll;
    if stops == [] {
      assert [] + [stop] == [stop] && [stop][1..] == [];
    } else {
      assert (stops + [stop])[1..] == stops[1..] + [stop];
      AfterOneMoreFailure(PutAll(shared, AllShared(raw)[..stops[0]]), raw, stops[1..], stop);
    }
  }

  lemma {:induction false} ConversionLosesNothing(
      shared: seq<Entry<SharedImage>>, raw: seq<Entry<string>>, stops: seq<nat>)
    requires Sorted(shared) && Sorted(raw)
    requires forall i :: 0 <= i < |stops| ==> stops[i] <= |raw|
    ensures PutAll(AfterFailures(shared, raw, stops), AllShared(raw)) == PutAll(shared, AllShared(raw))
    decreases stops
  {
    if stops == [] {
    } else {
      var next := PutAll(shared, AllShared(raw)[..stops[0]]);
      PutAllAgain(shared, AllShared(raw), stops[0]);
      ConversionLosesNothing(next, raw, stops[1..]);
    }
  }

  /** A file behind a descriptor. A read delivers at least one byte unless it fails or the file
      ends early, and never more than asked for. */
  class File {
    const content: string
    var pos: nat
    ghost var faulted: bool

    constructor (content: string)
      ensures this.content == content && pos == 0 && !faulted
    {
      this.content := content;
      pos := 0;
      faulted := false;
    }

    /** lseek to the end: the size, or -1. */
    method SeekEnd() returns (size: int)
      modifies this
      ensures old(faulted) ==> faulted
      ensures size == |content| || (size == -1 && faulted)
    {
      var ok: bool := *;
      pos := |content|;
      if !ok {
        faulted := true;
        return -1;
      }
      return |content|;
    }

    method Rewind() returns (r: int)
      modifies this
      ensures old(faulted) ==> faulted
      ensures (r == 0 && pos == 0) || (r == -1 && faulted)
    {
      var ok: bool := *;
      pos := 0;
      if !ok {
        faulted := true;
        return -1;
      }
      return 0;
    }

    /** new (std::nothrow) for the bytes about to be read. */
    method Allocate() returns (ok: bool)
      modifies this`faulted
      ensures old(faulted) ==> faulted
      ensures !ok ==> faulted
    {
      ok := *;
      if !ok {
        faulted := true;
      }
    }

    method Read(max: nat) returns (count: int, bytes: string)
      requires 0 < max
      modifies this
      ensures old(faulted) ==> faulted
      ensures count <= 0 ==> faulted || old(pos) >= |content|
      ensures count > 0 ==> count == |bytes| <= max && pos == old(pos) + count <= |content|
      ensures count > 0 ==> bytes == content[old(pos)..pos]
      ensures -1 <= count
    {
      bytes := "";
      var available := |content| - pos;
      if available <= 0 {
        return 0, bytes;
      }
      count := *;
      if count <= 0 || count > max || count > available {
        faulted := true;
        count := if count < 0 then -1 else 0;
        return count, bytes;
      }
      bytes := content[pos..pos + count];
      pos := pos + count;
    }
  }

  class FormProviderData {
    var jsonFormProviderData: Json
    var rawImageBytesMap: seq<Entry<string>>
    var imageDataMap: seq<Entry<SharedImage>>
    var imageDataState: int

    /** The map of raw images is private, and only AddImageData stores into it. */
    ghost predicate Valid()
      reads this
    {
      Representable(Value())
    }

    function Value(): Data
      reads this
    {
      Data(jsonFormProviderData, rawImageBytesMap, imageDataMap, imageDataState)
    }

    constructor ()
      ensures Valid() && Value() == FRESH
    {
      jsonFormProviderData := Null;
      rawImageBytesMap := [];
      imageDataMap := [];
      imageDataState := IMAGE_DATA_STATE_NO_OPERATION;
    }

    /** The text is passed by reference: an empty one is replaced by "{}". */
    method SetDataString(jsonDataString: string) returns (text: string)
      requires Valid()
      modifies this`jsonFormProviderData
      ensures Valid() && jsonFormProviderData == Installed(old(jsonFormProviderData), jsonDataString)
      ensures text == if jsonDataString == "" then "{}" else jsonDataString
      ensures forall ms :: JsonGrammar.IsText(text, Obj(ms), 128) ==> jsonFormProviderData == Obj(ms)
      ensures (forall ms :: !JsonGrammar.IsText(text, Obj(ms), 128)) ==>
        jsonFormProviderData == old(jsonFormProviderData)
    {
      hide JsonGrammar.IsText;
      InstalledIs(jsonFormProviderData, jsonDataString);
      text := jsonDataString;
      if text == "" {
        text := "{}";
      }
      var jsonObject := SafeJsonParse(text, false);
      if !jsonObject.Parsed? {
        return;
      }
      if !jsonObject.value.Obj? {
        return;
      }
      SafeParseFits(text);
      jsonFormProviderData := jsonObject.value;
    }

    method MergeData(addJsonData: Json) returns (threw: bool)
      requires Valid() && Canonical(addJsonData)
      modifies this`jsonFormProviderData
      ensures Valid()
      ensures threw <==> Merged(old(jsonFormProviderData), addJsonData) == None
      ensures !threw ==> Merged(old(jsonFormProviderData), addJsonData) == Some(jsonFormProviderData)
      ensures threw ==> jsonFormProviderData == old(jsonFormProviderData)
      ensures threw <==> !Bare(addJsonData) && !Bare(old(jsonFormProviderData)) && !old(jsonFormProviderData).Obj?
      ensures Bare(addJsonData) ==> jsonFormProviderData == old(jsonFormProviderData)
      ensures !Bare(addJsonData) && Bare(old(jsonFormProviderData)) ==> jsonFormProviderData == addJsonData
    {
      MergedCases(jsonFormProviderData, addJsonData);
      MergedFits(jsonFormProviderData, addJsonData, Max(1, Max(Nesting(jsonFormProviderData), Nesting(addJsonData))));
      if IsEmpty(addJsonData) {
        return false;
      }
      if IsEmpty(jsonFormProviderData) {
        jsonFormProviderData := addJsonData;
        return false;
      }
      var items := ItemsOf(addJsonData);
      ghost var ms := if jsonFormProviderData.Obj? then jsonFormProviderData.members else [];
      for i := 0 to |items|
        invariant i > 0 || jsonFormProviderData == old(jsonFormProviderData)
        invariant i > 0 ==> old(jsonFormProviderData).Obj?
        invariant old(jsonFormProviderData).Obj? ==> jsonFormProviderData.Obj?
        invariant old(jsonFormProviderData).Obj? ==>
          PutAll(jsonFormProviderData.members, items[i..]) == PutAll(ms, items)
      {
        if !jsonFormProviderData.Obj? {
          return true;
        }
        jsonFormProviderData := Obj(Put(jsonFormProviderData.members, items[i].key, items[i].val));
      }
      return false;
    }

    /** The write of the length is not checked; `length` says whether it landed. */
    method WriteFormData(parcel: Parcel) returns (ok: bool, ghost length: bool)
      requires parcel.Valid()
      modifies parcel`tokens, parcel.kernel
      ensures parcel.KeptByWrite()
      ensures !parcel.kernel.faulted ==> ok
      ensures var sent := if jsonFormProviderData in {Null, Arr([]), Obj([])} then Obj([]) else jsonFormProviderData;
              var text := Dump(sent);
              && (ok ==> parcel.Content() == old(parcel.Content()) + WireText(text, length))
              && (ok && length && |text| <= INT32_MAX ==>
                    parcel.Content() == old(parcel.Content())
                      + [Int32(|text|), if |text| > 32 * 1024 then Memory(text) else Utf16(text)])
      ensures ok && !old(parcel.kernel.faulted) ==> (parcel.kernel.faulted <==> !length)
    {
      hide Parcel.Loose, Parcel.Content, Dump, WireText, ToInt32, Resolve, Owned;
      EmptyDumps();
      var formData := if IsEmpty(jsonFormProviderData) then "{}" else Dump(jsonFormProviderData);
      var formDataLength := ToInt32(|formData|);
      var landed := parcel.Write(Int32(formDataLength));
      length := landed;
      TextTokens(formData, length);
      if formDataLength > BIG_DATA {
        ok := WriteAshmemDataToParcel(parcel, formDataLength, formData);
      } else {
        ok := parcel.Write(Utf16(formData));
      }
    }

    /** Only the writes that carry the form data and the images are checked; `w` says which of the
        others landed. */
    method Marshalling(parcel: Parcel) returns (ok: bool, ghost w: DataWrites)
      requires Valid() && parcel.Valid()
      modifies parcel`tokens, parcel.kernel
      ensures parcel.KeptByWrite() && parcel.NothingLeaked()
      ensures !parcel.kernel.faulted ==> ok
      ensures ok ==> Describes(w, Value()) && parcel.Content() == old(parcel.Content()) + WireData(Value(), w)
      ensures ok && !old(parcel.kernel.faulted) ==> (parcel.kernel.faulted <==> !AllLanded(Value(), w))
      ensures ok && !old(parcel.kernel.faulted) ==>
        (parcel.Content() == old(parcel.Content()) + EncData(Value()) <==> !parcel.kernel.faulted)
      ensures ok && OnlyStateLost(Value(), w) ==>
        parcel.Content() == old(parcel.Content()) + WithoutState(Value())
      ensures var sent := if jsonFormProviderData in {Null, Arr([]), Obj([])} then Obj([]) else jsonFormProviderData;
              ok ==> old(parcel.Content()) + WireText(Dump(sent), w.length) <= parcel.Content()
    {
      hide WireText, WireImages, WireData, Landed, AllImagesLanded, EncData, ToInt32, Dump, Normal, Representable;
      hide Parcel.Content, Parcel.Loose, WithoutState, OnlyStateLost, Parcel.NothingLeaked;
      ghost var before := parcel.Content();
      w := DataWrites(true, true, true, []);
      ghost var length;
      ok, length := WriteFormData(parcel);
      if !ok {
        parcel.KeptLeaksNothing();
        return;
      }
      ghost var state, count, images;
      ok, state, count, images := WriteImageSection(parcel);
      w := DataWrites(length, state, count, images);
      parcel.KeptLeaksNothing();
      if ok {
        Assembled(before, Value(), w);
      }
    }

    /** The state with which Marshalling ends, and the images if it is ADDED. */
    method WriteImageSection(parcel: Parcel)
      returns (ok: bool, ghost state: bool, ghost count: bool, ghost images: seq<ImageWrites>)
      requires Valid() && parcel.Valid()
      modifies parcel`tokens, parcel.kernel
      ensures parcel.KeptByWrite()
      ensures !parcel.kernel.faulted ==> ok
      ensures ok && imageDataState == IMAGE_DATA_STATE_ADDED ==> |images| == |rawImageBytesMap|
      ensures
        var start := old(parcel.Content()) + Landed(state, Int32(imageDataState));
        && (ok && imageDataState != IMAGE_DATA_STATE_ADDED ==> parcel.Content() == start)
        && (ok && imageDataState == IMAGE_DATA_STATE_ADDED ==>
              parcel.Content()
                == start + (Landed(count, Int32(ToInt32(|rawImageBytesMap|))) + WireImages(rawImageBytesMap, images)))
      ensures ok && !old(parcel.kernel.faulted) ==>
        (parcel.kernel.faulted <==>
           !(state && (imageDataState == IMAGE_DATA_STATE_ADDED ==> count && AllImagesLanded(images))))
    {
      hide WireImages, Landed, AllImagesLanded, ToInt32, Parcel.Content, Parcel.Loose, Representable;
      ok, count, images := true, true, [];
      var landed := parcel.Write(Int32(imageDataState));
      state := landed;
      if imageDataState == IMAGE_DATA_STATE_ADDED {
        ok, count, images := WriteImages(parcel);
      }
    }

    /** The ADDED branch. */
    method WriteImages(parcel: Parcel) returns (ok: bool, ghost count: bool, ghost ws: seq<ImageWrites>)
      requires Valid() && parcel.Valid()
      modifies parcel`tokens, parcel.kernel
      ensures parcel.KeptByWrite()
      ensures !parcel.kernel.faulted ==> ok
      ensures ok ==> |ws| == |rawImageBytesMap|
      ensures ok ==>
        parcel.Content() == old(parcel.Content())
          + (Landed(count, Int32(ToInt32(|rawImageBytesMap|))) + WireImages(rawImageBytesMap, ws))
      ensures ok && !old(parcel.kernel.faulted) ==> (parcel.kernel.faulted <==> !(count && AllImagesLanded(ws)))
    {
      hide WireImages, WireImage, Landed, AllImagesLanded, Parcel.Content, Parcel.Loose, ToInt32;
      var raw := rawImageBytesMap;
      ghost var before := parcel.Content();
      var landed := parcel.Write(Int32(ToInt32(|raw|)));
      count, ws := landed, [];
      NoImagesYet(before, Landed(count, Int32(ToInt32(|raw|))));
      for i := 0 to |raw|
        invariant parcel.KeptByWrite() && |ws| == i
        invariant parcel.Content() == before + (Landed(count, Int32(ToInt32(|raw|))) + WireImages(raw[..i], ws))
        invariant !old(parcel.kernel.faulted) ==> (parcel.kernel.faulted <==> !(count && AllImagesLanded(ws)))
      {
        ghost var w;
        assert raw[i] in raw;
        ok, w := WriteImage(parcel, raw[i].key, raw[i].val);
        if !ok {
          return;
        }
        OneImageMore(before, Landed(count, Int32(ToInt32(|raw|))), raw[..i], ws, raw[i], w);
        assert raw[..i] + [raw[i]] == raw[..i + 1] && Entry(raw[i].key, raw[i].val) == raw[i];
        ws := ws + [w];
      }
      assert raw[..|raw|] == raw;
      ok := true;
    }

    method WriteImage(parcel: Parcel, picName: string, data: string) returns (ok: bool, ghost w: ImageWrites)
      requires parcel.Valid()
      modifies parcel`tokens, parcel.kernel
      ensures parcel.KeptByWrite()
      ensures ok ==> data != ""
      ensures !parcel.kernel.faulted ==> (ok <==> data != "")
      ensures ok ==> parcel.Content() == old(parcel.Content()) + WireImage(Entry(picName, data), w)
      ensures ok && !old(parcel.kernel.faulted) ==> (parcel.kernel.faulted <==> !(w.size && w.name))
    {
      hide Parcel.Content, Parcel.Loose;
      w := ImageWrites(true, true);
      ok := WriteImageDataToParcel(parcel, data);
      if !ok {
        return;
      }
      var size := parcel.Write(Int32(RAW_ENTRY_SIZE));
      var name := parcel.Write(Utf16(picName));
      w := ImageWrites(size, name);
    }

    /** The local FormAshmem closes its descriptor on every way out; the parcel keeps its own. */
    method WriteImageDataToParcel(parcel: Parcel, data: string) returns (ok: bool)
      requires parcel.Valid()
      modifies parcel`tokens, parcel.kernel
      ensures parcel.KeptByWrite()
      ensures ok ==> data != "" && parcel.Content() == old(parcel.Content()) + [Int32(1), Ashmem(data)]
      ensures ok ==> parcel.kernel.faulted == old(parcel.kernel.faulted)
      ensures !parcel.kernel.faulted ==> (ok <==> data != "")
    {
      hide Resolve, Owned;
      var kernel := parcel.kernel;
      var fd;
      ok, fd := WriteToAshmem(kernel, data);
      ghost var during := kernel.open;
      if fd < 0 {
        return false;
      }
      ResolveFrame(parcel.tokens, old(kernel.open), during);
      if ok {
        ok := WriteShared(parcel, kernel.open[fd]);
      }
      kernel.Close(fd);
      assert kernel.open == old(kernel.open);
      ResolveFrame(parcel.tokens, during, kernel.open);
    }

    /** WriteParcelable of shared memory: the presence flag and the memory. */
    method WriteShared(parcel: Parcel, content: string) returns (ok: bool)
      requires parcel.Valid()
      modifies parcel`tokens, parcel.kernel`faulted
      ensures parcel.Valid() && old(parcel.tokens) <= parcel.tokens && Owned(parcel.tokens) == Owned(old(parcel.tokens))
      ensures old(parcel.kernel.faulted) ==> parcel.kernel.faulted
      ensures old(parcel.Content()) <= parcel.Content()
      ensures ok ==> parcel.Content() == old(parcel.Content()) + [Int32(1), Ashmem(content)]
      ensures ok ==> parcel.kernel.faulted == old(parcel.kernel.faulted)
      ensures !parcel.kernel.faulted ==> ok
    {
      ok := parcel.Write(Int32(1));
      if ok {
        ok := parcel.Write(Ashmem(content));
      }
    }

    /** The length and text with which ReadFromParcel starts. */
    method ReadDataString(parcel: Parcel) returns (ok: bool, text: string)
      requires parcel.Valid()
      modifies parcel`cursor, parcel`torn, parcel.kernel
      ensures parcel.KeptByRead()
      ensures ok ==> DecText(parcel.misread, old(parcel.Rest()), MAX_BUFFER_SIZE) == Some((text, parcel.Rest()))
      ensures !parcel.kernel.faulted ==> (ok <==> DecText(parcel.misread, old(parcel.Rest()), MAX_BUFFER_SIZE).Some?)
    {
      hide Parcel.Rest, Parcel.Content;
      var formDataLength := parcel.ReadInt32();
      if formDataLength > BIG_DATA {
        ok, text := ReadAshmemDataFromParcel(parcel, formDataLength);
      } else {
        text := parcel.ReadString16();
        ok := true;
      }
    }

    method ReadFromParcel(parcel: Parcel) returns (ok: bool)
      requires Valid() && parcel.Valid()
      modifies this, parcel`cursor, parcel`torn, parcel.kernel
      ensures parcel.KeptByRead() && rawImageBytesMap == old(rawImageBytesMap)
      ensures ok && imageDataState != IMAGE_DATA_STATE_ADDED ==> imageDataMap == old(imageDataMap)
      ensures ok ==> Valid()
      ensures ok ==> DecData(parcel.misread, old(parcel.Rest()), old(Value())) == Some((Value(), parcel.Rest()))
      ensures !parcel.kernel.faulted ==> (ok <==> DecData(parcel.misread, old(parcel.Rest()), old(Value())).Some?)
    {
      hide Parcel.Rest, Parcel.Content;
      var jsonDataString;
      ok, jsonDataString := ReadDataString(parcel);
      if !ok {
        return false;
      }
      var jsonObject := SafeJsonParse(jsonDataString, false);
      if !jsonObject.Parsed? {
        return false;
      }
      SafeParseFits(jsonDataString);
      jsonFormProviderData := jsonObject.value;
      ok := ReadImageSection(parcel);
    }

    /** The state with which ReadFromParcel ends, and the images if it is ADDED. */
    method ReadImageSection(parcel: Parcel) returns (ok: bool)
      requires Valid() && parcel.Valid()
      modifies this`imageDataState, this`imageDataMap, parcel`cursor, parcel`torn
      ensures parcel.KeptByRead() && Valid()
      ensures var r := DecImageSection(parcel.misread, old(parcel.Rest()), old(Value()));
              if ok then r == Some((Value(), parcel.Rest())) else r == None
      ensures ok && imageDataState != IMAGE_DATA_STATE_ADDED ==> imageDataMap == old(imageDataMap)
    {
      hide Parcel.Rest, Parcel.Content, Parcel.Loose, DecImages, ProperRaw, Canonical;
      imageDataState := parcel.ReadInt32();
      if imageDataState == IMAGE_DATA_STATE_ADDED {
        ok := HandleImageDataStateAdded(parcel);
        return ok;
      }
      return true;
    }

    method ReadImage(parcel: Parcel) returns (image: Option<Entry<SharedImage>>)
      requires parcel.Valid()
      modifies parcel`cursor, parcel`torn
      ensures parcel.KeptByRead()
      ensures (image, parcel.Rest()) == TakeImage(parcel.misread, old(parcel.Rest()))
    {
      hide Parcel.Rest, Parcel.Content;
      var formAshmem := parcel.ReadFormAshmem();
      if formAshmem.None? {
        return None;
      }
      var len := parcel.ReadInt32();
      var picName := parcel.ReadString16();
      image := Some(Entry(picName, SharedImage(formAshmem.value, len)));
    }

    method HandleImageDataStateAdded(parcel: Parcel) returns (ok: bool)
      requires Valid() && parcel.Valid()
      modifies this`imageDataMap, parcel`cursor, parcel`torn
      ensures parcel.KeptByRead() && Valid()
      ensures
        var (n, r) := TakeInt32(parcel.misread, old(parcel.Rest()));
        if n > READ_PARCEL_MAX_IMAGE_DATA_NUM_SIZE then !ok
        else if ok then DecImages(parcel.misread, r, n, old(imageDataMap)) == Some((imageDataMap, parcel.Rest()))
        else DecImages(parcel.misread, r, n, old(imageDataMap)) == None
    {
      hide Parcel.Rest, Parcel.Content, Parcel.Loose, TakeImage, Put;
      var imageDataNum := parcel.ReadInt32();
      if imageDataNum > READ_PARCEL_MAX_IMAGE_DATA_NUM_SIZE {
        return false;
      }
      ghost var start := parcel.Rest();
      var i := 0;
      while i < imageDataNum
        invariant parcel.KeptByRead() && Valid()
        invariant 0 <= i && (i <= imageDataNum || i == 0)
        invariant DecImages(parcel.misread, parcel.Rest(), imageDataNum - i, imageDataMap)
               == DecImages(parcel.misread, start, imageDataNum, old(imageDataMap))
        decreases imageDataNum - i
      {
        var image := ReadImage(parcel);
        if image.None? {
          return false;
        }
        PutSorted(imageDataMap, image.value.key, image.value.val);
        imageDataMap := Put(imageDataMap, image.value.key, image.value.val);
        i := i + 1;
      }
      return true;
    }

    /** Unmarshalling; null when the parcel does not hold a readable object. */
    static method Unmarshalling(parcel: Parcel) returns (r: FormProviderData?)
      requires parcel.Valid()
      modifies parcel`cursor, parcel`torn, parcel.kernel
      ensures parcel.KeptByRead()
      ensures r != null ==> fresh(r) && r.Valid()
      ensures r != null ==> DecData(parcel.misread, old(parcel.Rest()), FRESH) == Some((r.Value(), parcel.Rest()))
      ensures !parcel.kernel.faulted ==> (r != null <==> DecData(parcel.misread, old(parcel.Rest()), FRESH).Some?)
    {
      var formProviderData := new FormProviderData();
      var ok := formProviderData.ReadFromParcel(parcel);
      r := if ok then formProviderData else null;
    }

    /** Copy assignment. */
    method Assign(other: FormProviderData)
      modifies this
      ensures Value() == old(other.Value())
    {
      jsonFormProviderData := other.jsonFormProviderData;
      rawImageBytesMap := other.rawImageBytesMap;
      imageDataMap := other.imageDataMap;
      imageDataState := other.imageDataState;
    }

    /** The private overload: an empty name stores nothing. */
    method StoreImage(picName: string, bytes: string)
      requires Valid() && 0 < |bytes| <= MAX_IMAGE_BYTE_SIZE
      modifies this`rawImageBytesMap, this`imageDataState
      ensures Valid()
      ensures picName == "" ==> rawImageBytesMap == old(rawImageBytesMap) && imageDataState == old(imageDataState)
      ensures picName != "" ==> rawImageBytesMap == Put(old(rawImageBytesMap), picName, bytes)
      ensures picName != "" ==> imageDataState == IMAGE_DATA_STATE_ADDED
    {
      if |picName| == 0 {
        return;
      }
      PutSorted(rawImageBytesMap, picName, bytes);
      PutKeys(rawImageBytesMap, picName, bytes);
      rawImageBytesMap := Put(rawImageBytesMap, picName, bytes);
      imageDataState := IMAGE_DATA_STATE_ADDED;
    }

    /** Reads the file in pieces of any size. It stores exactly the file's bytes or changes
        nothing; a negative descriptor is the null file. */
    method AddImageData(picName: string, file: File?)
      requires Valid()
      modifies this`rawImageBytesMap, this`imageDataState, file
      ensures Valid()
      ensures
        var stored := rawImageBytesMap == Put(old(rawImageBytesMap), picName, if file == null then "" else file.content)
                      && imageDataState == IMAGE_DATA_STATE_ADDED;
        var same := rawImageBytesMap == old(rawImageBytesMap) && imageDataState == old(imageDataState);
        var storable := file != null && 0 < |file.content| <= MAX_IMAGE_BYTE_SIZE && picName != "";
        && (same || (stored && storable))
        && (storable && !file.faulted ==> stored)
    {
      if file == null {
        return;
      }
      var offSize := file.SeekEnd();
      if offSize <= 0 || offSize > INT32_MAX {
        return;
      }
      var size := offSize;
      var rewound := file.Rewind();
      if rewound == -1 {
        return;
      }
      if size > MAX_IMAGE_BYTE_SIZE {
        return;
      }
      var granted := file.Allocate();
      if !granted {
        return;
      }
      var bytes := "";
      var totalRead := 0;
      while totalRead < size
        invariant 0 <= totalRead <= size == |file.content|
        invariant rawImageBytesMap == old(rawImageBytesMap) && imageDataState == old(imageDataState)
        invariant bytes == file.content[..totalRead] && file.pos == totalRead
        decreases size - totalRead
      {
        var bytesRead, chunk := file.Read(size - totalRead);
        if bytesRead == -1 {
          return;
        } else if bytesRead == 0 {
          return;
        }
        bytes := bytes + chunk;
        totalRead := totalRead + bytesRead;
      }
      assert bytes == file.content;
      StoreImage(picName, bytes);
    }

    /** Stops at the first image whose shared memory cannot be made; the raw images are dropped
        only at the very end. No descriptor is left behind but those the new images own. */
    method ConvertRawImageData(kernel: Kernel) returns (ok: bool)
      requires Valid()
      modifies this`rawImageBytesMap, this`imageDataMap, kernel
      ensures Valid() && (old(kernel.faulted) ==> kernel.faulted)
      ensures kernel.open == old(kernel.open) && kernel.mapped == old(kernel.mapped)
      ensures AllImages(Value()) == AllImages(old(Value()))
      ensures ok ==> imageDataMap == AllImages(old(Value())) && rawImageBytesMap == []
      ensures !ok ==> rawImageBytesMap == old(rawImageBytesMap)
      ensures !ok ==> exists k ::
        0 <= k < |rawImageBytesMap| && imageDataMap == PutAll(old(imageDataMap), AllShared(rawImageBytesMap)[..k])
      ensures !kernel.faulted ==> ok
      ensures ok ==> forall k, bytes ::
        Lookup(old(rawImageBytesMap), k) == Some(bytes) ==> Lookup(imageDataMap, k) == Some(SharedImage(bytes, |bytes|))
      ensures forall k ::
        Lookup(old(rawImageBytesMap), k) == None ==> Lookup(imageDataMap, k) == Lookup(old(imageDataMap), k)
    {
      hide Put, Lookup, Less;
      var raw := rawImageBytesMap;
      ghost var es := AllShared(raw);
      for i := 0 to |raw|
        invariant rawImageBytesMap == raw && (old(kernel.faulted) ==> kernel.faulted)
        invariant kernel.open == old(kernel.open) && kernel.mapped == old(kernel.mapped)
        invariant imageDataMap == PutAll(old(imageDataMap), es[..i])
      {
        assert raw[i] in raw;
        var made, content := ConvertOne(kernel, raw[i].val);
        if !made {
          PutAllAgain(old(imageDataMap), es, i);
          OthersStay(imageDataMap, old(imageDataMap), raw, i);
          return false;
        }
        PutAllPrefix(old(imageDataMap), es[..i + 1], i);
        assert es[..i + 1][..i] == es[..i] && es[..i + 1][i..] == [es[i]];
        imageDataMap := Put(imageDataMap, raw[i].key, SharedImage(content, |raw[i].val|));
      }
      assert es[..|raw|] == es;
      PutAllSorted(old(imageDataMap), es);
      ConvertedByName(imageDataMap, old(imageDataMap), raw);
      rawImageBytesMap := [];
      return true;
    }

    /** A FormAshmem for the map: its descriptor goes with it, or is closed by its destructor. */
    static method ConvertOne(kernel: Kernel, bytes: string) returns (ok: bool, content: string)
      modifies kernel
      ensures old(kernel.faulted) ==> kernel.faulted
      ensures kernel.open == old(kernel.open) && kernel.mapped == old(kernel.mapped)
      ensures ok ==> content == bytes != ""
      ensures !kernel.faulted ==> (ok <==> bytes != "")
    {
      content := "";
      var fd;
      ok, fd := WriteToAshmem(kernel, bytes);
      if ok {
        content := kernel.open[fd];
        kernel.HandOver(fd);
      } else if fd >= 0 {
        kernel.Close(fd);
      }
      assert kernel.open == old(kernel.open);
    }
  }

  /** What the pieces that Marshalling appends amount to. */
  lemma Assembled(before: seq<Token>, d: Data, w: DataWrites)
    requires Describes(w, d)
    ensures
      var text := Dump(if d.json in {Null, Arr([]), Obj([])} then Obj([]) else d.json);
      var start := (before + WireText(text, w.length)) + Landed(w.state, Int32(d.imageState));
      && before + WireData(d, w) ==
           (if d.imageState != IMAGE_DATA_STATE_ADDED then start
            else start + (Landed(w.count, Int32(ToInt32(|d.raw|))) + WireImages(d.raw, w.images)))
      && before + WireText(text, w.length) <= before + WireData(d, w)
    ensures before + WireData(d, w) == before + EncData(d) <==> AllLanded(d, w)
    ensures OnlyStateLost(d, w) ==> before + WireData(d, w) == before + WithoutState(d)
  {
    hide WireText, WireImages, Landed, ToInt32, Dump, EncData, WithoutState, OnlyStateLost, AllLanded, Normal;
    NormalIs(d.json);
    WireAssembled(before, d, w);
    WireDataWhole(d, w);
    SameAppended(before, WireData(d, w), EncData(d));
    if OnlyStateLost(d, w) { WireWithoutState(d, w); }
  }

  lemma TextTokens(text: string, length: bool)
    ensures
      var n := ToInt32(|text|);
      WireText(text, length) == Landed(length, Int32(n)) + [if n > BIG_DATA then Memory(text[..n]) else Utf16(text)]
    ensures length && |text| <= INT32_MAX ==>
      WireText(text, length) == [Int32(|text|), if |text| > 32 * 1024 then Memory(text) else Utf16(text)]
  {
    ArrivedWhole(text);
  }

  /** FormAshmem::WriteToAshmem. From the moment it exists, the descriptor belongs to the
      FormAshmem, whose destructor closes it, also when a later step fails; the mapping is gone on
      every path. Shared memory of no bytes cannot be created. */
  method WriteToAshmem(kernel: Kernel, data: string) returns (ok: bool, fd: int)
    modifies kernel
    ensures old(kernel.faulted) ==> kernel.faulted
    ensures kernel.mapped == old(kernel.mapped)
    ensures fd < 0 ==> !ok && kernel.open == old(kernel.open)
    ensures fd >= 0 ==> fd !in old(kernel.open) && fd in kernel.open
    ensures fd >= 0 ==> kernel.open == old(kernel.open)[fd := kernel.open[fd]]
    ensures ok ==> kernel.open[fd] == data != "" && kernel.faulted == old(kernel.faulted)
    ensures !kernel.faulted ==> (ok <==> data != "")
  {
    ok := false;
    fd := kernel.AshmemCreate(|data|);
    if fd < 0 {
      return;
    }
    var ptr := kernel.Mmap(fd);
    if ptr < 0 {
      return;
    }
    ok := kernel.CopyIn(ptr, data);
    kernel.Munmap(ptr);
    assert kernel.mapped == old(kernel.mapped);
  }
}
