/** Marshalling a FormProviderData whose unchecked writes may be lost: what is then on the wire,
    and when a receiver still reads what was sent. */
module LostWrites {
  import opened SortedMaps
  import opened JsonValues
  import opened JsonParser
  import opened JsonDepth
  import opened Ipc
  import opened SharedMemory
  import opened ProviderCodec

  // Marshalling does not look at the result of these writes; true means that one landed.
  datatype ImageWrites = ImageWrites(size: bool, name: bool)

  datatype DataWrites = DataWrites(length: bool, state: bool, count: bool, images: seq<ImageWrites>)

  function WireText(s: string, length: bool): seq<Token>
  {
    Landed(length, EncText(s)[0]) + [EncText(s)[1]]
  }

  function WireImage(e: Entry<string>, w: ImageWrites): seq<Token>
  {
    [Int32(1), Ashmem(e.val)] + Landed(w.size, Int32(RAW_ENTRY_SIZE)) + Landed(w.name, Utf16(e.key))
  }

  function WireImages(es: seq<Entry<string>>, ws: seq<ImageWrites>): seq<Token>
    requires |es| == |ws|
  {
    if es == [] then [] else WireImage(es[0], ws[0]) + WireImages(es[1..], ws[1..])
  }

  predicate Describes(w: DataWrites, d: Data)
  {
    d.imageState == IMAGE_DATA_STATE_ADDED ==> |w.images| == |d.raw|
  }

  function WireImageSection(d: Data, w: DataWrites): seq<Token>
    requires Describes(w, d)
  {
    Landed(w.state, Int32(d.imageState))
    + if d.imageState != IMAGE_DATA_STATE_ADDED then []
      else Landed(w.count, Int32(ToInt32(|d.raw|))) + WireImages(d.raw, w.images)
  }

  /** What is on the wire after a successful Marshalling in which the writes `w` landed. */
  function WireData(d: Data, w: DataWrites): seq<Token>
    requires Describes(w, d)
  {
    WireText(Dump(Normal(d.json)), w.length) + WireImageSection(d, w)
  }

  predicate AllImagesLanded(ws: seq<ImageWrites>) { forall i :: 0 <= i < |ws| ==> ws[i].size && ws[i].name }

  predicate AllLanded(d: Data, w: DataWrites)
  {
    && w.length && w.state
    && (d.imageState == IMAGE_DATA_STATE_ADDED ==> w.count && AllImagesLanded(w.images))
  }

  lemma WireImageWhole(e: Entry<string>, w: ImageWrites)
    ensures |WireImage(e, w)| <= |EncImage(e)|
    ensures w.size && w.name ==> WireImage(e, w) == EncImage(e)
    ensures !(w.size && w.name) ==> |WireImage(e, w)| < |EncImage(e)|
  {
  }

  lemma {:induction false} WireImagesWhole(es: seq<Entry<string>>, ws: seq<ImageWrites>)
    requires |es| == |ws|
    ensures |WireImages(es, ws)| <= |EncImages(es)|
    ensures WireImages(es, ws) == EncImages(es) <==> AllImagesLanded(ws)
    ensures |WireImages(es, ws)| == |EncImages(es)| ==> AllImagesLanded(ws)
    decreases |es|
  {
    hide WireImage, EncImage;
    if es == [] {
    } else {
      WireImagesWhole(es[1..], ws[1..]);
      WireImageWhole(es[0], ws[0]);
      assert AllImagesLanded(ws) <==> ws[0].size && ws[0].name && AllImagesLanded(ws[1..]);
    }
  }

  /** The wire form is complete exactly when no unchecked write was lost. */
  lemma WireDataWhole(d: Data, w: DataWrites)
    requires Describes(w, d)
    ensures WireData(d, w) == EncData(d) <==> AllLanded(d, w)
    ensures |WireData(d, w)| <= |EncData(d)| && (|WireData(d, w)| == |EncData(d)| ==> AllLanded(d, w))
  {
    var text := Dump(Normal(d.json));
    if d.imageState == IMAGE_DATA_STATE_ADDED { WireImagesWhole(d.raw, w.images); }
    assert |EncData(d)| - |WireData(d, w)|
        == |EncText(text)| - |WireText(text, w.length)| + |EncImageSection(d)| - |WireImageSection(d, w)|;
  }

  lemma NoImagesYet(before: seq<Token>, count: seq<Token>)
    ensures before + count == before + (count + WireImages([], [])) && AllImagesLanded([])
  {
    assert count + [] == count;
  }

  lemma {:induction false} WireImagesAppend(
      es: seq<Entry<string>>, ws: seq<ImageWrites>, e: Entry<string>, w: ImageWrites)
    requires |es| == |ws|
    ensures WireImages(es + [e], ws + [w]) == WireImages(es, ws) + WireImage(e, w)
    decreases |es|
  {
    hide WireImage;
    if es == [] {
      assert [e][1..] == [] && [w][1..] == [] && WireImages([], []) == [];
    } else {
      assert (es + [e])[1..] == es[1..] + [e] && (ws + [w])[1..] == ws[1..] + [w];
      WireImagesAppend(es[1..], ws[1..], e, w);
    }
  }

  lemma OneImageMore(before: seq<Token>, count: seq<Token>,
      es: seq<Entry<string>>, ws: seq<ImageWrites>, e: Entry<string>, w: ImageWrites)
    requires |es| == |ws|
    ensures (before + (count + WireImages(es, ws))) + WireImage(e, w)
         == before + (count + WireImages(es + [e], ws + [w]))
    ensures AllImagesLanded(ws + [w]) <==> AllImagesLanded(ws) && w.size && w.name
  {
    hide WireImages, WireImage;
    WireImagesAppend(es, ws, e, w);
    assert forall i :: 0 <= i < |ws| ==> (ws + [w])[i] == ws[i];
    assert (ws + [w])[|ws|] == w;
  }

  lemma SameAppended<T>(p: seq<T>, a: seq<T>, b: seq<T>)
    ensures p + a == p + b <==> a == b
  {
    assert (p + a)[|p|..] == a && (p + b)[|p|..] == b;
  }

  /** The pieces in the order in which Marshalling appends them. */
  lemma WireAssembled(before: seq<Token>, d: Data, w: DataWrites)
    requires Describes(w, d)
    ensures
      var start := (before + WireText(Dump(Normal(d.json)), w.length)) + Landed(w.state, Int32(d.imageState));
      before + WireData(d, w) ==
        if d.imageState != IMAGE_DATA_STATE_ADDED then start
        else start + (Landed(w.count, Int32(ToInt32(|d.raw|))) + WireImages(d.raw, w.images))
  {
    hide WireText, WireImages, Landed, ToInt32, Dump, Normal;
  }


  // ---- a reading that never recovers ----

  /** Behind a value that is not an int32 no image is found. */
  lemma NoImageHere(ts: seq<Token>, n: int, done: seq<Entry<SharedImage>>)
    requires n > 0 && ts != [] && !ts[0].Int32?
    ensures DecImages(DEAD_END, ts, n, done) == None
  {
  }

  lemma OneImageTaken(ts: seq<Token>)
    ensures var (image, r) := TakeImage(DEAD_END, ts);
            image.Some? ==> !InPieces(ts) && (|r| <= |ts| || InPieces(r))
  {
  }

  /** Reading images never gives back what it has taken. */
  lemma {:induction false} DeadEndRest(ts: seq<Token>, n: int, done: seq<Entry<SharedImage>>)
    ensures var r := DecImages(DEAD_END, ts, n, done);
            r.Some? ==> |r.value.1| <= |ts| || InPieces(r.value.1)
    decreases n
  {
    hide TakeImage;
    if n <= 0 {
    } else {
      OneImageTaken(ts);
      match TakeImage(DEAD_END, ts)
      case (None, _) =>
      case (Some(e), r) =>
        DeadEndRest(r, n - 1, Put(done, e.key, e.val));
        if InPieces(r) && n > 1 { NoImageHere(r, n - 1, Put(done, e.key, e.val)); }
    }
  }

  /** A section that is read where none was written takes something away. */
  lemma SectionTakes(k: seq<Token>, init: Data)
    requires k != []
    ensures var r := DecImageSection(DEAD_END, k, init); r.Some? ==> r.value.1 != k
  {
    var r := DecImageSection(DEAD_END, k, init);
    var (state, k1) := TakeInt32(DEAD_END, k);
    if k[0].Int32? && state == IMAGE_DATA_STATE_ADDED && r.Some? {
      CountTakes(k1);
      var (n, k2) := TakeInt32(DEAD_END, k1);
      DeadEndRest(k2, n, init.shared);
    }
  }

  lemma CountTakes(k: seq<Token>)
    ensures var (n, r) := TakeInt32(DEAD_END, k);
            if k == [] then (n, r) == (0, k) else if k[0].Int32? then |r| < |k| else n == 0 && r == [Torn] + k
  {
  }

  lemma NextImageStarts(es: seq<Entry<string>>, ws: seq<ImageWrites>, k: seq<Token>)
    requires |es| == |ws| && es != []
    ensures var k1 := WireImages(es, ws) + k;
            |k1| >= 2 && k1[0] == Int32(1) && k1[1] == Ashmem(es[0].val)
  {
  }

  /** What follows cannot be taken for the name of an image. */
  predicate NoName(k: seq<Token>) { |k| >= 2 && !k[0].Utf16? && !k[1].Utf16? }

  /** An image whose size or name is missing: it has no name for the reader, unless more of the wire
      is used up than the image has. */
  lemma DamagedImage(e: Entry<string>, w: ImageWrites, k: seq<Token>)
    requires !(w.size && w.name)
    ensures var (image, r) := TakeImage(DEAD_END, WireImage(e, w) + k);
            && image.Some? && (r == k || NoName(k) ==> image.value.key == "")
            && (StartsImage(k) ==> InPieces(r))
  {
    var ts := WireImage(e, w) + k;
    var rest := Landed(w.size, Int32(RAW_ENTRY_SIZE)) + Landed(w.name, Utf16(e.key)) + k;
    assert ts[1..][1..] == rest;
    if w.size {
      assert rest[1..] == k;
    } else if w.name {
      assert rest[0].Utf16?;
    } else {
      assert rest == k;
    }
  }

  predicate StartsImage(k: seq<Token>) { |k| >= 2 && k[0].Int32? && k[1].Ashmem? }

  lemma TakeOne(ts: seq<Token>, n: int, done: seq<Entry<SharedImage>>)
    requires n > 0 && TakeImage(DEAD_END, ts).0.Some?
    ensures var (image, r) := TakeImage(DEAD_END, ts);
            var e := image.value;
            DecImages(DEAD_END, ts, n, done) == DecImages(DEAD_END, r, n - 1, Put(done, e.key, e.val))
  {
  }

  lemma NothingToRead(m: Misread, ts: seq<Token>, n: int, done: seq<Entry<SharedImage>>)
    requires n <= 0
    ensures DecImages(m, ts, n, done) == Some((done, ts))
  {
  }

  /** The first image is damaged: nothing is read, or the last name never arrives. */
  lemma DamagedFirst(es: seq<Entry<string>>, ws: seq<ImageWrites>, k: seq<Token>, done: seq<Entry<SharedImage>>)
    requires |es| == |ws| && es != [] && !(ws[0].size && ws[0].name)
    requires Sorted(done) && es[|es| - 1].key != ""
    ensures var r := DecImages(DEAD_END, WireImages(es, ws) + k, |es|, done);
            var last := es[|es| - 1].key;
            r.Some? && (r.value.1 == k || NoName(k)) ==> Lookup(r.value.0, last) == Lookup(done, last)
  {
    hide TakeImage, WireImage, WireImages, Put, Lookup, DecImages, Sorted;
    var k1 := WireImages(es[1..], ws[1..]) + k;
    var ts := WireImages(es, ws) + k;
    FirstImageApart(es, ws, k);
    DamagedImage(es[0], ws[0], k1);
    TakeOne(ts, |es|, done);
    var (image, r) := TakeImage(DEAD_END, ts);
    var next := Put(done, image.value.key, image.value.val);
    if |es| > 1 {
      NextImageStarts(es[1..], ws[1..], k);
      NoImageHere(r, |es| - 1, next);
    } else {
      NothingToRead(DEAD_END, r, 0, next);
      assert k1 == k;
      PutLookup(done, image.value.key, image.value.val, es[0].key);
    }
  }

  lemma FirstImageApart(es: seq<Entry<string>>, ws: seq<ImageWrites>, k: seq<Token>)
    requires |es| == |ws| && es != []
    ensures WireImages(es, ws) + k == WireImage(es[0], ws[0]) + (WireImages(es[1..], ws[1..]) + k)
    ensures |es| == 1 ==> WireImages(es[1..], ws[1..]) + k == k
  {
    hide WireImage;
    assert |es| == 1 ==> WireImages(es[1..], ws[1..]) == [];
  }

  /** Images of which a size or a name is missing: nothing is read, or the cursor is not at what
      follows, or the last name never arrives. */
  lemma {:induction false} DeadEndImages(
      es: seq<Entry<string>>, ws: seq<ImageWrites>, k: seq<Token>, done: seq<Entry<SharedImage>>)
    requires |es| == |ws| && !AllImagesLanded(ws)
    requires Sorted(done) && Sorted(es) && es[|es| - 1].key != ""
    ensures var r := DecImages(DEAD_END, WireImages(es, ws) + k, |es|, done);
            var last := es[|es| - 1].key;
            r.Some? && (r.value.1 == k || NoName(k)) ==> Lookup(r.value.0, last) == Lookup(done, last)
    decreases es
  {
    hide TakeImage, WireImage, WireImages, EncImage, Put, Lookup, DecImages, Less;
    if !(ws[0].size && ws[0].name) {
      DamagedFirst(es, ws, k, done);
    } else {
      var (e, v) := (es[0], SharedImage(es[0].val, RAW_ENTRY_SIZE));
      assert exists i :: 0 < i < |ws| && !(ws[i].size && ws[i].name);
      FirstImageApart(es, ws, k);
      WireImageWhole(e, ws[0]);
      OneImageRoundTrip(DEAD_END, e, WireImages(es[1..], ws[1..]) + k, |es|, done);
      PutSorted(done, e.key, v);
      assert es[1..][|es| - 2] == es[|es| - 1] && Less(e.key, es[|es| - 1].key);
      LessTotal(e.key, e.key);
      PutLookup(done, e.key, v, es[|es| - 1].key);
      var i :| 0 < i < |ws| && !(ws[i].size && ws[i].name);
      assert ws[1..][i - 1] == ws[i];
      DeadEndImages(es[1..], ws[1..], k, Put(done, e.key, v));
    }
  }

  lemma DamagedImagesDiffer(es: seq<Entry<string>>, ws: seq<ImageWrites>, k: seq<Token>)
    requires |es| == |ws| && !AllImagesLanded(ws) && ProperRaw(es)
    ensures var r := DecImages(DEAD_END, WireImages(es, ws) + k, |es|, []);
            r.Some? && (r.value.1 == k || NoName(k)) ==> r.value.0 != Received(es)
  {
    hide DecImages, WireImages, Received;
    var last := |es| - 1;
    assert es[last] in es;
    DeadEndImages(es, ws, k, []);
    AbsentAbove<SharedImage>([], es[last].key);
    ReceivedSorted(es);
    PresentInSorted(Received(es), last);
  }

  // ---- which losses do no harm ----

  /** Only a default value at the very end is missing: the state, or the count behind ADDED. */
  predicate LastDefaultLost(d: Data, w: DataWrites)
  {
    && w.length
    && if d.imageState != IMAGE_DATA_STATE_ADDED then !w.state && d.imageState == IMAGE_DATA_STATE_NO_OPERATION
       else w.state && !w.count && d.raw == []
  }

  /** The losses of a whole successful Marshalling that leave every receiver with what was sent. */
  predicate Harmless(d: Data, w: DataWrites, k: seq<Token>)
  {
    AllLanded(d, w) || (k == [] && LastDefaultLost(d, w))
  }

  lemma EndSupplied(m: Misread, d: Data, w: DataWrites, j: Json)
    requires Describes(w, d) && LastDefaultLost(d, w)
    ensures DecImageSection(m, WireImageSection(d, w) + [], FRESH.(json := j)) == Some((Arrival(d).(json := j), []))
  {
  }

  /** The state is lost and with it the whole section: what follows is read for it. */
  lemma SectionGone(d: Data, w: DataWrites, j: Json, k: seq<Token>)
    requires Describes(w, d) && WireImageSection(d, w) == []
    requires !(k == [] && d.imageState == IMAGE_DATA_STATE_NO_OPERATION)
    ensures DecImageSection(DEAD_END, WireImageSection(d, w) + k, FRESH.(json := j))
         != Some((Arrival(d).(json := j), k))
  {
    hide DecImageSection, WireImageSection;
    assert WireImageSection(d, w) + k == k;
    if k == [] {
      NothingHere(FRESH.(json := j));
    } else {
      SectionTakes(k, FRESH.(json := j));
    }
  }

  /** The state is lost and something else is read for it. */
  lemma StateMistaken(d: Data, w: DataWrites, j: Json, k: seq<Token>)
    requires Describes(w, d) && !w.state && d.imageState == IMAGE_DATA_STATE_ADDED
    requires (w.count || d.raw != []) && |d.raw| <= INT32_MAX
    ensures var r := DecImageSection(DEAD_END, WireImageSection(d, w) + k, FRESH.(json := j));
            r.Some? ==> r.value.0 != Arrival(d).(json := j)
  {
    hide DecImageSection, WireImages;
    var init := FRESH.(json := j);
    var images := WireImages(d.raw, w.images) + k;
    if w.count {
      assert WireImageSection(d, w) + k == [Int32(|d.raw|)] + images;
      CountForState(d.raw, w.images, init, k);
    } else {
      assert WireImageSection(d, w) + k == images;
      NextImageStarts(d.raw, w.images, k);
      ImageForState(images, init);
    }
  }

  lemma StateLost(d: Data, w: DataWrites, j: Json, k: seq<Token>)
    requires Describes(w, d) && !w.state && !(k == [] && d.imageState == IMAGE_DATA_STATE_NO_OPERATION)
    requires d.imageState == IMAGE_DATA_STATE_ADDED ==> |d.raw| <= INT32_MAX
    ensures DecImageSection(DEAD_END, WireImageSection(d, w) + k, FRESH.(json := j))
         != Some((Arrival(d).(json := j), k))
  {
    hide DecImageSection;
    if d.imageState == IMAGE_DATA_STATE_ADDED && (w.count || d.raw != []) {
      StateMistaken(d, w, j, k);
    } else {
      SectionGone(d, w, j, k);
    }
  }

  lemma NothingHere(init: Data)
    ensures DecImageSection(DEAD_END, [], init) == Some((init.(imageState := IMAGE_DATA_STATE_NO_OPERATION), []))
  {
  }

  /** The count is taken for the state. */
  lemma CountForState(es: seq<Entry<string>>, ws: seq<ImageWrites>, init: Data, k: seq<Token>)
    requires |es| == |ws| <= INT32_MAX
    ensures var r := DecImageSection(DEAD_END, [Int32(|es|)] + (WireImages(es, ws) + k), init);
            r.Some? ==> r.value.0.imageState != IMAGE_DATA_STATE_ADDED
  {
    hide DecImages, WireImages;
    var ts := WireImages(es, ws) + k;
    assert ([Int32(|es|)] + ts)[1..] == ts;
    if |es| == 1 {
      NextImageStarts(es, ws, k);
      NoImageHere(ts[1..], 1, init.shared);
    }
  }

  /** The flag of the first image is taken for the state. */
  lemma ImageForState(ts: seq<Token>, init: Data)
    requires |ts| >= 2 && ts[0] == Int32(1) && ts[1].Ashmem?
    ensures var r := DecImageSection(DEAD_END, ts, init); r.Some? && r.value.0.shared == init.shared
  {
  }

  /** Behind ADDED the count is lost: the flag of the first image is read for it, or what follows. */
  lemma CountLost(d: Data, w: DataWrites, j: Json, k: seq<Token>)
    requires Describes(w, d) && w.state && !w.count && d.imageState == IMAGE_DATA_STATE_ADDED
    requires d.raw != [] || k != []
    ensures DecImageSection(DEAD_END, WireImageSection(d, w) + k, FRESH.(json := j))
         != Some((Arrival(d).(json := j), k))
  {
    hide DecImages, WireImages, DecImageSection, Received;
    var images := WireImages(d.raw, w.images) + k;
    assert WireImageSection(d, w) + k == [Int32(IMAGE_DATA_STATE_ADDED)] + images;
    if d.raw == [] {
      NoImagesWritten(w.images);
      assert images == k;
      CountMistaken(k, FRESH.(json := j));
    } else {
      NextImageStarts(d.raw, w.images, k);
      ImageForCount(images, FRESH.(json := j));
    }
  }

  lemma NoImagesWritten(ws: seq<ImageWrites>)
    requires ws == []
    ensures WireImages([], ws) == []
  {
  }

  lemma CountMistaken(k: seq<Token>, init: Data)
    requires k != []
    ensures var r := DecImageSection(DEAD_END, [Int32(IMAGE_DATA_STATE_ADDED)] + k, init); r.Some? ==> r.value.1 != k
  {
    hide DecImages;
    assert ([Int32(IMAGE_DATA_STATE_ADDED)] + k)[1..] == k;
    CountTakes(k);
    var (n, r) := TakeInt32(DEAD_END, k);
    DeadEndRest(r, n, init.shared);
    if n <= 0 { NothingToRead(DEAD_END, r, n, init.shared); }
  }

  lemma ImageForCount(images: seq<Token>, init: Data)
    requires |images| >= 2 && images[0] == Int32(1) && images[1].Ashmem?
    ensures DecImageSection(DEAD_END, [Int32(IMAGE_DATA_STATE_ADDED)] + images, init) == None
  {
  }

  lemma ImagesLost(d: Data, w: DataWrites, j: Json, k: seq<Token>)
    requires Describes(w, d) && w.state && w.count && d.imageState == IMAGE_DATA_STATE_ADDED
    requires ProperRaw(d.raw) && |d.raw| <= INT32_MAX && !AllImagesLanded(w.images)
    ensures var r := DecImageSection(DEAD_END, WireImageSection(d, w) + k, FRESH.(json := j));
            r.Some? && (r.value.1 == k || NoName(k)) ==> r.value.0 != Arrival(d).(json := j)
  {
    hide DecImages, WireImages, Received;
    var images := WireImages(d.raw, w.images) + k;
    var ts := WireImageSection(d, w) + k;
    assert ts[1..] == [Int32(|d.raw|)] + images && ts[1..][1..] == images;
    DamagedImagesDiffer(d.raw, w.images, k);
  }

  /** A loss in the image section that is not harmless spoils what a reader in a dead end gets. */
  lemma SectionLost(d: Data, w: DataWrites, j: Json, k: seq<Token>)
    requires Describes(w, d) && ProperRaw(d.raw) && w.length && !Harmless(d, w, k)
    requires d.imageState == IMAGE_DATA_STATE_ADDED ==> |d.raw| <= READ_PARCEL_MAX_IMAGE_DATA_NUM_SIZE
    ensures DecImageSection(DEAD_END, WireImageSection(d, w) + k, FRESH.(json := j))
         != Some((Arrival(d).(json := j), k))
  {
    hide DecImageSection, ProperRaw, AllImagesLanded;
    if !w.state {
      StateLost(d, w, j, k);
    } else if !w.count {
      CountLost(d, w, j, k);
    } else {
      ImagesLost(d, w, j, k);
    }
  }

  lemma LengthLost(d: Data, w: DataWrites, k: seq<Token>)
    requires Describes(w, d) && !w.length
    ensures DecData(DEAD_END, WireData(d, w) + k, FRESH) == None
  {
  }

  /** The text arrives, and the rest of what is read is the image section. */
  lemma LengthLanded(m: Misread, d: Data, w: DataWrites, k: seq<Token>)
    requires Representable(d) && Readable(d) && Describes(w, d) && w.length
    ensures DecData(m, WireData(d, w) + k, FRESH)
         == DecImageSection(m, WireImageSection(d, w) + k, FRESH.(json := Normal(d.json)))
  {
    hide DecText, SafeParse, Dump, DecImageSection, WireImageSection, Nesting;
    var text := Dump(Normal(d.json));
    var k1 := WireImageSection(d, w) + k;
    assert WireData(d, w) + k == EncText(text) + k1;
    TextRoundTrip(m, text, MAX_BUFFER_SIZE, k1);
    DumpArrives(Normal(d.json));
  }

  lemma HarmlessArrives(m: Misread, d: Data, w: DataWrites, k: seq<Token>)
    requires Representable(d) && Readable(d) && Describes(w, d) && Harmless(d, w, k)
    ensures DecData(m, WireData(d, w) + k, FRESH) == Some((Arrival(d), k))
  {
    hide DecData, WireData, DecImageSection, WireImageSection, Representable, Readable;
    if AllLanded(d, w) {
      WireDataWhole(d, w);
      DataRoundTrip(m, d, k);
    } else {
      LengthLanded(m, d, w, k);
      EndSupplied(m, d, w, Normal(d.json));
    }
  }

  lemma HarmfulDiffers(d: Data, w: DataWrites, k: seq<Token>)
    requires Representable(d) && Readable(d) && Describes(w, d) && !Harmless(d, w, k)
    ensures DecData(DEAD_END, WireData(d, w) + k, FRESH) != Some((Arrival(d), k))
  {
    hide DecData, WireData, DecImageSection, WireImageSection;
    if w.length {
      LengthLanded(DEAD_END, d, w, k);
      SectionLost(d, w, Normal(d.json), k);
    } else {
      LengthLost(d, w, k);
    }
  }

  /** After a Marshalling that reported success, whatever unchecked writes were lost on the way:
      the receiver reads what was sent, with the cursor at what follows, no matter what misread
      bytes yield, under exactly this condition on the losses. */
  lemma WireRoundTrip(d: Data, w: DataWrites, k: seq<Token>)
    requires Representable(d) && Readable(d) && Describes(w, d)
    ensures (forall m: Misread :: DecData(m, WireData(d, w) + k, FRESH) == Some((Arrival(d), k))) <==> Harmless(d, w, k)
  {
    hide DecData, WireData, Representable, Readable, Harmless;
    if Harmless(d, w, k) {
      forall m: Misread ensures DecData(m, WireData(d, w) + k, FRESH) == Some((Arrival(d), k)) {
        HarmlessArrives(m, d, w, k);
      }
    } else {
      HarmfulDiffers(d, w, k);
    }
  }

  // ---- the image state alone ----

  /** What is left when only the write of the image state is lost. */
  function WithoutState(d: Data): seq<Token>
  {
    EncText(Dump(Normal(d.json))) + EncImageSection(d)[1..]
  }

  predicate OnlyStateLost(d: Data, w: DataWrites)
  {
    !w.state && AllLanded(d, w.(state := true))
  }

  lemma WireWithoutState(d: Data, w: DataWrites)
    requires Describes(w, d) && OnlyStateLost(d, w)
    ensures WireData(d, w) == WithoutState(d)
  {
    if d.imageState == IMAGE_DATA_STATE_ADDED { WireImagesWhole(d.raw, w.images); }
    assert WireImageSection(d, w) == EncImageSection(d)[1..];
  }

  /** The state of an object with images is lost: the receiver takes the image count for it and
      reads an object without images, with its cursor too early, unless there is exactly one
      image; then it takes that image's flag for the count. Without images it takes whatever
      follows for the state. */
  lemma LostState(m: Misread, d: Data, k: seq<Token>)
    requires Representable(d) && Readable(d)
    ensures var r := DecData(m, WithoutState(d) + k, FRESH);
            var bare := FRESH.(json := Normal(d.json));
            if d.imageState != IMAGE_DATA_STATE_ADDED then r == DecImageSection(m, k, bare)
            else if |d.raw| != 1 then r == Some((bare.(imageState := |d.raw|), EncImages(d.raw) + k))
            else
              match DecImages(m, EncImages(d.raw)[1..] + k, 1, [])
              case None => r == None
              case Some((images, rest)) =>
                r == Some((bare.(imageState := IMAGE_DATA_STATE_ADDED, shared := images), rest))
  {
    hide DecText, SafeParse, Dump, DecImages, EncText, Nesting;
    var j := Normal(d.json);
    var k1 := EncImageSection(d)[1..] + k;
    assert WithoutState(d) + k == EncText(Dump(j)) + k1;
    TextRoundTrip(m, Dump(j), MAX_BUFFER_SIZE, k1);
    DumpArrives(j);
    if d.imageState == IMAGE_DATA_STATE_ADDED {
      var images := EncImages(d.raw) + k;
      assert k1 == [Int32(|d.raw|)] + images && k1[1..] == images;
      if |d.raw| == 1 { assert images[0] == Int32(1) && images[1..] == EncImages(d.raw)[1..] + k; }
    } else {
      assert k1 == k;
    }
  }

  /** With images, the loss is certain to go unnoticed exactly when there is not exactly one of
      them, and then what arrives is wrong. Without images it is certain to have no consequence
      exactly when the state was the default and nothing follows. */
  lemma LostStateUnnoticed(d: Data, k: seq<Token>)
    requires Representable(d) && Readable(d)
    ensures d.imageState == IMAGE_DATA_STATE_ADDED ==>
      && ((forall m: Misread :: DecData(m, WithoutState(d) + k, FRESH).Some?) <==> |d.raw| != 1)
      && (|d.raw| != 1 ==> forall m: Misread :: DecData(m, WithoutState(d) + k, FRESH).value.0 != Arrival(d))
    ensures (forall m: Misread :: DecData(m, WithoutState(d) + k, FRESH) == Some((Arrival(d), k)))
       <==> d.imageState == IMAGE_DATA_STATE_NO_OPERATION && k == []
  {
    hide DecData, WithoutState, DecImages, DecImageSection, EncImages, Representable, Readable;
    var w := DataWrites(true, false, true, seq(|d.raw|, _ => ImageWrites(true, true)));
    WireWithoutState(d, w);
    WireRoundTrip(d, w, k);
    forall m: Misread
      ensures d.imageState == IMAGE_DATA_STATE_ADDED && |d.raw| != 1 ==>
        DecData(m, WithoutState(d) + k, FRESH).Some? && DecData(m, WithoutState(d) + k, FRESH).value.0 != Arrival(d)
    {
      LostState(m, d, k);
    }
    if |d.raw| == 1 {
      LostState(DEAD_END, d, k);
      ImageBehindFlag(d.raw, k);
    }
  }

  lemma ImageBehindFlag(es: seq<Entry<string>>, k: seq<Token>)
    requires es != []
    ensures DecImages(DEAD_END, EncImages(es)[1..] + k, 1, []) == None
  {
  }

  /** The smallest example: an object in state ADDED without images arrives as one that announces
      no operation. */
  lemma LostStateGoesUnnoticed(m: Misread, k: seq<Token>)
    ensures var d := FRESH.(imageState := IMAGE_DATA_STATE_ADDED);
            var lost := EncData(d)[..2] + EncData(d)[3..];
            && Representable(d) && Readable(d)
            && DecData(m, lost + k, FRESH) == Some((Arrival(d).(imageState := IMAGE_DATA_STATE_NO_OPERATION), k))
  {
    var d := FRESH.(imageState := IMAGE_DATA_STATE_ADDED);
    assert Dump(Normal(d.json)) == "{}";
    assert EncData(d)[..2] + EncData(d)[3..] == WithoutState(d);
    LostState(m, d, k);
    assert EncImages([]) + k == k;
  }
}
