/** Marshalling a FormJsInfo whose unchecked writes may be lost: what is then on the wire, and when
    a receiver still reads what was sent. */
module LostInfoWrites {
  import opened SortedMaps
  import opened Ipc
  import opened SharedMemory
  import opened ProviderCodec
  import opened LostWrites
  import opened JsonValues
  import opened JsInfoCodec

  // Which of the writes whose result Marshalling does not look at landed.
  datatype InfoWrites = InfoWrites(formData: bool, provider: DataWrites, keys: bool, values: bool)

  function WirePkgNames(es: seq<Entry<string>>, w: InfoWrites): seq<Token>
  {
    Landed(w.keys, Strings(Keys(es))) + Landed(w.values, Strings(Vals(es)))
  }

  function WireTail(x: JsInfo, w: InfoWrites): seq<Token>
    requires Describes(w.provider, x.provider)
  {
    ([Int32(1)] + WireData(x.provider, w.provider))
    + (EncOuterImages(x.provider) + WirePkgNames(x.modulePkgNameMap, w))
  }

  /** What is on the wire after a successful Marshalling in which the writes `w` landed. */
  function WireInfo(x: JsInfo, w: InfoWrites): seq<Token>
    requires Describes(w.provider, x.provider)
  {
    EncIdentity(x.identity) + (WireText(x.formData, w.formData) + (EncDetails(x.details) + WireTail(x, w)))
  }

  predicate InfoAllLanded(x: JsInfo, w: InfoWrites)
  {
    w.formData && AllLanded(x.provider, w.provider) && w.keys && w.values
  }

  /** The wire form is complete exactly when no unchecked write was lost. */
  lemma WireInfoWhole(x: JsInfo, w: InfoWrites)
    requires Describes(w.provider, x.provider)
    ensures WireInfo(x, w) == EncInfo(x) <==> InfoAllLanded(x, w)
  {
    hide EncIdentity, EncDetails, EncData, WireData, EncOuterImages, Keys, Vals, AllLanded, ToInt32;
    WireDataWhole(x.provider, w.provider);
    assert |EncInfo(x)| - |WireInfo(x, w)|
        == (if w.formData then 0 else 1) + |EncData(x.provider)| - |WireData(x.provider, w.provider)|
           + (if w.keys then 0 else 1) + (if w.values then 0 else 1);
  }

  // ---- lost names ----

  /** A lost key or value vector is no error: everything else arrives, whatever is read for the
      names, and where nothing follows there are none. */
  lemma LostNamesGoUnnoticed(m: Misread, x: JsInfo, w: InfoWrites, k: seq<Token>)
    requires InfoRepresentable(x) && InfoWritable(x) && InfoReadable(x) && Describes(w.provider, x.provider)
    requires w.formData && AllLanded(x.provider, w.provider) && !(w.keys && w.values)
    ensures var r := DecInfo(m, WireInfo(x, w) + k, FRESH_INFO);
            && r.Some? && r.value.0.(modulePkgNameMap := []) == InfoArrival(x).(modulePkgNameMap := [])
            && (k == [] ==> r == Some((InfoArrival(x).(modulePkgNameMap := []), [])))
  {
    hide DecInfo, DecTail, WireInfo, WireTail, DecPkgNames, InfoRepresentable, InfoReadable, InfoWritable;
    var t := WirePkgNames(x.modulePkgNameMap, w) + k;
    WholeProvider(m, x, w, k);
    if k == [] { NamesEnd(m, x.modulePkgNameMap, w); }
  }

  /** The names end the wire, and one of their vectors is missing. */
  lemma NamesEnd(m: Misread, es: seq<Entry<string>>, w: InfoWrites)
    requires !(w.keys && w.values)
    ensures DecPkgNames(m, WirePkgNames(es, w) + [], []) == ([], [])
  {
  }

  /** The rest of an info once its provider data has been read. */
  function AfterProvider(m: Misread, x: JsInfo, provider: Data, ts: seq<Token>): (JsInfo, seq<Token>)
  {
    var (images, r1) := DecOuterImages(m, ts, []);
    var (names, r2) := DecPkgNames(m, r1, []);
    (InfoStart(x).(provider := provider, imageDataMap := images, modulePkgNameMap := names), r2)
  }

  lemma ProviderFollows(m: Misread, x: JsInfo, w: InfoWrites, k: seq<Token>)
    requires InfoWritable(x) && Describes(w.provider, x.provider) && w.formData
    ensures var k1 := WirePkgNames(x.modulePkgNameMap, w) + k;
            var k2 := EncOuterImages(x.provider) + k1;
            DecInfo(m, WireInfo(x, w) + k, FRESH_INFO) ==
              match DecData(m, WireData(x.provider, w.provider) + k2, FRESH)
              case None => None
              case Some((provider, r)) => Some(AfterProvider(m, x, provider, r))
  {
    hide EncIdentity, EncText, EncDetails, DecInfo, DecData, WireData, EncOuterImages, DecOuterImages, DecPkgNames;
    hide WirePkgNames, InfoWritable;
    var k1 := WirePkgNames(x.modulePkgNameMap, w) + k;
    var k2 := EncOuterImages(x.provider) + k1;
    var tail := WireTail(x, w) + k;
    assert WireText(x.formData, true) == EncText(x.formData) by { TextWhole(x.formData); }
    assert WireInfo(x, w) + k == EncIdentity(x.identity) + (EncText(x.formData) + (EncDetails(x.details) + tail));
    TailFollows(m, x, tail);
    assert tail[0] == Int32(1) && tail[1..] == WireData(x.provider, w.provider) + k2;
  }

  lemma TextWhole(s: string)
    ensures WireText(s, true) == EncText(s)
  {
  }

  lemma WholeProvider(m: Misread, x: JsInfo, w: InfoWrites, k: seq<Token>)
    requires InfoRepresentable(x) && InfoWritable(x) && InfoReadable(x) && Describes(w.provider, x.provider)
    requires w.formData && AllLanded(x.provider, w.provider)
    ensures var (names, r) := DecPkgNames(m, WirePkgNames(x.modulePkgNameMap, w) + k, []);
            DecInfo(m, WireInfo(x, w) + k, FRESH_INFO) == Some((InfoArrival(x).(modulePkgNameMap := names), r))
  {
    hide DecInfo, DecData, WireInfo, WireData, EncOuterImages, DecOuterImages, DecPkgNames, WirePkgNames;
    hide Readable, CountAgrees, Representable, InfoWritable, Describes, AllLanded;
    var k1 := WirePkgNames(x.modulePkgNameMap, w) + k;
    var k2 := EncOuterImages(x.provider) + k1;
    ProviderFollows(m, x, w, k);
    HarmlessArrives(m, x.provider, w.provider, k2);
    SharedSorted(x.provider);
    OuterImagesRoundTrip(m, x.provider, [], k1);
  }

  // ---- which losses do no harm ----

  /** Everything from the image section on is missing except the outer image section, which then
      serves for both, and it ends the wire. */
  predicate SectionShared(x: JsInfo, w: InfoWrites, k: seq<Token>)
    requires Describes(w.provider, x.provider)
  {
    && w.provider.length && WireImageSection(x.provider, w.provider) == []
    && (x.provider.imageState == IMAGE_DATA_STATE_ADDED ==> ToInt32(|x.provider.shared|) <= 0)
    && !w.keys && !w.values && x.modulePkgNameMap == [] && k == []
  }

  /** The losses of a whole successful Marshalling that leave every receiver with what was sent. */
  predicate InfoHarmless(x: JsInfo, w: InfoWrites, k: seq<Token>)
    requires Describes(w.provider, x.provider)
  {
    && w.formData
    && (|| (AllLanded(x.provider, w.provider) && ((w.keys && w.values) || (x.modulePkgNameMap == [] && k == [])))
        || SectionShared(x, w, k))
  }

  lemma FormDataLost(x: JsInfo, w: InfoWrites, k: seq<Token>)
    requires Describes(w.provider, x.provider) && !w.formData
    ensures DecInfo(DEAD_END, WireInfo(x, w) + k, FRESH_INFO) == None
  {
    hide EncIdentity, DecIdentity, WireTail, EncDetails, DecDetails, DecTail;
    var k1 := EncDetails(x.details) + (WireTail(x, w) + k);
    var k2 := WireText(x.formData, false) + k1;
    assert WireInfo(x, w) + k == EncIdentity(x.identity) + k2;
    IdentityRoundTrip(DEAD_END, x.identity, k2);
    assert DecText(DEAD_END, k2, MAX_FORM_DATA_BUFFER_SIZE) == Some(("", [Torn] + ([Torn] + k2)));
    DetailsInPieces([Torn] + ([Torn] + k2));
    NoTailInPieces(DecDetails(DEAD_END, [Torn] + ([Torn] + k2)).1);
  }

  lemma DetailsInPieces(ts: seq<Token>)
    requires InPieces(ts)
    ensures InPieces(DecDetails(DEAD_END, ts).1)
  {
  }

  lemma NoTailInPieces(ts: seq<Token>)
    requires InPieces(ts)
    ensures forall init :: DecTail(DEAD_END, ts, init) == None
  {
  }

  /** Names of which a vector is missing differ, unless there are none and nothing follows. */
  lemma NamesLost(es: seq<Entry<string>>, w: InfoWrites, k: seq<Token>)
    requires !(w.keys && w.values) && (es != [] || k != [])
    ensures DecPkgNames(DEAD_END, WirePkgNames(es, w) + k, []) != (es, k)
  {
    hide EmplaceAll;
    var t := WirePkgNames(es, w) + k;
    if w.keys || w.values {
      assert t[1..] == k;
    } else {
      assert t == k;
    }
  }

  // ---- damaged provider data in front of the outer image section ----

  /** An outer image section of an ADDED object. */
  predicate CountsAhead(k: seq<Token>) { |k| >= 2 && k[0] == Int32(IMAGE_DATA_STATE_ADDED) && k[1].Int32? }

  lemma {:induction false} ImagesStay(m: Misread, ts: seq<Token>, n: int, done: seq<Entry<SharedImage>>)
    requires n > 0 || done != []
    ensures var r := DecImages(m, ts, n, done); r.Some? ==> r.value.0 != []
    decreases n
  {
    hide TakeImage;
    if n <= 0 {
    } else {
      match TakeImage(m, ts)
      case (None, _) =>
      case (Some(e), r) => ImagesStay(m, r, n - 1, Put(done, e.key, e.val));
    }
  }

  /** The outer state is read for the lost count of no images. */
  lemma OuterStateForCount(d: Data, w: DataWrites, j: Json, k: seq<Token>)
    requires Describes(w, d) && d.imageState == IMAGE_DATA_STATE_ADDED && w.state && !w.count && d.raw == []
    requires CountsAhead(k)
    ensures var r := DecImageSection(DEAD_END, WireImageSection(d, w) + k, FRESH.(json := j));
            r.Some? ==> r.value.0.shared != []
  {
  }

  lemma SectionDamaged(d: Data, w: DataWrites, j: Json, k: seq<Token>)
    requires Describes(w, d) && d.imageState == IMAGE_DATA_STATE_ADDED && CountsAhead(k)
    requires ProperRaw(d.raw) && |d.raw| <= READ_PARCEL_MAX_IMAGE_DATA_NUM_SIZE
    requires w.length && !AllLanded(d, w) && WireImageSection(d, w) != []
    ensures var r := DecImageSection(DEAD_END, WireImageSection(d, w) + k, FRESH.(json := j));
            r.Some? ==> r.value.0 != Arrival(d).(json := j)
  {
    hide DecImageSection, ProperRaw, WireImages, AllImagesLanded;
    if !w.state {
      if d.raw == [] { NoImagesWritten(w.images); }
      StateMistaken(d, w, j, k);
    } else if w.count {
      ImagesLost(d, w, j, k);
    } else if d.raw == [] {
      OuterStateForCount(d, w, j, k);
    } else {
      var images := WireImages(d.raw, w.images) + k;
      assert WireImageSection(d, w) + k == [Int32(IMAGE_DATA_STATE_ADDED)] + images;
      NextImageStarts(d.raw, w.images, k);
      ImageForCount(images, FRESH.(json := j));
    }
  }

  /** The image section is missing altogether: the outer one is read for it, and is not there for
      its own reader any more. */
  lemma SectionBorrowed(m: Misread, d: Data, j: Json, k: seq<Token>)
    requires d.imageState == IMAGE_DATA_STATE_ADDED ==> d.raw == []
    requires CountAgrees(d)
    ensures var r := DecImageSection(m, EncOuterImages(d) + k, FRESH.(json := j));
            if d.imageState == IMAGE_DATA_STATE_ADDED && ToInt32(|d.shared|) > 0 then
              r.Some? ==> r.value.0.shared != []
            else
              r == Some((Arrival(d).(json := j), k))
  {
    hide DecImages, EncSharedAll, ToInt32;
    var ts := EncOuterImages(d) + k;
    if d.imageState != IMAGE_DATA_STATE_ADDED {
      assert ts[1..] == k;
    } else {
      var n := ToInt32(|d.shared|);
      var t := (if |d.shared| > IMAGE_DATA_THRESHOLD then [] else EncSharedAll(d.shared)) + k;
      assert ts[1..] == [Int32(n)] + t && ts[1..][1..] == t;
      if n > 0 {
        ImagesStay(m, t, n, []);
      } else {
        NoShared(d.shared);
        assert t == k;
        NothingToRead(m, t, n, []);
      }
    }
  }

  lemma NoShared(es: seq<Entry<SharedImage>>)
    requires ToInt32(|es|) <= 0
    ensures |es| > IMAGE_DATA_THRESHOLD || EncSharedAll(es) == []
  {
  }

  /** Where the outer section is missing, reading it and the names never ends at what follows. */
  lemma NothingForOuter(es: seq<Entry<string>>, w: InfoWrites, k: seq<Token>)
    requires w.keys || w.values || k != []
    ensures var t := WirePkgNames(es, w) + k;
            DecPkgNames(DEAD_END, DecOuterImages(DEAD_END, t, []).1, []).1 != k
  {
    var t := WirePkgNames(es, w) + k;
    OuterTakes(t);
    NamesTake(DecOuterImages(DEAD_END, t, []).1);
    if !w.keys && !w.values { assert t == k; }
  }

  lemma OuterTakes(k: seq<Token>)
    requires k != []
    ensures var r := DecOuterImages(DEAD_END, k, []).1;
            if k[0].Int32? then |r| < |k| || InPieces(r) else r == [Torn] + k
  {
    hide DecShared;
    if k[0].Int32? {
      var (n, r) := TakeInt32(DEAD_END, k[1..]);
      SharedRest(r, n, []);
    }
  }

  lemma {:induction false} SharedRest(ts: seq<Token>, n: int, done: seq<Entry<string>>)
    ensures var r := DecShared(DEAD_END, ts, n, done).1; |r| <= |ts| || InPieces(r)
    ensures InPieces(ts) ==> InPieces(DecShared(DEAD_END, ts, n, done).1)
    decreases n
  {
    hide TakeNamedAshmem;
    if n <= 0 {
    } else {
      NamedAshmemRest(ts);
      match TakeNamedAshmem(DEAD_END, ts)
      case (None, r) =>
      case (Some(e), r) => SharedRest(r, n - 1, Put(done, e.key, e.val));
    }
  }

  lemma NamedAshmemRest(ts: seq<Token>)
    ensures var r := TakeNamedAshmem(DEAD_END, ts).1; |r| <= |ts| || InPieces(r)
    ensures InPieces(ts) ==> InPieces(TakeNamedAshmem(DEAD_END, ts).1)
  {
  }

  lemma NamesTake(k: seq<Token>)
    ensures var r := DecPkgNames(DEAD_END, k, []).1; |r| <= |k| || InPieces(r)
    ensures InPieces(k) ==> DecPkgNames(DEAD_END, k, []).1 == [Torn] + k
  {
  }

  lemma ProviderDamaged(x: JsInfo, w: InfoWrites, k: seq<Token>)
    requires InfoRepresentable(x) && InfoWritable(x) && InfoReadable(x) && Describes(w.provider, x.provider)
    requires w.formData && !AllLanded(x.provider, w.provider)
    requires !(w.provider.length && WireImageSection(x.provider, w.provider) == [])
    ensures DecInfo(DEAD_END, WireInfo(x, w) + k, FRESH_INFO) != Some((InfoArrival(x), k))
  {
    hide DecInfo, DecData, WireInfo, WireData, EncOuterImages, DecImageSection, WireImageSection;
    hide Representable, Readable, CountAgrees, AllLanded, InfoWritable, Arrival;
    var (d, u) := (x.provider, w.provider);
    var k2 := EncOuterImages(d) + (WirePkgNames(x.modulePkgNameMap, w) + k);
    ProviderFollows(DEAD_END, x, w, k);
    if u.length {
      LengthLanded(DEAD_END, d, u, k2);
      MoreIsMissing(d, u);
      OuterCounts(d, WirePkgNames(x.modulePkgNameMap, w) + k);
      WithinLimit(d);
      SectionDamaged(d, u, Normal(d.json), k2);
      ArrivalOf(d);
    } else {
      LengthLost(d, u, k2);
    }
  }

  lemma MoreIsMissing(d: Data, w: DataWrites)
    requires Describes(w, d) && w.length && !AllLanded(d, w) && WireImageSection(d, w) != []
    ensures d.imageState == IMAGE_DATA_STATE_ADDED
  {
  }

  lemma OuterCounts(d: Data, k: seq<Token>)
    ensures d.imageState == IMAGE_DATA_STATE_ADDED ==> CountsAhead(EncOuterImages(d) + k)
  {
  }

  lemma WithinLimit(d: Data)
    requires Representable(d) && Readable(d)
    ensures ProperRaw(d.raw) && Sorted(d.shared)
    ensures d.imageState == IMAGE_DATA_STATE_ADDED ==> |d.raw| <= READ_PARCEL_MAX_IMAGE_DATA_NUM_SIZE
  {
  }

  lemma ArrivalOf(d: Data)
    ensures Arrival(d).(json := Normal(d.json)) == Arrival(d) && Arrival(d).json == Normal(d.json)
  {
  }

  /** The image section is missing altogether: what was sent is read only if the outer section
      could stand for it and nothing was to come after that. */
  lemma SectionMissing(m: Misread, x: JsInfo, w: InfoWrites, k: seq<Token>)
    requires InfoRepresentable(x) && InfoWritable(x) && InfoReadable(x) && Describes(w.provider, x.provider)
    requires w.formData && w.provider.length && WireImageSection(x.provider, w.provider) == []
    ensures var r := DecInfo(m, WireInfo(x, w) + k, FRESH_INFO);
            if x.provider.imageState == IMAGE_DATA_STATE_ADDED && ToInt32(|x.provider.shared|) > 0 then
              r.Some? ==> r.value.0 != InfoArrival(x)
            else
              r == Some(AfterProvider(m, x, Arrival(x.provider), WirePkgNames(x.modulePkgNameMap, w) + k))
  {
    hide DecInfo, DecData, WireInfo, WireData, EncOuterImages, DecImageSection;
    hide WirePkgNames, DecOuterImages, DecPkgNames;
    hide Representable, Readable, CountAgrees, InfoWritable, Arrival, ToInt32;
    var (d, u) := (x.provider, w.provider);
    var t := WirePkgNames(x.modulePkgNameMap, w) + k;
    var k2 := EncOuterImages(d) + t;
    ProviderFollows(m, x, w, k);
    LengthLanded(m, d, u, k2);
    assert WireImageSection(d, u) + k2 == k2;
    NoSectionNoImages(d, u);
    SectionBorrowed(m, d, Normal(d.json), t);
    ArrivalOf(d);
  }

  lemma NoSectionNoImages(d: Data, w: DataWrites)
    requires Describes(w, d) && WireImageSection(d, w) == []
    ensures d.imageState == IMAGE_DATA_STATE_ADDED ==> d.raw == [] && Arrival(d).shared == []
  {
  }

  lemma OuterGone(m: Misread, x: JsInfo, w: InfoWrites)
    requires Describes(w.provider, x.provider) && SectionShared(x, w, [])
    ensures AfterProvider(m, x, Arrival(x.provider), WirePkgNames(x.modulePkgNameMap, w) + []) == (InfoArrival(x), [])
  {
  }

  lemma InfoHarmlessArrives(m: Misread, x: JsInfo, w: InfoWrites, k: seq<Token>)
    requires InfoRepresentable(x) && InfoWritable(x) && InfoReadable(x) && Describes(w.provider, x.provider)
    requires InfoHarmless(x, w, k)
    ensures DecInfo(m, WireInfo(x, w) + k, FRESH_INFO) == Some((InfoArrival(x), k))
  {
    hide DecInfo, WireInfo, WirePkgNames, DecPkgNames, AfterProvider, WireImageSection;
    hide Representable, Readable, CountAgrees, AllLanded, InfoWritable, Arrival, ToInt32;
    if !AllLanded(x.provider, w.provider) {
      SectionMissing(m, x, w, k);
      OuterGone(m, x, w);
    } else if w.keys && w.values {
      WholeProvider(m, x, w, k);
      WholeNames(x.modulePkgNameMap, w);
      PkgNamesRoundTrip(m, x.modulePkgNameMap, k);
    } else {
      WholeProvider(m, x, w, k);
      NamesEnd(m, x.modulePkgNameMap, w);
    }
  }

  lemma WholeNames(es: seq<Entry<string>>, w: InfoWrites)
    requires w.keys && w.values
    ensures WirePkgNames(es, w) == EncPkgNames(es)
  {
  }

  lemma InfoHarmfulDiffers(x: JsInfo, w: InfoWrites, k: seq<Token>)
    requires InfoRepresentable(x) && InfoWritable(x) && InfoReadable(x) && Describes(w.provider, x.provider)
    requires !InfoHarmless(x, w, k)
    ensures DecInfo(DEAD_END, WireInfo(x, w) + k, FRESH_INFO) != Some((InfoArrival(x), k))
  {
    hide DecInfo, WireInfo, WirePkgNames, DecPkgNames, DecOuterImages, WireImageSection;
    hide InfoRepresentable, InfoReadable, AllLanded, InfoWritable, Arrival, ToInt32;
    if !w.formData {
      FormDataLost(x, w, k);
    } else if AllLanded(x.provider, w.provider) {
      WholeProvider(DEAD_END, x, w, k);
      NamesLost(x.modulePkgNameMap, w, k);
    } else if w.provider.length && WireImageSection(x.provider, w.provider) == [] {
      SectionMissing(DEAD_END, x, w, k);
      if w.keys || w.values || k != [] {
        NothingForOuter(x.modulePkgNameMap, w, k);
      } else {
        NoNamesRead(x.modulePkgNameMap, w);
      }
    } else {
      ProviderDamaged(x, w, k);
    }
  }

  lemma NoNamesRead(es: seq<Entry<string>>, w: InfoWrites)
    requires !w.keys && !w.values
    ensures DecPkgNames(DEAD_END, DecOuterImages(DEAD_END, WirePkgNames(es, w) + [], []).1, []).0 == []
  {
  }

  /** After a Marshalling that reported success, whatever unchecked writes were lost at either
      level: the receiver reads what was sent, with the cursor at what follows, no matter what
      misread bytes yield, under exactly this condition on the losses. */
  lemma WireInfoRoundTrip(x: JsInfo, w: InfoWrites, k: seq<Token>)
    requires InfoRepresentable(x) && InfoWritable(x) && InfoReadable(x) && Describes(w.provider, x.provider)
    ensures (forall m: Misread :: DecInfo(m, WireInfo(x, w) + k, FRESH_INFO) == Some((InfoArrival(x), k)))
       <==> InfoHarmless(x, w, k)
  {
    hide DecInfo, WireInfo, InfoRepresentable, InfoReadable, InfoWritable, InfoHarmless;
    if InfoHarmless(x, w, k) {
      forall m: Misread ensures DecInfo(m, WireInfo(x, w) + k, FRESH_INFO) == Some((InfoArrival(x), k)) {
        InfoHarmlessArrives(m, x, w, k);
      }
    } else {
      InfoHarmfulDiffers(x, w, k);
    }
  }
}
